# bnp_macs2 in Dafny

bnp_macs2 is a small MACS2-style ChIP-seq peak caller built on bionumpy. This
project models its core and proves properties of that model:

- **Treatment pileup.** Each read is extended to the fragment length in the
  direction of its strand. The number of fragments of the same chromosome over
  every position is counted.
- **Control lambda.** For each window size `w`, a window `[start - w//2,
  start + w//2)` is centred on every read start and clipped to its chromosome.
  The windows are piled up and divided by `w`. The control is the running
  elementwise maximum of the global read rate and these averages. It is then
  scaled by the fragment length.
- **Peak calling.** A p-value track is thresholded and turned into maximal runs
  of flagged positions. Runs whose gap is at most `max_gap` are merged. The
  merged intervals shorter than the minimum length are dropped.
- **narrowPeak records.** Records are named `peak_1`, `peak_2`, ... The score is
  the truncated ten times the maximum signal. The signal value is the mean, the
  p- and q-values are the maximum, the strand is '.' and the summit offset is 0.
- **Dedup.** The reads are sorted, and every read whose start equals its
  predecessor's start is dropped. The model keeps this comparison as written
  (`Macs2.DedupAsWritten`). The pipeline object uses the corrected comparison
  of chromosome and start (see Findings).
- **The console-script variant.** It has its own pipeline class, with window
  sizes 1000 and 10000 and no failure when nothing is flagged. It also has the
  empty-input guard and the derivation of `max_gap` from the median read length.
- **The one-function variant.** It folds `max` over the window averages from
  `n_reads / effective_genome_size`, and it thresholds the raw p-value.
- **The dense reference pileup of the test suite.** It is built in place on an
  array. The model proves that it agrees with the library pileup and proves the
  four-read test scenario.

Tracks are dense: one sequence of values per chromosome, in genome order
(`Geometry.Fits`). Values are exact (`int`, `nat`, `real`). The Poisson tail
(`logsf`, `pdtrc`), `log`, `log10` and the library's sort order are parameters
of the model. Modules follow the source files:

| file | module | source |
|---|---|---|
| common.dfy | `Common` | result and error types |
| geometry.dfy | `Geometry` | the genome (`Geometry`) and dense tracks |
| intervals.dfy | `Intervals` | reads, intervals, coverage |
| fragment_pileup.dfy | `FragmentPileup` | bnp_macs2/fragment_pileup.py |
| control_pileup.dfy | `ControlPileup` | bnp_macs2/control_pileup.py |
| runs.dfy | `BoolRuns` | `to_intervals` of a boolean track |
| merge.dfy | `MergeIntervals` | `merge_intervals` |
| call_peaks.dfy | `PeakCalling` | bnp_macs2/call_peaks.py |
| narrow_peak.dfy | `NarrowPeaks` | `get_narrow_peak` |
| macs2.dfy | `Macs2` | bnp_macs2/macs2.py |
| cli.dfy | `Cli` | bnp_macs2/cli.py |
| oneliner.dfy | `Oneliner` | bnp_macs2/oneliner.py |
| test_macs2.dfy | `TestMacs2` | tests/test_macs2.py |

## Model

| member | source | states |
|---|---|---|
| Intervals.CoverageAppend | bnp_macs2/fragment_pileup.py:10 | the coverage of two interval lists together is the sum of their coverages |
| Intervals.CoveragePermutation | bnp_macs2/fragment_pileup.py:10 | coverage depends only on the multiset of intervals, not on their order |
| Intervals.CoverageOneChrom | tests/test_macs2.py:22-31 | on intervals that all lie on `c`, the coverage of `c` is the chromosome-blind depth that the dense reference counts |
| Intervals.DepthAppend | tests/test_macs2.py:25-29 | the depth of two interval lists together is the sum of their depths |
| FragmentPileup.Extend | bnp_macs2/fragment_pileup.py:9 | a '+' read keeps its start and any other read keeps its stop, as the dense reference of tests/test_macs2.py:25-28 does; the fragment is exactly the fragment length long, on the read's chromosome, and starts at 0 or later for an extendable read |
| FragmentPileup.GetFragmentPileup | bnp_macs2/fragment_pileup.py:7-10 | the pileup has exactly one entry per position of every chromosome |
| FragmentPileup.PileupCountsCoveringFragments | bnp_macs2/fragment_pileup.py:10 | the pileup at a position is at most the number of reads, and it is positive exactly when some read's fragment on that chromosome covers the position (so it is 0 where none does) |
| FragmentPileup.CoveragePositive | bnp_macs2/fragment_pileup.py:10 | coverage is positive iff some interval on the chromosome covers the position |
| FragmentPileup.PileupAdditive | bnp_macs2/fragment_pileup.py:10 | the pileup of two read sets together is the pointwise sum of their pileups |
| FragmentPileup.FragmentsPermutation | bnp_macs2/fragment_pileup.py:9 | permuted reads give permuted fragments |
| FragmentPileup.PileupOrderIrrelevant | bnp_macs2/fragment_pileup.py:10 | permuted reads give the same pileup |
| ControlPileup.Window | bnp_macs2/control_pileup.py:11-13 | the window is centred on the read start, ignores stop and strand, and is `w` wide for even `w` and `w - 1` wide for odd `w` |
| ControlPileup.Clip | bnp_macs2/control_pileup.py:14 | clipping never enlarges an interval and puts it inside `[0, size)` of its chromosome |
| ControlPileup.ClipKeepsInside | bnp_macs2/control_pileup.py:14 | inside the chromosome, the clipped window covers exactly the positions the window covered |
| ControlPileup.ClipAllKeepsCoverage | bnp_macs2/control_pileup.py:14 | clipping does not change the coverage of any position of the genome |
| ControlPileup.AveragePileup | bnp_macs2/control_pileup.py:9-15 | one average per position of every chromosome of the genome; its value, the covering windows divided by `w`, is `ControlPileup.AverageCountsWindows` |
| ControlPileup.AverageCountsWindows | bnp_macs2/control_pileup.py:15 | the average at a position is the number of windows covering it divided by `w`, even where a window was clipped |
| ControlPileup.Control | bnp_macs2/control_pileup.py:18-23 | one control value per position of every chromosome of the genome; that it is the maximum of the rate and the averages is `ControlPileup.ControlIsMaximum` |
| ControlPileup.ControlIsMaximum | bnp_macs2/control_pileup.py:19-22 | the control is at least the rate and at least every window size's average, and it equals the rate or one of those averages |
| ControlPileup.ControlDependsOnSetOfSizes | bnp_macs2/control_pileup.py:20-22 | window size lists with the same members give the same control, so order and duplicates do not matter |
| ControlPileup.GetControlPileup | bnp_macs2/control_pileup.py:18-23 | the loop's result is the running maximum `Control` (the constant rate for no window sizes) |
| BoolRuns.RunEnd | bnp_macs2/call_peaks.py:6 | from a flagged position, the run extends over flagged positions up to the end of the track or the first unflagged one |
| BoolRuns.RunsFrom | bnp_macs2/call_peaks.py:6 | every produced run is a maximal flagged run, and consecutive runs are separated by an unflagged position |
| BoolRuns.RunsFromComplete | bnp_macs2/call_peaks.py:6 | every flagged position from the starting point on lies in one of the runs |
| BoolRuns.Runs | bnp_macs2/call_peaks.py:6 | the runs lie on the given chromosome, are maximal flagged runs, and are sorted with gaps between them |
| BoolRuns.RunsCoverFlags | bnp_macs2/call_peaks.py:6 | every flagged position lies in a run |
| BoolRuns.RunsEmptyIffNothingFlagged | bnp_macs2/call_peaks.py:6 | there are no runs iff no position is flagged |
| MergeIntervals.Merge | bnp_macs2/call_peaks.py:7 | the merged intervals are sorted, disjoint, on one chromosome and more than `max_gap` apart; there are no more of them than inputs, and the first starts where the first input starts |
| MergeIntervals.MergeEndpoints | bnp_macs2/call_peaks.py:7 | every merged interval starts where an input interval starts and stops where one stops |
| MergeIntervals.MergeKeepsCoverage | bnp_macs2/call_peaks.py:7 | merging never loses a covered position |
| MergeIntervals.MergeOnlyFillsShortGaps | bnp_macs2/call_peaks.py:7 | a merged interval covers only input positions and positions in gaps of at most `max_gap` |
| MergeIntervals.MergeSeparatedUnchanged | bnp_macs2/call_peaks.py:7 | intervals already more than `max_gap` apart are returned unchanged |
| MergeIntervals.MergeIdempotent | bnp_macs2/call_peaks.py:7 | merging the merged intervals again with the same gap changes nothing |
| PeakCalling.FilterLength | bnp_macs2/call_peaks.py:8 | every survivor is at least `min_length` long and there are no more survivors than inputs |
| PeakCalling.FilterMembers | bnp_macs2/call_peaks.py:8 | an interval survives iff it is an input at least `min_length` long |
| PeakCalling.FilterKeepsOrder | bnp_macs2/call_peaks.py:8 | the survivors stay sorted, on one chromosome and more than `max_gap` apart |
| PeakCalling.RunsOrdered | bnp_macs2/call_peaks.py:6 | the runs are sorted, non-empty and on one chromosome, which is what the merge requires |
| PeakCalling.MergedRunFlagged | bnp_macs2/call_peaks.py:5-7 | every merged run lies inside the track on the given chromosome and starts and ends on a flagged position |
| PeakCalling.Threshold | bnp_macs2/call_peaks.py:5 | one flag per position, set exactly where the value is strictly below the bound |
| PeakCalling.MergedPeak | bnp_macs2/call_peaks.py:7-8 | a merged run of a chromosome at least `min_length` long is a peak: inside the track, with both ends strictly below the bound |
| PeakCalling.CallPeaksChrom | bnp_macs2/call_peaks.py:4-9 | on one chromosome, the peaks are sorted and more than `max_gap` apart; each lies inside the chromosome, is at least `min_length` long, and starts and ends strictly below the bound |
| PeakCalling.FlaggedPositionsMerged | bnp_macs2/call_peaks.py:5-7 | every position strictly below the bound lies in a merged run |
| PeakCalling.Flatten | bnp_macs2/call_peaks.py:6 | the genome-wide list is as long as all chromosome lists together, and an interval is in it iff it is in some chromosome's list |
| PeakCalling.FlattenAt | bnp_macs2/call_peaks.py:6 | element `j` of chromosome list `i` sits at position `Offset(i) + j` of the genome-wide list, after every element of the earlier chromosomes |
| PeakCalling.FlattenLocate | bnp_macs2/call_peaks.py:6 | every position of the genome-wide list holds element `j` of some chromosome list `i`, at `Offset(i) + j` |
| PeakCalling.FlattenOrder | bnp_macs2/call_peaks.py:6 | of two positions of the genome-wide list, the earlier comes from an earlier chromosome, or from the same chromosome at an earlier index |
| PeakCalling.FlattenPairInOrder | bnp_macs2/call_peaks.py:6 | joining sorted, separated per-chromosome lists in genome order puts any two intervals in genome order |
| PeakCalling.ToIntervals | bnp_macs2/call_peaks.py:6 | every interval is a maximal run of positions strictly below the bound on a chromosome of the genome |
| PeakCalling.ChromRunsEmptyIff | bnp_macs2/call_peaks.py:5-6 | a chromosome has no runs iff none of its positions is strictly below the bound |
| PeakCalling.ToIntervalsEmptyIffNothingFlagged | bnp_macs2/call_peaks.py:5-6 | `to_intervals` is empty iff no position of the genome is strictly below the bound |
| Macs2.PeaksLocated | bnp_macs2/call_peaks.py:4-9 | every called peak names a chromosome of the genome and lies inside it |
| PeakCalling.CallPeaks | bnp_macs2/call_peaks.py:4-9 | every peak is at least `min_length` long, lies inside a chromosome of the genome, and starts and ends on a flagged position |
| PeakCalling.ApartPairs | bnp_macs2/call_peaks.py:7 | in a sorted list whose neighbours are more than `max_gap` apart, any two intervals are |
| PeakCalling.CallPeaksOrdered | bnp_macs2/call_peaks.py:4-9 | the peaks are sorted by chromosome in genome order, then by position; two peaks on one chromosome do not overlap and are more than `max_gap` apart |
| PeakCalling.CallPeaksComplete | bnp_macs2/call_peaks.py:4-9 | every merged run of flagged positions at least `min_length` long is one of the peaks |
| PeakCalling.PeaksNeedFlags | bnp_macs2/call_peaks.py:4-9 | a non-empty result needs some flagged position |
| PeakCalling.NoFlagsNoPeaksChrom | bnp_macs2/call_peaks.py:4-9 | a chromosome with no flagged position has no peaks |
| PeakCalling.NoFlagsNoPeaks | bnp_macs2/call_peaks.py:4-9 | with no flagged position anywhere the result is empty |
| NarrowPeaks.Decimal | bnp_macs2/macs2.py:107 | the decimal form of a number is a non-empty string of digits |
| NarrowPeaks.DecimalRoundTrip | bnp_macs2/macs2.py:107 | reading back the decimal digits gives the number |
| NarrowPeaks.PeakName | bnp_macs2/macs2.py:107 | a name is `peak_` followed by at least one character |
| NarrowPeaks.PeakNameInjective | bnp_macs2/macs2.py:107 | different numbers give different names |
| NarrowPeaks.Trunc | bnp_macs2/macs2.py:108 | `astype(int)` truncates toward zero: it is within 1 of the value, on the side of 0 |
| NarrowPeaks.Max | bnp_macs2/macs2.py:100 | the maximum is one of the values and at least all of them |
| NarrowPeaks.Min | bnp_macs2/macs2.py:101 | the minimum is one of the values and at most all of them |
| NarrowPeaks.MeanBounds | bnp_macs2/macs2.py:101 | the mean of values in `[lo, hi]` is in `[lo, hi]` |
| NarrowPeaks.MeanWithinRange | bnp_macs2/macs2.py:100-101 | the mean lies between the minimum and the maximum |
| NarrowPeaks.PeakValues | bnp_macs2/macs2.py:99 | a peak's values are as many as its length |
| NarrowPeaks.GetNarrowPeak | bnp_macs2/macs2.py:98-113 | one record per peak in peak order: same location, name `peak_{k+1}`, strand '.', summit 0, q-value equal to p-value, score the truncated ten times the p-value |
| NarrowPeaks.RecordStatistics | bnp_macs2/macs2.py:99-111 | the p-value of a record is the maximum of the signal over the peak and is attained there; the signal value (the mean) lies between the minimum and that maximum |
| NarrowPeaks.RecordSignalValue | bnp_macs2/macs2.py:99-111 | the signal value of a record is the mean of the signal over its peak |
| NarrowPeaks.MeanTimesLength | bnp_macs2/macs2.py:99-111 | the mean times the number of values is their sum |
| NarrowPeaks.NamesDistinct | bnp_macs2/macs2.py:107 | the records' names are pairwise distinct |
| Macs2.TailTrack | bnp_macs2/macs2.py:59 | at every position of every chromosome, the value is `logsf` of the pileup count and the control there |
| Macs2.ScaledControlAtLeastRate | bnp_macs2/macs2.py:80-87 | the control scaled by a non-negative factor is at least that factor times the rate |
| Macs2.Mask | bnp_macs2/macs2.py:50 | the boolean index starts with `True`, then says for each read whether its start differs from its predecessor's; it has one entry even for no reads |
| Macs2.DropRepeats | bnp_macs2/macs2.py:50 | the reference dedup keeps the first read, is no longer than its input, and its last kept read repeats the last read |
| Macs2.DropRepeatsKeepsOnlyReads | bnp_macs2/macs2.py:49-51 | every kept read is one of the input reads |
| Macs2.DropRepeatsNoAdjacent | bnp_macs2/macs2.py:50 | no two adjacent kept reads repeat each other |
| Macs2.SelectMaskIsDropRepeats | bnp_macs2/macs2.py:50 | boolean indexing with the mask keeps exactly the reads of the reference definition |
| Macs2.DropRepeatsKeepsEveryKey | bnp_macs2/macs2.py:50 | every input read is repeated by some kept read, so no start disappears |
| Macs2.DropRepeatsIdempotent | bnp_macs2/macs2.py:48-52 | removing repeats twice equals removing them once |
| Macs2.DropRepeatsOfDistinctNeighbours | bnp_macs2/macs2.py:50 | reads without adjacent repeats are kept as they are |
| Macs2.DedupAsWritten | bnp_macs2/macs2.py:48-52 | the start-only dedup fails iff there are no reads; otherwise it equals the reference definition with starts compared alone |
| Macs2.DedupDropsOtherChromosome | bnp_macs2/macs2.py:50 | a read on the next chromosome with the same start is dropped by the dedup as written, and kept by the corrected one |
| Macs2.DedupOfNoReadsFails | bnp_macs2/macs2.py:50 | no reads make the dedup as written fail, while the corrected one returns no reads |
| Macs2.DedupByPosition | bnp_macs2/macs2.py:48-52 | the corrected dedup: empty iff its input is, keeps the first read, keeps only input reads, and leaves no two adjacent reads with the same chromosome and start |
| Macs2.DedupByPositionKeepsEveryPosition | bnp_macs2/macs2.py:50 | every (chromosome, start) of the sorted reads is kept by some read of the corrected dedup |
| Macs2.Macs2.constructor | bnp_macs2/macs2.py:43-46 | the object keeps the genome and the parameters it is given |
| Macs2.Macs2.Dedup | bnp_macs2/macs2.py:48-52 | for a sort that permutes the reads, the corrected dedup is empty iff there are no reads, is no longer than them, starts with the first sorted read, keeps only input reads, leaves no two adjacent reads with the same chromosome and start, and keeps every (chromosome, start) of the input |
| Macs2.Macs2.GetFragmentPileup | bnp_macs2/macs2.py:66-69 | every position holds the number of same-chromosome fragments over it |
| Macs2.Macs2.GetControlPileup | bnp_macs2/macs2.py:78-87 | fails with a division by zero iff the genome has size 0; otherwise returns the fragment length times the running maximum of the rate and the window averages |
| Macs2.Macs2.LambdaAtLeastRate | bnp_macs2/macs2.py:80-87 | the control is at least the fragment length times the read rate everywhere |
| Macs2.Macs2.CallPeaks | bnp_macs2/macs2.py:90-96 | fails iff no position is below `log(p_value_cutoff)`; otherwise every peak is at least one fragment long, lies inside a chromosome and starts and ends on flagged positions |
| Macs2.Macs2.GetNarrowPeak | bnp_macs2/macs2.py:98-113 | one record per peak, in peak order, with the peak's location and the name `peak_{k+1}` |
| Macs2.Macs2.Run | bnp_macs2/macs2.py:54-64 | fails with a division by zero iff the genome has size 0; on a genome of positive size it fails with no flagged positions iff no position of the p-score track passes the cutoff, so it succeeds whenever one does; a success holds one record per called peak of the p-score track, in order, with that peak's chromosome, start and stop, at least one fragment long and named `peak_{k+1}`; a success is exactly `GetNarrowPeak` of those peaks over the signal track `-log10(e) × p-scores`, so `RecordStatistics` and `RecordSignalValue` give each record its statistics |
| Cli.Insert | bnp_macs2/cli.py:91 | inserting into sorted values keeps them sorted and adds exactly the new value |
| Cli.SortInts | bnp_macs2/cli.py:91 | the sorted values are sorted and a permutation of the input |
| Cli.SortedUnique | bnp_macs2/cli.py:91 | two sorted permutations of the same values are equal, so the sorted order is unique |
| Cli.Median | bnp_macs2/cli.py:91 | the median fails iff there are no values |
| Cli.MedianWithinBounds | bnp_macs2/cli.py:91 | the median lies within any bounds of the values |
| Cli.MedianOrderIrrelevant | bnp_macs2/cli.py:91 | permuted values have the same median |
| Cli.Lengths | bnp_macs2/cli.py:91 | one length `stop - start` per read |
| Cli.MaxGap | bnp_macs2/cli.py:91-95 | `int(median)` fails iff there are no reads |
| Cli.MaxGapWithinLengths | bnp_macs2/cli.py:91-95 | `max_gap` lies within any bounds on the read lengths, so between the shortest and the longest read |
| Cli.MainParams | bnp_macs2/cli.py:91-96 | the parameters carry the given fragment length and cutoff, the number of reads and the median-derived `max_gap`; they cannot be built without reads |
| Cli.Macs2Entry | bnp_macs2/cli.py:34-36 | no intervals give no peaks at once, and other input goes on to the pipeline |
| Cli.Macs2.constructor | bnp_macs2/cli.py:44-46 | the object keeps the genome and the parameters it is given |
| Cli.Macs2.GetFragmentPileup | bnp_macs2/cli.py:52-55 | every position holds the number of same-chromosome fragments over it |
| Cli.Macs2.GetControlPileup | bnp_macs2/cli.py:65-71 | fails with a division by zero iff the genome has size 0; otherwise returns the unscaled running maximum of the rate and the window averages |
| Cli.Macs2.LambdaAtLeastRate | bnp_macs2/cli.py:67-75 | the control of `get_p_values` (window sizes 1000 and 10000, times the fragment length) is at least the fragment length times the rate |
| Cli.Macs2.GetPValues | bnp_macs2/cli.py:73-77 | fails iff the genome has size 0; otherwise it is the Poisson log-tail of the pileup under the scaled 1000/10000 control |
| Cli.Macs2.CallPeaks | bnp_macs2/cli.py:79-84 | every peak is at least one fragment long, lies inside a chromosome and starts and ends on flagged positions; with no flagged position the result is empty rather than a failure |
| Cli.Macs2.Run | bnp_macs2/cli.py:48-50 | fails iff the genome has size 0; otherwise it returns the peaks of the p-value track |
| Oneliner.GlobalAverage | bnp_macs2/oneliner.py:11 | fails with a division by zero iff the effective genome size is 0; otherwise the average times that size is the number of reads |
| Oneliner.ControlTrack | bnp_macs2/oneliner.py:9-12 | one control value per position of every chromosome of the genome; its lower bound is `Oneliner.ControlAtLeastGlobal` |
| Oneliner.ControlAtLeastGlobal | bnp_macs2/oneliner.py:9-12 | the control is at least the fragment length times the global average everywhere |
| Oneliner.PeakRecords | bnp_macs2/oneliner.py:14-25 | every record is at least one fragment long, named `peak_{k+1}`, and starts and ends where the raw p-value is below the cutoff |
| Oneliner.Macs2 | bnp_macs2/oneliner.py:7-25 | fails with a division by zero iff the effective genome size is 0; otherwise the records are the peak records of the p-value track against the global-average control |
| Oneliner.NothingBelowCutoffNoPeaks | bnp_macs2/oneliner.py:14-15 | with no p-value below the cutoff there are no records |
| TestMacs2.DepthSnoc | tests/test_macs2.py:25-29 | one more read adds one at exactly the positions its fragment covers |
| TestMacs2.DenseFragmentPileup | tests/test_macs2.py:22-31 | the array is newly allocated, has `size` entries and entry `x` is the number of fragments over `x`; positions past the end are dropped |
| TestMacs2.LibraryPileupIsDense | tests/test_macs2.py:34-37 | for reads on one chromosome, the library pileup of that chromosome is the dense reference |
| TestMacs2.ReadInBoundsAddsFragmentLength | tests/test_macs2.py:25-29 | a read whose fragment fits in the array adds exactly the fragment length to the total |
| TestMacs2.FixturePileup | tests/test_macs2.py:8-37 | on `chr1` of 100 positions with fragment length 20, the four reads are extendable, the library pileup equals the dense reference, and both are 1,2,3,2,1,0,1,0 over the breakpoints 11,15,20,31,35,40,60 |

## Left out

- The Poisson tail `logsf` / `pdtrc`, `np.log`, `np.log10` and `-log10` (bnp_macs2/macs2.py:25-26,64, cli.py:29-30, oneliner.py:13,16) are floating-point library functions. They are parameters of the model (`logsf`, `sf`, `ln`, `log10`, and `log10e` for `np.log10(np.e)`).
- bionumpy itself is not part of this model: the run-length `GenomicTrack`, `Geometry`, `merge_intervals`, `clip`, `extend_to_size`, `get_windows` and the lazy `bnp.compute`. Dense per-chromosome sequences stand in for the tracks, and each library operation is given the meaning its use implies:
  - the merge joins neighbours whose gap `next.start - stop` is at most `max_gap`, so the bound is inclusive;
  - the merge never joins intervals of different chromosomes;
  - clipping leaves an interval on an unknown chromosome as it is;
  - `get_windows(window_size=w)` in oneliner.py is taken to be the same centred window `[start - w//2, start + w//2)`, clipped, as in control_pileup.py.
- FragmentPileup.Extend: an unstranded read is extended from its stop, as the `else` branch of the dense reference (tests/test_macs2.py:25-28) extends every read that is not '+'. `extend_to_size` itself is not part of this model, and the test data holds only '+' and '-' reads, so the rule for unstranded reads is not confirmed by any visible code.
- Reads whose fragment would start before 0 (a non-'+' read with `stop < L`, or a negative start) are excluded by the precondition `FragmentPileup.AllExtendable`. The library's handling of them is not visible. Under this precondition the slice start in the dense reference is never negative.
- `Geometry.sort` is a parameter of `Macs2.Macs2.Dedup`, required to return a permutation of the reads. The library's sort order is not visible.
- listener.py (plots and bedGraph/narrowPeak writing), the listener calls in `register` and in `run` (bnp_macs2/macs2.py:29-39,60-61), logging and `print`. `register` returns the wrapped method's result unchanged, so the decorated methods are modelled undecorated.
- File reading and writing in `main`, `test`, `big` and the typer entry points (bnp_macs2/cli.py:87-90,97-129). `n_reads` is `bnp.count_entries(filename)`, which is taken to be the number of reads read.
- The rest of the free function `macs2` in cli.py past its guard (cli.py:37-40). It calls `get_p_values` and `call_peaks`, which are not defined at module level, so `pipeline` is a parameter of `Cli.Macs2Entry`.
- `n_reads = None` and the unused `write_bdg` flag. `Params` has a natural-number `nReads` and no `write_bdg`.
- An empty `window_sizes` makes the Python control a scalar rather than a track. The model gives the constant track of the rate, which has the same value at every position.
- NaN and infinities: all values are exact. `Cli.Median` reports `EmptyMedian` where numpy returns NaN and `int()` raises.
- Integer widths: numpy's integer overflow is not modelled.
- Oneliner.PeakRecords: states the record names, lengths and flagged endpoints but not the record statistics. Those follow from `NarrowPeaks.RecordStatistics` and `NarrowPeaks.RecordSignalValue` on the `-log10` signal track.

## Findings

| source | as written | input that shows it | evidently intended | confidence | as-written member | corrected member |
|---|---|---|---|---|---|---|
| bnp_macs2/macs2.py:50 | a read is dropped when its start equals its predecessor's start, whatever its chromosome | sorted reads `chr1:100-150(+)`, `chr2:100-150(+)`: the `chr2` read is dropped | drop a read only when its chromosome and start both equal its predecessor's | not executed | Macs2.DedupDropsOtherChromosome | Macs2.DedupByPosition |
| bnp_macs2/macs2.py:50 | the mask is built by `np.insert(..., 0, True)` and has one entry even for no reads, so indexing no reads with it fails | no reads | no reads give no reads | not executed | Macs2.DedupAsWritten | Macs2.DedupByPosition |
