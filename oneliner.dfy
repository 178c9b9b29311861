/**
 * The one-function form of the pipeline: the control is a fold of `max` over
 * the window averages starting from the global average
 * `n_reads / effective_genome_size`, the threshold is on the p-value itself,
 * and the records carry `-log10` of the p-values.
 */
module Oneliner {
  import opened Common
  import opened Geometry
  import opened Intervals
  import FragmentPileup
  import ControlPileup
  import opened PeakCalling
  import opened NarrowPeaks
  import Pipeline = Macs2

  datatype Params = Params(
    fragmentLength: nat, windowSizes: seq<int>, nReads: nat, effectiveGenomeSize: nat,
    pValueCutoff: real, maxGap: int)

  /** `n_reads / effective_genome_size`; Python raises on a zero size. */
  function GlobalAverage(p: Params): (r: Result<real>)
    ensures r.Err? <==> p.effectiveGenomeSize == 0
    ensures r.Err? ==> r.error == ZeroDivision
    ensures r.Ok? ==> r.value * p.effectiveGenomeSize as real == p.nReads as real
  {
    if p.effectiveGenomeSize == 0 then Err(ZeroDivision)
    else Ok(p.nReads as real / p.effectiveGenomeSize as real)
  }

  /**
   * `reduce(np.maximum, local_averages, global_average) * fragment_length`,
   * for a given global average.
   */
  function ControlTrack(rs: seq<Read>, p: Params, globalAverage: real, g: Genome): (t: seq<seq<real>>)
    requires ControlPileup.PositiveWidths(p.windowSizes)
    ensures Fits(g, t)
  {
    ScaleTrack(g, p.fragmentLength as real, ControlPileup.Control(rs, p.windowSizes, globalAverage, g))
  }

  /** The control is never below the fragment length times the global average. */
  lemma ControlAtLeastGlobal(rs: seq<Read>, p: Params, globalAverage: real, g: Genome, i: nat, x: nat)
    requires ControlPileup.PositiveWidths(p.windowSizes) && i < |g.chroms| && x < g.chroms[i].size
    ensures ControlTrack(rs, p, globalAverage, g)[i][x] >= p.fragmentLength as real * globalAverage
  {
    Pipeline.ScaledControlAtLeastRate(rs, p.windowSizes, globalAverage, p.fragmentLength as real, g, i, x);
  }

  /** A track with `f` applied at every position. */
  function MapTrack(g: Genome, t: seq<seq<real>>, f: real -> real): (r: seq<seq<real>>)
    requires Fits(g, t)
    ensures Fits(g, r)
    ensures forall i, x :: 0 <= i < |g.chroms| && 0 <= x < g.chroms[i].size ==> r[i][x] == f(t[i][x])
  {
    seq(|g.chroms|, i requires 0 <= i < |g.chroms| =>
      seq(g.chroms[i].size, x requires 0 <= x < g.chroms[i].size => f(t[i][x])))
  }

  /** `poisson_sf(fragment_pileup, control_pileup)`. */
  function PValues(rs: seq<Read>, p: Params, globalAverage: real, g: Genome, sf: (nat, real) -> real)
    : (t: seq<seq<real>>)
    requires FragmentPileup.AllExtendable(rs, p.fragmentLength) && ControlPileup.PositiveWidths(p.windowSizes)
    ensures Fits(g, t)
  {
    Pipeline.TailTrack(g, FragmentPileup.GetFragmentPileup(rs, p.fragmentLength, g),
      ControlTrack(rs, p, globalAverage, g), sf)
  }

  /** Records that copy the intervals of the peaks inherit what the peaks satisfy. */
  lemma RecordsKeepPeaks(records: seq<NarrowPeak>, peaks: seq<Interval>, pValues: seq<seq<real>>,
                         cutoff: real, minLength: int, g: Genome)
    requires Fits(g, pValues) && |records| == |peaks|
    requires forall k :: 0 <= k < |records| ==>
      records[k].chrom == peaks[k].chrom && records[k].start == peaks[k].start && records[k].stop == peaks[k].stop
    requires forall iv :: iv in peaks ==> iv.stop - iv.start >= minLength && InChrom(pValues, cutoff, g, iv)
    ensures forall k :: 0 <= k < |records| ==>
      records[k].stop - records[k].start >= minLength &&
      InChrom(pValues, cutoff, g, Interval(records[k].chrom, records[k].start, records[k].stop))
  {
    forall k | 0 <= k < |records|
      ensures records[k].stop - records[k].start >= minLength
      ensures InChrom(pValues, cutoff, g, Interval(records[k].chrom, records[k].start, records[k].stop))
    {
      assert Interval(records[k].chrom, records[k].start, records[k].stop) == peaks[k];
      assert peaks[k] in peaks;
    }
  }

  /**
   * The peaks of a p-value track (threshold `p < cutoff`, merge, length
   * filter) as narrowPeak records whose signal is `-log10` of the p-value.
   */
  function PeakRecords(pValues: seq<seq<real>>, p: Params, g: Genome, log10: real -> real): (r: seq<NarrowPeak>)
    requires g.Valid() && Fits(g, pValues)
    ensures forall k :: 0 <= k < |r| ==>
      r[k].stop - r[k].start >= p.fragmentLength && r[k].name == PeakName(k + 1) &&
      InChrom(pValues, p.pValueCutoff, g, Interval(r[k].chrom, r[k].start, r[k].stop))
  {
    var peaks := CallPeaks(pValues, p.pValueCutoff, p.fragmentLength, p.maxGap, g);
    Pipeline.PeaksLocated(pValues, p.pValueCutoff, p.fragmentLength, p.maxGap, g);
    var records := GetNarrowPeak(peaks, MapTrack(g, pValues, v => -log10(v)), g);
    RecordsKeepPeaks(records, peaks, pValues, p.pValueCutoff, p.fragmentLength, g);
    records
  }

  /**
   * `macs2(reads, params)`: the peaks where the p-value is below the cutoff,
   * merged across gaps of at most `max_gap` and at least one fragment long,
   * as narrowPeak records whose signal is `-log10` of the p-value.
   */
  function Macs2(rs: seq<Read>, p: Params, g: Genome, sf: (nat, real) -> real, log10: real -> real)
    : (r: Result<seq<NarrowPeak>>)
    requires g.Valid() && FragmentPileup.AllExtendable(rs, p.fragmentLength)
    requires ControlPileup.PositiveWidths(p.windowSizes)
    ensures r.Err? <==> p.effectiveGenomeSize == 0
    ensures r.Err? ==> r.error == ZeroDivision
    ensures r.Ok? ==> r.value == PeakRecords(PValues(rs, p, GlobalAverage(p).value, g, sf), p, g, log10)
  {
    var globalAverage := GlobalAverage(p);
    if globalAverage.Err? then Err(globalAverage.error)
    else Ok(PeakRecords(PValues(rs, p, globalAverage.value, g, sf), p, g, log10))
  }

  /** No peaks at all when no position's p-value is below the cutoff. */
  lemma NothingBelowCutoffNoPeaks(rs: seq<Read>, p: Params, g: Genome, sf: (nat, real) -> real, log10: real -> real)
    requires g.Valid() && FragmentPileup.AllExtendable(rs, p.fragmentLength)
    requires ControlPileup.PositiveWidths(p.windowSizes) && p.effectiveGenomeSize > 0
    requires !AnyFlagged(PValues(rs, p, GlobalAverage(p).value, g, sf), p.pValueCutoff, g)
    ensures Macs2(rs, p, g, sf, log10) == Ok([])
  {
    var pValues := PValues(rs, p, GlobalAverage(p).value, g, sf);
    NoFlagsNoPeaks(pValues, p.pValueCutoff, p.fragmentLength, p.maxGap, g);
    assert PeakRecords(pValues, p, g, log10) == [];
  }
}
