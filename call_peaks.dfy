/**
 * `call_peaks`: threshold a p-value track, turn the flagged positions into
 * maximal runs, merge runs whose gap is at most `max_gap`, and keep the merged
 * intervals that are at least `min_length` long.
 */
module PeakCalling {
  import opened Geometry
  import opened Intervals
  import opened BoolRuns
  import opened MergeIntervals

  /** The boolean track `p < bound`. */
  function Threshold(p: seq<real>, bound: real): (f: seq<bool>)
    ensures |f| == |p|
    ensures forall x :: 0 <= x < |p| ==> (f[x] <==> p[x] < bound)
  {
    seq(|p|, x requires 0 <= x < |p| => p[x] < bound)
  }

  /** `peaks[(peaks.stop - peaks.start) >= min_length]`: the long intervals, in their order. */
  function FilterLength(ivs: seq<Interval>, minLength: int): (r: seq<Interval>)
    ensures |r| <= |ivs|
    ensures forall j :: 0 <= j < |r| ==> r[j].stop - r[j].start >= minLength
  {
    if ivs == [] then []
    else (if ivs[0].stop - ivs[0].start >= minLength then [ivs[0]] else []) + FilterLength(ivs[1..], minLength)
  }

  /** The survivors are exactly the input intervals that are at least `minLength` long. */
  lemma {:induction false} FilterMembers(ivs: seq<Interval>, minLength: int, iv: Interval)
    ensures iv in FilterLength(ivs, minLength) <==> iv in ivs && iv.stop - iv.start >= minLength
  {
    if ivs != [] {
      FilterMembers(ivs[1..], minLength, iv);
      assert ivs == [ivs[0]] + ivs[1..];
    }
  }

  /** Sorted non-empty intervals have increasing starts. */
  lemma {:induction false} StartsIncrease(ivs: seq<Interval>, j: nat, k: nat)
    requires Ordered(ivs) && j < k < |ivs|
    ensures ivs[j].stop <= ivs[k].start
    decreases k - j
  {
    assert SortedAt(ivs, j);
    if j + 1 < k {
      StartsIncrease(ivs, j + 1, k);
    }
  }

  /** Dropping intervals keeps the survivors sorted, on one chromosome and more than `d` apart. */
  lemma {:induction false} FilterKeepsOrder(ivs: seq<Interval>, minLength: int, d: int)
    requires Ordered(ivs) && SameChrom(ivs) && Separated(ivs, d)
    ensures Ordered(FilterLength(ivs, minLength)) && SameChrom(FilterLength(ivs, minLength))
    ensures Separated(FilterLength(ivs, minLength), d)
    ensures FilterLength(ivs, minLength) != [] ==> FilterLength(ivs, minLength)[0].chrom == ivs[0].chrom
  {
    if ivs != [] {
      var tail := ivs[1..];
      TailOrdered(ivs, d);
      FilterKeepsOrder(tail, minLength, d);
      var rest := FilterLength(tail, minLength);
      var farApart := rest != [] ==>
        rest[0].chrom == ivs[0].chrom && ivs[0].stop <= rest[0].start && rest[0].start - ivs[0].stop > d;
      if rest != [] {
        FilterMembers(tail, minLength, rest[0]);
        var k :| 0 <= k < |tail| && tail[k] == rest[0];
        StartsIncrease(ivs, 0, k + 1);
        PairwiseApart(ivs, d, k + 1);
      }
      assert farApart;
      if ivs[0].stop - ivs[0].start >= minLength {
        assert FilterLength(ivs, minLength) == [ivs[0]] + rest;
        ConsOrdered(ivs[0], rest, d);
      } else {
        assert FilterLength(ivs, minLength) == rest;
      }
    }
  }

  /** In separated sorted intervals every later interval is more than `d` after the first. */
  lemma {:induction false} PairwiseApart(ivs: seq<Interval>, d: int, k: nat)
    requires Ordered(ivs) && Separated(ivs, d) && 0 < k < |ivs|
    ensures ivs[k].start - ivs[0].stop > d
  {
    assert ApartAt(ivs, 0, d);
    if k > 1 {
      StartsIncrease(ivs, 1, k);
    }
  }

  lemma {:induction false} RunsOrdered(f: seq<bool>, c: string)
    ensures Ordered(Runs(f, c)) && SameChrom(Runs(f, c))
  {
    var r := Runs(f, c);
    forall j | 0 <= j < |r| - 1 ensures SortedAt(r, j) {
      assert r[j].stop < r[j + 1].start;
    }
  }

  /** Every merged run lies on `c`, inside the track, and starts and ends on a flagged position. */
  lemma MergedRunFlagged(f: seq<bool>, c: string, d: int, m: nat)
    requires Ordered(Runs(f, c)) && SameChrom(Runs(f, c)) && m < |Merge(Runs(f, c), d)|
    ensures Merge(Runs(f, c), d)[m].chrom == c
    ensures 0 <= Merge(Runs(f, c), d)[m].start < Merge(Runs(f, c), d)[m].stop <= |f|
    ensures f[Merge(Runs(f, c), d)[m].start] && f[Merge(Runs(f, c), d)[m].stop - 1]
  {
    var runs := Runs(f, c);
    var merged := Merge(runs, d);
    MergeEndpoints(runs, d, m);
    var a :| 0 <= a < |runs| && runs[a].start == merged[m].start;
    var b :| 0 <= b < |runs| && runs[b].stop == merged[m].stop;
    assert IsRun(f, runs[a].start, runs[a].stop);
    assert IsRun(f, runs[b].start, runs[b].stop);
    assert merged[0].chrom == c;
  }

  /** A called peak on chromosome `c` of track `p`. */
  predicate IsPeak(p: seq<real>, c: string, bound: real, minLength: int, iv: Interval) {
    iv.chrom == c && 0 <= iv.start < iv.stop <= |p| && iv.stop - iv.start >= minLength &&
    p[iv.start] < bound && p[iv.stop - 1] < bound
  }

  /** A merged run at least `minLength` long is a peak. */
  lemma MergedPeak(p: seq<real>, c: string, bound: real, minLength: int, maxGap: int, m: nat)
    requires m < |Merge(Runs(Threshold(p, bound), c), maxGap)|
    requires Merge(Runs(Threshold(p, bound), c), maxGap)[m].stop - Merge(Runs(Threshold(p, bound), c), maxGap)[m].start >= minLength
    ensures IsPeak(p, c, bound, minLength, Merge(Runs(Threshold(p, bound), c), maxGap)[m])
  {
    var f := Threshold(p, bound);
    RunsOrdered(f, c);
    MergedRunFlagged(f, c, maxGap, m);
  }

  /**
   * `call_peaks` on one chromosome's track. Every peak is at least `minLength`
   * long, lies inside the chromosome, and starts and ends on a position that
   * passes the threshold; the peaks are sorted and more than `maxGap` apart.
   */
  function CallPeaksChrom(p: seq<real>, c: string, bound: real, minLength: int, maxGap: int): (r: seq<Interval>)
    ensures Ordered(r) && Separated(r, maxGap)
    ensures forall j :: 0 <= j < |r| ==> IsPeak(p, c, bound, minLength, r[j])
  {
    var f := Threshold(p, bound);
    RunsOrdered(f, c);
    var merged := Merge(Runs(f, c), maxGap);
    FilterKeepsOrder(merged, minLength, maxGap);
    var r := FilterLength(merged, minLength);
    forall j | 0 <= j < |r|
      ensures IsPeak(p, c, bound, minLength, r[j])
    {
      FilterMembers(merged, minLength, r[j]);
      var m :| 0 <= m < |merged| && merged[m] == r[j];
      MergedPeak(p, c, bound, minLength, maxGap, m);
    }
    r
  }

  /**
   * Every position that passes the threshold lies in one of the merged runs,
   * before the length filter.
   */
  lemma FlaggedPositionsMerged(p: seq<real>, c: string, bound: real, maxGap: int, x: nat)
    requires x < |p| && p[x] < bound
    ensures InSome(Merge(Runs(Threshold(p, bound), c), maxGap), x)
  {
    RunsCoverFlags(Threshold(p, bound), c, x);
    RunsOrdered(Threshold(p, bound), c);
    MergeKeepsCoverage(Runs(Threshold(p, bound), c), maxGap, x);
  }

  /** Where part `i` begins in the concatenation: the total length of the parts before it. */
  function Offset(parts: seq<seq<Interval>>, i: nat): nat
    requires i <= |parts|
  {
    if i == 0 then 0 else |parts[0]| + Offset(parts[1..], i - 1)
  }

  /** Each part begins where the one before it ends. */
  lemma {:induction false} OffsetStep(parts: seq<seq<Interval>>, i: nat)
    requires i < |parts|
    ensures Offset(parts, i + 1) == Offset(parts, i) + |parts[i]|
  {
    if i > 0 {
      OffsetStep(parts[1..], i - 1);
      assert parts[1..][i - 1] == parts[i];
    }
  }

  /** An earlier part ends before a later part begins. */
  lemma {:induction false} OffsetMonotone(parts: seq<seq<Interval>>, i: nat, k: nat)
    requires i < k <= |parts|
    ensures Offset(parts, i) + |parts[i]| <= Offset(parts, k)
    decreases k - i
  {
    OffsetStep(parts, i);
    if i + 1 < k {
      OffsetMonotone(parts, i + 1, k);
    }
  }

  /** Concatenation of the per-chromosome results, in genome order (see `FlattenAt`). */
  function Flatten(parts: seq<seq<Interval>>): (r: seq<Interval>)
    ensures |r| == Offset(parts, |parts|)
    ensures forall iv :: iv in r <==> exists i :: 0 <= i < |parts| && iv in parts[i]
  {
    if parts == [] then []
    else
      assert forall iv :: (exists i :: 0 <= i < |parts| && iv in parts[i]) ==>
        iv in parts[0] || exists i :: 0 <= i < |parts[1..]| && iv in parts[1..][i] by {
        forall iv | exists i :: 0 <= i < |parts| && iv in parts[i]
          ensures iv in parts[0] || exists i :: 0 <= i < |parts[1..]| && iv in parts[1..][i]
        {
          var i :| 0 <= i < |parts| && iv in parts[i];
          if i > 0 {
            assert parts[1..][i - 1] == parts[i];
          }
        }
      }
      parts[0] + Flatten(parts[1..])
  }

  /** Element `j` of part `i` sits at position `Offset(parts, i) + j` of the concatenation. */
  lemma {:induction false} FlattenAt(parts: seq<seq<Interval>>, i: nat, j: nat)
    requires i < |parts| && j < |parts[i]|
    ensures Offset(parts, i) + j < |Flatten(parts)| && Flatten(parts)[Offset(parts, i) + j] == parts[i][j]
  {
    OffsetMonotone(parts, i, |parts|);
    if i > 0 {
      assert parts[1..][i - 1] == parts[i];
      FlattenAt(parts[1..], i - 1, j);
    }
  }

  /** Every position of the concatenation holds element `j` of some part `i`. */
  lemma {:induction false} FlattenLocate(parts: seq<seq<Interval>>, k: nat) returns (i: nat, j: nat)
    requires k < |Flatten(parts)|
    ensures i < |parts| && j < |parts[i]| && k == Offset(parts, i) + j
  {
    if k < |parts[0]| {
      i, j := 0, k;
    } else {
      var i', j' := FlattenLocate(parts[1..], k - |parts[0]|);
      assert parts[1..][i'] == parts[i' + 1];
      i, j := i' + 1, j';
    }
  }

  /**
   * The concatenation keeps genome order: of two positions, the earlier one
   * comes from an earlier part, or from the same part at an earlier index.
   */
  lemma FlattenOrder(parts: seq<seq<Interval>>, i1: nat, j1: nat, i2: nat, j2: nat)
    requires i1 < |parts| && j1 < |parts[i1]| && i2 < |parts| && j2 < |parts[i2]|
    requires Offset(parts, i1) + j1 < Offset(parts, i2) + j2
    ensures i1 < i2 || (i1 == i2 && j1 < j2)
  {
    if i2 < i1 {
      OffsetMonotone(parts, i2, i1);
    }
  }

  /** `iv` is a maximal run of positions below the bound on a chromosome of the genome. */
  predicate IsFlaggedRun(logP: seq<seq<real>>, bound: real, g: Genome, iv: Interval)
    requires Fits(g, logP)
  {
    exists i :: 0 <= i < |g.chroms| && iv.chrom == g.chroms[i].name && IsRun(Threshold(logP[i], bound), iv.start, iv.stop)
  }

  /** The runs of flagged positions of every chromosome, in genome order. */
  function ToIntervals(logP: seq<seq<real>>, bound: real, g: Genome): (r: seq<Interval>)
    requires Fits(g, logP)
    ensures forall iv :: iv in r ==> IsFlaggedRun(logP, bound, g, iv)
  {
    var parts := seq(|g.chroms|, i requires 0 <= i < |g.chroms| => Runs(Threshold(logP[i], bound), g.chroms[i].name));
    var r := Flatten(parts);
    forall iv | iv in r ensures IsFlaggedRun(logP, bound, g, iv) {
      var i :| 0 <= i < |parts| && iv in parts[i];
      var j :| 0 <= j < |parts[i]| && parts[i][j] == iv;
    }
    r
  }

  /** Some position of the genome passes the threshold. */
  predicate AnyFlagged(logP: seq<seq<real>>, bound: real, g: Genome)
    requires Fits(g, logP)
  {
    exists i, x :: 0 <= i < |g.chroms| && 0 <= x < g.chroms[i].size && logP[i][x] < bound
  }

  /** A flattening is empty exactly when every part is. */
  lemma FlattenEmptyIff(parts: seq<seq<Interval>>)
    ensures Flatten(parts) == [] <==> forall i :: 0 <= i < |parts| ==> parts[i] == []
  {
    if Flatten(parts) != [] {
      assert Flatten(parts)[0] in Flatten(parts);
    }
    if exists i :: 0 <= i < |parts| && parts[i] != [] {
      var i :| 0 <= i < |parts| && parts[i] != [];
      assert parts[i][0] in parts[i];
    }
  }

  /** The runs of one chromosome are empty exactly when none of its positions passes the threshold. */
  lemma ChromRunsEmptyIff(logP: seq<seq<real>>, bound: real, g: Genome, i: nat)
    requires Fits(g, logP) && i < |g.chroms|
    ensures Runs(Threshold(logP[i], bound), g.chroms[i].name) == [] <==>
      forall x :: 0 <= x < g.chroms[i].size ==> !(logP[i][x] < bound)
  {
    var f := Threshold(logP[i], bound);
    RunsEmptyIffNothingFlagged(f, g.chroms[i].name);
    assert |f| == g.chroms[i].size;
    assert forall x :: 0 <= x < |f| ==> (f[x] <==> logP[i][x] < bound);
  }

  /** There are no runs anywhere exactly when no position of the genome passes the threshold. */
  lemma ToIntervalsEmptyIffNothingFlagged(logP: seq<seq<real>>, bound: real, g: Genome)
    requires Fits(g, logP)
    ensures ToIntervals(logP, bound, g) == [] <==> !AnyFlagged(logP, bound, g)
  {
    var parts := seq(|g.chroms|, i requires 0 <= i < |g.chroms| => Runs(Threshold(logP[i], bound), g.chroms[i].name));
    assert ToIntervals(logP, bound, g) == Flatten(parts);
    FlattenEmptyIff(parts);
    if AnyFlagged(logP, bound, g) {
      var i, x :| 0 <= i < |g.chroms| && 0 <= x < g.chroms[i].size && logP[i][x] < bound;
      ChromRunsEmptyIff(logP, bound, g, i);
      assert parts[i] != [];
    } else {
      forall i | 0 <= i < |parts| ensures parts[i] == [] {
        ChromRunsEmptyIff(logP, bound, g, i);
      }
    }
  }

  /**
   * `call_peaks` over the genome: the peaks of every chromosome, in genome
   * order. Every peak lies on a chromosome of the genome, inside it, is at
   * least `minLength` long, and starts and ends on a flagged position.
   */
  function CallPeaks(logP: seq<seq<real>>, bound: real, minLength: int, maxGap: int, g: Genome): (r: seq<Interval>)
    requires Fits(g, logP)
    ensures forall iv :: iv in r ==> iv.stop - iv.start >= minLength && InChrom(logP, bound, g, iv)
  {
    var parts := seq(|g.chroms|, i requires 0 <= i < |g.chroms| =>
      CallPeaksChrom(logP[i], g.chroms[i].name, bound, minLength, maxGap));
    var r := Flatten(parts);
    forall iv | iv in r
      ensures iv.stop - iv.start >= minLength && InChrom(logP, bound, g, iv)
    {
      var i :| 0 <= i < |parts| && iv in parts[i];
      var j :| 0 <= j < |parts[i]| && parts[i][j] == iv;
      assert IsPeak(logP[i], g.chroms[i].name, bound, minLength, iv);
    }
    r
  }

  /** In a sorted, separated list any two intervals, not just neighbours, are more than `d` apart. */
  lemma ApartPairs(ivs: seq<Interval>, d: int, j: nat, k: nat)
    requires Ordered(ivs) && Separated(ivs, d) && j < k < |ivs|
    ensures ivs[j].stop <= ivs[k].start && ivs[k].start - ivs[j].stop > d
  {
    assert SortedAt(ivs, j) && ApartAt(ivs, j, d);
    if j + 1 < k {
      StartsIncrease(ivs, j + 1, k);
    }
  }

  /**
   * Peak `a` may precede peak `b` in the output: both lie on chromosomes of the
   * genome, `a`'s chromosome comes no later, and on the same chromosome `a`
   * ends more than `d` positions before `b` starts.
   */
  predicate InGenomeOrder(g: Genome, d: int, a: Interval, b: Interval) {
    g.IndexOf(a.chrom).Some? && g.IndexOf(b.chrom).Some? &&
    g.IndexOf(a.chrom).value <= g.IndexOf(b.chrom).value &&
    (a.chrom == b.chrom ==> a.stop <= b.start && a.stop + d < b.start)
  }

  /** Part `i` holds sorted intervals of chromosome `i`, more than `d` apart. */
  predicate PartsPerChrom(parts: seq<seq<Interval>>, g: Genome, d: int) {
    |parts| == |g.chroms| &&
    forall i :: 0 <= i < |parts| ==> Ordered(parts[i]) && Separated(parts[i], d) && ChromIs(parts[i], g.chroms[i].name)
  }

  predicate ChromIs(ivs: seq<Interval>, c: string) {
    forall j :: 0 <= j < |ivs| ==> ivs[j].chrom == c
  }

  /** Concatenating per-chromosome parts in genome order puts any two of their intervals in genome order. */
  lemma FlattenPairInOrder(parts: seq<seq<Interval>>, g: Genome, d: int, j: nat, k: nat)
    requires g.Valid() && PartsPerChrom(parts, g, d) && j < k < |Flatten(parts)|
    ensures InGenomeOrder(g, d, Flatten(parts)[j], Flatten(parts)[k])
  {
    var i1, j1 := FlattenLocate(parts, j);
    var i2, j2 := FlattenLocate(parts, k);
    FlattenAt(parts, i1, j1);
    FlattenAt(parts, i2, j2);
    FlattenOrder(parts, i1, j1, i2, j2);
    assert ChromIs(parts[i1], g.chroms[i1].name) && ChromIs(parts[i2], g.chroms[i2].name);
    IndexOfValid(g, i1);
    IndexOfValid(g, i2);
    if i1 == i2 {
      ApartPairs(parts[i1], d, j1, j2);
    }
  }

  /**
   * The peaks come sorted by chromosome in genome order, then by start, and
   * peaks on one chromosome neither overlap nor lie within `maxGap` of each other.
   */
  lemma CallPeaksOrdered(logP: seq<seq<real>>, bound: real, minLength: int, maxGap: int, g: Genome)
    requires g.Valid() && Fits(g, logP)
    ensures forall j, k :: 0 <= j < k < |CallPeaks(logP, bound, minLength, maxGap, g)| ==>
      InGenomeOrder(g, maxGap, CallPeaks(logP, bound, minLength, maxGap, g)[j], CallPeaks(logP, bound, minLength, maxGap, g)[k])
  {
    var parts := seq(|g.chroms|, i requires 0 <= i < |g.chroms| =>
      CallPeaksChrom(logP[i], g.chroms[i].name, bound, minLength, maxGap));
    forall i | 0 <= i < |parts|
      ensures Ordered(parts[i]) && Separated(parts[i], maxGap) && ChromIs(parts[i], g.chroms[i].name)
    {
      assert forall j :: 0 <= j < |parts[i]| ==> IsPeak(logP[i], g.chroms[i].name, bound, minLength, parts[i][j]);
    }
    assert PartsPerChrom(parts, g, maxGap);
    assert CallPeaks(logP, bound, minLength, maxGap, g) == Flatten(parts);
    forall j, k | 0 <= j < k < |Flatten(parts)| ensures InGenomeOrder(g, maxGap, Flatten(parts)[j], Flatten(parts)[k]) {
      FlattenPairInOrder(parts, g, maxGap, j, k);
    }
  }

  /**
   * Completeness: every merged run of a chromosome that is at least `minLength`
   * long is one of the genome's peaks.
   */
  lemma CallPeaksComplete(logP: seq<seq<real>>, bound: real, minLength: int, maxGap: int, g: Genome, i: nat, m: nat)
    requires Fits(g, logP) && i < |g.chroms|
    requires m < |Merge(Runs(Threshold(logP[i], bound), g.chroms[i].name), maxGap)|
    requires Merge(Runs(Threshold(logP[i], bound), g.chroms[i].name), maxGap)[m].stop -
      Merge(Runs(Threshold(logP[i], bound), g.chroms[i].name), maxGap)[m].start >= minLength
    ensures Merge(Runs(Threshold(logP[i], bound), g.chroms[i].name), maxGap)[m] in CallPeaks(logP, bound, minLength, maxGap, g)
  {
    var parts := seq(|g.chroms|, i requires 0 <= i < |g.chroms| =>
      CallPeaksChrom(logP[i], g.chroms[i].name, bound, minLength, maxGap));
    var merged := Merge(Runs(Threshold(logP[i], bound), g.chroms[i].name), maxGap);
    FilterMembers(merged, minLength, merged[m]);
    assert merged[m] in parts[i];
    assert CallPeaks(logP, bound, minLength, maxGap, g) == Flatten(parts);
  }

  /** The interval lies inside a chromosome of the genome and starts and ends on flagged positions. */
  predicate InChrom(logP: seq<seq<real>>, bound: real, g: Genome, iv: Interval)
    requires Fits(g, logP)
  {
    exists i :: 0 <= i < |g.chroms| && iv.chrom == g.chroms[i].name &&
      0 <= iv.start < iv.stop <= g.chroms[i].size &&
      logP[i][iv.start] < bound && logP[i][iv.stop - 1] < bound
  }

  /** A peak can only be called where some position passes the threshold. */
  lemma PeaksNeedFlags(logP: seq<seq<real>>, bound: real, minLength: int, maxGap: int, g: Genome)
    requires Fits(g, logP) && CallPeaks(logP, bound, minLength, maxGap, g) != []
    ensures AnyFlagged(logP, bound, g)
  {
    var iv := CallPeaks(logP, bound, minLength, maxGap, g)[0];
    assert InChrom(logP, bound, g, iv);
  }

  lemma {:induction false} FlattenOfEmpties(parts: seq<seq<Interval>>)
    requires forall i :: 0 <= i < |parts| ==> parts[i] == []
    ensures Flatten(parts) == []
  {
    if parts != [] {
      assert forall i :: 0 <= i < |parts[1..]| ==> parts[1..][i] == parts[i + 1];
      FlattenOfEmpties(parts[1..]);
    }
  }

  /** On a chromosome where no position passes the threshold there is no peak. */
  lemma NoFlagsNoPeaksChrom(p: seq<real>, c: string, bound: real, minLength: int, maxGap: int)
    requires forall x :: 0 <= x < |p| ==> p[x] >= bound
    ensures CallPeaksChrom(p, c, bound, minLength, maxGap) == []
  {
    RunsEmptyIffNothingFlagged(Threshold(p, bound), c);
  }

  /** Where no position of the genome passes the threshold the result is empty. */
  lemma NoFlagsNoPeaks(logP: seq<seq<real>>, bound: real, minLength: int, maxGap: int, g: Genome)
    requires Fits(g, logP) && !AnyFlagged(logP, bound, g)
    ensures CallPeaks(logP, bound, minLength, maxGap, g) == []
  {
    var parts := seq(|g.chroms|, i requires 0 <= i < |g.chroms| =>
      CallPeaksChrom(logP[i], g.chroms[i].name, bound, minLength, maxGap));
    forall i | 0 <= i < |parts| ensures parts[i] == [] {
      NoFlagsNoPeaksChrom(logP[i], g.chroms[i].name, bound, minLength, maxGap);
    }
    FlattenOfEmpties(parts);
  }
}
