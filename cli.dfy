/**
 * The console-script variant of the pipeline: its own `Macs2` class (control
 * from window sizes 1000 and 10000, no failure when nothing is flagged), the
 * empty-input guard of `macs2`, and the derivation of `max_gap` from the median
 * read length in `main`.
 */
module Cli {
  import opened Common
  import opened Geometry
  import opened Intervals
  import FragmentPileup
  import ControlPileup
  import opened PeakCalling
  import opened NarrowPeaks
  import Pipeline = Macs2

  // ---------------------------------------------------------------------------
  // `max_gap` from the median read length
  // ---------------------------------------------------------------------------

  predicate Sorted(xs: seq<int>) {
    forall j, k :: 0 <= j < k < |xs| ==> xs[j] <= xs[k]
  }

  /** The first value of a sorted sequence is at most any of its values. */
  lemma SortedHeadIsLeast(xs: seq<int>, v: int)
    requires Sorted(xs) && v in multiset(xs)
    ensures xs[0] <= v
  {
    var j :| 0 <= j < |xs| && xs[j] == v;
  }

  /** A value at most every entry of a sorted sequence can go in front of it. */
  lemma SortedCons(h: int, t: seq<int>)
    requires Sorted(t) && forall k :: 0 <= k < |t| ==> h <= t[k]
    ensures Sorted([h] + t)
  {
    forall j, k | 0 <= j < k < |[h] + t| ensures ([h] + t)[j] <= ([h] + t)[k] {
      assert ([h] + t)[k] == t[k - 1];
    }
  }

  /** Every value of a sequence holding the tail of a sorted `xs` and a larger `x` is at least `xs[0]`. */
  lemma HeadBelowRest(xs: seq<int>, x: int, t: seq<int>)
    requires Sorted(xs) && xs != [] && xs[0] <= x
    requires multiset(t) == multiset(xs[1..]) + multiset{x}
    ensures forall k :: 0 <= k < |t| ==> xs[0] <= t[k]
  {
    forall k | 0 <= k < |t| ensures xs[0] <= t[k] {
      assert t[k] in multiset(t);
      if t[k] != x {
        var j :| 0 <= j < |xs[1..]| && xs[1..][j] == t[k];
        assert xs[j + 1] == t[k];
      }
    }
  }

  function Insert(x: int, xs: seq<int>): (r: seq<int>)
    requires Sorted(xs)
    ensures Sorted(r) && multiset(r) == multiset(xs) + multiset{x}
    ensures |r| == |xs| + 1
  {
    if xs == [] || x <= xs[0] then
      SortedCons(x, xs);
      [x] + xs
    else
      var tail := Insert(x, xs[1..]);
      assert xs == [xs[0]] + xs[1..];
      HeadBelowRest(xs, x, tail);
      SortedCons(xs[0], tail);
      [xs[0]] + tail
  }

  /** The values in ascending order. */
  function SortInts(xs: seq<int>): (r: seq<int>)
    ensures Sorted(r) && multiset(r) == multiset(xs) && |r| == |xs|
  {
    if xs == [] then []
    else
      assert xs == [xs[0]] + xs[1..];
      Insert(xs[0], SortInts(xs[1..]))
  }

  /** Dropping the first entry removes one copy of it from the multiset. */
  lemma TailMultiset(a: seq<int>)
    requires a != []
    ensures multiset(a[1..]) == multiset(a) - multiset{a[0]}
  {
    assert a == [a[0]] + a[1..];
  }

  /** Two sorted orderings of the same values are the same sequence. */
  lemma {:induction false} SortedUnique(a: seq<int>, b: seq<int>)
    requires Sorted(a) && Sorted(b) && multiset(a) == multiset(b)
    ensures a == b
    decreases |a|
  {
    assert |a| == |multiset(a)| == |multiset(b)| == |b|;
    if a != [] {
      assert a[0] == b[0] by {
        assert a[0] in multiset(a) && b[0] in multiset(b);
        SortedHeadIsLeast(a, b[0]);
        SortedHeadIsLeast(b, a[0]);
      }
      TailMultiset(a);
      TailMultiset(b);
      SortedUnique(a[1..], b[1..]);
    }
  }

  /**
   * `np.median`: the middle of the sorted values, or the mean of the two
   * middle ones for an even count. Without values the median is `nan`, which
   * `int()` rejects.
   */
  function Median(xs: seq<int>): (m: Result<real>)
    ensures xs == [] <==> m == Err(EmptyMedian)
  {
    if xs == [] then Err(EmptyMedian) else Ok(Middle(SortInts(xs)))
  }

  /** The middle entry of a non-empty sequence, or the mean of its two middle entries. */
  function Middle(s: seq<int>): real
    requires s != []
  {
    var n := |s|;
    if n % 2 == 1 then s[n / 2] as real
    else (s[n / 2 - 1] + s[n / 2]) as real / 2.0
  }

  /** The median lies between any bounds of the values. */
  lemma MedianWithinBounds(xs: seq<int>, lo: int, hi: int)
    requires xs != [] && forall k :: 0 <= k < |xs| ==> lo <= xs[k] <= hi
    ensures lo as real <= Median(xs).value <= hi as real
  {
    var s := SortInts(xs);
    forall k | 0 <= k < |s| ensures lo <= s[k] <= hi {
      assert s[k] in multiset(xs);
      var j :| 0 <= j < |xs| && xs[j] == s[k];
    }
  }

  /** The median does not depend on the order of the values. */
  lemma MedianOrderIrrelevant(xs: seq<int>, ys: seq<int>)
    requires multiset(xs) == multiset(ys)
    ensures Median(xs) == Median(ys)
  {
    var a, b := SortInts(xs), SortInts(ys);
    SortedUnique(a, b);
    assert |xs| == |a| == |b| == |ys|;
    if xs != [] {
      assert Median(xs) == Ok(Middle(a)) && Median(ys) == Ok(Middle(b));
    }
  }

  /** `stop - start` of every read. */
  function Lengths(rs: seq<Read>): (ls: seq<int>)
    ensures |ls| == |rs| && forall k :: 0 <= k < |rs| ==> ls[k] == rs[k].stop - rs[k].start
  {
    seq(|rs|, k requires 0 <= k < |rs| => rs[k].stop - rs[k].start)
  }

  /** Every read is between `lo` and `hi` long. */
  predicate LengthsWithin(rs: seq<Read>, lo: int, hi: int) {
    forall k :: 0 <= k < |rs| ==> lo <= rs[k].stop - rs[k].start <= hi
  }

  /**
   * `max_gap=int(tag_size)`: the median read length truncated toward zero; it
   * lies between the shortest and the longest read length. Without reads the
   * median is `nan` and `int` fails.
   */
  function MaxGap(rs: seq<Read>): (r: Result<int>)
    ensures rs == [] <==> r == Err(EmptyMedian)
  {
    var m := Median(Lengths(rs));
    if m.Err? then Err(m.error) else Ok(Trunc(m.value))
  }

  /** `max_gap` lies within any bounds on the read lengths. */
  lemma MaxGapWithinLengths(rs: seq<Read>, lo: int, hi: int)
    requires rs != [] && LengthsWithin(rs, lo, hi)
    ensures lo <= MaxGap(rs).value <= hi
  {
    var ls := Lengths(rs);
    assert forall k :: 0 <= k < |ls| ==> lo <= ls[k] <= hi;
    MedianWithinBounds(ls, lo, hi);
    TruncWithin(Median(ls).value, lo, hi);
  }

  /** Truncating a value between two integers stays between them. */
  lemma TruncWithin(r: real, lo: int, hi: int)
    requires lo as real <= r <= hi as real
    ensures lo <= Trunc(r) <= hi
  {
  }

  /**
   * The parameters `main` builds: the given fragment length and cutoff, the
   * number of reads in the input, and `max_gap` from the median read length.
   */
  function MainParams(rs: seq<Read>, fragmentLength: nat, pValueCutoff: real): (r: Result<Pipeline.Params>)
    ensures rs == [] <==> r.Err?
    ensures r.Ok? ==>
      r.value.fragmentLength == fragmentLength && r.value.pValueCutoff == pValueCutoff && r.value.nReads == |rs| && MaxGap(rs) == Ok(r.value.maxGap)
  {
    var maxGap := MaxGap(rs);
    if maxGap.Err? then Err(maxGap.error)
    else Ok(Pipeline.Params(fragmentLength, |rs|, pValueCutoff, maxGap.value))
  }

  // ---------------------------------------------------------------------------
  // The empty-input guard
  // ---------------------------------------------------------------------------

  /**
   * `macs2(intervals, ...)`: no intervals give no peaks at once; otherwise the
   * rest of the pipeline (`pipeline`) runs.
   */
  function Macs2Entry(rs: seq<Read>, pipeline: seq<Read> -> seq<Interval>): (r: seq<Interval>)
    ensures rs == [] ==> r == []
    ensures rs != [] ==> r == pipeline(rs)
  {
    if |rs| == 0 then [] else pipeline(rs)
  }

  // ---------------------------------------------------------------------------
  // The pipeline object of the console script
  // ---------------------------------------------------------------------------

  class Macs2 {
    const genome: Genome
    const params: Pipeline.Params

    constructor(genome: Genome, params: Pipeline.Params)
      requires genome.Valid()
      ensures this.genome == genome && this.params == params
    {
      this.genome := genome;
      this.params := params;
    }

    /** `n_reads / geometry.size()`. */
    function Rate(): real
      requires genome.Size() > 0
    {
      params.nReads as real / genome.Size() as real
    }

    /** `get_fragment_pileup`: the number of same-chromosome fragments over every position. */
    function GetFragmentPileup(rs: seq<Read>): (t: seq<seq<nat>>)
      requires FragmentPileup.AllExtendable(rs, params.fragmentLength)
      ensures Fits(genome, t)
      ensures forall i, x :: 0 <= i < |genome.chroms| && 0 <= x < genome.chroms[i].size ==>
        t[i][x] == Coverage(FragmentPileup.Fragments(rs, params.fragmentLength), genome.chroms[i].name, x)
    {
      FragmentPileup.GetFragmentPileup(rs, params.fragmentLength, genome)
    }

    /**
     * `get_control_pileup`: the running maximum of the read rate and the
     * window averages, not scaled. A genome of size 0 makes the rate a
     * division by zero.
     */
    method GetControlPileup(rs: seq<Read>, ws: seq<int>) returns (r: Result<seq<seq<real>>>)
      requires ControlPileup.PositiveWidths(ws)
      ensures r.Err? <==> genome.Size() == 0
      ensures r.Err? ==> r.error == ZeroDivision
      ensures r.Ok? ==> r.value == ControlPileup.Control(rs, ws, Rate(), genome)
    {
      if genome.Size() == 0 {
        return Err(ZeroDivision);
      }
      var pileup := ConstTrack(genome, Rate());
      for k := 0 to |ws|
        invariant pileup == ControlPileup.Control(rs, ws[..k], Rate(), genome)
      {
        assert ws[..k + 1][..k] == ws[..k];
        var avgPileup := ControlPileup.AveragePileup(rs, ws[k], genome);
        pileup := MaxTrack(genome, pileup, avgPileup);
      }
      assert ws[..|ws|] == ws;
      r := Ok(pileup);
    }

    /** The control of `get_p_values`: window sizes 1000 and 10000, times the fragment length. */
    function Lambda(rs: seq<Read>, rate: real): (t: seq<seq<real>>)
      ensures Fits(genome, t)
    {
      assert ControlPileup.PositiveWidths([1000, 10000]);
      ScaleTrack(genome, params.fragmentLength as real, ControlPileup.Control(rs, [1000, 10000], rate, genome))
    }

    /** The scaled control is at least one fragment length times the rate. */
    lemma LambdaAtLeastRate(rs: seq<Read>, rate: real, i: nat, x: nat)
      requires i < |genome.chroms| && x < genome.chroms[i].size
      ensures Lambda(rs, rate)[i][x] >= params.fragmentLength as real * rate
    {
      Pipeline.ScaledControlAtLeastRate(rs, [1000, 10000], rate, params.fragmentLength as real, genome, i, x);
    }

    /** The log p-value track `get_p_values` computes. */
    function PValues(rs: seq<Read>, logsf: (nat, real) -> real): (t: seq<seq<real>>)
      requires FragmentPileup.AllExtendable(rs, params.fragmentLength) && genome.Size() > 0
      ensures Fits(genome, t)
    {
      Pipeline.TailTrack(genome, GetFragmentPileup(rs), Lambda(rs, Rate()), logsf)
    }

    /**
     * `get_p_values`: the Poisson log-tail of the pileup under the control
     * from window sizes 1000 and 10000 scaled by the fragment length.
     */
    method GetPValues(rs: seq<Read>, logsf: (nat, real) -> real) returns (r: Result<seq<seq<real>>>)
      requires FragmentPileup.AllExtendable(rs, params.fragmentLength)
      ensures r.Err? <==> genome.Size() == 0
      ensures r.Err? ==> r.error == ZeroDivision
      ensures r.Ok? ==> r.value == PValues(rs, logsf)
    {
      var fragmentPileup := GetFragmentPileup(rs);
      assert ControlPileup.PositiveWidths([1000, 10000]);
      var control := GetControlPileup(rs, [1000, 10000]);
      if control.Err? {
        return Err(control.error);
      }
      r := Ok(Pipeline.TailTrack(genome, fragmentPileup, ScaleTrack(genome, params.fragmentLength as real, control.value), logsf));
    }

    /**
     * `call_peaks`: no assertion here, so a track without flagged positions
     * gives no peaks; every peak is at least one fragment length long.
     */
    function CallPeaks(logP: seq<seq<real>>, ln: real -> real): (r: seq<Interval>)
      requires Fits(genome, logP)
      ensures forall iv :: iv in r ==>
        iv.stop - iv.start >= params.fragmentLength && InChrom(logP, ln(params.pValueCutoff), genome, iv)
      ensures !AnyFlagged(logP, ln(params.pValueCutoff), genome) ==> r == []
    {
      var bound := ln(params.pValueCutoff);
      var peaks := PeakCalling.CallPeaks(logP, bound, params.fragmentLength, params.maxGap, genome);
      assert !AnyFlagged(logP, bound, genome) ==> peaks == [] by {
        if !AnyFlagged(logP, bound, genome) {
          NoFlagsNoPeaks(logP, bound, params.fragmentLength, params.maxGap, genome);
        }
      }
      peaks
    }

    /** `run`: the p-values, then the peaks; it fails only on a genome of size 0. */
    method Run(rs: seq<Read>, logsf: (nat, real) -> real, ln: real -> real) returns (r: Result<seq<Interval>>)
      requires FragmentPileup.AllExtendable(rs, params.fragmentLength)
      ensures r.Err? <==> genome.Size() == 0
      ensures r.Ok? ==> r.value == CallPeaks(PValues(rs, logsf), ln)
    {
      var pValues := GetPValues(rs, logsf);
      if pValues.Err? {
        return Err(pValues.error);
      }
      r := Ok(CallPeaks(pValues.value, ln));
    }
  }
}
