/**
 * The `Macs2` pipeline object: the genome and the parameters are fixed when it
 * is built; its methods compute the treatment pileup, the control lambda, the
 * Poisson log-tail track, the peaks and their narrowPeak records, and remove
 * duplicate reads.
 */
module Macs2 {
  import opened Common
  import opened Geometry
  import opened Intervals
  import FragmentPileup
  import ControlPileup
  import opened PeakCalling
  import opened NarrowPeaks

  /** `Macs2Params`; `n_reads` is given (the model has no `None`). */
  datatype Params = Params(fragmentLength: nat, nReads: nat, pValueCutoff: real, maxGap: int)

  /**
   * A Poisson tail function (`logsf`, or `pdtrc` in the one-line pipeline)
   * applied position by position to the pileup and the control. The tail
   * function itself is a parameter of the model.
   */
  function TailTrack(g: Genome, pileup: seq<seq<nat>>, control: seq<seq<real>>, logsf: (nat, real) -> real)
    : (t: seq<seq<real>>)
    requires Fits(g, pileup) && Fits(g, control)
    ensures Fits(g, t)
    ensures forall i, x :: 0 <= i < |g.chroms| && 0 <= x < g.chroms[i].size ==>
      t[i][x] == logsf(pileup[i][x], control[i][x])
  {
    seq(|g.chroms|, i requires 0 <= i < |g.chroms| =>
      seq(g.chroms[i].size, x requires 0 <= x < g.chroms[i].size => logsf(pileup[i][x], control[i][x])))
  }

  /** A peak that passes `InChrom` lies on the chromosome its name finds. */
  lemma InChromLocated(logP: seq<seq<real>>, bound: real, g: Genome, iv: Interval)
    requires g.Valid() && Fits(g, logP) && InChrom(logP, bound, g, iv)
    ensures Located(g, iv)
  {
    var i :| 0 <= i < |g.chroms| && iv.chrom == g.chroms[i].name &&
      0 <= iv.start < iv.stop <= g.chroms[i].size &&
      logP[i][iv.start] < bound && logP[i][iv.stop - 1] < bound;
    IndexOfValid(g, i);
  }
  /** Every called peak lies on a chromosome of the genome and inside it. */
  lemma PeaksLocated(logP: seq<seq<real>>, bound: real, minLength: int, maxGap: int, g: Genome)
    requires g.Valid() && Fits(g, logP)
    ensures forall k :: 0 <= k < |CallPeaks(logP, bound, minLength, maxGap, g)| ==>
      Located(g, CallPeaks(logP, bound, minLength, maxGap, g)[k])
  {
    var peaks := CallPeaks(logP, bound, minLength, maxGap, g);
    forall k | 0 <= k < |peaks| ensures Located(g, peaks[k]) {
      assert peaks[k] in peaks;
      InChromLocated(logP, bound, g, peaks[k]);
    }
  }


  /** The control scaled by `k >= 0` is at least `k` times the rate. */
  lemma ScaledControlAtLeastRate(rs: seq<Read>, ws: seq<int>, rate: real, k: real, g: Genome, i: nat, x: nat)
    requires ControlPileup.PositiveWidths(ws) && k >= 0.0
    requires i < |g.chroms| && x < g.chroms[i].size
    ensures ScaleTrack(g, k, ControlPileup.Control(rs, ws, rate, g))[i][x] >= k * rate
  {
    var c := ControlPileup.Control(rs, ws, rate, g);
    assert c[i][x] >= rate by {
      ControlPileup.ControlIsMaximum(rs, ws, rate, g, i, x);
    }
    ScaleKeepsLowerBound(g, k, c, rate, i, x);
  }

  // ---------------------------------------------------------------------------
  // Removing duplicate reads
  // ---------------------------------------------------------------------------

  /** `b` repeats `a`: same start, and with `byChrom` also the same chromosome. */
  predicate Repeats(a: Read, b: Read, byChrom: bool) {
    a.start == b.start && (byChrom ==> a.chrom == b.chrom)
  }

  /** Neighbours j and j + 1 of `s` are different reads in the sense of `Repeats`. */
  predicate DistinctAt(s: seq<Read>, j: nat, byChrom: bool)
    requires j < |s| - 1
  {
    !Repeats(s[j], s[j + 1], byChrom)
  }

  /** No read repeats the read before it. */
  predicate NoAdjacentRepeats(s: seq<Read>, byChrom: bool) {
    forall j :: 0 <= j < |s| - 1 ==> DistinctAt(s, j, byChrom)
  }

  /**
   * The boolean index of `dedup`: `True` in front of the comparisons of every
   * read with its predecessor. For no reads it still holds that one `True`.
   */
  function Mask(s: seq<Read>, byChrom: bool): (m: seq<bool>)
    ensures |m| == if s == [] then 1 else |s|
    ensures m[0]
    ensures forall k :: 1 <= k < |m| ==> (m[k] <==> !Repeats(s[k - 1], s[k], byChrom))
  {
    [true] + seq(if s == [] then 0 else |s| - 1, k requires 0 <= k < |s| - 1 => !Repeats(s[k], s[k + 1], byChrom))
  }

  /** Boolean indexing `s[m]`: the entries whose mask entry is set, in order. */
  function Select<T>(s: seq<T>, m: seq<bool>): (r: seq<T>)
    requires |m| == |s|
    ensures |r| <= |s|
  {
    if s == [] then [] else (if m[0] then [s[0]] else []) + Select(s[1..], m[1..])
  }

  lemma {:induction false} SelectAppend<T>(s: seq<T>, m: seq<bool>, x: T, b: bool)
    requires |m| == |s|
    ensures Select(s + [x], m + [b]) == Select(s, m) + (if b then [x] else [])
  {
    if s != [] {
      assert (s + [x])[1..] == s[1..] + [x];
      assert (m + [b])[1..] == m[1..] + [b];
      SelectAppend(s[1..], m[1..], x, b);
    }
  }

  /**
   * Reference definition: walk the reads left to right and keep each one that
   * does not repeat the read just before it. The first read is kept, and the
   * last kept read repeats the last read.
   */
  function DropRepeats(s: seq<Read>, byChrom: bool): (r: seq<Read>)
    ensures |r| <= |s|
    ensures s != [] ==> r != [] && r[0] == s[0] && Repeats(r[|r| - 1], s[|s| - 1], byChrom)
    decreases |s|
  {
    if |s| <= 1 then s
    else
      var front := DropRepeats(s[..|s| - 1], byChrom);
      if Repeats(s[|s| - 2], s[|s| - 1], byChrom) then front else front + [s[|s| - 1]]
  }

  /** Every kept read is one of the reads. */
  lemma {:induction false} DropRepeatsKeepsOnlyReads(s: seq<Read>, byChrom: bool, j: nat)
    requires j < |DropRepeats(s, byChrom)|
    ensures DropRepeats(s, byChrom)[j] in s
    decreases |s|
  {
    if |s| > 1 {
      var front := s[..|s| - 1];
      var f := DropRepeats(front, byChrom);
      if j < |f| {
        DropRepeatsKeepsOnlyReads(front, byChrom, j);
        assert f[j] in front;
      }
    }
  }

  /** No kept read repeats the kept read before it. */
  lemma {:induction false} DropRepeatsNoAdjacent(s: seq<Read>, byChrom: bool)
    ensures NoAdjacentRepeats(DropRepeats(s, byChrom), byChrom)
    decreases |s|
  {
    if |s| > 1 {
      var front := s[..|s| - 1];
      var f := DropRepeats(front, byChrom);
      DropRepeatsNoAdjacent(front, byChrom);
      if !Repeats(s[|s| - 2], s[|s| - 1], byChrom) {
        var r := f + [s[|s| - 1]];
        forall j | 0 <= j < |r| - 1 ensures DistinctAt(r, j, byChrom) {
          if j < |f| - 1 {
            assert DistinctAt(f, j, byChrom);
          } else {
            assert Repeats(f[|f| - 1], front[|front| - 1], byChrom);
          }
        }
      }
    }
  }

  lemma MaskAppend(front: seq<Read>, last: Read, byChrom: bool)
    requires front != []
    ensures Mask(front + [last], byChrom) == Mask(front, byChrom) + [!Repeats(front[|front| - 1], last, byChrom)]
  {
    var s := front + [last];
    var a, b := Mask(s, byChrom), Mask(front, byChrom) + [!Repeats(front[|front| - 1], last, byChrom)];
    assert |a| == |b|;
    forall k | 1 <= k < |a| ensures a[k] == b[k] {
      assert s[k - 1] == front[k - 1];
      if k < |front| {
        assert s[k] == front[k];
      }
    }
  }

  /** The boolean index selects exactly the reads the reference definition keeps. */
  lemma {:induction false} SelectMaskIsDropRepeats(s: seq<Read>, byChrom: bool)
    requires s != []
    ensures Select(s, Mask(s, byChrom)) == DropRepeats(s, byChrom)
    decreases |s|
  {
    if |s| == 1 {
      assert Select(s, Mask(s, byChrom)) == [s[0]] + Select(s[1..], Mask(s, byChrom)[1..]);
    } else {
      var front := s[..|s| - 1];
      var last := s[|s| - 1];
      var keep := !Repeats(s[|s| - 2], last, byChrom);
      var m := Mask(front, byChrom);
      assert s == front + [last] && front[|front| - 1] == s[|s| - 2];
      calc {
        Select(s, Mask(s, byChrom));
        == { MaskAppend(front, last, byChrom); }
        Select(front + [last], m + [keep]);
        == { SelectAppend(front, m, last, keep); }
        Select(front, m) + (if keep then [last] else []);
        == { SelectMaskIsDropRepeats(front, byChrom); }
        DropRepeats(front, byChrom) + (if keep then [last] else []);
        == DropRepeats(s, byChrom);
      }
    }
  }

  /** Every read has a kept read that it repeats: no start (position) disappears. */
  lemma {:induction false} DropRepeatsKeepsEveryKey(s: seq<Read>, byChrom: bool, k: nat)
    requires k < |s|
    ensures exists j :: 0 <= j < |DropRepeats(s, byChrom)| && Repeats(DropRepeats(s, byChrom)[j], s[k], byChrom)
    decreases |s|
  {
    var r := DropRepeats(s, byChrom);
    if k == |s| - 1 {
      assert Repeats(r[|r| - 1], s[k], byChrom);
    } else {
      var front := s[..|s| - 1];
      DropRepeatsKeepsEveryKey(front, byChrom, k);
      var f := DropRepeats(front, byChrom);
      var j :| 0 <= j < |f| && Repeats(f[j], front[k], byChrom);
      assert r[j] == f[j];
    }
  }

  /** Removing repeats from reads without adjacent repeats changes nothing; so dedup is idempotent. */
  lemma {:induction false} DropRepeatsIdempotent(s: seq<Read>, byChrom: bool)
    ensures DropRepeats(DropRepeats(s, byChrom), byChrom) == DropRepeats(s, byChrom)
  {
    DropRepeatsNoAdjacent(s, byChrom);
    DropRepeatsOfDistinctNeighbours(DropRepeats(s, byChrom), byChrom);
  }

  lemma {:induction false} DropRepeatsOfDistinctNeighbours(s: seq<Read>, byChrom: bool)
    requires NoAdjacentRepeats(s, byChrom)
    ensures DropRepeats(s, byChrom) == s
    decreases |s|
  {
    if |s| > 1 {
      var front := s[..|s| - 1];
      forall j | 0 <= j < |front| - 1 ensures DistinctAt(front, j, byChrom) {
        assert DistinctAt(s, j, byChrom);
      }
      DropRepeatsOfDistinctNeighbours(front, byChrom);
      assert DistinctAt(s, |s| - 2, byChrom);
      assert DropRepeats(s, byChrom) == DropRepeats(front, byChrom) + [s[|s| - 1]];
      assert s == front + [s[|s| - 1]];
    }
  }

  /**
   * Removal of duplicates by position: a read is dropped when it has the same
   * chromosome and start as the read before it. No reads give no reads.
   */
  function DedupByPosition(sorted: seq<Read>): (r: seq<Read>)
    ensures |r| <= |sorted| && (sorted == [] <==> r == [])
    ensures sorted != [] ==> r[0] == sorted[0]
    ensures forall j :: 0 <= j < |r| ==> r[j] in sorted
    ensures NoAdjacentRepeats(r, true)
  {
    var r := DropRepeats(sorted, true);
    DropRepeatsNoAdjacent(sorted, true);
    forall j | 0 <= j < |r| ensures r[j] in sorted {
      DropRepeatsKeepsOnlyReads(sorted, true, j);
    }
    r
  }

  /** Every (chromosome, start) of the input is kept by some read. */
  lemma DedupByPositionKeepsEveryPosition(sorted: seq<Read>, k: nat)
    requires k < |sorted|
    ensures exists j :: 0 <= j < |DedupByPosition(sorted)| && Repeats(DedupByPosition(sorted)[j], sorted[k], true)
  {
    DropRepeatsKeepsEveryKey(sorted, true, k);
    assert DedupByPosition(sorted) == DropRepeats(sorted, true);
  }

  /** A read on the next chromosome with the same start is dropped by the start-only comparison. */
  lemma DedupDropsOtherChromosome()
    ensures var s := [Read("chr1", 100, 150, Plus), Read("chr2", 100, 150, Plus)];
      DedupAsWritten(s) == Ok([s[0]]) && DedupByPosition(s) == s
  {
    var s := [Read("chr1", 100, 150, Plus), Read("chr2", 100, 150, Plus)];
    assert s[..1] == [s[0]];
    SelectMaskIsDropRepeats(s, false);
    assert "chr1" != "chr2" by {
      assert "chr1"[3] != "chr2"[3];
    }
  }

  /** With no reads the one-entry mask does not fit, and the as-written dedup fails. */
  lemma DedupOfNoReadsFails()
    ensures DedupAsWritten([]) == Err(MaskLengthMismatch) && DedupByPosition([]) == []
  {
  }

  /**
   * `dedup` as written, on the sorted reads: keep a read unless its start
   * equals its predecessor's start (the chromosome is not compared); the
   * mask holds one entry even for no reads, which the indexing rejects.
   */
  function DedupAsWritten(sorted: seq<Read>): (r: Result<seq<Read>>)
    ensures sorted == [] <==> r == Err(MaskLengthMismatch)
    ensures r.Ok? ==> r.value == DropRepeats(sorted, false)
  {
    var m := Mask(sorted, false);
    if |m| != |sorted| then Err(MaskLengthMismatch)
    else
      SelectMaskIsDropRepeats(sorted, false);
      Ok(Select(sorted, m))
  }

  // ---------------------------------------------------------------------------
  // The pipeline object
  // ---------------------------------------------------------------------------

  class Macs2 {
    const genome: Genome
    const params: Params

    constructor(genome: Genome, params: Params)
      requires genome.Valid()
      ensures this.genome == genome && this.params == params
    {
      this.genome := genome;
      this.params := params;
    }

    /**
     * `dedup`: the reads are put in the library's sorted order (`sort`, a
     * parameter), then every read with the same chromosome and start as its
     * predecessor is dropped. This is the corrected comparison; the
     * start-only one as written is `DedupAsWritten`.
     */
    function Dedup(rs: seq<Read>, sort: seq<Read> -> seq<Read>): (r: seq<Read>)
      requires multiset(sort(rs)) == multiset(rs)
      ensures |r| <= |rs| && (r == [] <==> rs == [])
      ensures r != [] ==> r[0] == sort(rs)[0]
      ensures NoAdjacentRepeats(r, true)
      ensures forall j :: 0 <= j < |r| ==> r[j] in rs
      ensures forall k :: 0 <= k < |rs| ==> exists j :: 0 <= j < |r| && Repeats(r[j], rs[k], true)
    {
      var s := sort(rs);
      var r := DedupByPosition(s);
      assert |s| == |rs| by {
        assert |multiset(s)| == |multiset(rs)|;
      }
      forall j | 0 <= j < |r| ensures r[j] in rs {
        assert r[j] in multiset(s);
      }
      forall k | 0 <= k < |rs| ensures exists j :: 0 <= j < |r| && Repeats(r[j], rs[k], true) {
        assert rs[k] in multiset(s);
        var i :| 0 <= i < |s| && s[i] == rs[k];
        DedupByPositionKeepsEveryPosition(s, i);
      }
      r
    }

    /** `get_fragment_pileup`: the number of same-chromosome fragments over every position. */
    function GetFragmentPileup(rs: seq<Read>): (t: seq<seq<nat>>)
      requires FragmentPileup.AllExtendable(rs, params.fragmentLength)
      ensures Fits(genome, t)
      ensures forall i, x :: 0 <= i < |genome.chroms| && 0 <= x < genome.chroms[i].size ==>
        t[i][x] == Coverage(FragmentPileup.Fragments(rs, params.fragmentLength), genome.chroms[i].name, x)
    {
      FragmentPileup.GetFragmentPileup(rs, params.fragmentLength, genome)
    }

    /** `n_reads / geometry.size()`. */
    function Rate(): real
      requires genome.Size() > 0
    {
      params.nReads as real / genome.Size() as real
    }

    /** The control lambda the loop of `get_control_pileup` computes, scaled by the fragment length. */
    function Lambda(rs: seq<Read>, ws: seq<int>, rate: real): (t: seq<seq<real>>)
      requires ControlPileup.PositiveWidths(ws)
      ensures Fits(genome, t)
    {
      ScaleTrack(genome, params.fragmentLength as real, ControlPileup.Control(rs, ws, rate, genome))
    }

    /**
     * `get_control_pileup`: the running maximum of the read rate and the
     * window averages, times the fragment length. A genome of size 0 makes
     * the rate a division by zero.
     */
    method GetControlPileup(rs: seq<Read>, ws: seq<int>) returns (r: Result<seq<seq<real>>>)
      requires ControlPileup.PositiveWidths(ws)
      ensures r.Err? <==> genome.Size() == 0
      ensures r.Err? ==> r.error == ZeroDivision
      ensures r.Ok? ==> r.value == Lambda(rs, ws, Rate())
    {
      if genome.Size() == 0 {
        return Err(ZeroDivision);
      }
      var pileup := ConstTrack(genome, Rate());
      for k := 0 to |ws|
        invariant pileup == ControlPileup.Control(rs, ws[..k], Rate(), genome)
      {
        assert ws[..k + 1][..k] == ws[..k];
        var avgPileup := ControlPileup.AveragePileup(rs, ws[k], genome);
        pileup := MaxTrack(genome, pileup, avgPileup);
      }
      assert ws[..|ws|] == ws;
      r := Ok(ScaleTrack(genome, params.fragmentLength as real, pileup));
    }

    /** The control lambda is at least the fragment length times the read rate everywhere. */
    lemma LambdaAtLeastRate(rs: seq<Read>, ws: seq<int>, rate: real, i: nat, x: nat)
      requires ControlPileup.PositiveWidths(ws)
      requires i < |genome.chroms| && x < genome.chroms[i].size
      ensures Lambda(rs, ws, rate)[i][x] >= params.fragmentLength as real * rate
    {
      ScaledControlAtLeastRate(rs, ws, rate, params.fragmentLength as real, genome, i, x);
    }

    /**
     * `call_peaks`: positions whose log p-value is below `log(p_value_cutoff)`
     * are flagged; it fails when no position is flagged, and otherwise
     * returns the merged runs at least one fragment length long.
     */
    function CallPeaks(logP: seq<seq<real>>, ln: real -> real): (r: Result<seq<Interval>>)
      requires Fits(genome, logP)
      ensures r.Err? <==> !AnyFlagged(logP, ln(params.pValueCutoff), genome)
      ensures r.Err? ==> r.error == NoFlaggedPositions
      ensures r.Ok? ==> forall iv :: iv in r.value ==>
        iv.stop - iv.start >= params.fragmentLength && InChrom(logP, ln(params.pValueCutoff), genome, iv)
    {
      var bound := ln(params.pValueCutoff);
      ToIntervalsEmptyIffNothingFlagged(logP, bound, genome);
      if ToIntervals(logP, bound, genome) == [] then Err(NoFlaggedPositions)
      else Ok(PeakCalling.CallPeaks(logP, bound, params.fragmentLength, params.maxGap, genome))
    }

    /** `get_narrow_peak`: one record per peak, named `peak_1`, `peak_2`, ... in peak order. */
    function GetNarrowPeak(peaks: seq<Interval>, signal: seq<seq<real>>): (r: seq<NarrowPeak>)
      requires Fits(genome, signal) && forall k :: 0 <= k < |peaks| ==> Located(genome, peaks[k])
      ensures |r| == |peaks|
      ensures forall k :: 0 <= k < |r| ==>
        r[k].name == PeakName(k + 1) &&
        r[k].chrom == peaks[k].chrom && r[k].start == peaks[k].start && r[k].stop == peaks[k].stop
    {
      NarrowPeaks.GetNarrowPeak(peaks, signal, genome)
    }

    /** The log p-value track of `run`: window size 10000 only. */
    function PScores(rs: seq<Read>, logsf: (nat, real) -> real): (t: seq<seq<real>>)
      requires FragmentPileup.AllExtendable(rs, params.fragmentLength) && genome.Size() > 0
      ensures Fits(genome, t)
    {
      TailTrack(genome, GetFragmentPileup(rs), Lambda(rs, [10000], Rate()), logsf)
    }

    /**
     * `run`: pileup, control with a 10000 window, Poisson log-tail, peaks and
     * records whose signal is the p-score in -log10 units (`log10e` is
     * log10(e)). It fails on a genome of size 0 and when nothing is flagged;
     * otherwise every record covers a peak at least one fragment long.
     */
    method Run(rs: seq<Read>, logsf: (nat, real) -> real, ln: real -> real, log10e: real)
      returns (r: Result<seq<NarrowPeak>>)
      requires genome.Valid() && FragmentPileup.AllExtendable(rs, params.fragmentLength)
      ensures genome.Size() == 0 <==> r == Err(ZeroDivision)
      ensures genome.Size() > 0 ==>
        (r == Err(NoFlaggedPositions) <==> !AnyFlagged(PScores(rs, logsf), ln(params.pValueCutoff), genome))
      ensures genome.Size() > 0 && AnyFlagged(PScores(rs, logsf), ln(params.pValueCutoff), genome) ==> r.Ok?
      ensures r.Ok? ==> genome.Size() > 0
      ensures r.Ok? ==> (
        var peaks := PeakCalling.CallPeaks(PScores(rs, logsf), ln(params.pValueCutoff), params.fragmentLength,
                                           params.maxGap, genome);
        |r.value| == |peaks| &&
        forall k :: 0 <= k < |peaks| ==>
          r.value[k].chrom == peaks[k].chrom && r.value[k].start == peaks[k].start && r.value[k].stop == peaks[k].stop)
      ensures r.Ok? ==> forall k :: 0 <= k < |r.value| ==>
        r.value[k].stop - r.value[k].start >= params.fragmentLength && r.value[k].name == PeakName(k + 1)
      ensures r.Ok? ==> (
        var pScores := PScores(rs, logsf);
        PeaksLocated(pScores, ln(params.pValueCutoff), params.fragmentLength, params.maxGap, genome);
        r.value == NarrowPeaks.GetNarrowPeak(
          PeakCalling.CallPeaks(pScores, ln(params.pValueCutoff), params.fragmentLength, params.maxGap, genome),
          ScaleTrack(genome, -log10e, pScores), genome))
    {
      var fragmentPileup := GetFragmentPileup(rs);
      var control := GetControlPileup(rs, [10000]);
      if control.Err? {
        return Err(control.error);
      }
      var pScores := TailTrack(genome, fragmentPileup, control.value, logsf);
      assert pScores == PScores(rs, logsf);
      var peaks := CallPeaks(pScores, ln);
      if peaks.Err? {
        return Err(peaks.error);
      }
      forall k | 0 <= k < |peaks.value|
        ensures Located(genome, peaks.value[k])
      {
        assert peaks.value[k] in peaks.value;
        InChromLocated(pScores, ln(params.pValueCutoff), genome, peaks.value[k]);
      }
      r := Ok(GetNarrowPeak(peaks.value, ScaleTrack(genome, -log10e, pScores)));
      forall k | 0 <= k < |r.value|
        ensures r.value[k].stop - r.value[k].start >= params.fragmentLength
      {
        assert peaks.value[k] in peaks.value;
      }
    }
  }
}
