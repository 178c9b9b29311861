/**
 * `to_intervals` on a boolean track: the maximal runs of true positions of one
 * chromosome, left to right.
 */
module BoolRuns {
  import opened Intervals

  /** Every position of [start, stop) is flagged. */
  predicate AllFlagged(f: seq<bool>, start: int, stop: int)
    requires 0 <= start && stop <= |f|
  {
    forall y :: start <= y < stop ==> f[y]
  }

  /** [start, stop) is a maximal run of flagged positions of `f`. */
  predicate IsRun(f: seq<bool>, start: int, stop: int) {
    0 <= start < stop <= |f| && AllFlagged(f, start, stop) &&
    (start == 0 || !f[start - 1]) && (stop == |f| || !f[stop])
  }

  /** The end of the run that starts at flagged position k. */
  function RunEnd(f: seq<bool>, k: nat): (e: nat)
    requires k < |f| && f[k]
    ensures k < e <= |f| && AllFlagged(f, k, e) && (e == |f| || !f[e])
    decreases |f| - k
  {
    if k + 1 < |f| && f[k + 1] then RunEnd(f, k + 1) else k + 1
  }

  /** The runs of `f` that start at position k or later; position k - 1, if any, is not flagged. */
  function RunsFrom(f: seq<bool>, c: string, k: nat): (r: seq<Interval>)
    requires k <= |f| && (k == 0 || !f[k - 1])
    ensures forall j :: 0 <= j < |r| ==> r[j].chrom == c && k <= r[j].start && IsRun(f, r[j].start, r[j].stop)
    ensures forall j :: 0 <= j < |r| - 1 ==> r[j].stop < r[j + 1].start
    decreases |f| - k
  {
    if k == |f| then []
    else if !f[k] then RunsFrom(f, c, k + 1)
    else
      var e := RunEnd(f, k);
      if e == |f| then [Interval(c, k, e)]
      else [Interval(c, k, e)] + RunsFrom(f, c, e + 1)
  }

  /** Every flagged position from k on lies in one of the runs. */
  lemma {:induction false} RunsFromComplete(f: seq<bool>, c: string, k: nat, x: nat)
    requires k <= |f| && (k == 0 || !f[k - 1])
    requires k <= x < |f| && f[x]
    ensures InSome(RunsFrom(f, c, k), x)
    decreases |f| - k
  {
    if !f[k] {
      RunsFromComplete(f, c, k + 1, x);
    } else {
      var e := RunEnd(f, k);
      if x < e {
        assert RunsFrom(f, c, k)[0] == Interval(c, k, e);
      } else {
        RunsFromComplete(f, c, e + 1, x);
        InSomeAfter([Interval(c, k, e)], RunsFrom(f, c, e + 1), x);
      }
    }
  }

  /** `to_intervals` for one chromosome. */
  function Runs(f: seq<bool>, c: string): (r: seq<Interval>)
    ensures forall j :: 0 <= j < |r| ==> r[j].chrom == c && IsRun(f, r[j].start, r[j].stop)
    ensures forall j :: 0 <= j < |r| - 1 ==> r[j].stop < r[j + 1].start
  {
    RunsFrom(f, c, 0)
  }

  /**
   * The runs are the maximal flagged stretches, sorted and apart from each
   * other, and together they cover every flagged position.
   */
  lemma RunsCoverFlags(f: seq<bool>, c: string, x: nat)
    requires x < |f| && f[x]
    ensures InSome(Runs(f, c), x)
  {
    RunsFromComplete(f, c, 0, x);
  }

  /** There are no runs exactly when no position is flagged. */
  lemma RunsEmptyIffNothingFlagged(f: seq<bool>, c: string)
    ensures Runs(f, c) == [] <==> forall x :: 0 <= x < |f| ==> !f[x]
  {
    var r := Runs(f, c);
    if r != [] {
      assert IsRun(f, r[0].start, r[0].stop);
      assert f[r[0].start];
    }
    if exists x :: 0 <= x < |f| && f[x] {
      var x :| 0 <= x < |f| && f[x];
      RunsCoverFlags(f, c, x);
    }
  }
}
