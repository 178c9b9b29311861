/**
 * `merge_intervals(intervals, distance=max_gap)` on the sorted intervals of one
 * chromosome: neighbours whose gap is at most `max_gap` are joined.
 */
module MergeIntervals {
  import opened Intervals

  /** Every interval is non-empty; the intervals are sorted and do not overlap. */
  predicate Ordered(ivs: seq<Interval>) {
    (forall j :: 0 <= j < |ivs| ==> ivs[j].start < ivs[j].stop) &&
    (forall j :: 0 <= j < |ivs| - 1 ==> SortedAt(ivs, j))
  }

  predicate SortedAt(ivs: seq<Interval>, j: nat)
    requires j < |ivs| - 1
  {
    ivs[j].stop <= ivs[j + 1].start
  }

  /** All intervals lie on one chromosome. */
  predicate SameChrom(ivs: seq<Interval>) {
    forall j :: 0 <= j < |ivs| ==> ivs[j].chrom == ivs[0].chrom
  }

  /** Consecutive intervals are more than `d` apart. */
  predicate Separated(ivs: seq<Interval>, d: int) {
    forall j :: 0 <= j < |ivs| - 1 ==> ApartAt(ivs, j, d)
  }

  predicate ApartAt(ivs: seq<Interval>, j: nat, d: int)
    requires j < |ivs| - 1
  {
    ivs[j + 1].start - ivs[j].stop > d
  }

  predicate StartsOne(ivs: seq<Interval>, s: int) {
    exists j :: 0 <= j < |ivs| && ivs[j].start == s
  }

  predicate StopsOne(ivs: seq<Interval>, s: int) {
    exists j :: 0 <= j < |ivs| && ivs[j].stop == s
  }

  /** Position x lies in a gap of at most `d` between two consecutive intervals. */
  predicate InShortGap(ivs: seq<Interval>, x: int, d: int) {
    exists j :: 0 <= j < |ivs| - 1 && InGapAt(ivs, j, x) && !ApartAt(ivs, j, d)
  }

  predicate InGapAt(ivs: seq<Interval>, j: nat, x: int)
    requires j < |ivs| - 1
  {
    ivs[j].stop <= x < ivs[j + 1].start
  }

  lemma TailOrdered(ivs: seq<Interval>, d: int)
    requires Ordered(ivs) && SameChrom(ivs) && |ivs| > 0
    ensures Ordered(ivs[1..]) && SameChrom(ivs[1..])
    ensures Separated(ivs, d) ==> Separated(ivs[1..], d)
  {
    forall j | 0 <= j < |ivs| - 2 ensures SortedAt(ivs[1..], j) {
      assert SortedAt(ivs, j + 1);
    }
    if Separated(ivs, d) {
      forall j | 0 <= j < |ivs| - 2 ensures ApartAt(ivs[1..], j, d) {
        assert ApartAt(ivs, j + 1, d);
      }
    }
  }

  /** Putting an interval in front of merged intervals that lie after it, far enough away. */
  lemma ConsOrdered(h: Interval, rest: seq<Interval>, d: int)
    requires Ordered(rest) && SameChrom(rest) && Separated(rest, d) && h.start < h.stop
    requires rest != [] ==> h.chrom == rest[0].chrom && h.stop <= rest[0].start && rest[0].start - h.stop > d
    ensures Ordered([h] + rest) && SameChrom([h] + rest) && Separated([h] + rest, d)
  {
    var r := [h] + rest;
    forall j | 1 <= j < |r| - 1 ensures SortedAt(r, j) && ApartAt(r, j, d) {
      assert SortedAt(rest, j - 1) && ApartAt(rest, j - 1, d);
    }
  }

  /** Replacing the first of some merged intervals by one that starts earlier. */
  lemma ExtendHead(h: Interval, rest: seq<Interval>, d: int)
    requires Ordered(rest) && SameChrom(rest) && Separated(rest, d) && rest != []
    requires h.chrom == rest[0].chrom && h.start < h.stop && h.stop == rest[0].stop
    ensures Ordered([h] + rest[1..]) && SameChrom([h] + rest[1..]) && Separated([h] + rest[1..], d)
  {
    var r := [h] + rest[1..];
    forall j | 0 <= j < |r| - 1 ensures SortedAt(r, j) && ApartAt(r, j, d) {
      assert SortedAt(rest, j) && ApartAt(rest, j, d);
    }
  }

  /**
   * The merge. The gap bound is inclusive: neighbours whose gap
   * `next.start - current.stop` is at most `d` are joined. Every merged interval
   * starts where an input interval starts and stops where one stops; the result
   * is sorted and its neighbours are more than `d` apart.
   */
  function Merge(ivs: seq<Interval>, d: int): (r: seq<Interval>)
    requires Ordered(ivs) && SameChrom(ivs)
    ensures Ordered(r) && SameChrom(r) && Separated(r, d)
    ensures |r| <= |ivs|
    ensures |ivs| > 0 ==> |r| > 0 && r[0].start == ivs[0].start && r[0].chrom == ivs[0].chrom
    decreases |ivs|
  {
    if |ivs| <= 1 then ivs
    else
      TailOrdered(ivs, d);
      var rest := Merge(ivs[1..], d);
      assert SortedAt(ivs, 0);
      if rest[0].start - ivs[0].stop <= d then
        var h := Interval(ivs[0].chrom, ivs[0].start, rest[0].stop);
        ExtendHead(h, rest, d);
        [h] + rest[1..]
      else
        ConsOrdered(ivs[0], rest, d);
        [ivs[0]] + rest
  }

  /** Every merged interval starts where an input interval starts and stops where one stops. */
  lemma {:induction false} MergeEndpoints(ivs: seq<Interval>, d: int, j: nat)
    requires Ordered(ivs) && SameChrom(ivs) && j < |Merge(ivs, d)|
    ensures StartsOne(ivs, Merge(ivs, d)[j].start) && StopsOne(ivs, Merge(ivs, d)[j].stop)
    decreases |ivs|
  {
    var r := Merge(ivs, d);
    if |ivs| <= 1 {
      assert r[j] == ivs[j];
    } else {
      var tail := ivs[1..];
      TailOrdered(ivs, d);
      var rest := Merge(tail, d);
      if rest[0].start - ivs[0].stop <= d {
        assert r == [Interval(ivs[0].chrom, ivs[0].start, rest[0].stop)] + rest[1..];
        if j == 0 {
          assert ivs[0].start == r[0].start;
          MergeEndpoints(tail, d, 0);
          var k :| 0 <= k < |tail| && tail[k].stop == rest[0].stop;
          assert ivs[k + 1].stop == r[0].stop;
        } else {
          assert r[j] == rest[j];
          MergeEndpoints(tail, d, j);
          var k :| 0 <= k < |tail| && tail[k].start == rest[j].start;
          var k' :| 0 <= k' < |tail| && tail[k'].stop == rest[j].stop;
          assert ivs[k + 1].start == r[j].start && ivs[k' + 1].stop == r[j].stop;
        }
      } else {
        assert r == [ivs[0]] + rest;
        if j > 0 {
          assert r[j] == rest[j - 1];
          MergeEndpoints(tail, d, j - 1);
          var k :| 0 <= k < |tail| && tail[k].start == rest[j - 1].start;
          var k' :| 0 <= k' < |tail| && tail[k'].stop == rest[j - 1].stop;
          assert ivs[k + 1].start == r[j].start && ivs[k' + 1].stop == r[j].stop;
        }
      }
    }
  }

  /** One step of the merge: the first interval is joined to the merged rest, or put in front of it. */
  lemma MergeStep(ivs: seq<Interval>, d: int)
    requires Ordered(ivs) && SameChrom(ivs) && |ivs| > 1
    ensures Ordered(ivs[1..]) && SameChrom(ivs[1..])
    ensures var rest := Merge(ivs[1..], d);
      rest != [] && ivs[0].stop <= rest[0].start && rest[0].start < rest[0].stop &&
      (rest[0].start - ivs[0].stop <= d ==>
        Merge(ivs, d) == [Interval(ivs[0].chrom, ivs[0].start, rest[0].stop)] + rest[1..]) &&
      (rest[0].start - ivs[0].stop > d ==> Merge(ivs, d) == [ivs[0]] + rest)
  {
    TailOrdered(ivs, d);
    assert SortedAt(ivs, 0);
  }

  /** Merging never loses a covered position. */
  lemma {:induction false} MergeKeepsCoverage(ivs: seq<Interval>, d: int, x: int)
    requires Ordered(ivs) && SameChrom(ivs) && InSome(ivs, x)
    ensures InSome(Merge(ivs, d), x)
    decreases |ivs|
  {
    var r := Merge(ivs, d);
    if |ivs| > 1 {
      var tail := ivs[1..];
      MergeStep(ivs, d);
      var rest := Merge(tail, d);
      var joined := rest[0].start - ivs[0].stop <= d;
      var k :| 0 <= k < |ivs| && ivs[k].start <= x < ivs[k].stop;
      if k == 0 {
        assert r[0].start <= x < r[0].stop;
      } else {
        assert tail[k - 1] == ivs[k];
        MergeKeepsCoverage(tail, d, x);
        var j :| 0 <= j < |rest| && rest[j].start <= x < rest[j].stop;
        if !joined {
          InSomeAfter([ivs[0]], rest, x);
        } else if j == 0 {
          assert r[0].start <= x < r[0].stop;
        } else {
          assert rest[1..][j - 1] == rest[j];
          InSomeAfter([Interval(ivs[0].chrom, ivs[0].start, rest[0].stop)], rest[1..], x);
        }
      }
    }
  }

  /** A merged interval covers only input positions and gaps of at most `d` between them. */
  lemma {:induction false} MergeOnlyFillsShortGaps(ivs: seq<Interval>, d: int, x: int)
    requires Ordered(ivs) && SameChrom(ivs) && InSome(Merge(ivs, d), x)
    ensures InSome(ivs, x) || InShortGap(ivs, x, d)
    decreases |ivs|
  {
    var r := Merge(ivs, d);
    if |ivs| > 1 {
      var tail := ivs[1..];
      TailOrdered(ivs, d);
      var rest := Merge(tail, d);
      var j :| 0 <= j < |r| && r[j].start <= x < r[j].stop;
      var restCovers := false;
      if rest[0].start - ivs[0].stop <= d {
        assert r == [Interval(ivs[0].chrom, ivs[0].start, rest[0].stop)] + rest[1..];
        if j == 0 {
          if x < ivs[0].stop {
            assert ivs[0].start <= x < ivs[0].stop;
          } else if x < ivs[1].start {
            assert InGapAt(ivs, 0, x) && !ApartAt(ivs, 0, d);
          } else {
            assert rest[0].start <= x < rest[0].stop;
            restCovers := true;
          }
        } else {
          assert r[j] == rest[j];
          restCovers := true;
        }
      } else {
        assert r == [ivs[0]] + rest;
        if j == 0 {
          assert ivs[0].start <= x < ivs[0].stop;
        } else {
          assert r[j] == rest[j - 1];
          restCovers := true;
        }
      }
      if restCovers {
        assert InSome(rest, x);
        MergeOnlyFillsShortGaps(tail, d, x);
        if InSome(tail, x) {
          var k :| 0 <= k < |tail| && tail[k].start <= x < tail[k].stop;
          assert ivs[k + 1] == tail[k];
        } else {
          var k :| 0 <= k < |tail| - 1 && InGapAt(tail, k, x) && !ApartAt(tail, k, d);
          assert ivs[k + 1] == tail[k] && ivs[k + 2] == tail[k + 1];
          assert InGapAt(ivs, k + 1, x) && !ApartAt(ivs, k + 1, d);
        }
      }
    }
  }

  /** Intervals already more than `d` apart are left as they are. */
  lemma {:induction false} MergeSeparatedUnchanged(ivs: seq<Interval>, d: int)
    requires Ordered(ivs) && SameChrom(ivs) && Separated(ivs, d)
    ensures Merge(ivs, d) == ivs
    decreases |ivs|
  {
    if |ivs| > 1 {
      var tail := ivs[1..];
      TailOrdered(ivs, d);
      MergeSeparatedUnchanged(tail, d);
      assert ApartAt(ivs, 0, d);
      assert ivs == [ivs[0]] + tail;
    }
  }

  /** Merging the merged intervals again with the same gap changes nothing. */
  lemma MergeIdempotent(ivs: seq<Interval>, d: int)
    requires Ordered(ivs) && SameChrom(ivs)
    ensures Merge(Merge(ivs, d), d) == Merge(ivs, d)
  {
    MergeSeparatedUnchanged(Merge(ivs, d), d);
  }
}
