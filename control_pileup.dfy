/**
 * The control lambda: for every window size, the windows centred on the read
 * starts are piled up and divided by the window size; the control is the
 * elementwise maximum of a global read rate and these local averages.
 */
module ControlPileup {
  import opened Common
  import opened Geometry
  import opened Intervals

  predicate PositiveWidths(ws: seq<int>) {
    forall k :: 0 <= k < |ws| ==> ws[k] > 0
  }

  /**
   * The window of a read: centred on the read's start (its stop and strand play
   * no part), `w` wide for even `w` and `w - 1` wide for odd `w`, because both
   * halves are `w // 2`.
   */
  function Window(r: Read, w: int): (iv: Interval)
    requires w > 0
    ensures iv.chrom == r.chrom
    ensures iv.start + iv.stop == 2 * r.start
    ensures iv.stop - iv.start == if w % 2 == 0 then w else w - 1
  {
    Interval(r.chrom, r.start - w / 2, r.start + w / 2)
  }

  function Windows(rs: seq<Read>, w: int): (ws: seq<Interval>)
    requires w > 0
    ensures |ws| == |rs|
  {
    seq(|rs|, k requires 0 <= k < |rs| => Window(rs[k], w))
  }

  /**
   * `geometry.clip`: an interval on a chromosome of the genome is cut to
   * [0, chromosome size); it is never enlarged. An interval on a chromosome the
   * genome does not name is left as it is (it adds to no chromosome's pileup).
   */
  function Clip(iv: Interval, g: Genome): (r: Interval)
    ensures r.chrom == iv.chrom && r.start >= iv.start && r.stop <= iv.stop
    ensures g.IndexOf(iv.chrom).Some? ==>
      0 <= r.start && r.stop <= g.chroms[g.IndexOf(iv.chrom).value].size
  {
    match g.IndexOf(iv.chrom)
    case None => iv
    case Some(i) =>
      Interval(iv.chrom, if iv.start < 0 then 0 else iv.start,
                         if iv.stop > g.chroms[i].size then g.chroms[i].size else iv.stop)
  }

  function ClipAll(ivs: seq<Interval>, g: Genome): (r: seq<Interval>)
    ensures |r| == |ivs|
  {
    seq(|ivs|, k requires 0 <= k < |ivs| => Clip(ivs[k], g))
  }

  /**
   * `get_average_pileup`: the pileup of the clipped windows divided by the
   * window size.
   */
  function AveragePileup(rs: seq<Read>, w: int, g: Genome): (t: seq<seq<real>>)
    requires w > 0
    ensures Fits(g, t)
  {
    var clipped := ClipAll(Windows(rs, w), g);
    seq(|g.chroms|, i requires 0 <= i < |g.chroms| =>
      seq(g.chroms[i].size, x => Coverage(clipped, g.chroms[i].name, x) as real / w as real))
  }

  /** Inside its chromosome, a clipped interval covers exactly what the interval covered. */
  lemma ClipKeepsInside(iv: Interval, g: Genome, i: nat, x: int)
    requires g.Valid() && i < |g.chroms| && 0 <= x < g.chroms[i].size
    ensures Covers(Clip(iv, g), g.chroms[i].name, x) <==> Covers(iv, g.chroms[i].name, x)
  {
    IndexOfValid(g, i);
  }

  lemma {:induction false} ClipAllKeepsCoverage(ivs: seq<Interval>, g: Genome, i: nat, x: int)
    requires g.Valid() && i < |g.chroms| && 0 <= x < g.chroms[i].size
    ensures Coverage(ClipAll(ivs, g), g.chroms[i].name, x) == Coverage(ivs, g.chroms[i].name, x)
  {
    if ivs != [] {
      assert ClipAll(ivs, g)[1..] == ClipAll(ivs[1..], g);
      ClipKeepsInside(ivs[0], g, i, x);
      ClipAllKeepsCoverage(ivs[1..], g, i, x);
    }
  }

  /**
   * The average at a position is the number of windows (before clipping) that
   * cover it, divided by the full window size even where a window was clipped.
   */
  lemma AverageCountsWindows(rs: seq<Read>, w: int, g: Genome, i: nat, x: nat)
    requires w > 0 && g.Valid() && i < |g.chroms| && x < g.chroms[i].size
    ensures AveragePileup(rs, w, g)[i][x] == Coverage(Windows(rs, w), g.chroms[i].name, x) as real / w as real
  {
    ClipAllKeepsCoverage(Windows(rs, w), g, i, x);
  }

  /**
   * The control before scaling: the running elementwise maximum of the rate
   * and the average pileups, taken in the order of `ws`.
   */
  function Control(rs: seq<Read>, ws: seq<int>, rate: real, g: Genome): (t: seq<seq<real>>)
    requires PositiveWidths(ws)
    ensures Fits(g, t)
    decreases |ws|
  {
    if ws == [] then ConstTrack(g, rate)
    else MaxTrack(g, Control(rs, ws[..|ws| - 1], rate, g), AveragePileup(rs, ws[|ws| - 1], g))
  }

  /**
   * At every position the control is at least the rate and at least every
   * window size's average, and it equals one of them.
   */
  lemma {:induction false} ControlIsMaximum(rs: seq<Read>, ws: seq<int>, rate: real, g: Genome, i: nat, x: nat)
    requires PositiveWidths(ws) && i < |g.chroms| && x < g.chroms[i].size
    ensures Control(rs, ws, rate, g)[i][x] >= rate
    ensures forall k :: 0 <= k < |ws| ==> Control(rs, ws, rate, g)[i][x] >= AveragePileup(rs, ws[k], g)[i][x]
    ensures Control(rs, ws, rate, g)[i][x] == rate ||
            exists k :: 0 <= k < |ws| && Control(rs, ws, rate, g)[i][x] == AveragePileup(rs, ws[k], g)[i][x]
    decreases |ws|
  {
    if ws != [] {
      var front := ws[..|ws| - 1];
      ControlIsMaximum(rs, front, rate, g, i, x);
      var v := Control(rs, ws, rate, g)[i][x];
      var u := Control(rs, front, rate, g)[i][x];
      var last := AveragePileup(rs, ws[|ws| - 1], g)[i][x];
      assert v == if u >= last then u else last;
      forall k | 0 <= k < |ws| ensures v >= AveragePileup(rs, ws[k], g)[i][x] {
        if k < |ws| - 1 {
          assert ws[k] == front[k];
        }
      }
      if v != rate && v == u {
        var k :| 0 <= k < |front| && u == AveragePileup(rs, front[k], g)[i][x];
        assert ws[k] == front[k];
      }
    }
  }

  /**
   * The control depends only on the set of window sizes: their order does not
   * matter and repeated sizes are harmless.
   */
  lemma ControlDependsOnSetOfSizes(rs: seq<Read>, ws1: seq<int>, ws2: seq<int>, rate: real, g: Genome)
    requires PositiveWidths(ws1) && PositiveWidths(ws2)
    requires forall w :: w in ws1 <==> w in ws2
    ensures Control(rs, ws1, rate, g) == Control(rs, ws2, rate, g)
  {
    var t1, t2 := Control(rs, ws1, rate, g), Control(rs, ws2, rate, g);
    forall i | 0 <= i < |g.chroms| ensures t1[i] == t2[i] {
      forall x | 0 <= x < g.chroms[i].size ensures t1[i][x] == t2[i][x] {
        ControlIsMaximum(rs, ws1, rate, g, i, x);
        ControlIsMaximum(rs, ws2, rate, g, i, x);
        if t1[i][x] != rate {
          var k :| 0 <= k < |ws1| && t1[i][x] == AveragePileup(rs, ws1[k], g)[i][x];
          assert ws1[k] in ws2;
          var k' :| 0 <= k' < |ws2| && ws2[k'] == ws1[k];
          assert t2[i][x] >= t1[i][x];
        }
        if t2[i][x] != rate {
          var k :| 0 <= k < |ws2| && t2[i][x] == AveragePileup(rs, ws2[k], g)[i][x];
          assert ws2[k] in ws1;
          var k' :| 0 <= k' < |ws1| && ws1[k'] == ws2[k];
          assert t1[i][x] >= t2[i][x];
        }
      }
    }
  }

  /** `get_control_pileup`: fold the average pileups into a running maximum that starts at the rate. */
  method GetControlPileup(rs: seq<Read>, ws: seq<int>, rate: real, g: Genome) returns (pileup: seq<seq<real>>)
    requires PositiveWidths(ws)
    ensures pileup == Control(rs, ws, rate, g)
  {
    pileup := ConstTrack(g, rate);
    for k := 0 to |ws|
      invariant pileup == Control(rs, ws[..k], rate, g)
    {
      assert ws[..k + 1][..k] == ws[..k];
      var avgPileup := AveragePileup(rs, ws[k], g);
      pileup := MaxTrack(g, pileup, avgPileup);
    }
    assert ws[..|ws|] == ws;
  }
}
