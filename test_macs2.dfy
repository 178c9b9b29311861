/**
 * The dense reference pileup of the test suite, built in place on an array,
 * its agreement with the library pileup, and the four-read scenario on a
 * chromosome `chr1` of 100 positions.
 */
module TestMacs2 {
  import opened Geometry
  import opened Intervals
  import opened FragmentPileup

  /** The dense profile: at each of `size` positions, the number of fragments over it. */
  function DenseProfile(rs: seq<Read>, fragmentLength: nat, size: nat): (p: seq<int>)
    ensures |p| == size
  {
    seq(size, x => Depth(Fragments(rs, fragmentLength), x))
  }

  lemma FragmentsSnoc(rs: seq<Read>, r: Read, fragmentLength: nat)
    ensures Fragments(rs + [r], fragmentLength) == Fragments(rs, fragmentLength) + [Extend(r, fragmentLength)]
  {
  }

  /** One more read adds its own fragment's depth at every position. */
  lemma DepthSnoc(rs: seq<Read>, r: Read, fragmentLength: nat, x: int)
    ensures Depth(Fragments(rs + [r], fragmentLength), x) ==
      Depth(Fragments(rs, fragmentLength), x) + (if Covers(Extend(r, fragmentLength), r.chrom, x) then 1 else 0)
  {
    FragmentsSnoc(rs, r, fragmentLength);
    DepthAppend(Fragments(rs, fragmentLength), [Extend(r, fragmentLength)], x);
    assert [Extend(r, fragmentLength)][1..] == [];
  }

  /**
   * `dense_fragment_pileup`: a zeroed array of `size` counters; every '+' read
   * adds one over `[start, start + L)`, every other read over `[stop - L, stop)`,
   * and positions past the end of the array are dropped, as a numpy slice does.
   * The chromosome of a read plays no part.
   */
  method DenseFragmentPileup(rs: seq<Read>, fragmentLength: nat, size: nat) returns (pileup: array<int>)
    requires AllExtendable(rs, fragmentLength)
    ensures fresh(pileup)
    ensures pileup.Length == size
    ensures pileup[..] == DenseProfile(rs, fragmentLength, size)
  {
    pileup := new int[size](_ => 0);
    for k := 0 to |rs|
      invariant pileup.Length == size
      invariant forall x :: 0 <= x < size ==> pileup[x] == Depth(Fragments(rs[..k], fragmentLength), x)
    {
      var f := Extend(rs[k], fragmentLength);
      assert Extendable(rs[k], fragmentLength);
      var lo := f.start;
      var hi := if f.stop < size then f.stop else size;
      if lo < hi {
        for y := lo to hi
          invariant forall x :: 0 <= x < size ==>
            pileup[x] == Depth(Fragments(rs[..k], fragmentLength), x) + (if lo <= x < y then 1 else 0)
        {
          pileup[y] := pileup[y] + 1;
        }
      }
      assert rs[..k + 1] == rs[..k] + [rs[k]];
      forall x | 0 <= x < size
        ensures pileup[x] == Depth(Fragments(rs[..k + 1], fragmentLength), x)
      {
        DepthSnoc(rs[..k], rs[k], fragmentLength, x);
      }
    }
    assert rs[..|rs|] == rs;
  }

  /**
   * For reads that all lie on chromosome `i`, the library pileup of that
   * chromosome is the dense profile.
   */
  lemma LibraryPileupIsDense(rs: seq<Read>, fragmentLength: nat, g: Genome, i: nat)
    requires AllExtendable(rs, fragmentLength) && i < |g.chroms|
    requires forall k :: 0 <= k < |rs| ==> rs[k].chrom == g.chroms[i].name
    ensures GetFragmentPileup(rs, fragmentLength, g)[i] == DenseProfile(rs, fragmentLength, g.chroms[i].size)
  {
    var fs := Fragments(rs, fragmentLength);
    forall x | 0 <= x < g.chroms[i].size
      ensures GetFragmentPileup(rs, fragmentLength, g)[i][x] == DenseProfile(rs, fragmentLength, g.chroms[i].size)[x]
    {
      CoverageOneChrom(fs, g.chroms[i].name, x);
    }
  }

  function Total(p: seq<int>): int {
    if p == [] then 0 else Total(p[..|p| - 1]) + p[|p| - 1]
  }

  /** The sum of a sequence of zeros and ones: how many positions below `n` lie in `[lo, hi)`. */
  lemma {:induction false} TotalOfIndicator(lo: int, hi: int, n: nat)
    requires 0 <= lo <= hi <= n
    ensures Total(seq(n, x => if lo <= x < hi then 1 else 0)) == hi - lo
  {
    var m := n;
    var count := 0;
    while m > 0
      invariant 0 <= m <= n
      invariant count == (if m >= hi then 0 else if m >= lo then hi - m else hi - lo)
      invariant Total(seq(n, x => if lo <= x < hi then 1 else 0)) ==
        Total(seq(m, x => if lo <= x < hi then 1 else 0)) + count
    {
      var s := seq(m, x => if lo <= x < hi then 1 else 0);
      assert s[..m - 1] == seq(m - 1, x => if lo <= x < hi then 1 else 0);
      count := count + s[m - 1];
      m := m - 1;
    }
  }

  lemma {:induction false} TotalAdd(a: seq<int>, b: seq<int>)
    requires |a| == |b|
    ensures Total(seq(|a|, x requires 0 <= x < |a| => a[x] + b[x])) == Total(a) + Total(b)
    decreases |a|
  {
    if a != [] {
      var n := |a| - 1;
      assert seq(|a|, x requires 0 <= x < |a| => a[x] + b[x])[..n] ==
        seq(|a[..n]|, x requires 0 <= x < |a[..n]| => a[..n][x] + b[..n][x]);
      TotalAdd(a[..n], b[..n]);
    }
  }

  /**
   * A read whose fragment lies inside the array adds exactly the fragment
   * length to the total of the dense profile.
   */
  lemma ReadInBoundsAddsFragmentLength(rs: seq<Read>, r: Read, fragmentLength: nat, size: nat)
    requires Extendable(r, fragmentLength) && Extend(r, fragmentLength).stop <= size
    ensures Total(DenseProfile(rs + [r], fragmentLength, size)) == Total(DenseProfile(rs, fragmentLength, size)) + fragmentLength
  {
    var f := Extend(r, fragmentLength);
    var before := DenseProfile(rs, fragmentLength, size);
    var one := seq(size, x => if f.start <= x < f.stop then 1 else 0);
    forall x | 0 <= x < size
      ensures DenseProfile(rs + [r], fragmentLength, size)[x] == before[x] + one[x]
    {
      DepthSnoc(rs, r, fragmentLength, x);
    }
    assert DenseProfile(rs + [r], fragmentLength, size) == seq(size, x requires 0 <= x < size => before[x] + one[x]);
    TotalAdd(before, one);
    TotalOfIndicator(f.start, f.stop, size);
  }

  // ---------------------------------------------------------------------------
  // The test scenario
  // ---------------------------------------------------------------------------

  function FixtureReads(): seq<Read> {
    [Read("chr1", 10, 20, Minus), Read("chr1", 11, 22, Plus),
     Read("chr1", 40, 60, Minus), Read("chr1", 15, 35, Plus)]
  }

  function FixtureGenome(): Genome {
    Genome([Chrom("chr1", 100)])
  }

  /** The expected profile of the four reads with fragment length 20. */
  function FixtureProfile(x: int): int {
    if x < 11 then 1
    else if x < 15 then 2
    else if x < 20 then 3
    else if x < 31 then 2
    else if x < 35 then 1
    else if x < 40 then 0
    else if x < 60 then 1
    else 0
  }

  /**
   * On `chr1` of 100 positions with fragment length 20, the library pileup
   * equals the dense reference, and both are the expected profile.
   */
  lemma FixturePileup()
    ensures AllExtendable(FixtureReads(), 20)
    ensures GetFragmentPileup(FixtureReads(), 20, FixtureGenome())[0] == DenseProfile(FixtureReads(), 20, 100)
    ensures DenseProfile(FixtureReads(), 20, 100) == seq(100, x => FixtureProfile(x))
  {
    var rs := FixtureReads();
    var g := FixtureGenome();
    assert forall k :: 0 <= k < |rs| ==> Extendable(rs[k], 20);
    LibraryPileupIsDense(rs, 20, g, 0);
    var fs := Fragments(rs, 20);
    assert fs == [Interval("chr1", 0, 20), Interval("chr1", 11, 31), Interval("chr1", 40, 60), Interval("chr1", 15, 35)];
    forall x | 0 <= x < 100 ensures Depth(fs, x) == FixtureProfile(x) {
      var t1, t2, t3 := fs[1..], fs[2..], fs[3..];
      assert t1[1..] == t2 && t2[1..] == t3 && t3[1..] == [];
      assert Depth(t3, x) == if 15 <= x < 35 then 1 else 0;
      assert Depth(t2, x) == (if 40 <= x < 60 then 1 else 0) + Depth(t3, x);
      assert Depth(t1, x) == (if 11 <= x < 31 then 1 else 0) + Depth(t2, x);
      assert Depth(fs, x) == (if 0 <= x < 20 then 1 else 0) + Depth(t1, x);
    }
  }
}
