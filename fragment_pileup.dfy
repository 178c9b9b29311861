/**
 * The treatment signal: every read is extended to the fragment length in the
 * direction of its strand, and the fragments are piled up per position.
 */
module FragmentPileup {
  import opened Geometry
  import opened Intervals

  /**
   * The fragment of a read starts at position 0 or later. How the library
   * extends a non-'+' read whose stop is below the fragment length is not
   * known, so the model leaves such reads out by precondition.
   */
  predicate Extendable(r: Read, fragmentLength: nat) {
    r.start >= 0 && (r.strand == Plus || r.stop >= fragmentLength)
  }

  predicate AllExtendable(rs: seq<Read>, fragmentLength: nat) {
    forall k :: 0 <= k < |rs| ==> Extendable(rs[k], fragmentLength)
  }

  /**
   * `extend_to_size`: a '+' read keeps its start and grows to the right; a read
   * on any other strand keeps its stop and grows to the left. The fragment has
   * the fragment length whatever the read's own length.
   */
  function Extend(r: Read, fragmentLength: nat): (f: Interval)
    ensures f.chrom == r.chrom
    ensures f.stop - f.start == fragmentLength
    ensures r.strand == Plus ==> f.start == r.start
    ensures r.strand != Plus ==> f.stop == r.stop
    ensures Extendable(r, fragmentLength) ==> f.start >= 0
  {
    if r.strand == Plus then Interval(r.chrom, r.start, r.start + fragmentLength)
    else Interval(r.chrom, r.stop - fragmentLength, r.stop)
  }

  function Fragments(rs: seq<Read>, fragmentLength: nat): (fs: seq<Interval>)
    ensures |fs| == |rs|
  {
    seq(|rs|, k requires 0 <= k < |rs| => Extend(rs[k], fragmentLength))
  }

  /**
   * `get_fragment_pileup`: at every position of every chromosome, the number of
   * fragments of reads on that chromosome that cover it.
   */
  function GetFragmentPileup(rs: seq<Read>, fragmentLength: nat, g: Genome): (t: seq<seq<nat>>)
    requires AllExtendable(rs, fragmentLength)
    ensures Fits(g, t)
  {
    seq(|g.chroms|, i requires 0 <= i < |g.chroms| =>
      ChromPileup(Fragments(rs, fragmentLength), g.chroms[i].name, g.chroms[i].size))
  }

  lemma FragmentsAppend(a: seq<Read>, b: seq<Read>, fragmentLength: nat)
    ensures Fragments(a + b, fragmentLength) == Fragments(a, fragmentLength) + Fragments(b, fragmentLength)
  {
  }

  /**
   * The pileup never exceeds the number of reads, and it is 0 wherever no
   * fragment covers the position; where it is positive, some read's fragment
   * lies over the position.
   */
  lemma {:induction false} PileupCountsCoveringFragments(rs: seq<Read>, fragmentLength: nat, g: Genome, i: nat, x: nat)
    requires AllExtendable(rs, fragmentLength)
    requires i < |g.chroms| && x < g.chroms[i].size
    ensures GetFragmentPileup(rs, fragmentLength, g)[i][x] <= |rs|
    ensures GetFragmentPileup(rs, fragmentLength, g)[i][x] > 0 <==>
      exists k :: 0 <= k < |rs| && Covers(Extend(rs[k], fragmentLength), g.chroms[i].name, x)
  {
    var fs := Fragments(rs, fragmentLength);
    CoveragePositive(fs, g.chroms[i].name, x);
    if GetFragmentPileup(rs, fragmentLength, g)[i][x] > 0 {
      var k :| 0 <= k < |fs| && Covers(fs[k], g.chroms[i].name, x);
      assert Covers(Extend(rs[k], fragmentLength), g.chroms[i].name, x);
    }
    if exists k :: 0 <= k < |rs| && Covers(Extend(rs[k], fragmentLength), g.chroms[i].name, x) {
      var k :| 0 <= k < |rs| && Covers(Extend(rs[k], fragmentLength), g.chroms[i].name, x);
      assert Covers(fs[k], g.chroms[i].name, x);
    }
  }

  lemma {:induction false} CoveragePositive(ivs: seq<Interval>, c: string, x: int)
    ensures Coverage(ivs, c, x) > 0 <==> exists k :: 0 <= k < |ivs| && Covers(ivs[k], c, x)
  {
    if ivs != [] {
      CoveragePositive(ivs[1..], c, x);
      if Coverage(ivs[1..], c, x) > 0 {
        var k :| 0 <= k < |ivs[1..]| && Covers(ivs[1..][k], c, x);
        assert Covers(ivs[k + 1], c, x);
      }
      if exists k :: 0 <= k < |ivs| && Covers(ivs[k], c, x) {
        var k :| 0 <= k < |ivs| && Covers(ivs[k], c, x);
        if k > 0 {
          assert Covers(ivs[1..][k - 1], c, x);
        }
      }
    }
  }

  /** The pileup of two read sets together is the pointwise sum of their pileups. */
  lemma PileupAdditive(a: seq<Read>, b: seq<Read>, fragmentLength: nat, g: Genome, i: nat, x: nat)
    requires AllExtendable(a, fragmentLength) && AllExtendable(b, fragmentLength)
    requires i < |g.chroms| && x < g.chroms[i].size
    ensures AllExtendable(a + b, fragmentLength)
    ensures GetFragmentPileup(a + b, fragmentLength, g)[i][x] ==
            GetFragmentPileup(a, fragmentLength, g)[i][x] + GetFragmentPileup(b, fragmentLength, g)[i][x]
  {
    FragmentsAppend(a, b, fragmentLength);
    CoverageAppend(Fragments(a, fragmentLength), Fragments(b, fragmentLength), g.chroms[i].name, x);
  }

  lemma {:induction false} FragmentsPermutation(a: seq<Read>, b: seq<Read>, fragmentLength: nat)
    requires multiset(a) == multiset(b)
    ensures multiset(Fragments(a, fragmentLength)) == multiset(Fragments(b, fragmentLength))
    decreases |a|
  {
    if a == [] {
      assert |b| == |multiset(b)| == 0;
    } else {
      assert a == [a[0]] + a[1..];
      assert a[0] in multiset(b);
      var i :| 0 <= i < |b| && b[i] == a[0];
      var rest := b[..i] + b[i+1..];
      assert b == b[..i] + [b[i]] + b[i+1..];
      forall z ensures multiset(a[1..])[z] == multiset(rest)[z] {
        assert multiset(a)[z] == multiset{a[0]}[z] + multiset(a[1..])[z];
        assert multiset(b)[z] == multiset{a[0]}[z] + multiset(rest)[z];
      }
      assert multiset(a[1..]) == multiset(rest);
      FragmentsPermutation(a[1..], rest, fragmentLength);
      FragmentsAppend([a[0]], a[1..], fragmentLength);
      FragmentsAppend(b[..i] + [b[i]], b[i+1..], fragmentLength);
      FragmentsAppend(b[..i], [b[i]], fragmentLength);
      FragmentsAppend(b[..i], b[i+1..], fragmentLength);
    }
  }

  /** The order of the reads does not matter: permuted reads give the same pileup. */
  lemma PileupOrderIrrelevant(a: seq<Read>, b: seq<Read>, fragmentLength: nat, g: Genome)
    requires AllExtendable(a, fragmentLength)
    requires multiset(a) == multiset(b)
    ensures AllExtendable(b, fragmentLength)
    ensures GetFragmentPileup(a, fragmentLength, g) == GetFragmentPileup(b, fragmentLength, g)
  {
    forall k | 0 <= k < |b| ensures Extendable(b[k], fragmentLength) {
      assert b[k] in multiset(a);
    }
    FragmentsPermutation(a, b, fragmentLength);
    var pa, pb := GetFragmentPileup(a, fragmentLength, g), GetFragmentPileup(b, fragmentLength, g);
    forall i | 0 <= i < |g.chroms| ensures pa[i] == pb[i] {
      forall x | 0 <= x < g.chroms[i].size ensures pa[i][x] == pb[i][x] {
        CoveragePermutation(Fragments(a, fragmentLength), Fragments(b, fragmentLength), g.chroms[i].name, x);
      }
    }
  }
}
