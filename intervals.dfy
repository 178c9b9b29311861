/**
 * Reads, genomic intervals and the coverage count that every pileup is built on.
 */
module Intervals {

  datatype Strand = Plus | Minus | Unstranded

  /** A BED6 read: chromosome, half-open range [start, stop), strand. */
  datatype Read = Read(chrom: string, start: int, stop: int, strand: Strand)

  /** A half-open genomic interval [start, stop) on one chromosome. */
  datatype Interval = Interval(chrom: string, start: int, stop: int)

  predicate Covers(iv: Interval, c: string, x: int) {
    iv.chrom == c && iv.start <= x < iv.stop
  }

  /** Position x lies in one of the intervals (whatever their chromosome). */
  predicate InSome(ivs: seq<Interval>, x: int) {
    exists j :: 0 <= j < |ivs| && ivs[j].start <= x < ivs[j].stop
  }

  /** A position in some interval of `rest` stays in some interval when more are put in front. */
  lemma InSomeAfter(front: seq<Interval>, rest: seq<Interval>, x: int)
    requires InSome(rest, x)
    ensures InSome(front + rest, x)
  {
    var j :| 0 <= j < |rest| && rest[j].start <= x < rest[j].stop;
    assert (front + rest)[|front| + j] == rest[j];
  }

  /** How many of the intervals lie on chromosome `c` and cover position `x`. */
  function Coverage(ivs: seq<Interval>, c: string, x: int): (n: nat)
    ensures n <= |ivs|
  {
    if ivs == [] then 0
    else (if Covers(ivs[0], c, x) then 1 else 0) + Coverage(ivs[1..], c, x)
  }

  /** How many of the intervals cover position `x`, whatever their chromosome. */
  function Depth(ivs: seq<Interval>, x: int): (n: nat)
    ensures n <= |ivs|
  {
    if ivs == [] then 0
    else (if ivs[0].start <= x < ivs[0].stop then 1 else 0) + Depth(ivs[1..], x)
  }

  /** The pileup of `ivs` over a chromosome `c` of `size` positions. */
  function ChromPileup(ivs: seq<Interval>, c: string, size: nat): (p: seq<nat>)
    ensures |p| == size
  {
    seq(size, x => Coverage(ivs, c, x))
  }

  /** The coverage of a concatenation is the sum of the coverages. */
  lemma {:induction false} CoverageAppend(a: seq<Interval>, b: seq<Interval>, c: string, x: int)
    ensures Coverage(a + b, c, x) == Coverage(a, c, x) + Coverage(b, c, x)
  {
    if a == [] {
      assert a + b == b;
    } else {
      assert (a + b)[0] == a[0];
      assert (a + b)[1..] == a[1..] + b;
      CoverageAppend(a[1..], b, c, x);
    }
  }

  /** Coverage depends only on the multiset of intervals, not on their order. */
  lemma {:induction false} CoveragePermutation(a: seq<Interval>, b: seq<Interval>, c: string, x: int)
    requires multiset(a) == multiset(b)
    ensures Coverage(a, c, x) == Coverage(b, c, x)
    decreases |a|
  {
    if a == [] {
      assert |b| == |multiset(b)| == 0;
    } else {
      assert a == [a[0]] + a[1..];
      assert a[0] in multiset(b);
      var i :| 0 <= i < |b| && b[i] == a[0];
      var rest := b[..i] + b[i+1..];
      assert b == b[..i] + [b[i]] + b[i+1..];
      assert multiset(b) == multiset(b[..i]) + multiset{b[i]} + multiset(b[i+1..]);
      assert multiset(rest) == multiset(b[..i]) + multiset(b[i+1..]);
      assert multiset(a) == multiset{a[0]} + multiset(a[1..]);
      forall z ensures multiset(a[1..])[z] == multiset(rest)[z] {
        assert multiset(a)[z] == multiset{a[0]}[z] + multiset(a[1..])[z];
        assert multiset(b)[z] == multiset{a[0]}[z] + multiset(rest)[z];
      }
      assert multiset(a[1..]) == multiset(rest);
      CoveragePermutation(a[1..], rest, c, x);
      CoverageAppend(b[..i] + [b[i]], b[i+1..], c, x);
      CoverageAppend(b[..i], [b[i]], c, x);
      CoverageAppend(b[..i], b[i+1..], c, x);
    }
  }

  /** On intervals that all lie on `c`, coverage of `c` is plain depth. */
  lemma {:induction false} CoverageOneChrom(ivs: seq<Interval>, c: string, x: int)
    requires forall k :: 0 <= k < |ivs| ==> ivs[k].chrom == c
    ensures Coverage(ivs, c, x) == Depth(ivs, x)
  {
    if ivs != [] {
      CoverageOneChrom(ivs[1..], c, x);
    }
  }

  /** The depth of a concatenation is the sum of the depths. */
  lemma {:induction false} DepthAppend(a: seq<Interval>, b: seq<Interval>, x: int)
    ensures Depth(a + b, x) == Depth(a, x) + Depth(b, x)
  {
    if a == [] {
      assert a + b == b;
    } else {
      assert (a + b)[0] == a[0];
      assert (a + b)[1..] == a[1..] + b;
      DepthAppend(a[1..], b, x);
    }
  }
}
