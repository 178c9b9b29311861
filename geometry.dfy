/**
 * The genome: an ordered list of chromosomes with their sizes, and dense
 * per-chromosome tracks over it. A track holds one sequence per chromosome,
 * in genome order, each exactly as long as its chromosome; it stands in for
 * the run-length encoded genomic tracks of the library the pipeline uses.
 */
module Geometry {
  import opened Common

  datatype Chrom = Chrom(name: string, size: nat)

  datatype Genome = Genome(chroms: seq<Chrom>) {

    /** Chromosome names are distinct: the genome is built from a name-to-size dictionary. */
    predicate Valid() {
      forall i, j :: 0 <= i < j < |chroms| ==> chroms[i].name != chroms[j].name
    }

    /** The total genome length, `geometry.size()`. */
    function Size(): nat {
      TotalSize(chroms)
    }

    /** Index of the first chromosome called `name`, if any. */
    function IndexOf(name: string): (r: Option<nat>)
      ensures r.Some? ==> r.value < |chroms| && chroms[r.value].name == name
      ensures r.None? ==> forall i :: 0 <= i < |chroms| ==> chroms[i].name != name
    {
      FirstIndex(chroms, name, 0)
    }
  }

  function TotalSize(cs: seq<Chrom>): nat {
    if cs == [] then 0 else cs[0].size + TotalSize(cs[1..])
  }

  function FirstIndex(cs: seq<Chrom>, name: string, k: nat): (r: Option<nat>)
    requires k <= |cs|
    ensures r.Some? ==> k <= r.value < |cs| && cs[r.value].name == name
    ensures r.None? ==> forall i :: k <= i < |cs| ==> cs[i].name != name
    decreases |cs| - k
  {
    if k == |cs| then None
    else if cs[k].name == name then Some(k)
    else FirstIndex(cs, name, k + 1)
  }

  /** In a valid genome a chromosome's index is found by its name. */
  lemma IndexOfValid(g: Genome, i: nat)
    requires g.Valid() && i < |g.chroms|
    ensures g.IndexOf(g.chroms[i].name) == Some(i)
  {
  }

  /** `t` is a track over `g`: one entry per chromosome, each as long as the chromosome. */
  predicate Fits<T>(g: Genome, t: seq<seq<T>>) {
    |t| == |g.chroms| && forall i :: 0 <= i < |t| ==> |t[i]| == g.chroms[i].size
  }

  /** The constant track: a scalar broadcast over the genome. */
  function ConstTrack(g: Genome, v: real): (t: seq<seq<real>>)
    ensures Fits(g, t)
  {
    seq(|g.chroms|, i requires 0 <= i < |g.chroms| => seq(g.chroms[i].size, x => v))
  }

  /** Elementwise maximum of two tracks, `np.maximum`. */
  function MaxTrack(g: Genome, a: seq<seq<real>>, b: seq<seq<real>>): (t: seq<seq<real>>)
    requires Fits(g, a) && Fits(g, b)
    ensures Fits(g, t)
  {
    seq(|g.chroms|, i requires 0 <= i < |g.chroms| =>
      seq(g.chroms[i].size, x requires 0 <= x < g.chroms[i].size =>
        if a[i][x] >= b[i][x] then a[i][x] else b[i][x]))
  }

  /** A track multiplied by a scalar. */
  function ScaleTrack(g: Genome, k: real, a: seq<seq<real>>): (t: seq<seq<real>>)
    requires Fits(g, a)
    ensures Fits(g, t)
    ensures forall i, x :: 0 <= i < |g.chroms| && 0 <= x < g.chroms[i].size ==> t[i][x] == k * a[i][x]
  {
    seq(|g.chroms|, i requires 0 <= i < |g.chroms| =>
      seq(g.chroms[i].size, x requires 0 <= x < g.chroms[i].size => k * a[i][x]))
  }

  /** Scaling by a non-negative factor keeps a lower bound, scaled. */
  lemma ScaleKeepsLowerBound(g: Genome, k: real, a: seq<seq<real>>, lo: real, i: nat, x: nat)
    requires Fits(g, a) && k >= 0.0 && i < |g.chroms| && x < g.chroms[i].size && a[i][x] >= lo
    ensures ScaleTrack(g, k, a)[i][x] >= k * lo
  {
    assert k * a[i][x] - k * lo == k * (a[i][x] - lo);
  }
}
