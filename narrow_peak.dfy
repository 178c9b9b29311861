/**
 * `get_narrow_peak`: one narrowPeak record per called peak, holding the
 * peak's location, a generated name, and statistics of a signal track over
 * the peak.
 */
module NarrowPeaks {
  import opened Geometry
  import opened Intervals

  /** A narrowPeak record. */
  datatype NarrowPeak = NarrowPeak(
    chrom: string, start: int, stop: int, name: string, score: int, strand: char,
    signalValue: real, pValue: real, qValue: real, peak: int)

  function DigitChar(d: nat): (ch: char)
    requires d < 10
    ensures '0' <= ch <= '9'
  {
    "0123456789"[d]
  }

  function DigitValue(ch: char): nat {
    if '0' <= ch <= '9' then (ch as int - '0' as int) as nat else 0
  }

  /** The decimal digits of `n`, as Python's `f'{n}'` writes a non-negative integer. */
  function Decimal(n: nat): (s: string)
    ensures |s| > 0 && forall k :: 0 <= k < |s| ==> '0' <= s[k] <= '9'
  {
    if n < 10 then [DigitChar(n)] else Decimal(n / 10) + [DigitChar(n % 10)]
  }

  /** The value of a string of decimal digits. */
  function ParseDecimal(s: string): nat {
    if s == [] then 0 else 10 * ParseDecimal(s[..|s| - 1]) + DigitValue(s[|s| - 1])
  }

  lemma DigitRoundTrip(d: nat)
    requires d < 10
    ensures DigitValue(DigitChar(d)) == d
  {
    var digits := "0123456789";
    assert digits[0] == '0' && digits[1] == '1' && digits[2] == '2' && digits[3] == '3' && digits[4] == '4';
    assert digits[5] == '5' && digits[6] == '6' && digits[7] == '7' && digits[8] == '8' && digits[9] == '9';
  }

  /** Reading back the digits gives the number. */
  lemma {:induction false} DecimalRoundTrip(n: nat)
    ensures ParseDecimal(Decimal(n)) == n
  {
    if n < 10 {
      DigitRoundTrip(n);
      assert [DigitChar(n)][..0] == [];
    } else {
      var s := Decimal(n);
      assert s[..|s| - 1] == Decimal(n / 10);
      DecimalRoundTrip(n / 10);
      DigitRoundTrip(n % 10);
    }
  }

  /** `f'peak_{k}'`. */
  function PeakName(k: nat): (s: string)
    ensures |s| > 5 && s[..5] == "peak_"
  {
    "peak_" + Decimal(k)
  }

  /** Different numbers give different peak names. */
  lemma PeakNameInjective(a: nat, b: nat)
    requires PeakName(a) == PeakName(b)
    ensures a == b
  {
    assert PeakName(a)[5..] == Decimal(a);
    assert PeakName(b)[5..] == Decimal(b);
    DecimalRoundTrip(a);
    DecimalRoundTrip(b);
  }

  /** `.astype(int)` on a value: truncation toward zero. */
  function Trunc(r: real): (t: int)
    ensures r >= 0.0 ==> t >= 0 && t as real <= r < t as real + 1.0
    ensures r < 0.0 ==> t <= 0 && t as real - 1.0 < r <= t as real
  {
    if r >= 0.0 then r.Floor else -((-r).Floor)
  }

  /** `max(axis=-1)` over one peak's values. */
  function Max(vals: seq<real>): (m: real)
    requires |vals| > 0
    ensures m in vals
    ensures forall k :: 0 <= k < |vals| ==> vals[k] <= m
  {
    if |vals| == 1 then vals[0]
    else
      var rest := Max(vals[1..]);
      assert forall k :: 1 <= k < |vals| ==> vals[k] == vals[1..][k - 1];
      if vals[0] >= rest then vals[0] else rest
  }

  /** `min` of one peak's values, used to bound the mean from below. */
  function Min(vals: seq<real>): (m: real)
    requires |vals| > 0
    ensures m in vals
    ensures forall k :: 0 <= k < |vals| ==> m <= vals[k]
  {
    if |vals| == 1 then vals[0]
    else
      var rest := Min(vals[1..]);
      assert forall k :: 1 <= k < |vals| ==> vals[k] == vals[1..][k - 1];
      if vals[0] <= rest then vals[0] else rest
  }

  function SumR(vals: seq<real>): real {
    if vals == [] then 0.0 else vals[0] + SumR(vals[1..])
  }

  /** `mean(axis=-1)` over one peak's values. */
  function Mean(vals: seq<real>): real
    requires |vals| > 0
  {
    SumR(vals) / |vals| as real
  }

  lemma {:induction false} SumRBounds(vals: seq<real>, lo: real, hi: real)
    requires forall k :: 0 <= k < |vals| ==> lo <= vals[k] <= hi
    ensures |vals| as real * lo <= SumR(vals) <= |vals| as real * hi
  {
    if vals != [] {
      assert forall k :: 0 <= k < |vals| - 1 ==> vals[1..][k] == vals[k + 1];
      SumRBounds(vals[1..], lo, hi);
    }
  }

  lemma QuotientBounds(s: real, n: real, lo: real, hi: real)
    requires n > 0.0 && n * lo <= s <= n * hi
    ensures lo <= s / n <= hi
  {
    var q := s / n;
    assert (q - lo) * n == s - n * lo;
    assert (hi - q) * n == n * hi - s;
  }

  /** The mean of values that lie in [lo, hi] lies in [lo, hi]. */
  lemma MeanBounds(vals: seq<real>, lo: real, hi: real)
    requires |vals| > 0 && forall k :: 0 <= k < |vals| ==> lo <= vals[k] <= hi
    ensures lo <= Mean(vals) <= hi
  {
    var n := |vals| as real;
    var s := SumR(vals);
    assert n * lo <= s <= n * hi by {
      SumRBounds(vals, lo, hi);
    }
    QuotientBounds(s, n, lo, hi);
  }

  /** The mean times the number of values is their sum. */
  lemma MeanTimesLength(vals: seq<real>, m: real, n: real)
    requires |vals| > 0 && m == Mean(vals) && n == |vals| as real
    ensures m * n == SumR(vals)
  {
  }

  /** The mean lies between the smallest and the largest value. */
  lemma MeanWithinRange(vals: seq<real>)
    requires |vals| > 0
    ensures Min(vals) <= Mean(vals) <= Max(vals)
  {
    MeanBounds(vals, Min(vals), Max(vals));
  }

  /** The peak is non-empty and lies inside a chromosome of the genome. */
  predicate Located(g: Genome, iv: Interval) {
    g.IndexOf(iv.chrom).Some? && 0 <= iv.start < iv.stop <= g.chroms[g.IndexOf(iv.chrom).value].size
  }

  /** `p_values.get_intervals(peaks)` for one peak: the track's values over the peak. */
  function PeakValues(signal: seq<seq<real>>, g: Genome, iv: Interval): (vals: seq<real>)
    requires Fits(g, signal) && Located(g, iv)
    ensures |vals| == iv.stop - iv.start
  {
    signal[g.IndexOf(iv.chrom).value][iv.start..iv.stop]
  }

  /** The record of the k-th peak (0-based). */
  function Record(peaks: seq<Interval>, signal: seq<seq<real>>, g: Genome, k: nat): (rec: NarrowPeak)
    requires Fits(g, signal) && k < |peaks| && Located(g, peaks[k])
  {
    var vals := PeakValues(signal, g, peaks[k]);
    var mx := Max(vals);
    NarrowPeak(peaks[k].chrom, peaks[k].start, peaks[k].stop, PeakName(k + 1), Trunc(mx * 10.0), '.',
               Mean(vals), mx, mx, 0)
  }

  /**
   * `get_narrow_peak`: one record per peak, in peak order, with the peak's
   * location, the name `peak_{k+1}`, strand '.', summit 0, the mean signal as
   * signal value, the maximum signal as p- and q-value, and the truncated ten
   * times the maximum as score.
   */
  function GetNarrowPeak(peaks: seq<Interval>, signal: seq<seq<real>>, g: Genome): (r: seq<NarrowPeak>)
    requires Fits(g, signal)
    requires forall k :: 0 <= k < |peaks| ==> Located(g, peaks[k])
    ensures |r| == |peaks|
    ensures forall k :: 0 <= k < |r| ==>
      r[k].chrom == peaks[k].chrom && r[k].start == peaks[k].start && r[k].stop == peaks[k].stop &&
      r[k].name == PeakName(k + 1) && r[k].strand == '.' && r[k].peak == 0 &&
      r[k].qValue == r[k].pValue && r[k].score == Trunc(r[k].pValue * 10.0)
  {
    seq(|peaks|, k requires 0 <= k < |peaks| => Record(peaks, signal, g, k))
  }

  /**
   * The p-value of a record is the maximum of the signal over its peak, and
   * its signal value, the mean, lies between the minimum and that maximum.
   */
  lemma RecordStatistics(peaks: seq<Interval>, signal: seq<seq<real>>, g: Genome, k: nat)
    requires Fits(g, signal)
    requires forall j :: 0 <= j < |peaks| ==> Located(g, peaks[j])
    requires k < |peaks|
    ensures var rec := GetNarrowPeak(peaks, signal, g)[k];
      var i := g.IndexOf(peaks[k].chrom).value;
      (forall x :: peaks[k].start <= x < peaks[k].stop ==> signal[i][x] <= rec.pValue) &&
      (exists x :: peaks[k].start <= x < peaks[k].stop && signal[i][x] == rec.pValue) &&
      Min(PeakValues(signal, g, peaks[k])) <= rec.signalValue <= rec.pValue
  {
    var vals := PeakValues(signal, g, peaks[k]);
    var i := g.IndexOf(peaks[k].chrom).value;
    assert GetNarrowPeak(peaks, signal, g)[k] == Record(peaks, signal, g, k);
    MeanWithinRange(vals);
    forall x | peaks[k].start <= x < peaks[k].stop
      ensures signal[i][x] <= Max(vals)
    {
      assert vals[x - peaks[k].start] == signal[i][x];
    }
    var j :| 0 <= j < |vals| && vals[j] == Max(vals);
    assert signal[i][peaks[k].start + j] == Max(vals);
  }

  /**
   * The signal value of a record is the mean of the signal over its peak: by
   * `MeanTimesLength`, times the peak length it is the sum of the signal there.
   */
  lemma RecordSignalValue(peaks: seq<Interval>, signal: seq<seq<real>>, g: Genome, k: nat)
    requires Fits(g, signal)
    requires forall j :: 0 <= j < |peaks| ==> Located(g, peaks[j])
    requires k < |peaks|
    ensures GetNarrowPeak(peaks, signal, g)[k].signalValue == Mean(PeakValues(signal, g, peaks[k]))
  {
    assert GetNarrowPeak(peaks, signal, g)[k] == Record(peaks, signal, g, k);
  }

  /** The record names are pairwise distinct. */
  lemma NamesDistinct(peaks: seq<Interval>, signal: seq<seq<real>>, g: Genome, j: nat, k: nat)
    requires Fits(g, signal)
    requires forall m :: 0 <= m < |peaks| ==> Located(g, peaks[m])
    requires j < k < |peaks|
    ensures GetNarrowPeak(peaks, signal, g)[j].name != GetNarrowPeak(peaks, signal, g)[k].name
  {
    if PeakName(j + 1) == PeakName(k + 1) {
      PeakNameInjective(j + 1, k + 1);
    }
  }
}
