/**
 Quantiles of a numeric column by linear interpolation between ranked
 observations (definition 7 of Hyndman and Fan, the default of pandas'
 `Series.quantile`), and the column median as pandas' `Series.median`
 computes it.
 */
module Quantiles {
  import opened Sorting

  /** The fractional rank position (n-1)·p on a ranked column of length n,
      split into its whole part `lo` and its fraction `w`. */
  datatype Rank = Rank(lo: nat, w: real)

  /** The rank position of level `p` on a column of length `n`: its whole part
      and its fraction add up to (n-1)·p. */
  function RankOf(n: nat, p: real): (r: Rank)
    requires n > 0 && 0.0 <= p <= 1.0
    ensures ValidRank(r, n)
    ensures r.lo as real + r.w == (n - 1) as real * p
  {
    var m := (n - 1) as real;
    Scale(m, 0.0, p);
    Scale(m, p, 1.0);
    assert m * 1.0 == m && m * 0.0 == 0.0;
    var h := m * p;
    var lo := h.Floor;
    assert lo as real <= h < lo as real + 1.0;
    assert lo <= n - 1;
    Rank(lo, h - lo as real)
  }

  /** A higher level never gives an earlier rank position. */
  lemma RankMonotone(n: nat, p1: real, p2: real)
    requires n > 0 && 0.0 <= p1 <= p2 <= 1.0
    ensures NotAfter(RankOf(n, p1), RankOf(n, p2))
  {
    var m := (n - 1) as real;
    var x1, x2 := m * p1, m * p2;
    Scale(m, p1, p2);
    assert x1 <= x2;
  }

  /** At level one half the position is the middle rank for an odd length and
      halfway between the two middle ranks for an even one. */
  lemma RankOfHalf(n: nat)
    requires n > 0
    ensures n % 2 == 1 ==> RankOf(n, 0.5) == Rank(n / 2, 0.0)
    ensures n % 2 == 0 ==> RankOf(n, 0.5) == Rank(n / 2 - 1, 0.5)
  {
    var r := RankOf(n, 0.5);
    var x := (n - 1) as real * 0.5;
    assert r.lo as real + r.w == x;
    if n % 2 == 1 {
      assert x == (n / 2) as real;
    } else {
      assert x == (n / 2 - 1) as real + 0.5;
    }
  }

  /** A rank position that lies on a column of length `n`. */
  predicate ValidRank(r: Rank, n: nat) {
    r.lo < n && 0.0 <= r.w < 1.0
  }

  /** Rank position `r1` is not after rank position `r2`. */
  predicate NotAfter(r1: Rank, r2: Rank) {
    r1.lo < r2.lo || (r1.lo == r2.lo && r1.w <= r2.w)
  }

  /** The value of the ranked column `t` at the fractional rank position `r`,
      interpolated linearly between the observation at `r.lo` and the next one.
      At the last position there is no next observation and the observation
      itself is returned. */
  function ValueAt(t: seq<real>, r: Rank): (q: real)
    requires Sorted(t) && ValidRank(r, |t|)
    ensures t[0] <= q <= t[|t| - 1]
  {
    if r.lo + 1 < |t| then
      assert t[0] <= t[r.lo] <= t[r.lo + 1] <= t[|t| - 1];
      Lerp(t[r.lo], t[r.lo + 1], r.w)
    else
      t[r.lo]
  }

  /** The quantile at level `p` of an already ranked column `t`: its value at
      the fractional rank position (n-1)·p. */
  function SortedQuantile(t: seq<real>, p: real): (q: real)
    requires |t| > 0 && Sorted(t)
    requires 0.0 <= p <= 1.0
    ensures t[0] <= q <= t[|t| - 1]
  {
    ValueAt(t, RankOf(|t|, p))
  }

  /** Linear interpolation from `a` towards `b` with weight `w`; with a weight
      in [0, 1] it stays between its ends. */
  function Lerp(a: real, b: real, w: real): (x: real)
    requires a <= b && 0.0 <= w <= 1.0
    ensures a <= x <= b
  {
    var d := b - a;
    var y := d * w;
    Scale(d, 0.0, w);
    Scale(d, w, 1.0);
    assert d * 1.0 == d && d * 0.0 == 0.0;
    assert 0.0 <= y <= d;
    a + y
  }

  /** A larger weight moves the interpolated value no closer to `a`. */
  lemma LerpMonotone(a: real, b: real, w1: real, w2: real)
    requires a <= b && 0.0 <= w1 <= w2 <= 1.0
    ensures Lerp(a, b, w1) <= Lerp(a, b, w2)
  {
    var y1, y2 := (b - a) * w1, (b - a) * w2;
    Scale(b - a, w1, w2);
    assert y1 <= y2;
    assert Lerp(a, b, w1) == a + y1;
    assert Lerp(a, b, w2) == a + y2;
  }

  /** Scaling by a non-negative factor preserves order. */
  lemma Scale(k: real, x: real, y: real)
    requires 0.0 <= k && x <= y
    ensures k * x <= k * y
  {
  }

  /** The quantile at level `p` of an arbitrary (unranked) column. */
  function Quantile(s: seq<real>, p: real): (q: real)
    requires |s| > 0
    requires 0.0 <= p <= 1.0
    ensures Min(s) <= q <= Max(s)
  {
    SortEnds(s);
    SortedQuantile(Sort(s), p)
  }

  /** The median of an already ranked column: its middle observation, or the
      mean of the two middle observations when the length is even. */
  function SortedMedian(t: seq<real>): (m: real)
    requires |t| > 0 && Sorted(t)
    ensures t[0] <= m <= t[|t| - 1]
  {
    var n := |t|;
    if n % 2 == 1 then t[n / 2]
    else
      assert t[0] <= t[n / 2 - 1] <= t[n / 2] <= t[n - 1];
      (t[n / 2 - 1] + t[n / 2]) / 2.0
  }

  /** The column median. */
  function Median(s: seq<real>): (m: real)
    requires |s| > 0
    ensures Min(s) <= m <= Max(s)
  {
    SortEnds(s);
    SortedMedian(Sort(s))
  }

  /** Where (n-1)·p falls exactly on rank k, the quantile is the k-th ranked
      observation: no interpolation happens. */
  lemma SortedQuantileAtRank(t: seq<real>, p: real, k: nat)
    requires |t| > 0 && Sorted(t)
    requires 0.0 <= p <= 1.0
    requires k < |t| && (|t| - 1) as real * p == k as real
    ensures SortedQuantile(t, p) == t[k]
  {
  }

  /** On a ranked column, a later rank position never has a smaller value. */
  lemma ValueAtMonotone(t: seq<real>, r1: Rank, r2: Rank)
    requires Sorted(t) && ValidRank(r1, |t|) && ValidRank(r2, |t|)
    requires NotAfter(r1, r2)
    ensures ValueAt(t, r1) <= ValueAt(t, r2)
  {
    if r1.lo == r2.lo {
      if r1.lo + 1 < |t| {
        LerpMonotone(t[r1.lo], t[r1.lo + 1], r1.w, r2.w);
      }
    } else {
      assert ValueAt(t, r1) <= t[r1.lo + 1] <= t[r2.lo] <= ValueAt(t, r2);
    }
  }

  /** The quantile at a higher level is never smaller. */
  lemma SortedQuantileMonotone(t: seq<real>, p1: real, p2: real)
    requires |t| > 0 && Sorted(t)
    requires 0.0 <= p1 <= p2 <= 1.0
    ensures SortedQuantile(t, p1) <= SortedQuantile(t, p2)
  {
    RankMonotone(|t|, p1, p2);
    ValueAtMonotone(t, RankOf(|t|, p1), RankOf(|t|, p2));
  }

  /** `Quantile` is monotone in its level. */
  lemma QuantileMonotone(s: seq<real>, p1: real, p2: real)
    requires |s| > 0
    requires 0.0 <= p1 <= p2 <= 1.0
    ensures Quantile(s, p1) <= Quantile(s, p2)
  {
    SortEnds(s);
    SortedQuantileMonotone(Sort(s), p1, p2);
  }

  /** On a ranked column the median is the quantile at level one half. */
  lemma SortedMedianIsHalfQuantile(t: seq<real>)
    requires |t| > 0 && Sorted(t)
    ensures SortedMedian(t) == SortedQuantile(t, 0.5)
  {
    RankOfHalf(|t|);
  }

  /** The median is the quantile at level one half. */
  lemma MedianIsHalfQuantile(s: seq<real>)
    requires |s| > 0
    ensures Median(s) == Quantile(s, 0.5)
  {
    SortEnds(s);
    SortedMedianIsHalfQuantile(Sort(s));
  }

  /** Quantiles and the median depend only on the values of the column, not on
      the order of its rows. */
  lemma QuantileOrderFree(s: seq<real>, s': seq<real>, p: real)
    requires |s| > 0
    requires 0.0 <= p <= 1.0
    requires multiset(s) == multiset(s')
    ensures |s'| == |s|
    ensures Quantile(s, p) == Quantile(s', p)
    ensures Median(s) == Median(s')
  {
    assert |s| == |multiset(s)| == |multiset(s')| == |s'|;
    SortPermutationInvariant(s, s');
    SortEnds(s);
    SortEnds(s');
  }

  /** Every quantile of a constant column is that constant. */
  lemma QuantileOfConstant(s: seq<real>, c: real, p: real)
    requires |s| > 0
    requires 0.0 <= p <= 1.0
    requires forall i :: 0 <= i < |s| ==> s[i] == c
    ensures Quantile(s, p) == c
    ensures Median(s) == c
  {
    assert Min(s) == c && Max(s) == c;
  }
}
