/**
 Outlier handling for one numeric column by the interquartile-range rule:
 values beyond Tukey's fences, Q1 - 1.5·IQR below and Q3 + 1.5·IQR above,
 are overwritten with the column median; every other value is kept. The
 column is modelled as a sequence of reals, one entry per row.
 */
module Outliers {
  import opened Sorting
  import opened Quantiles

  /** How many interquartile ranges beyond a quartile a value must lie to be
      an outlier. */
  const Whisker: real := 1.5

  /** The quartiles of a column and the fences derived from them. */
  datatype Fences = Fences(q1: real, q3: real, lower: real, upper: real)

  /** Quartiles at levels 0.25 and 0.75 and the fences 1.5 interquartile
      ranges outside them. The fences enclose both quartiles and the median,
      and the quartiles lie within the range of the column. */
  function IqrFences(s: seq<real>): (f: Fences)
    requires |s| > 0
    ensures Min(s) <= f.q1 && f.q3 <= Max(s)
    ensures f.lower <= f.q1 <= Median(s) <= f.q3 <= f.upper
    ensures f.q1 - f.lower == f.upper - f.q3
  {
    var q1 := Quantile(s, 0.25);
    var q3 := Quantile(s, 0.75);
    QuantileMonotone(s, 0.25, 0.5);
    QuantileMonotone(s, 0.5, 0.75);
    MedianIsHalfQuantile(s);
    var iqr := q3 - q1;
    Fences(q1, q3, q1 - Whisker * iqr, q3 + Whisker * iqr)
  }

  /** A value strictly below the lower fence or strictly above the upper one;
      a value on a fence is not an outlier. */
  predicate IsOutlier(v: real, f: Fences) {
    v < f.lower || v > f.upper
  }

  /** Masked assignment: the rows whose flag is set receive `v`, all other rows
      keep their value, and no row moves. */
  function AssignWhere(s: seq<real>, mask: seq<bool>, v: real): (r: seq<real>)
    requires |mask| == |s|
    ensures |r| == |s|
    ensures forall i :: 0 <= i < |s| && mask[i] ==> r[i] == v
    ensures forall i :: 0 <= i < |s| && !mask[i] ==> r[i] == s[i]
  {
    if |s| == 0 then []
    else
      var rest := AssignWhere(s[1..], mask[1..], v);
      assert forall i :: 1 <= i < |s| ==> s[i] == s[1..][i - 1] && mask[i] == mask[1..][i - 1];
      [if mask[0] then v else s[0]] + rest
  }

  /** Replaces every outlier with respect to `f` by `m` and keeps every other
      row exactly. When the replacement itself lies within the fences, no
      outlier is left afterwards. */
  function ReplaceOutliers(s: seq<real>, f: Fences, m: real): (r: seq<real>)
    ensures |r| == |s|
    ensures forall i :: 0 <= i < |s| && IsOutlier(s[i], f) ==> r[i] == m
    ensures forall i :: 0 <= i < |s| && !IsOutlier(s[i], f) ==> r[i] == s[i]
    ensures f.lower <= m <= f.upper ==> forall i :: 0 <= i < |r| ==> !IsOutlier(r[i], f)
  {
    var outliers := seq(|s|, i requires 0 <= i < |s| => IsOutlier(s[i], f));
    AssignWhere(s, outliers, m)
  }

  /** Outlier handling of one column. Outliers with respect to the fences of
      the column are replaced by the column median, every other row is left
      exactly as it was, and afterwards every row lies within those fences.
      An empty column has no quartiles (they are undefined), nothing compares
      as an outlier, and it is returned as it is. */
  function Sanitize(s: seq<real>): (r: seq<real>)
    ensures |r| == |s|
    ensures |s| > 0 ==> forall i :: 0 <= i < |s| && IsOutlier(s[i], IqrFences(s)) ==> r[i] == Median(s)
    ensures |s| > 0 ==> forall i :: 0 <= i < |s| && !IsOutlier(s[i], IqrFences(s)) ==> r[i] == s[i]
    ensures |s| > 0 ==> forall i :: 0 <= i < |s| ==> IqrFences(s).lower <= r[i] <= IqrFences(s).upper
  {
    if |s| == 0 then s
    else ReplaceOutliers(s, IqrFences(s), Median(s))
  }

  /** A constant column is returned unchanged: both quartiles and the median
      equal the constant, the fences collapse onto it, and no row is an
      outlier. In particular a single-row column is never changed. */
  lemma ConstantColumnUnchanged(s: seq<real>, c: real)
    requires forall i :: 0 <= i < |s| ==> s[i] == c
    ensures Sanitize(s) == s
  {
    if |s| > 0 {
      QuantileOfConstant(s, c, 0.25);
      QuantileOfConstant(s, c, 0.75);
      var f := IqrFences(s);
      assert f.lower == c && f.upper == c;
      var r := Sanitize(s);
      assert forall i :: 0 <= i < |s| ==> !IsOutlier(s[i], f);
      assert forall i :: 0 <= i < |s| ==> r[i] == s[i];
    }
  }

  /** The outcome of a row depends only on its own value and on the multiset
      of values in the column, so reordering the rows of a column reorders
      the sanitized rows the same way. */
  lemma SanitizeRowOrderFree(s: seq<real>, s': seq<real>, i: nat, j: nat)
    requires multiset(s) == multiset(s')
    requires i < |s| && j < |s'| && s[i] == s'[j]
    ensures Sanitize(s)[i] == Sanitize(s')[j]
  {
    QuantileOrderFree(s, s', 0.25);
    QuantileOrderFree(s, s', 0.75);
    var f := IqrFences(s);
    assert f == IqrFences(s');
    if IsOutlier(s[i], f) {
      assert Sanitize(s)[i] == Median(s) == Median(s') == Sanitize(s')[j];
    } else {
      assert Sanitize(s)[i] == s[i] == s'[j] == Sanitize(s')[j];
    }
  }
}
