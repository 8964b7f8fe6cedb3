/**
 Two concrete columns worked through the outlier rule: a column with a single
 far outlier, and a column on which a second pass of the rule changes the
 result of the first.

 The columns are described entry by entry rather than as one sequence
 display, which keeps the verifier from evaluating the ranking step by step.
 */
module Scenarios {
  import opened Sorting
  import opened Quantiles
  import opened Outliers

  /** The column [1, 2, 3, 4, 5, 100]. */
  predicate IsSkewed(s: seq<real>) {
    |s| == 6 && s[0] == 1.0 && s[1] == 2.0 && s[2] == 3.0 && s[3] == 4.0 && s[4] == 5.0 && s[5] == 100.0
  }

  lemma SkewedRanked(s: seq<real>)
    requires IsSkewed(s)
    ensures Sorted(s) && Sort(s) == s
  {
    assert Ascending(s[5..]);
    assert Ascending(s[4..]);
    assert Ascending(s[3..]);
    assert Ascending(s[2..]);
    assert Ascending(s[1..]);
    assert Ascending(s);
    AscendingIsSorted(s);
    SortOfSorted(s);
  }

  lemma SkewedStatistics(s: seq<real>)
    requires IsSkewed(s)
    ensures Quantile(s, 0.25) == 2.25
    ensures Quantile(s, 0.75) == 4.75
    ensures Median(s) == 3.5
  {
    SkewedRanked(s);
    assert RankOf(6, 0.25) == Rank(1, 0.25);
    assert RankOf(6, 0.75) == Rank(3, 0.75);
  }

  /** The column [1, 2, 3, 4, 5, 100]: Q1 = 2.25, Q3 = 4.75, IQR = 2.5, fences
      [-1.5, 8.5], median 3.5. Only the value 100 is an outlier, and it is
      replaced by 3.5. */
  lemma SkewedSanitized(s: seq<real>)
    requires IsSkewed(s)
    ensures IqrFences(s) == Fences(2.25, 4.75, -1.5, 8.5)
    ensures Sanitize(s) == [1.0, 2.0, 3.0, 4.0, 5.0, 3.5]
  {
    SkewedStatistics(s);
    var r := Sanitize(s);
    assert r[0] == 1.0 && r[1] == 2.0 && r[2] == 3.0 && r[3] == 4.0 && r[4] == 5.0 && r[5] == 3.5;
  }

  /** The column [0, 0, 0, 3, 100]. */
  predicate IsSpiked(s: seq<real>) {
    |s| == 5 && s[0] == 0.0 && s[1] == 0.0 && s[2] == 0.0 && s[3] == 3.0 && s[4] == 100.0
  }

  /** The column [0, 0, 0, 3, 0], and the same values ranked, [0, 0, 0, 0, 3]. */
  predicate IsOnceSanitized(s: seq<real>) {
    |s| == 5 && s[0] == 0.0 && s[1] == 0.0 && s[2] == 0.0 && s[3] == 3.0 && s[4] == 0.0
  }

  predicate IsOnceSanitizedRanked(t: seq<real>) {
    |t| == 5 && t[0] == 0.0 && t[1] == 0.0 && t[2] == 0.0 && t[3] == 0.0 && t[4] == 3.0
  }

  lemma SpikedStatistics(s: seq<real>)
    requires IsSpiked(s)
    ensures Quantile(s, 0.25) == 0.0
    ensures Quantile(s, 0.75) == 3.0
    ensures Median(s) == 0.0
  {
    assert Ascending(s[4..]);
    assert Ascending(s[3..]);
    assert Ascending(s[2..]);
    assert Ascending(s[1..]);
    assert Ascending(s);
    AscendingIsSorted(s);
    SortOfSorted(s);
    SortedQuantileAtRank(s, 0.25, 1);
    SortedQuantileAtRank(s, 0.75, 3);
  }

  /** First pass over [0, 0, 0, 3, 100]: Q1 = 0, Q3 = 3, fences [-4.5, 7.5],
      median 0, so 100 becomes 0 and 3 is kept. */
  lemma SpikedSanitized(s: seq<real>)
    requires IsSpiked(s)
    ensures IqrFences(s) == Fences(0.0, 3.0, -4.5, 7.5)
    ensures IsOnceSanitized(Sanitize(s))
  {
    SpikedStatistics(s);
  }

  lemma OnceSanitizedRanked(s: seq<real>, t: seq<real>)
    requires IsOnceSanitized(s) && IsOnceSanitizedRanked(t)
    ensures Sort(s) == t
  {
    assert Ascending(t[4..]);
    assert Ascending(t[3..]);
    assert Ascending(t[2..]);
    assert Ascending(t[1..]);
    assert Ascending(t);
    AscendingIsSorted(t);
    assert s == s[..3] + [s[3]] + [s[4]];
    assert t == t[..3] + [t[3]] + [t[4]];
    assert s[..3] == t[..3];
    assert multiset(s) == multiset(t);
    SortedPermutationUnique(Sort(s), t);
  }

  lemma OnceSanitizedStatistics(s: seq<real>)
    requires IsOnceSanitized(s)
    ensures Quantile(s, 0.25) == 0.0
    ensures Quantile(s, 0.75) == 0.0
    ensures Median(s) == 0.0
  {
    assert IsOnceSanitizedRanked([0.0, 0.0, 0.0, 0.0, 3.0]);
    var t := [0.0, 0.0, 0.0, 0.0, 3.0];
    OnceSanitizedRanked(s, t);
    SortedQuantileAtRank(t, 0.25, 1);
    SortedQuantileAtRank(t, 0.75, 3);
  }

  /** Second pass over [0, 0, 0, 3, 0]: now Q1 = Q3 = 0, the fences collapse
      to [0, 0], and the value 3 that the first pass kept becomes 0. */
  lemma OnceSanitizedSanitizedAgain(s: seq<real>)
    requires IsOnceSanitized(s)
    ensures IqrFences(s) == Fences(0.0, 0.0, 0.0, 0.0)
    ensures Sanitize(s) == [0.0, 0.0, 0.0, 0.0, 0.0]
  {
    OnceSanitizedStatistics(s);
    var r := Sanitize(s);
    assert r[0] == 0.0 && r[1] == 0.0 && r[2] == 0.0 && r[3] == 0.0 && r[4] == 0.0;
  }

  /** Outlier handling is not idempotent: on [0, 0, 0, 3, 100] a second pass
      changes the result of the first. */
  lemma NotIdempotent(s: seq<real>)
    requires IsSpiked(s)
    ensures Sanitize(Sanitize(s)) != Sanitize(s)
  {
    SpikedSanitized(s);
    OnceSanitizedSanitizedAgain(Sanitize(s));
    assert Sanitize(Sanitize(s))[3] == 0.0 != Sanitize(s)[3];
  }
}
