/**
 Ranking of a numeric column: the ascending order every quantile is read from.

 Any sorting algorithm will do, because a sorted permutation of a column is
 unique (`SortedPermutationUnique`); `Sort` is a plain insertion sort whose
 contract is the only thing the rest of the model relies on.
 */
module Sorting {

  /** The values of `s` appear in non-decreasing order. */
  predicate Sorted(s: seq<real>) {
    forall i, j :: 0 <= i < j < |s| ==> s[i] <= s[j]
  }

  /** Neighbour-by-neighbour form of `Sorted`; it evaluates directly on a
      column written out in full. */
  predicate Ascending(s: seq<real>) {
    |s| < 2 || (s[0] <= s[1] && Ascending(s[1..]))
  }

  /** Checking neighbours is enough to know that a column is ranked. */
  lemma {:induction false} AscendingIsSorted(s: seq<real>)
    requires Ascending(s)
    ensures Sorted(s)
  {
    if |s| >= 2 {
      AscendingIsSorted(s[1..]);
      forall i, j | 0 <= i < j < |s|
        ensures s[i] <= s[j]
      {
        if i > 0 {
          assert s[i] == s[1..][i - 1] && s[j] == s[1..][j - 1];
        } else {
          assert s[1] == s[1..][0] && s[j] == s[1..][j - 1];
        }
      }
    }
  }

  /** Smallest value of a non-empty column, defined without sorting. */
  function Min(s: seq<real>): (m: real)
    requires |s| > 0
    ensures m in s
    ensures forall i :: 0 <= i < |s| ==> m <= s[i]
  {
    if |s| == 1 then s[0]
    else
      var rest := Min(s[1..]);
      assert forall i :: 1 <= i < |s| ==> s[i] == s[1..][i - 1];
      if s[0] <= rest then s[0] else rest
  }

  /** Largest value of a non-empty column, defined without sorting. */
  function Max(s: seq<real>): (m: real)
    requires |s| > 0
    ensures m in s
    ensures forall i :: 0 <= i < |s| ==> s[i] <= m
  {
    if |s| == 1 then s[0]
    else
      var rest := Max(s[1..]);
      assert forall i :: 1 <= i < |s| ==> s[i] == s[1..][i - 1];
      if rest <= s[0] then s[0] else rest
  }

  /** Inserts `x` into the ranked column `t`, keeping it ranked. */
  function Insert(x: real, t: seq<real>): (r: seq<real>)
    requires Sorted(t)
    ensures Sorted(r)
    ensures multiset(r) == multiset(t) + multiset{x}
  {
    if |t| == 0 then [x]
    else if x <= t[0] then [x] + t
    else
      var rest := Insert(x, t[1..]);
      assert t == [t[0]] + t[1..];
      forall k | 0 <= k < |rest|
        ensures t[0] <= rest[k]
      {
        assert rest[k] in multiset(rest);
        if rest[k] != x {
          assert rest[k] in t[1..];
        }
      }
      [t[0]] + rest
  }

  /** Ranks a column: the result is in ascending order and holds exactly the
      same values, with the same multiplicities, as the input. */
  function Sort(s: seq<real>): (r: seq<real>)
    ensures Sorted(r)
    ensures multiset(r) == multiset(s)
  {
    if |s| == 0 then []
    else
      assert s == [s[0]] + s[1..];
      Insert(s[0], Sort(s[1..]))
  }

  /** Two ranked columns holding the same values are the same column, so the
      ranking of a column does not depend on how it was sorted. */
  lemma {:induction false} SortedPermutationUnique(a: seq<real>, b: seq<real>)
    requires Sorted(a) && Sorted(b)
    requires multiset(a) == multiset(b)
    ensures a == b
  {
    assert |a| == |multiset(a)| == |multiset(b)| == |b|;
    if |a| > 0 {
      SortedHead(a, b);
      SortedHead(b, a);
      TailMultiset(a, b);
      SortedPermutationUnique(a[1..], b[1..]);
    }
  }

  /** The first value of a ranked column is no larger than any value of a
      column with the same multiset of values. */
  lemma SortedHead(a: seq<real>, b: seq<real>)
    requires |b| > 0 && Sorted(b)
    requires multiset(a) == multiset(b)
    ensures |a| > 0 && b[0] <= a[0]
  {
    assert |a| == |multiset(a)| == |multiset(b)| == |b|;
    assert a[0] in multiset(b);
    var j :| 0 <= j < |b| && b[j] == a[0];
    assert b[0] <= b[j];
  }

  /** Removing equal first values from two columns with the same multiset of
      values leaves the same multiset. */
  lemma TailMultiset(a: seq<real>, b: seq<real>)
    requires |a| > 0 && |b| > 0 && a[0] == b[0]
    requires multiset(a) == multiset(b)
    ensures multiset(a[1..]) == multiset(b[1..])
  {
    assert a == [a[0]] + a[1..];
    assert b == [b[0]] + b[1..];
    assert multiset(a[1..]) == multiset(a) - multiset{a[0]};
    assert multiset(b[1..]) == multiset(b) - multiset{b[0]};
  }

  /** Ranking only looks at the values of a column, not at their order. */
  lemma SortPermutationInvariant(s: seq<real>, s': seq<real>)
    requires multiset(s) == multiset(s')
    ensures Sort(s) == Sort(s')
  {
    SortedPermutationUnique(Sort(s), Sort(s'));
  }

  /** A column that is already ranked is its own ranking. */
  lemma SortOfSorted(s: seq<real>)
    requires Sorted(s)
    ensures Sort(s) == s
  {
    SortedPermutationUnique(Sort(s), s);
  }

  /** A ranked permutation of a column starts at the column's minimum and
      ends at its maximum. */
  lemma SortedPermutationEnds(t: seq<real>, s: seq<real>)
    requires |s| > 0
    requires Sorted(t) && multiset(t) == multiset(s)
    ensures |t| == |s|
    ensures t[0] == Min(s) && t[|t| - 1] == Max(s)
  {
    assert |t| == |multiset(t)| == |multiset(s)| == |s|;
    var n := |t| - 1;
    assert t[0] in multiset(s) && t[n] in multiset(s);
    var i :| 0 <= i < |s| && s[i] == t[0];
    var j :| 0 <= j < |s| && s[j] == t[n];
    var mn, mx := Min(s), Max(s);
    assert mn in multiset(t) && mx in multiset(t);
    var k :| 0 <= k < |t| && t[k] == mn;
    var l :| 0 <= l < |t| && t[l] == mx;
    assert t[0] <= t[k] && t[l] <= t[n];
  }

  /** The ranked column starts at the column's minimum and ends at its maximum. */
  lemma SortEnds(s: seq<real>)
    requires |s| > 0
    ensures |Sort(s)| == |s|
    ensures Sort(s)[0] == Min(s)
    ensures Sort(s)[|s| - 1] == Max(s)
  {
    SortedPermutationEnds(Sort(s), s);
  }
}
