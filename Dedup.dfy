/** `Series.unique()` from pandas, on a column of strings: the distinct values in the
    order in which they first occur. */
module Dedup {

  /** Each value occurs at most once in `xs`. */
  ghost predicate Distinct(xs: seq<string>)
  {
    forall i, j :: 0 <= i < j < |xs| ==> xs[i] != xs[j]
  }

  /** The distinct values of `xs`, in order of first occurrence. */
  function Unique(xs: seq<string>): (u: seq<string>)
    ensures forall x :: x in u <==> x in xs
    ensures Distinct(u)
    ensures |u| <= |xs|
  {
    if |xs| == 0 then []
    else
      var seen := Unique(xs[..|xs| - 1]);
      var x := xs[|xs| - 1];
      if x in seen then seen else seen + [x]
  }

  /** The index of the first occurrence of `x` in `xs`. */
  function FirstIndex(xs: seq<string>, x: string): (n: nat)
    requires x in xs
    ensures n < |xs| && xs[n] == x
    ensures forall k :: 0 <= k < n ==> xs[k] != x
  {
    if xs[0] == x then 0 else 1 + FirstIndex(xs[1..], x)
  }

  /** A value's first occurrence in a prefix is its first occurrence in the whole. */
  lemma FirstIndexInPrefix(xs: seq<string>, n: nat, x: string)
    requires n <= |xs| && x in xs[..n]
    ensures x in xs && FirstIndex(xs, x) == FirstIndex(xs[..n], x)
  {
    var i, m := FirstIndex(xs, x), FirstIndex(xs[..n], x);
    assert xs[m] == x;
    assert xs[..n][i] == x by {
      assert i <= m;
    }
  }

  /** `Unique` lists the values in the order of their first occurrences in `xs`. */
  lemma {:induction false} UniqueFirstOccurrenceOrder(xs: seq<string>)
    ensures forall i, j :: 0 <= i < j < |Unique(xs)| ==>
      FirstIndex(xs, Unique(xs)[i]) < FirstIndex(xs, Unique(xs)[j])
  {
    if |xs| > 0 {
      var n := |xs| - 1;
      var init := xs[..n];
      var seen := Unique(init);
      UniqueFirstOccurrenceOrder(init);
      forall y | y in seen ensures FirstIndex(xs, y) == FirstIndex(init, y) < n {
        FirstIndexInPrefix(xs, n, y);
      }
      var u := Unique(xs);
      forall i, j | 0 <= i < j < |u| ensures FirstIndex(xs, u[i]) < FirstIndex(xs, u[j]) {
        assert u[i] in seen;
        if j < |seen| {
          assert u[i] == seen[i] && u[j] == seen[j];
        } else {
          assert u[j] == xs[n] && xs[n] !in init;
          assert FirstIndex(xs, u[j]) == n;
        }
      }
    }
  }

  /** In a sequence without repeats every member occurs exactly once. */
  lemma {:induction false} DistinctCount(xs: seq<string>, x: string)
    requires Distinct(xs)
    ensures multiset(xs)[x] == if x in xs then 1 else 0
  {
    if |xs| > 0 {
      var init := xs[..|xs| - 1];
      assert xs == init + [xs[|xs| - 1]];
      assert xs[|xs| - 1] !in init;
      DistinctCount(init, x);
    }
  }
}
