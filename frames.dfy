/** Sequence counterparts of the two table idioms the recalculator relies on:
    boolean-mask selection (`df[mask]`, which keeps the selected rows in their
    original order) and `Series.unique()` (the distinct values, in the order of
    their first appearance). Both are written once, generically, and the
    pipeline instantiates them per column. */
module Frames {

  /** No value occurs twice. */
  predicate NoDuplicates<T(==)>(s: seq<T>) {
    forall i, j :: 0 <= i < j < |s| ==> s[i] != s[j]
  }

  /** Without duplicates, the head does not recur in the tail, and the tail
      has no duplicates either. */
  lemma NoDuplicatesTail<T>(s: seq<T>)
    requires s != [] && NoDuplicates(s)
    ensures s[0] !in s[1..] && NoDuplicates(s[1..])
  {
    assert forall j :: 0 <= j < |s| - 1 ==> s[1..][j] == s[j + 1];
  }

  /** `a` can be obtained from `b` by deleting elements (order is kept). */
  predicate IsSubsequence<T(==)>(a: seq<T>, b: seq<T>)
    decreases |b|
  {
    if a == [] then true
    else if b == [] then false
    else (a[0] == b[0] && IsSubsequence(a[1..], b[1..])) || IsSubsequence(a, b[1..])
  }

  /** Mask selection: the elements of `s` on which `keep` holds, in order. */
  function Where<T(!new)>(s: seq<T>, keep: T -> bool): (r: seq<T>)
    ensures |r| <= |s|
    ensures forall x :: x in r <==> x in s && keep(x)
  {
    if s == [] then []
    else if keep(s[0]) then [s[0]] + Where(s[1..], keep)
    else Where(s[1..], keep)
  }

  /** Selection keeps every selected element as often as it occurs, and drops
      every other one. */
  lemma {:induction false} WhereCount<T(!new)>(s: seq<T>, keep: T -> bool, x: T)
    ensures multiset(Where(s, keep))[x] == if keep(x) then multiset(s)[x] else 0
  {
    if s != [] {
      WhereCount(s[1..], keep, x);
      assert s == [s[0]] + s[1..];
    }
  }

  /** Selection keeps the original order. */
  lemma {:induction false} WhereIsSubsequence<T(!new)>(s: seq<T>, keep: T -> bool)
    ensures IsSubsequence(Where(s, keep), s)
  {
    if s != [] {
      WhereIsSubsequence(s[1..], keep);
      var r := Where(s, keep);
      if keep(s[0]) {
        assert r[0] == s[0] && r[1..] == Where(s[1..], keep);
      } else if r != [] {
        assert IsSubsequence(r, s[1..]);
      }
    }
  }

  /** A mask that holds nowhere selects nothing; one that holds everywhere
      selects everything. */
  lemma {:induction false} WhereExtremes<T(!new)>(s: seq<T>, keep: T -> bool)
    ensures (forall x :: x in s ==> !keep(x)) ==> Where(s, keep) == []
    ensures (forall x :: x in s ==> keep(x)) ==> Where(s, keep) == s
  {
    if s != [] {
      WhereExtremes(s[1..], keep);
      assert forall x :: x in s[1..] ==> x in s;
      assert s == [s[0]] + s[1..];
    }
  }

  /** Position of the first occurrence of `x` in `s`. */
  function FirstIndex<T(==)>(s: seq<T>, x: T): (i: nat)
    requires x in s
    ensures i < |s| && s[i] == x && x !in s[..i]
  {
    if s[0] == x then 0 else 1 + FirstIndex(s[1..], x)
  }

  /** The first occurrence of a value that already occurs in a prefix lies in
      that prefix. */
  lemma {:induction false} FirstIndexInPrefix<T>(s: seq<T>, k: nat, x: T)
    requires k <= |s| && x in s[..k]
    ensures FirstIndex(s, x) == FirstIndex(s[..k], x)
  {
    if s[0] != x {
      assert s[1..][..k - 1] == s[..k][1..];
      FirstIndexInPrefix(s[1..], k - 1, x);
    }
  }

  /** `Series.unique()`: each value of `s` once, in order of first appearance. */
  function Distinct<T(==,!new)>(s: seq<T>): (r: seq<T>)
    ensures forall x :: x in r <==> x in s
    ensures NoDuplicates(r)
  {
    if s == [] then []
    else
      var earlier := Distinct(s[..|s| - 1]);
      if s[|s| - 1] in earlier then earlier else earlier + [s[|s| - 1]]
  }

  /** The values come out in the order in which they first appear in `s`. */
  lemma {:induction false} DistinctInFirstAppearanceOrder<T(!new)>(s: seq<T>)
    ensures forall i, j :: 0 <= i < j < |Distinct(s)| ==>
      FirstIndex(s, Distinct(s)[i]) < FirstIndex(s, Distinct(s)[j])
  {
    if s != [] {
      var n := |s| - 1;
      var init := s[..n];
      assert s[..n] == init;
      DistinctInFirstAppearanceOrder(init);
      var earlier := Distinct(init);
      var r := Distinct(s);
      forall i, j | 0 <= i < j < |r|
        ensures FirstIndex(s, r[i]) < FirstIndex(s, r[j])
      {
        assert r[i] in earlier;
        FirstIndexInPrefix(s, n, r[i]);
        if j < |earlier| {
          FirstIndexInPrefix(s, n, r[j]);
        } else {
          assert r[j] == s[n] && s[n] !in init;
          assert FirstIndex(s, r[i]) < n;
          assert FirstIndex(s, r[j]) == n;
        }
      }
    }
  }
}
