/** Sorting a list of integers. */
module Sorting {

  /** Insertion into a sorted list, behind equal elements. */
  function Insert(s: seq<int>, x: int): seq<int> {
    if s == [] || s[|s| - 1] <= x then s + [x]
    else Insert(s[..|s| - 1], x) + [s[|s| - 1]]
  }

  /** `sorted`. */
  function Sorted(s: seq<int>): seq<int> {
    if s == [] then [] else Insert(Sorted(s[..|s| - 1]), s[|s| - 1])
  }

  ghost predicate StrictlyIncreasing(s: seq<int>) {
    forall i, j :: 0 <= i < j < |s| ==> s[i] < s[j]
  }

  lemma {:induction false} SortedOfIncreasing(s: seq<int>)
    requires StrictlyIncreasing(s)
    ensures Sorted(s) == s
  {
    if s != [] {
      SortedOfIncreasing(s[..|s| - 1]);
    }
  }

  ghost predicate NonDecreasing(s: seq<int>) {
    forall i, j :: 0 <= i < j < |s| ==> s[i] <= s[j]
  }

  lemma {:induction false} InsertExact(s: seq<int>, x: int)
    requires NonDecreasing(s)
    ensures NonDecreasing(Insert(s, x))
    ensures multiset(Insert(s, x)) == multiset(s) + multiset{x}
  {
    if s != [] && s[|s| - 1] > x {
      var n := |s| - 1;
      assert s == s[..n] + [s[n]];
      InsertExact(s[..n], x);
      NoneAbove(Insert(s[..n], x), s[..n], x, s[n]);
    }
  }

  lemma {:induction false} NoneAbove(inserted: seq<int>, s: seq<int>, x: int, bound: int)
    requires multiset(inserted) == multiset(s) + multiset{x}
    requires x <= bound && forall i :: 0 <= i < |s| ==> s[i] <= bound
    ensures forall i :: 0 <= i < |inserted| ==> inserted[i] <= bound
  {
    forall i | 0 <= i < |inserted| ensures inserted[i] <= bound {
      assert inserted[i] in multiset(inserted);
      assert inserted[i] in multiset(s) || inserted[i] == x;
    }
  }

  /** Sorting orders a list and keeps its elements. */
  lemma {:induction false} SortedExact(s: seq<int>)
    ensures NonDecreasing(Sorted(s))
    ensures multiset(Sorted(s)) == multiset(s)
  {
    if s != [] {
      var n := |s| - 1;
      SortedExact(s[..n]);
      InsertExact(Sorted(s[..n]), s[n]);
      assert s == s[..n] + [s[n]];
    }
  }
}
