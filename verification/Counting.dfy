/** Pigeonhole facts about sequences of distinct numbers. */
module Counting {

  /** The numbers 0, ..., n - 1. */
  ghost function Below(n: nat): (s: set<nat>)
    ensures |s| == n
    ensures forall k: nat :: k in s <==> k < n
  {
    if n == 0 then {} else Below(n - 1) + {n - 1}
  }

  ghost predicate Distinct(s: seq<nat>) {
    forall i, j :: 0 <= i < j < |s| ==> s[i] != s[j]
  }

  ghost function Elements(s: seq<nat>): (r: set<nat>)
    ensures forall x :: x in r <==> x in s
  {
    set x | x in s
  }

  lemma {:induction false} DistinctElements(s: seq<nat>)
    requires Distinct(s)
    ensures |Elements(s)| == |s|
  {
    if s != [] {
      var rest, last := s[..|s| - 1], s[|s| - 1];
      DistinctElements(rest);
      assert s == rest + [last];
      assert Elements(s) == Elements(rest) + {last};
      assert last !in rest;
    }
  }

  lemma {:induction false} SubsetSmaller(a: set<nat>, b: set<nat>)
    requires a <= b
    ensures |a| <= |b|
  {
    if a != {} {
      var x :| x in a;
      SubsetSmaller(a - {x}, b - {x});
    }
  }

  /** n distinct numbers below n are all the numbers below n. */
  lemma Pigeonhole(s: seq<nat>, n: nat)
    requires |s| == n && Distinct(s)
    requires forall i :: 0 <= i < n ==> s[i] < n
    ensures forall k: nat :: k < n ==> k in s
  {
    DistinctElements(s);
    forall k: nat | k < n
      ensures k in s
    {
      if k !in s {
        SubsetSmaller(Elements(s), Below(n) - {k});
      }
    }
  }
}
