/** Counting facts about sequences without repetition. */
module Counting {

  ghost predicate Distinct<T>(s: seq<T>) {
    forall i, j :: 0 <= i < j < |s| ==> s[i] != s[j]
  }

  ghost function Elements<T(!new)>(s: seq<T>): (r: set<T>)
    ensures forall x :: x in r <==> x in s
  {
    set x | x in s
  }

  ghost function Below(n: nat): (r: set<nat>)
    ensures forall k: nat :: k in r <==> k < n
    ensures |r| == n
  {
    if n == 0 then {} else Below(n - 1) + {n - 1}
  }

  lemma {:induction false} DistinctSize<T(!new)>(s: seq<T>)
    requires Distinct(s)
    ensures |Elements(s)| == |s|
  {
    if s != [] {
      var t, x := s[..|s| - 1], s[|s| - 1];
      DistinctSize(t);
      assert s == t + [x];
      assert x !in t;
      assert Elements(s) == Elements(t) + {x};
    }
  }

  lemma {:induction false} SubsetOfSameSize<T>(a: set<T>, b: set<T>)
    requires a <= b && |a| == |b|
    ensures a == b
  {
    if x :| x in b && x !in a {
      SubsetSize(a, b - {x});
    }
  }

  lemma {:induction false} SubsetSize<T>(a: set<T>, b: set<T>)
    requires a <= b
    ensures |a| <= |b|
  {
    if x :| x in a {
      SubsetSize(a - {x}, b - {x});
    }
  }

  /** `n` different numbers below `n` are all of them. */
  lemma {:induction false} DistinctBelowIsOnto(s: seq<nat>, v: nat)
    requires Distinct(s) && (forall x :: x in s ==> x < |s|) && v < |s|
    ensures v in s
  {
    DistinctSize(s);
    SubsetOfSameSize(Elements(s), Below(|s|));
  }

  /** A repetition-free list of exactly the numbers below `n` has length `n`. */
  lemma {:induction false} DistinctCoverLength(s: seq<nat>, n: nat)
    requires Distinct(s) && forall x: nat :: x in s <==> x < n
    ensures |s| == n
  {
    DistinctSize(s);
    assert Elements(s) == Below(n);
  }
}
