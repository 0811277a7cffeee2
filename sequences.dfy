/**
 Facts about sequences used as multisets of names: the set of their elements
 and the absence of repeats. Both Go routines in the model build a slice whose
 order is arbitrary but whose elements are distinct, so these are the terms in
 which their results are specified.
 */
module Sequences {

  /** No element occurs twice in `s`. */
  predicate NoDuplicates<T(==)>(s: seq<T>) {
    forall i, j :: 0 <= i < j < |s| ==> s[i] != s[j]
  }

  /** The set of the elements of `s`. */
  function Elems<T>(s: seq<T>): set<T> {
    set x | x in s
  }

  /** A sequence has at least as many positions as distinct elements. */
  lemma {:induction false} ElemsBound<T>(s: seq<T>)
    ensures |Elems(s)| <= |s|
  {
    if s != [] {
      ElemsBound(s[1..]);
      assert Elems(s) == Elems(s[1..]) + {s[0]};
    }
  }

  /** Without repeats, the number of distinct elements is the length. */
  lemma {:induction false} DistinctElems<T>(s: seq<T>)
    requires NoDuplicates(s)
    ensures |Elems(s)| == |s|
  {
    if s != [] {
      DistinctElems(s[1..]);
      assert s[0] !in Elems(s[1..]);
      assert Elems(s) == Elems(s[1..]) + {s[0]};
    }
  }

  /** Without repeats, every element occurs exactly once. */
  lemma {:induction false} DistinctMultiplicity<T>(s: seq<T>, x: T)
    requires NoDuplicates(s)
    ensures multiset(s)[x] == if x in s then 1 else 0
  {
    if s != [] {
      DistinctMultiplicity(s[1..], x);
      assert s == [s[0]] + s[1..];
      assert multiset(s) == multiset{s[0]} + multiset(s[1..]);
    }
  }

  /**
   Two sequences without repeats that hold the same elements differ at most in
   order: they are permutations of each other.
   */
  lemma SameElemsPermutation<T>(s: seq<T>, t: seq<T>)
    requires NoDuplicates(s) && NoDuplicates(t)
    requires Elems(s) == Elems(t)
    ensures multiset(s) == multiset(t)
  {
    forall x
      ensures multiset(s)[x] == multiset(t)[x]
    {
      DistinctMultiplicity(s, x);
      DistinctMultiplicity(t, x);
      assert x in s <==> x in Elems(s);
      assert x in t <==> x in Elems(t);
    }
  }

  /** A sequence without repeats that holds exactly `{x}` is `[x]`. */
  lemma DistinctSingleton<T>(s: seq<T>, x: T)
    requires NoDuplicates(s)
    requires Elems(s) == {x}
    ensures s == [x]
  {
    DistinctElems(s);
    assert x in Elems(s);
  }
}
