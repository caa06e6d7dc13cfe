/** Turning a finite set into a list in an unspecified order, as ranging over a Go map does. */
module Enumeration {

  /** No element occurs twice in `xs`. */
  ghost predicate NoDuplicates<T>(xs: seq<T>) {
    forall i, j :: 0 <= i < j < |xs| ==> xs[i] != xs[j]
  }

  /** `xs` lists every element of `s` exactly once, in some order. */
  ghost predicate Enumerates<T(!new)>(xs: seq<T>, s: set<T>) {
    && NoDuplicates(xs)
    && (forall x :: x in xs <==> x in s)
  }

  /** Lists the elements of `s`; the order is whatever the choice operator picks. */
  method Enumerate<T(==,!new)>(s: set<T>) returns (xs: seq<T>)
    ensures Enumerates(xs, s)
    ensures |xs| == |s|
  {
    xs := [];
    var rest := s;
    while rest != {}
      invariant rest <= s
      invariant forall x :: x in xs <==> x in s && x !in rest
      invariant NoDuplicates(xs)
      invariant |xs| + |rest| == |s|
      decreases rest
    {
      var x :| x in rest;
      xs := xs + [x];
      rest := rest - {x};
    }
  }
}
