/**
 Sequences as sets and filtered sequences.
 */
module Sequences {
  predicate Distinct<T(==)>(xs: seq<T>) {
    forall i, j :: 0 <= i < j < |xs| ==> xs[i] != xs[j]
  }

  function AsSet<T(==)>(xs: seq<T>): set<T> {
    set x | x in xs
  }

  /** Add to an insertion-ordered set. */
  function Add<T(==,!new)>(xs: seq<T>, x: T): (r: seq<T>)
    ensures x in r && forall y :: y in r <==> y in xs || y == x
    ensures Distinct(xs) ==> Distinct(r)
  {
    if x in xs then xs else xs + [x]
  }

  /** The elements that satisfy a predicate, in order. */
  function Keep<T>(xs: seq<T>, p: T -> bool): seq<T> {
    if xs == [] then []
    else Keep(xs[..|xs| - 1], p) + if p(xs[|xs| - 1]) then [xs[|xs| - 1]] else []
  }

  lemma {:induction false} KeepMembers<T>(xs: seq<T>, p: T -> bool)
    ensures forall x :: x in Keep(xs, p) <==> x in xs && p(x)
    ensures |Keep(xs, p)| <= |xs|
  {
    if xs != [] {
      KeepMembers(xs[..|xs| - 1], p);
      assert xs == xs[..|xs| - 1] + [xs[|xs| - 1]];
    }
  }

  lemma {:induction false} KeepDistinct<T>(xs: seq<T>, p: T -> bool)
    requires Distinct(xs)
    ensures Distinct(Keep(xs, p))
  {
    if xs != [] {
      var init, last := xs[..|xs| - 1], xs[|xs| - 1];
      KeepDistinct(init, p);
      KeepMembers(init, p);
      assert forall x :: x in init ==> x != last;
      assert forall i :: 0 <= i < |Keep(init, p)| ==> Keep(init, p)[i] in Keep(init, p);
    }
  }

  lemma {:induction false} KeepConcat<T>(a: seq<T>, b: seq<T>, p: T -> bool)
    ensures Keep(a + b, p) == Keep(a, p) + Keep(b, p)
    decreases |b|
  {
    if b == [] {
      assert a + b == a;
    } else {
      var init := b[..|b| - 1];
      KeepConcat(a, init, p);
      assert (a + b)[..|a + b| - 1] == a + init;
    }
  }

  lemma {:induction false} KeepAll<T>(xs: seq<T>, p: T -> bool)
    requires forall x :: x in xs ==> p(x)
    ensures Keep(xs, p) == xs
  {
    if xs != [] {
      KeepAll(xs[..|xs| - 1], p);
      assert xs == xs[..|xs| - 1] + [xs[|xs| - 1]];
      assert xs[|xs| - 1] in xs;
    }
  }

  lemma {:induction false} KeepTwice<T>(xs: seq<T>, p: T -> bool, q: T -> bool, both: T -> bool)
    requires forall x :: x in xs ==> both(x) == (p(x) && q(x))
    ensures Keep(Keep(xs, p), q) == Keep(xs, both)
  {
    if xs != [] {
      var init, last := xs[..|xs| - 1], xs[|xs| - 1];
      assert last in xs;
      KeepTwice(init, p, q, both);
      var kept := Keep(init, p);
      assert kept + [] == kept && (kept + [last])[..|kept|] == kept;
      assert Keep(xs, p) == if p(last) then kept + [last] else kept;
    }
  }

  lemma {:induction false} KeepAgrees<T>(xs: seq<T>, p: T -> bool, q: T -> bool)
    requires forall x :: x in xs ==> p(x) == q(x)
    ensures Keep(xs, p) == Keep(xs, q)
  {
    if xs != [] {
      KeepAgrees(xs[..|xs| - 1], p, q);
      assert xs[|xs| - 1] in xs;
    }
  }
}
