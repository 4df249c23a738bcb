/**
 * Order-preserving list helpers the loader's assembly step is written with:
 * keeping the elements that satisfy a test, their positions, and applying a
 * function to every element (Python's list comprehensions).
 */
module Seqs {

  /** `[x for x in s if p(x)]`. */
  function Filter<T>(s: seq<T>, p: T -> bool): (r: seq<T>)
    ensures |r| <= |s|
    ensures forall i :: 0 <= i < |r| ==> r[i] in s && p(r[i])
    ensures forall i :: 0 <= i < |s| && p(s[i]) ==> s[i] in r
    decreases |s|
  {
    if s == [] then []
    else
      var n := |s| - 1;
      var init := Filter(s[..n], p);
      assert forall i :: 0 <= i < n ==> s[..n][i] == s[i];
      if p(s[n]) then init + [s[n]] else init
  }

  /** `[i for i, x in enumerate(s) if p(x)]`: the positions that pass, in increasing order. */
  function Positions<T>(s: seq<T>, p: T -> bool): (r: seq<nat>)
    ensures forall k :: 0 <= k < |r| ==> r[k] < |s| && p(s[r[k]])
    ensures forall i :: 0 <= i < |s| && p(s[i]) ==> i in r
    ensures forall a, b :: 0 <= a < b < |r| ==> r[a] < r[b]
    decreases |s|
  {
    if s == [] then []
    else
      var n := |s| - 1;
      var init := Positions(s[..n], p);
      if p(s[n]) then init + [n] else init
  }

  /** `[f(x) for x in s]`. */
  function Map<A, B>(s: seq<A>, f: A -> B): (r: seq<B>)
    ensures |r| == |s|
    ensures forall i :: 0 <= i < |s| ==> r[i] == f(s[i])
  {
    seq(|s|, i requires 0 <= i < |s| => f(s[i]))
  }

  lemma MapMembers<A, B>(s: seq<A>, f: A -> B)
    ensures forall y :: y in Map(s, f) <==> exists x :: x in s && y == f(x)
  {
    var r := Map(s, f);
    forall y | y in r ensures exists x :: x in s && y == f(x) {
      var i :| 0 <= i < |r| && r[i] == y;
      assert s[i] in s;
    }
    forall y | exists x :: x in s && y == f(x) ensures y in r {
      var x :| x in s && y == f(x);
      var i :| 0 <= i < |s| && s[i] == x;
      assert r[i] == y;
    }
  }
}
