/** Definitions shared by every part of the model. */
module Prelude {

  datatype Option<+T> = None | Some(value: T)

  datatype Result<+T, +E> = Ok(value: T) | Err(error: E)

  /** The numbers 1..n, as a set. */
  function OneTo(n: nat): (s: set<int>)
    ensures |s| == n
    ensures forall k :: k in s <==> 1 <= k <= n
  {
    if n == 0 then {} else OneTo(n - 1) + {n}
  }

  /** A function maps a finite set onto at most as many values. */
  lemma {:induction false} ImageSize<T, U>(f: T -> U, a: set<T>, b: set<U>)
    requires forall y :: y in b ==> exists x :: x in a && f(x) == y
    ensures |b| <= |a|
    decreases a
  {
    if b != {} {
      var y :| y in b;
      var x :| x in a && f(x) == y;
      ImageSize(f, a - {x}, b - {f(x)});
    }
  }

  /** An injection cannot send a set into a smaller one. */
  lemma {:induction false} InjectionSize<T, U>(f: T -> U, a: set<T>, b: set<U>)
    requires forall x :: x in a ==> f(x) in b
    requires forall x, x' :: x in a && x' in a && f(x) == f(x') ==> x == x'
    ensures |a| <= |b|
    decreases a
  {
    if a != {} {
      var x :| x in a;
      InjectionSize(f, a - {x}, b - {f(x)});
    }
  }

  lemma {:induction false} SomeInBag<T>(m: multiset<T>) returns (x: T)
    requires m != multiset{}
    ensures x in m
  {
    assert |m| > 0;
    x :| x in m;
  }

  lemma {:induction false} SomeInSet<T>(m: set<T>) returns (x: T)
    requires m != {}
    ensures x in m
  {
    x :| x in m;
  }

  ghost predicate Increasing(s: seq<nat>) { forall i, j :: 0 <= i < j < |s| ==> s[i] < s[j] }

  /** The positions below `n` that are kept, in order. */
  function Positions(n: nat, keep: nat -> bool): (ix: seq<nat>)
    ensures Increasing(ix) && forall m: nat :: m in ix <==> m < n && keep(m)
  {
    if n == 0 then []
    else
      var before := Positions(n - 1, keep);
      assert forall k :: 0 <= k < |before| ==> before[k] in before;
      if keep(n - 1) then before + [n - 1] else before
  }

  ghost predicate NoRepeat<T>(s: seq<T>) { forall i, j :: 0 <= i < j < |s| ==> s[i] != s[j] }

  /** Pairwise different numbers below n are at most n. */
  lemma {:induction false} ManyDistinct(s: seq<int>, n: nat)
    requires NoRepeat(s) && forall k :: 0 <= k < |s| ==> 0 <= s[k] < n
    ensures |s| <= n
  {
    InjectionSize(k => if 1 <= k <= |s| then s[k - 1] + 1 else 0, OneTo(|s|), OneTo(n));
  }
}
