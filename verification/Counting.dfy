/** Sums and counts over the per-client tables and queues of the workload drivers. */
module Counting {

  function Sum(s: seq<int>): int {
    if s == [] then 0 else Sum(s[..|s| - 1]) + s[|s| - 1]
  }

  /** How many entries exceed r. */
  function Above(s: seq<int>, r: int): nat {
    if s == [] then 0 else Above(s[..|s| - 1], r) + if s[|s| - 1] > r then 1 else 0
  }

  /** Above(s, 0) + ... + Above(s, n - 1) */
  function AboveSum(s: seq<int>, n: nat): nat {
    if n == 0 then 0 else AboveSum(s, n - 1) + Above(s, n - 1)
  }

  lemma {:induction false} SumUpdate(s: seq<int>, i: nat, v: int)
    requires i < |s|
    ensures Sum(s[i := v]) == Sum(s) - s[i] + v
  {
    var n := |s| - 1;
    if i < n {
      SumUpdate(s[..n], i, v);
      assert s[i := v][..n] == s[..n][i := v];
    } else {
      assert s[i := v][..n] == s[..n];
    }
  }

  lemma {:induction false} AboveUpdate(s: seq<int>, i: nat, v: int, r: int)
    requires i < |s|
    ensures Above(s[i := v], r) == Above(s, r) - (if s[i] > r then 1 else 0) + if v > r then 1 else 0
  {
    var n := |s| - 1;
    if i < n {
      AboveUpdate(s[..n], i, v, r);
      assert s[i := v][..n] == s[..n][i := v];
    } else {
      assert s[i := v][..n] == s[..n];
    }
  }

  ghost predicate AtMost(a: seq<int>, b: seq<int>) {
    |a| == |b| && forall i :: 0 <= i < |a| ==> a[i] <= b[i]
  }

  /** Among pointwise smaller entries fewer exceed r, and as many only if all that could do. */
  lemma {:induction false} AboveMonotone(a: seq<int>, b: seq<int>, r: int)
    requires AtMost(a, b)
    ensures Above(a, r) <= Above(b, r)
    ensures Above(a, r) == Above(b, r) ==> forall i :: 0 <= i < |a| && b[i] > r ==> a[i] > r
  {
    if a != [] {
      AboveMonotone(a[..|a| - 1], b[..|b| - 1], r);
    }
  }

  lemma {:induction false} AboveSame(a: seq<int>, b: seq<int>, r: int)
    requires |a| == |b| && forall i :: 0 <= i < |a| ==> (a[i] > r <==> b[i] > r)
    ensures Above(a, r) == Above(b, r)
  {
    if a != [] {
      AboveSame(a[..|a| - 1], b[..|b| - 1], r);
    }
  }

  lemma {:induction false} AboveZero(s: seq<int>, r: int)
    ensures Above(s, r) == 0 <==> forall i :: 0 <= i < |s| ==> s[i] <= r
  {
    if s != [] { AboveZero(s[..|s| - 1], r); }
  }

  lemma {:induction false} SumMonotone(a: seq<int>, b: seq<int>)
    requires AtMost(a, b)
    ensures Sum(a) <= Sum(b)
    ensures Sum(a) == Sum(b) ==> a == b
  {
    if a != [] {
      SumMonotone(a[..|a| - 1], b[..|b| - 1]);
    }
  }

  lemma {:induction false} AboveSumLast(s: seq<int>, n: nat)
    requires s != []
    ensures AboveSum(s, n) ==
      AboveSum(s[..|s| - 1], n) + if s[|s| - 1] <= 0 then 0 else if s[|s| - 1] <= n then s[|s| - 1] else n
  {
    if n > 0 { AboveSumLast(s, n - 1); }
  }

  lemma {:induction false} AboveSumEmpty(n: nat)
    ensures AboveSum([], n) == 0
  {
    if n > 0 { AboveSumEmpty(n - 1); }
  }

  /** Double counting: totalling rounds per client is totalling clients per round. */
  lemma {:induction false} SumByRounds(s: seq<int>, n: nat)
    requires forall i :: 0 <= i < |s| ==> 0 <= s[i] <= n
    ensures Sum(s) == AboveSum(s, n)
  {
    if s == [] {
      AboveSumEmpty(n);
    } else {
      SumByRounds(s[..|s| - 1], n);
      AboveSumLast(s, n);
    }
  }

  function Is(c: int, d: int): int { if c == d then 1 else 0 }

  /** How often `c` occurs in a queue. */
  function Times(s: seq<int>, c: int): nat {
    if s == [] then 0 else Times(s[..|s| - 1], c) + if s[|s| - 1] == c then 1 else 0
  }

  lemma {:induction false} TimesConcat(a: seq<int>, b: seq<int>, c: int)
    ensures Times(a + b, c) == Times(a, c) + Times(b, c)
  {
    if b == [] {
      assert a + b == a;
    } else {
      var n := |b| - 1;
      TimesConcat(a, b[..n], c);
      assert (a + b)[..|a| + n] == a + b[..n];
    }
  }

  lemma {:induction false} TimesOne(d: int, c: int)
    ensures Times([d], c) == Is(d, c)
  {
    assert Times([d][..0], c) == 0;
  }

  lemma {:induction false} TimesRemove(s: seq<int>, i: nat, c: int)
    requires i < |s|
    ensures Times(s, c) == Times(s[..i] + s[i + 1..], c) + Is(s[i], c)
  {
    assert s == s[..i] + ([s[i]] + s[i + 1..]);
    TimesConcat(s[..i], [s[i]] + s[i + 1..], c);
    TimesConcat([s[i]], s[i + 1..], c);
    TimesConcat(s[..i], s[i + 1..], c);
    TimesOne(s[i], c);
  }

  lemma {:induction false} TimesSnoc(s: seq<int>, d: int, c: int)
    ensures Times(s + [d], c) == Times(s, c) + Is(d, c)
  {
    TimesConcat(s, [d], c);
    TimesOne(d, c);
  }

  lemma {:induction false} TimesMember(s: seq<int>, c: int)
    ensures c in s <==> Times(s, c) > 0
  {
    if s != [] { TimesMember(s[..|s| - 1], c); }
  }

  function OneIf(b: bool): int { if b then 1 else 0 }
}
