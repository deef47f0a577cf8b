/** scripts/convert_otel_2_perfetto.py: the order in which a trace file's engine spans are written: requests in
    file order, a request's spans in start order, each followed by what lies below it, depth first and in
    file order. */
module GatherOrder {
  import opened Prelude
  import opened SpanForest
  import opened SpanConvert
  import opened SpanGather
  import opened TraceConversion
  import opened TraceArrows

  ghost predicate Precedes(s: seq<nat>, x: nat, y: nat) {
    exists i, j :: 0 <= i < j < |s| && s[i] == x && s[j] == y
  }

  lemma {:induction false} PrecedesIn(u: seq<nat>, s: seq<nat>, v: seq<nat>, x: nat, y: nat)
    requires Precedes(s, x, y)
    ensures Precedes(u + s + v, x, y)
  {
    var i, j :| 0 <= i < j < |s| && s[i] == x && s[j] == y;
    assert (u + s + v)[|u| + i] == x && (u + s + v)[|u| + j] == y;
  }

  lemma {:induction false} PrecedesAcross(s: seq<nat>, t: seq<nat>, x: nat, y: nat)
    requires x in s && y in t
    ensures Precedes(s + t, x, y)
  {
    var i :| 0 <= i < |s| && s[i] == x;
    var j :| 0 <= j < |t| && t[j] == y;
    assert (s + t)[i] == x && (s + t)[|s| + j] == y;
  }

  lemma {:induction false} WalkIs(ss: seq<Span>, p: nat, e: nat)
    requires RootedAt(ss, p, e)
    ensures e + 1 <= |ss| && forall c :: c in Children(ss, p) ==> RootedAt(ss, c, e + 1)
    ensures Walk(ss, p, e) == [p] + WalkAll(ss, Children(ss, p), e + 1)
  {
    hide RootedAt, Children, WalkAll;
    RootedBound(ss, p, e);
    ChildrenRooted(ss, p, e);
  }

  lemma {:induction false} BelowInRange(ss: seq<Span>, j: nat, a: nat)
    requires Below(ss, j, a, 0)
    ensures j < |ss|
  {
  }

  /** The walk of a span visited is one stretch of the walk that visits it. */
  lemma {:induction false} WalkContains(ss: seq<Span>, i: nat, d: nat, x: nat)
    returns (u: seq<nat>, v: seq<nat>, e: nat)
    requires RootedAt(ss, i, d) && x in Walk(ss, i, d)
    ensures RootedAt(ss, x, e) && e >= d && Walk(ss, i, d) == u + Walk(ss, x, e) + v
    decreases |ss| - d, 0
  {
    hide RootedAt, Children, Walk, WalkAll;
    WalkIs(ss, i, d);
    if x == i {
      u, v, e := [], [], d;
    } else {
      u, v, e := WalkAllContains(ss, Children(ss, i), d + 1, x);
      u := [i] + u;
    }
  }

  lemma {:induction false} WalkAllContains(ss: seq<Span>, cs: seq<nat>, d: nat, x: nat)
    returns (u: seq<nat>, v: seq<nat>, e: nat)
    requires d <= |ss| && (forall c :: c in cs ==> RootedAt(ss, c, d)) && x in WalkAll(ss, cs, d)
    ensures RootedAt(ss, x, e) && e >= d && WalkAll(ss, cs, d) == u + Walk(ss, x, e) + v
    decreases |ss| - d, 1 + |cs|
  {
    hide RootedAt, Walk;
    var first, rest := Walk(ss, cs[0], d), WalkAll(ss, cs[1..], d);
    if x in first {
      u, v, e := WalkContains(ss, cs[0], d, x);
      v := v + rest;
    } else {
      u, v, e := WalkAllContains(ss, cs[1..], d, x);
      u := first + u;
    }
  }

  /** What lies below an earlier entry of the list comes before what lies below a later one. */
  lemma {:induction false} EarlierFirst(ss: seq<Span>, cs: seq<nat>, d: nat, a: nat, b: nat, j: nat, k: nat)
    requires d <= |ss| && (forall c :: c in cs ==> RootedAt(ss, c, d)) && a < b < |cs|
    requires cs[a] in cs && cs[b] in cs && j in Walk(ss, cs[a], d) && k in Walk(ss, cs[b], d)
    ensures Precedes(WalkAll(ss, cs, d), j, k)
    decreases |cs|
  {
    hide RootedAt, Walk, Precedes;
    var first, rest := Walk(ss, cs[0], d), WalkAll(ss, cs[1..], d);
    if a == 0 {
      InWalkAll(ss, cs[1..], d, b - 1, k);
      PrecedesAcross(first, rest, j, k);
    } else {
      assert cs[1..][a - 1] == cs[a] && cs[1..][b - 1] == cs[b];
      EarlierFirst(ss, cs[1..], d, a - 1, b - 1, j, k);
      PrecedesIn(first, rest, [], j, k);
      assert first + rest + [] == first + rest;
    }
  }

  lemma {:induction false} InWalkAll(ss: seq<Span>, cs: seq<nat>, d: nat, b: nat, k: nat)
    requires d <= |ss| && (forall c :: c in cs ==> RootedAt(ss, c, d)) && b < |cs|
    requires cs[b] in cs && k in Walk(ss, cs[b], d)
    ensures k in WalkAll(ss, cs, d)
    decreases |cs|
  {
    hide RootedAt, Walk;
    if b > 0 {
      assert cs[1..][b - 1] == cs[b];
      InWalkAll(ss, cs[1..], d, b - 1, k);
    }
  }

  lemma {:induction false} GatheredIs(ss: seq<Span>, cs: seq<nat>)
    requires cs != [] && forall c :: c in cs ==> RootedAt(ss, c, 2)
    ensures 2 <= |ss| && Gathered(ss, cs) == WalkAll(ss, cs, 2)
  {
    RootedBound(ss, cs[0], 2);
  }

  /** A span is written before every span below it. */
  lemma {:induction false} ParentsFirst(ss: seq<Span>, cs: seq<nat>, p: nat, j: nat)
    requires forall c :: c in cs ==> RootedAt(ss, c, 2)
    requires p in Gathered(ss, cs) && j != p && Below(ss, j, p, 0)
    ensures Precedes(Gathered(ss, cs), p, j)
  {
    hide RootedAt, Below, Walk, Precedes;
    assert cs != [] by { NothingGathered(ss, cs); }
    GatheredIs(ss, cs);
    var u, v, e := WalkAllContains(ss, cs, 2, p);
    WalkStarts(ss, p, e, j);
    PrecedesIn(u, Walk(ss, p, e), v, p, j);
  }

  lemma {:induction false} NothingGathered(ss: seq<Span>, cs: seq<nat>)
    requires forall c :: c in cs ==> RootedAt(ss, c, 2)
    ensures cs == [] ==> Gathered(ss, cs) == []
  {
  }

  lemma {:induction false} WalkStarts(ss: seq<Span>, p: nat, e: nat, j: nat)
    requires RootedAt(ss, p, e) && j != p && Below(ss, j, p, 0)
    ensures Precedes(Walk(ss, p, e), p, j)
  {
    hide RootedAt, Below, Children, Walk, WalkAll, Precedes;
    BelowInRange(ss, j, p);
    WalkMembers(ss, p, e, j);
    WalkIs(ss, p, e);
    PrecedesAcross([p], WalkAll(ss, Children(ss, p), e + 1), p, j);
  }

  /** Of two spans with one parent, the one that comes first in the file is written first, with all that
      lies below it. */
  lemma {:induction false} SiblingsInOrder(ss: seq<Span>, cs: seq<nat>, p: nat, a: nat, b: nat, j: nat, k: nat)
    requires forall c :: c in cs ==> RootedAt(ss, c, 2)
    requires p in Gathered(ss, cs) && a < b < |ss| && Parent(ss, a) == Some(p) && Parent(ss, b) == Some(p)
    requires Below(ss, j, a, 0) && Below(ss, k, b, 0)
    ensures Precedes(Gathered(ss, cs), j, k)
  {
    hide RootedAt, Below, Walk, Precedes, Parent;
    assert cs != [] by { NothingGathered(ss, cs); }
    GatheredIs(ss, cs);
    var u, v, e := WalkAllContains(ss, cs, 2, p);
    ChildrenInOrder(ss, p, e, a, b, j, k);
    PrecedesIn(u, Walk(ss, p, e), v, j, k);
  }

  lemma {:induction false} ChildrenInOrder(ss: seq<Span>, p: nat, e: nat, a: nat, b: nat, j: nat, k: nat)
    requires RootedAt(ss, p, e) && a < b < |ss| && Parent(ss, a) == Some(p) && Parent(ss, b) == Some(p)
    requires Below(ss, j, a, 0) && Below(ss, k, b, 0)
    ensures Precedes(Walk(ss, p, e), j, k)
  {
    hide RootedAt, Below, Children, Walk, WalkAll, Precedes, Parent;
    WalkIs(ss, p, e);
    ChildParent(ss, p, a);
    ChildParent(ss, p, b);
    var cs := Children(ss, p);
    var x, y := ChildIndex(ss, p, a, b);
    BelowInRange(ss, j, a);
    BelowInRange(ss, k, b);
    WalkMembers(ss, a, e + 1, j);
    WalkMembers(ss, b, e + 1, k);
    EarlierFirst(ss, cs, e + 1, x, y, j, k);
    PrecedesIn([p], WalkAll(ss, cs, e + 1), [], j, k);
    assert Walk(ss, p, e) == [p] + WalkAll(ss, cs, e + 1) + [];
  }

  lemma {:induction false} ChildIndex(ss: seq<Span>, p: nat, a: nat, b: nat) returns (x: nat, y: nat)
    requires a in Children(ss, p) && b in Children(ss, p) && a < b
    ensures x < y < |Children(ss, p)| && Children(ss, p)[x] == a && Children(ss, p)[y] == b
  {
    var cs := Children(ss, p);
    x :| 0 <= x < |cs| && cs[x] == a;
    y :| 0 <= y < |cs| && cs[y] == b;
  }

  // ----- the spans of the requests

  /** The requests of the file in turn, and the spans of each in start order. */
  lemma {:induction false} RequestsInTurn(ss: seq<Span>, i: nat, j: nat)
    requires i < j < |Order(ss)|
    ensures Order(ss)[i] < |ss| && Order(ss)[j] < |ss|
    ensures var u, w := Up(ss, Order(ss)[i], 2), Up(ss, Order(ss)[j], 2);
      && u.Some? && w.Some?
      && (u.value < w.value || (u == w && ss[Order(ss)[i]].start <= ss[Order(ss)[j]].start))
  {
    hide RootedAt, AllSorted, RequestsUpTo, Up;
    RequestsRooted(ss);
    var roots := RequestsUpTo(ss, |ss|);
    AllSortedInTurn(ss, roots, i, j);
  }

  lemma {:induction false} AllSortedInTurn(ss: seq<Span>, roots: seq<nat>, i: nat, j: nat)
    requires (forall p :: p in roots ==> RootedAt(ss, p, 0)) && Increasing(roots) && i < j < |AllSorted(ss, roots)|
    ensures var all := AllSorted(ss, roots); all[i] < |ss| && all[j] < |ss|
    ensures var all := AllSorted(ss, roots); var u, w := Up(ss, all[i], 2), Up(ss, all[j], 2);
      && u.Some? && w.Some? && u.value in roots && w.value in roots
      && (u.value < w.value || (u == w && ss[all[i]].start <= ss[all[j]].start))
  {
    hide RootedAt, Sorted, Up;
    var n := |roots| - 1;
    assert roots[n] in roots;
    var before, last := AllSorted(ss, roots[..n]), Sorted(ss, roots[n]);
    SortedIs(ss, roots[n]);
    if j < |before| {
      AllSortedInTurn(ss, roots[..n], i, j);
    } else {
      assert last[j - |before|] in last;
      if i >= |before| {
        assert last[i - |before|] in last;
        SortedStarts(ss, roots[n], i - |before|, j - |before|);
      } else {
        var u := AllSortedRoot(ss, roots[..n], i);
        assert u in roots;
        var m :| 0 <= m < n && roots[..n][m] == u;
      }
    }
  }

  lemma {:induction false} AllSortedRoot(ss: seq<Span>, roots: seq<nat>, i: nat) returns (u: nat)
    requires (forall p :: p in roots ==> RootedAt(ss, p, 0)) && i < |AllSorted(ss, roots)|
    ensures AllSorted(ss, roots)[i] < |ss| && Up(ss, AllSorted(ss, roots)[i], 2) == Some(u) && u in roots
  {
    hide RootedAt, Sorted, Up;
    var n := |roots| - 1;
    assert roots[n] in roots;
    var before := AllSorted(ss, roots[..n]);
    if i < |before| {
      u := AllSortedRoot(ss, roots[..n], i);
    } else {
      u := roots[n];
      SortedIs(ss, u);
      assert Sorted(ss, u)[i - |before|] in Sorted(ss, u);
    }
  }

  /** Everything below an earlier span of that list is written before everything below a later one. */
  lemma {:induction false} SpansInTurn(ss: seq<Span>, a: nat, b: nat, j: nat, k: nat)
    requires a < b < |Order(ss)| && Below(ss, j, Order(ss)[a], 0) && Below(ss, k, Order(ss)[b], 0)
    ensures forall c :: c in Order(ss) ==> RootedAt(ss, c, 2)
    ensures Precedes(Gathered(ss, Order(ss)), j, k)
  {
    hide RootedAt, Order;
    OrderBag(ss);
    var cs := Order(ss);
    assert cs[a] in cs && cs[b] in cs;
    GatheredIs(ss, cs);
    assert j < |ss| && k < |ss|;
    WalkMembers(ss, cs[a], 2, j);
    WalkMembers(ss, cs[b], 2, k);
    hide Below, Walk;
    EarlierFirst(ss, cs, 2, a, b, j, k);
  }
}
