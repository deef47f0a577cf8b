/** scripts/convert_otel_2_perfetto.py: which arrows and which process every span of a trace file gets, said
    of the file alone. */
module TraceArrows {
  import opened Prelude
  import opened SpanForest
  import opened SpanConvert
  import opened SpanGather
  import opened TraceConversion

  // ----- where spans are drawn

  /** Everything drawn is a gateway span, or a span two steps below a request in the process of its thread. */
  lemma {:induction false} DrawnFromFile(ss: seq<Span>, gs: seq<Gateway>, k: nat)
    requires [] !in AllRequests(ss) && k < |L.Run(T.LayoutEvents(AllRequests(ss), ShownGateways(gs))).placed|
    ensures var x := L.Run(T.LayoutEvents(AllRequests(ss), ShownGateways(gs))).placed[k].span;
      FromFile(ss, x) ||
      (x.pid == L.Smg && x.id < |gs| && x.start == gs[x.id].start && x.end == gs[x.id].end - 1000)
  {
    hide T.LayoutEvents, L.Run, AllRequests, ShownGateways, FromFile, S.SpansOf, S.Conserved, S.SlotsMatch;
    var es := T.LayoutEvents(AllRequests(ss), ShownGateways(gs));
    S.RunConserved(es);
    var x := L.Run(es).placed[k].span;
    assert x == S.Drawn(L.Run(es).placed)[k];
    PlacedWasGiven(AllRequests(ss), ShownGateways(gs), x);
    GatewaysAt(gs);
    if x !in ShownGateways(gs) {
      var m :| 0 <= m < |AllRequests(ss)| && x in AllRequests(ss)[m];
      RequestsFromFile(ss, m);
    }
  }

  // ----- which arrows there are

  /** Request `u` names gateway span `g` as its parent; of several with that id, the last. */
  ghost predicate ComesThrough(ss: seq<Span>, gs: seq<Gateway>, u: nat, g: nat) {
    && u < |ss| && g < |gs| && ss[u].parentSpanId == Some(gs[g].spanId)
    && forall h :: g < h < |gs| ==> gs[h].spanId != gs[g].spanId
  }

  /** Span `c` comes first among its request's spans. */
  ghost predicate Leads(ss: seq<Span>, c: nat)
    requires RootedAt(ss, c, 2)
  {
    var u := Up(ss, c, 2).value;
    RequestAbove(ss, c);
    Sorted(ss, u) != [] && Sorted(ss, u)[0] == c
  }

  lemma {:induction false} RequestAbove(ss: seq<Span>, c: nat)
    requires RootedAt(ss, c, 2)
    ensures c < |ss| && Up(ss, c, 2).Some? && RootedAt(ss, Up(ss, c, 2).value, 0)
  {
    RootedAbove(ss, c, 2, 2);
  }

  /** What span `c` of the file is linked to: the gateway span its request came through, if it leads that
      request, and otherwise the spans that its links name. */
  ghost predicate FileLink(ss: seq<Span>, gs: seq<Gateway>, c: nat, b: K.Node)
    requires RootedAt(ss, c, 2)
  {
    var u := Up(ss, c, 2).value;
    if Leads(ss, c) && exists g: nat :: ComesThrough(ss, gs, u, g)
    then b.GatewaySpan? && ComesThrough(ss, gs, u, b.index)
    else b.EngineSpan? && exists id :: id in ss[c].links && ById(ss, id) == Some(b.index)
  }

  lemma {:induction false} SpansOfUp(ss: seq<Span>, root: nat, c: nat)
    requires RootedAt(ss, root, 0)
    ensures c in SpansOf(ss, root) <==> c < |ss| && Up(ss, c, 2) == Some(root)
  {
    hide Parent, Children, Kids;
    KidsMembers(ss, Children(ss, root), c);
    if c < |ss| && Parent(ss, c).Some? { ChildParent(ss, root, Parent(ss, c).value); }
    assert c < |ss| ==> Up(ss, c, 1) == Parent(ss, c) by { OneUp(ss, c); }
  }

  lemma {:induction false} OneUp(ss: seq<Span>, c: nat)
    ensures c < |ss| ==> Up(ss, c, 1) == Parent(ss, c)
  {
    hide Parent;
    if c < |ss| { assert Up(ss, c, 0) == Some(c); }
  }

  /** The spans of a request are those two steps below it, each once. */
  lemma {:induction false} SortedIs(ss: seq<Span>, u: nat)
    requires RootedAt(ss, u, 0)
    ensures NoRepeat(Sorted(ss, u)) && forall c: nat :: c in Sorted(ss, u) <==> c < |ss| && Up(ss, c, 2) == Some(u)
  {
    hide RootedAt, Sorted, SpansOf, Up;
    SortedBag(ss, u);
    forall c: nat ensures c in SpansOf(ss, u) <==> c < |ss| && Up(ss, c, 2) == Some(u) { SpansOfUp(ss, u, c); }
    SpansOfOnce(ss, u);
    SameBagOnce(SpansOf(ss, u), Sorted(ss, u));
  }

  /** They come in start order. */
  lemma {:induction false} SortedStarts(ss: seq<Span>, u: nat, i: nat, j: nat)
    requires RootedAt(ss, u, 0) && i <= j < |Sorted(ss, u)|
    ensures Sorted(ss, u)[i] < |ss| && Sorted(ss, u)[j] < |ss|
    ensures ss[Sorted(ss, u)[i]].start <= ss[Sorted(ss, u)[j]].start
  {
    hide RootedAt, Drawn, SpansOf, T.SortByStart, Up;
    SpansOfRooted(ss, u);
    var ds := Drawn(ss, SpansOf(ss, u));
    DrawnAt(ss, SpansOf(ss, u));
    var ys := T.SortByStart(ds);
    T.SortKeeps(ds);
    assert Sorted(ss, u) == IdsOf(ys);
    forall k | 0 <= k < |ys| ensures ys[k].id < |ss| && ys[k].start == ss[ys[k].id].start {
      SortMembers(ds, ys[k]);
    }
  }

  /** The span that leads a request starts no later than any other of it. */
  lemma {:induction false} LeadsFirst(ss: seq<Span>, c: nat, c': nat)
    requires RootedAt(ss, c, 2) && Leads(ss, c) && c' < |ss| && Up(ss, c', 2) == Up(ss, c, 2)
    ensures c < |ss| && ss[c].start <= ss[c'].start
  {
    hide RootedAt, Sorted, Up;
    RequestAbove(ss, c);
    var u := Up(ss, c, 2).value;
    SortedIs(ss, u);
    var j :| 0 <= j < |Sorted(ss, u)| && Sorted(ss, u)[j] == c';
    SortedStarts(ss, u, 0, j);
  }

  /** The requests of the file, one by one. */
  lemma {:induction false} FileRootAt(ss: seq<Span>, k: nat)
    requires k < |FileRoots(ss)|
    ensures var roots := RequestsUpTo(ss, |ss|);
      && |FileRoots(ss)| == |roots| && RootedAt(ss, roots[k], 0) && roots[k] < |ss|
      && FileRoots(ss)[k].parentSpanId == ss[roots[k]].parentSpanId
      && |FileRoots(ss)[k].spans| == |Sorted(ss, roots[k])|
  {
    hide RootedAt, Sorted, LinkRoots, RequestsUpTo;
    var roots := RequestsUpTo(ss, |ss|);
    RequestsRooted(ss);
    assert roots[k] in roots;
    LinkRootsAt(ss, roots, k);
  }

  lemma {:induction false} SpansOfOnce(ss: seq<Span>, root: nat)
    ensures NoRepeat(SpansOf(ss, root))
  {
    ChildrenOnce(ss, root);
    KidsNoRepeat(ss, Children(ss, root));
  }

  lemma {:induction false} LinkedSpansAt(ss: seq<Span>, cs: seq<nat>, m: nat, b: K.Node)
    requires (forall k :: 0 <= k < |cs| ==> cs[k] < |ss|) && m < |cs|
    ensures LinkedSpans(ss, cs)[m].source == K.EngineSpan(cs[m])
    ensures b in LinkedSpans(ss, cs)[m].links <==>
      b.EngineSpan? && exists id :: id in ss[cs[m]].links && ById(ss, id) == Some(b.index)
  {
    hide ById, LinkTargets;
    var n := |cs| - 1;
    if m < n {
      LinkedSpansAt(ss, cs[..n], m, b);
    } else {
      var ts := LinkTargets(ss, ss[cs[n]].links);
      assert LinkedSpans(ss, cs)[n] == K.Linked(K.EngineSpan(cs[n]), EngineNodes(ts));
      if b.EngineSpan? {
        LinkTargetsMembers(ss, ss[cs[n]].links, b.index);
        EngineNodesMembers(ts, b);
      } else {
        EngineNodesMembers(ts, b);
      }
    }
  }

  lemma {:induction false} EngineNodesMembers(ts: seq<nat>, b: K.Node)
    ensures b in EngineNodes(ts) <==> b.EngineSpan? && b.index in ts
  {
    hide EngineNodes;
    if b.EngineSpan? && b.index in ts {
      var k :| 0 <= k < |ts| && ts[k] == b.index;
      assert EngineNodes(ts)[k] == b;
    }
  }

  lemma {:induction false} ThroughExactly(ss: seq<Span>, gs: seq<Gateway>, u: nat, r: K.Root)
    requires u < |ss| && r.parentSpanId == ss[u].parentSpanId
    ensures var g := K.Gateway(r, GatewayIds(gs));
      && (g.Some? <==> exists h: nat :: ComesThrough(ss, gs, u, h))
      && (g.Some? ==> forall h: nat :: ComesThrough(ss, gs, u, h) <==> h == g.value)
  {
    hide GatewayIds, K.LastWith;
    var g := K.Gateway(r, GatewayIds(gs));
    if g.Some? { assert ComesThrough(ss, gs, u, g.value); }
    forall h: nat | ComesThrough(ss, gs, u, h) ensures g == Some(h) {
      assert GatewayIds(gs)[h] == gs[h].spanId;
    }
  }

  /** Span `m` of request `k` links where the file says. */
  lemma {:induction false} RootLinks(ss: seq<Span>, gs: seq<Gateway>, k: nat, m: nat, b: K.Node)
    requires k < |FileRoots(ss)| && m < |FileRoots(ss)[k].spans|
    ensures var roots := RequestsUpTo(ss, |ss|);
      k < |roots| && RootedAt(ss, roots[k], 0) && m < |Sorted(ss, roots[k])| && RootedAt(ss, Sorted(ss, roots[k])[m], 2)
    ensures var c := Sorted(ss, RequestsUpTo(ss, |ss|)[k])[m];
      && FileRoots(ss)[k].spans[m].source == K.EngineSpan(c)
      && (K.LinksTo(FileRoots(ss)[k], GatewayIds(gs), m, b) <==> FileLink(ss, gs, c, b))
  {
    hide RootedAt, Sorted, LinkedSpans, LinkRoots, RequestsUpTo, SpansOf, Up, Children, Kids, GatewayIds, ById,
      K.Gateway, ComesThrough, FileRoots;
    FileRootAt(ss, k);
    var u := RequestsUpTo(ss, |ss|)[k];
    SortedIs(ss, u);
    var c := Sorted(ss, u)[m];
    assert c in Sorted(ss, u);
    UpIsRooted(ss, c, u);
    RootSpan(ss, k, m, b);
    ThroughExactly(ss, gs, u, FileRoots(ss)[k]);
    assert Leads(ss, c) <==> m == 0;
  }

  lemma {:induction false} UpIsRooted(ss: seq<Span>, c: nat, u: nat)
    requires c < |ss| && Up(ss, c, 2) == Some(u) && RootedAt(ss, u, 0)
    ensures RootedAt(ss, c, 2)
  {
    hide Up;
    RootedBelow(ss, c, 2, u, 0);
  }

  lemma {:induction false} RootSpan(ss: seq<Span>, k: nat, m: nat, b: K.Node)
    requires k < |FileRoots(ss)| && m < |FileRoots(ss)[k].spans|
    ensures var roots := RequestsUpTo(ss, |ss|);
      k < |roots| && RootedAt(ss, roots[k], 0) && m < |Sorted(ss, roots[k])| && Sorted(ss, roots[k])[m] < |ss|
    ensures var c, l := Sorted(ss, RequestsUpTo(ss, |ss|)[k])[m], FileRoots(ss)[k].spans[m];
      && l.source == K.EngineSpan(c)
      && (b in l.links <==> b.EngineSpan? && exists id :: id in ss[c].links && ById(ss, id) == Some(b.index))
  {
    hide RootedAt, Sorted, LinkedSpans, LinkRoots, RequestsUpTo, ById;
    var roots := RequestsUpTo(ss, |ss|);
    RequestsRooted(ss);
    assert roots[k] in roots;
    LinkRootsAt(ss, roots, k);
    LinkedSpansAt(ss, Sorted(ss, roots[k]), m, b);
  }

  /** The place of a span among its request's. */
  lemma {:induction false} FindSpan(ss: seq<Span>, c: nat) returns (k: nat, m: nat)
    requires RootedAt(ss, c, 2)
    ensures k < |FileRoots(ss)| && m < |FileRoots(ss)[k].spans|
    ensures var roots := RequestsUpTo(ss, |ss|);
      k < |roots| && RootedAt(ss, roots[k], 0) && m < |Sorted(ss, roots[k])| && Sorted(ss, roots[k])[m] == c
  {
    RequestAbove(ss, c);
    var u := Up(ss, c, 2).value;
    RequestsAtZero(ss, u);
    RequestsRooted(ss);
    hide RootedAt, Sorted, LinkRoots, RequestsUpTo, Up;
    var roots := RequestsUpTo(ss, |ss|);
    k :| 0 <= k < |roots| && roots[k] == u;
    FileRootAt(ss, k);
    SortedIs(ss, u);
    m :| 0 <= m < |Sorted(ss, u)| && Sorted(ss, u)[m] == c;
  }

  /** The arrows of the output, in terms of the file: there is one from a span to another if and only if the
      first is two steps below a request, the second was converted, and the file links them. */
  lemma {:induction false} FileArrows(ss: seq<Span>, gs: seq<Gateway>, converted: set<K.Node>, a: (K.Node, K.Node))
    requires forall x :: x in converted <==> IsConverted(ss, gs, x)
    requires forall k :: 0 <= k < |FileRoots(ss)| ==> FileRoots(ss)[k].spans != []
    ensures a in K.Arrows(K.Resolved(FileRoots(ss), GatewayIds(gs)), converted) <==>
      && IsConverted(ss, gs, a.1) && a.0.EngineSpan?
      && RootedAt(ss, a.0.index, 2) && FileLink(ss, gs, a.0.index, a.1)
  {
    hide RootedAt, K.Arrows, K.Resolved, FileRoots, GatewayIds, FileLink, IsConverted, K.LinksTo, Sorted,
      RequestsUpTo;
    var roots := FileRoots(ss);
    K.ArrowsExactly(roots, GatewayIds(gs), converted, a);
    if k: nat, m: nat :| K.Links(roots, GatewayIds(gs), k, m, a) {
      RootLinks(ss, gs, k, m, a.1);
    }
    if a.0.EngineSpan? && RootedAt(ss, a.0.index, 2) && FileLink(ss, gs, a.0.index, a.1) {
      var k, m := FindSpan(ss, a.0.index);
      RootLinks(ss, gs, k, m, a.1);
      assert K.Links(roots, GatewayIds(gs), k, m, a);
    }
  }
}
