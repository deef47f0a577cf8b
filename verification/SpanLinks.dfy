/** scripts/convert_otel_2_perfetto.py, `id_generator` and `generate_perfetto_links`: flow events
    between spans. A link target gets its correlation id from a running counter the first time it
    is linked, and keeps it in its attributes; targets that were never converted are skipped. */
module SpanLinks {
  import opened Prelude

  /** A span that a link may point at. */
  datatype Node = EngineSpan(index: nat) | GatewaySpan(index: nat)

  /** One span of a request with the spans its links resolved to. */
  datatype Linked = Linked(source: Node, links: seq<Node>)

  /** A request: its `parentSpanId`, if present, and its spans in start order. */
  datatype Root = Root(parentSpanId: Option<string>, spans: seq<Linked>)

  datatype Event = FlowStart(id: int, at: Node) | FlowFinish(id: int, at: Node)

  /** The "correlation" attributes and the counter. */
  datatype State = State(correlation: map<Node, int>, next: nat)

  function IdOf(st: State, t: Node): int { if t in st.correlation then st.correlation[t] else st.next }

  function Touch(st: State, t: Node): State {
    if t in st.correlation then st else State(st.correlation[t := st.next], st.next + 1)
  }

  /** The state after linking to the targets `ts` in turn, starting from preset attributes. */
  function After(preset: map<Node, int>, ts: seq<Node>): State {
    if ts == [] then State(preset, 0) else Touch(After(preset, ts[..|ts| - 1]), ts[|ts| - 1])
  }

  /** The ids handed out for the targets `ts`. */
  function Ids(preset: map<Node, int>, ts: seq<Node>): (r: seq<int>)
    ensures |r| == |ts|
  {
    if ts == [] then []
    else Ids(preset, ts[..|ts| - 1]) + [IdOf(After(preset, ts[..|ts| - 1]), ts[|ts| - 1])]
  }

  /** Fresh ids are 0..next-1, each for one target that had no preset id. */
  ghost predicate Inv(preset: map<Node, int>, ts: seq<Node>, st: State) {
    && (forall t :: t in st.correlation <==> t in preset || t in ts)
    && (forall t :: t in preset ==> st.correlation[t] == preset[t])
    && (forall t :: t in ts && t !in preset ==> 0 <= st.correlation[t] < st.next)
    && (forall t, u :: t in ts && u in ts && t !in preset && u !in preset && st.correlation[t] == st.correlation[u] ==>
         t == u)
    && (forall v :: 0 <= v < st.next ==> Used(preset, ts, st, v))
  }

  ghost predicate Used(preset: map<Node, int>, ts: seq<Node>, st: State, v: int) {
    exists t :: t in ts && t !in preset && t in st.correlation && st.correlation[t] == v
  }

  lemma {:induction false} TouchInv(preset: map<Node, int>, ts: seq<Node>, st: State, t: Node)
    requires Inv(preset, ts, st)
    ensures Inv(preset, ts + [t], Touch(st, t))
  {
    var st', ts' := Touch(st, t), ts + [t];
    assert forall u :: u in ts' <==> u in ts || u == t;
    forall v | 0 <= v < st'.next ensures Used(preset, ts', st', v) {
      if v < st.next {
        assert Used(preset, ts, st, v);
        var u :| u in ts && u !in preset && u in st.correlation && st.correlation[u] == v;
        assert u in ts' && st'.correlation[u] == v;
      } else {
        assert t in ts' && st'.correlation[t] == v;
      }
    }
  }

  lemma {:induction false} AfterInv(preset: map<Node, int>, ts: seq<Node>)
    ensures Inv(preset, ts, After(preset, ts))
  {
    if ts != [] {
      var n := |ts| - 1;
      AfterInv(preset, ts[..n]);
      TouchInv(preset, ts[..n], After(preset, ts[..n]), ts[n]);
      assert ts[..n] + [ts[n]] == ts;
    }
  }

  /** Once a target has an id it keeps it for the rest of the run. */
  lemma {:induction false} IdsStable(preset: map<Node, int>, ts: seq<Node>, i: nat)
    requires i < |ts|
    ensures ts[i] in After(preset, ts).correlation && Ids(preset, ts)[i] == After(preset, ts).correlation[ts[i]]
  {
    var n := |ts| - 1;
    if i < n {
      IdsStable(preset, ts[..n], i);
    }
  }

  /** Two flows share an id exactly when they point at the same span. */
  ghost predicate IdsTellTargets(preset: map<Node, int>, ts: seq<Node>) {
    forall i, j :: 0 <= i < |ts| && 0 <= j < |ts| ==> (Ids(preset, ts)[i] == Ids(preset, ts)[j] <==> ts[i] == ts[j])
  }

  /** The link targets that get their id from the counter. */
  ghost function Fresh(preset: map<Node, int>, ts: seq<Node>): set<Node> { set t | t in ts && t !in preset }

  lemma {:induction false} FreshCount(preset: map<Node, int>, ts: seq<Node>)
    ensures After(preset, ts).next == |Fresh(preset, ts)|
  {
    if ts != [] {
      var n := |ts| - 1;
      FreshCount(preset, ts[..n]);
      AfterInv(preset, ts[..n]);
      assert ts == ts[..n] + [ts[n]];
      assert ts[n] in After(preset, ts[..n]).correlation <==> ts[n] in preset || ts[n] in ts[..n];
      FreshSnoc(preset, ts[..n], ts[n]);
    }
  }

  lemma {:induction false} FreshSnoc(preset: map<Node, int>, ts: seq<Node>, t: Node)
    ensures |Fresh(preset, ts + [t])| == |Fresh(preset, ts)| + if t in preset || t in ts then 0 else 1
  {
    assert Fresh(preset, ts + [t]) == Fresh(preset, ts) + if t in preset then {} else {t};
  }

  /** The preset ids of linked spans differ from each other, and from the numbers below the number of
      linked spans that have none: all of it can be read off the input. */
  ghost predicate NoClash(preset: map<Node, int>, ts: seq<Node>) {
    && (forall t, u :: t in ts && u in ts && t in preset && u in preset && preset[t] == preset[u] ==> t == u)
    && (forall t :: t in ts && t in preset ==> preset[t] < 0 || preset[t] >= |Fresh(preset, ts)|)
  }

  /** Correlation ids are injective over link targets if and only if no preset attribute gets in
      the way; in particular always when no input span carries one. */
  lemma {:induction false} IdsExact(preset: map<Node, int>, ts: seq<Node>)
    ensures IdsTellTargets(preset, ts) <==> NoClash(preset, ts)
    ensures preset == map[] ==> IdsTellTargets(preset, ts)
  {
    hide After, Ids, Fresh;
    var st := After(preset, ts);
    AfterInv(preset, ts);
    FreshCount(preset, ts);
    forall i | 0 <= i < |ts| ensures ts[i] in st.correlation && Ids(preset, ts)[i] == st.correlation[ts[i]] {
      IdsStable(preset, ts, i);
    }
    if NoClash(preset, ts) {
      NoClashTells(preset, ts, st);
      forall i, j | 0 <= i < |ts| && 0 <= j < |ts|
        ensures Ids(preset, ts)[i] == Ids(preset, ts)[j] <==> ts[i] == ts[j]
      {
        assert ts[i] in ts && ts[j] in ts;
      }
    }
    if IdsTellTargets(preset, ts) {
      forall t, u | t in ts && u in ts && st.correlation[t] == st.correlation[u] ensures t == u {
        var i :| 0 <= i < |ts| && ts[i] == t;
        var j :| 0 <= j < |ts| && ts[j] == u;
        assert Ids(preset, ts)[i] == Ids(preset, ts)[j];
      }
      forall t | t in ts && t in preset ensures preset[t] < 0 || preset[t] >= st.next {
        PresetOutside(preset, ts, st, t);
      }
    }
  }

  /** A gateway span that already carries id 0, and one that is linked first and gets 0 too. */
  lemma {:induction false} ClashWitness()
    ensures var preset, ts := map[GatewaySpan(1) := 0], [GatewaySpan(0), GatewaySpan(1)];
      Ids(preset, ts) == [0, 0] && !IdsTellTargets(preset, ts)
  {
    var preset, ts := map[GatewaySpan(1) := 0], [GatewaySpan(0), GatewaySpan(1)];
    assert ts[..1] == [GatewaySpan(0)] && [GatewaySpan(0)][..0] == [];
    assert After(preset, []) == State(preset, 0);
    assert After(preset, ts[..1]) == State(preset[GatewaySpan(0) := 0], 1);
    assert Ids(preset, ts[..1]) == [0];
    assert Ids(preset, ts)[0] == Ids(preset, ts)[1];
  }

  lemma {:induction false} PresetOutside(preset: map<Node, int>, ts: seq<Node>, st: State, t: Node)
    requires Inv(preset, ts, st) && t in ts && t in preset
    requires forall t, u :: t in ts && u in ts && st.correlation[t] == st.correlation[u] ==> t == u
    ensures preset[t] < 0 || preset[t] >= st.next
  {
    assert 0 <= preset[t] < st.next ==> Used(preset, ts, st, preset[t]);
  }

  lemma {:induction false} NoClashTells(preset: map<Node, int>, ts: seq<Node>, st: State)
    requires Inv(preset, ts, st) && NoClash(preset, ts) && st.next == |Fresh(preset, ts)|
    ensures forall t, u :: t in ts && u in ts && st.correlation[t] == st.correlation[u] ==> t == u
  {
  }

  /** The gateway span with an id: of several, the last. */
  function LastWith(ids: seq<string>, id: string): (r: Option<nat>)
    ensures r.Some? ==> r.value < |ids| && ids[r.value] == id && forall j :: r.value < j < |ids| ==> ids[j] != id
    ensures r.None? <==> id !in ids
  {
    if ids == [] then None
    else if ids[|ids| - 1] == id then Some(|ids| - 1)
    else LastWith(ids[..|ids| - 1], id)
  }

  /** The gateway span a request came through. */
  function Gateway(r: Root, gateway: seq<string>): Option<nat> {
    if r.parentSpanId.Some? then LastWith(gateway, r.parentSpanId.value) else None
  }

  /** The spans of a request; the first is linked to the gateway span, and to nothing else, if there
      is one. */
  function SpansOf(r: Root, gateway: seq<string>): seq<Linked>
    requires r.spans != []
  {
    var g := Gateway(r, gateway);
    if g.Some? then r.spans[0 := r.spans[0].(links := [GatewaySpan(g.value)])] else r.spans
  }

  /** All request spans in the order they are linked. */
  function Resolved(roots: seq<Root>, gateway: seq<string>): seq<Linked>
    requires forall k :: 0 <= k < |roots| ==> roots[k].spans != []
  {
    if roots == [] then []
    else Resolved(roots[..|roots| - 1], gateway) + SpansOf(roots[|roots| - 1], gateway)
  }

  /** The targets actually linked: those that were converted, in order, with their sources. */
  function Arrows(spans: seq<Linked>, converted: set<Node>): seq<(Node, Node)> {
    if spans == [] then []
    else
      Arrows(spans[..|spans| - 1], converted)
      + ArrowsOf(spans[|spans| - 1].source, spans[|spans| - 1].links, converted)
  }

  function ArrowsOf(source: Node, links: seq<Node>, converted: set<Node>): seq<(Node, Node)> {
    if links == [] then []
    else ArrowsOf(source, links[..|links| - 1], converted) +
         if links[|links| - 1] in converted then [(source, links[|links| - 1])] else []
  }

  lemma {:induction false} ArrowsSnoc(spans: seq<Linked>, l: Linked, converted: set<Node>)
    ensures Arrows(spans + [l], converted) == Arrows(spans, converted) + ArrowsOf(l.source, l.links, converted)
  {
    assert (spans + [l])[..|spans|] == spans;
  }

  // ----- which arrows there are

  /** The positions of the links that lead to converted spans. */
  function Usable(links: seq<Node>, converted: set<Node>, n: nat): (ix: seq<nat>)
    ensures Increasing(ix) && forall m: nat :: m in ix <==> m < n && m < |links| && links[m] in converted
  {
    Positions(n, (m: nat) => m < |links| && links[m] in converted)
  }

  /** One span's links to converted spans are its arrows, each once and in order. */
  lemma {:induction false} ArrowsOfInOrder(source: Node, links: seq<Node>, converted: set<Node>, n: nat)
    requires n <= |links|
    ensures var ix, arrows := Usable(links, converted, n), ArrowsOf(source, links[..n], converted);
      |arrows| == |ix| && forall k :: 0 <= k < |ix| ==> ix[k] < |links| && arrows[k] == (source, links[ix[k]])
  {
    if n > 0 {
      ArrowsOfInOrder(source, links, converted, n - 1);
      assert links[..n][..n - 1] == links[..n - 1];
    }
  }

  lemma {:induction false} ArrowsConcat(a: seq<Linked>, b: seq<Linked>, converted: set<Node>)
    ensures Arrows(a + b, converted) == Arrows(a, converted) + Arrows(b, converted)
  {
    hide ArrowsOf;
    if b == [] {
      assert a + b == a;
    } else {
      var n := |b| - 1;
      assert (a + b)[..|a| + n] == a + b[..n];
      ArrowsConcat(a, b[..n], converted);
    }
  }

  lemma {:induction false} ArrowsOfMembers(source: Node, links: seq<Node>, converted: set<Node>, a: (Node, Node))
    ensures a in ArrowsOf(source, links, converted) <==> a.0 == source && a.1 in links && a.1 in converted
  {
    if links != [] { ArrowsOfMembers(source, links[..|links| - 1], converted, a); }
  }

  lemma {:induction false} ArrowsMembers(spans: seq<Linked>, converted: set<Node>, a: (Node, Node))
    ensures a in Arrows(spans, converted) <==>
      a.1 in converted && exists i :: Carries(spans, i, a)
  {
    hide ArrowsOf;
    if spans != [] {
      var n := |spans| - 1;
      ArrowsMembers(spans[..n], converted, a);
      ArrowsOfMembers(spans[n].source, spans[n].links, converted, a);
      if i :| Carries(spans, i, a) { assert i < n ==> Carries(spans[..n], i, a); }
      if i :| Carries(spans[..n], i, a) { assert Carries(spans, i, a); }
      if a in ArrowsOf(spans[n].source, spans[n].links, converted) { assert Carries(spans, n, a); }
    }
  }

  /** Entry `i` of the list is a span at `a.0` with a link to `a.1`. */
  ghost predicate Carries(spans: seq<Linked>, i: int, a: (Node, Node)) {
    0 <= i < |spans| && spans[i].source == a.0 && a.1 in spans[i].links
  }

  /** Span `m` of a request is linked to `b`: the first span of a request that came through a gateway
      span to that alone, every other span to what its own links name. */
  ghost predicate LinksTo(r: Root, gateway: seq<string>, m: nat, b: Node)
    requires m < |r.spans|
  {
    var g := Gateway(r, gateway);
    if m == 0 && g.Some? then b == GatewaySpan(g.value) else b in r.spans[m].links
  }

  ghost predicate Links(roots: seq<Root>, gateway: seq<string>, k: nat, m: nat, a: (Node, Node)) {
    k < |roots| && m < |roots[k].spans| && a.0 == roots[k].spans[m].source && LinksTo(roots[k], gateway, m, a.1)
  }

  lemma {:induction false} SpansOfAt(r: Root, gateway: seq<string>, m: nat, b: Node)
    requires m < |r.spans|
    ensures |SpansOf(r, gateway)| == |r.spans| && SpansOf(r, gateway)[m].source == r.spans[m].source
    ensures b in SpansOf(r, gateway)[m].links <==> LinksTo(r, gateway, m, b)
  {
    hide Gateway;
  }

  lemma {:induction false} ResolvedSnoc(roots: seq<Root>, gateway: seq<string>)
    requires roots != [] && forall j :: 0 <= j < |roots| ==> roots[j].spans != []
    ensures var n := |roots| - 1;
      Resolved(roots, gateway) == Resolved(roots[..n], gateway) + SpansOf(roots[n], gateway)
  {
  }

  lemma {:induction false} ResolvedMembers(roots: seq<Root>, gateway: seq<string>, a: (Node, Node))
    requires forall j :: 0 <= j < |roots| ==> roots[j].spans != []
    ensures (exists i :: Carries(Resolved(roots, gateway), i, a)) <==>
      exists k: nat, m: nat :: Links(roots, gateway, k, m, a)
  {
    hide SpansOf, LinksTo, Resolved;
    if roots == [] {
      assert Resolved(roots, gateway) == [] by { NothingResolved(gateway); }
    } else {
      var n := |roots| - 1;
      ResolvedSnoc(roots, gateway);
      ResolvedMembers(roots[..n], gateway, a);
      var before, last := Resolved(roots[..n], gateway), SpansOf(roots[n], gateway);
      if i :| Carries(before + last, i, a) { CarriedLinks(roots, gateway, a, i); }
      if k: nat, m: nat :| Links(roots, gateway, k, m, a) {
        if k < n {
          assert Links(roots[..n], gateway, k, m, a);
          var i :| Carries(before, i, a);
          assert Carries(before + last, i, a);
        } else {
          SpansOfAt(roots[n], gateway, m, a.1);
          assert Carries(before + last, |before| + m, a);
        }
      }
    }
  }

  lemma {:induction false} NothingResolved(gateway: seq<string>)
    ensures Resolved([], gateway) == []
  {
  }

  lemma {:induction false} CarriedLinks(roots: seq<Root>, gateway: seq<string>, a: (Node, Node), i: int)
    requires roots != [] && forall j :: 0 <= j < |roots| ==> roots[j].spans != []
    requires var n := |roots| - 1; Carries(Resolved(roots[..n], gateway) + SpansOf(roots[n], gateway), i, a)
    requires var n := |roots| - 1; (exists i :: Carries(Resolved(roots[..n], gateway), i, a)) ==>
      exists k: nat, m: nat :: Links(roots[..n], gateway, k, m, a)
    ensures exists k: nat, m: nat :: Links(roots, gateway, k, m, a)
  {
    hide SpansOf, LinksTo, Resolved;
    var n := |roots| - 1;
    var before := Resolved(roots[..n], gateway);
    if i < |before| {
      assert Carries(before, i, a);
      var k: nat, m: nat :| Links(roots[..n], gateway, k, m, a);
      assert Links(roots, gateway, k, m, a);
    } else {
      KeepsSpans(roots[n], gateway);
      SpansOfAt(roots[n], gateway, i - |before|, a.1);
      assert Links(roots, gateway, n, i - |before|, a);
    }
  }

  /** There is an arrow from `a.0` to `a.1` if and only if `a.1` was converted and some span of some
      request at `a.0` is linked to it. */
  lemma {:induction false} ArrowsExactly(roots: seq<Root>, gateway: seq<string>, converted: set<Node>, a: (Node, Node))
    requires forall j :: 0 <= j < |roots| ==> roots[j].spans != []
    ensures a in Arrows(Resolved(roots, gateway), converted) <==>
      a.1 in converted && exists k: nat, m: nat :: Links(roots, gateway, k, m, a)
  {
    hide Resolved, Arrows, Links, Carries;
    ArrowsMembers(Resolved(roots, gateway), converted, a);
    ResolvedMembers(roots, gateway, a);
  }

  lemma {:induction false} KeepsSpans(r: Root, gateway: seq<string>)
    requires r.spans != []
    ensures |SpansOf(r, gateway)| == |r.spans|
  {
  }

  /** A request that came through the gateway gets an arrow from its gateway span to its first span. */
  lemma {:induction false} GatewayArrow(roots: seq<Root>, gateway: seq<string>, converted: set<Node>, k: nat, g: nat)
    requires (forall j :: 0 <= j < |roots| ==> roots[j].spans != []) && k < |roots|
    requires Gateway(roots[k], gateway) == Some(g) && GatewaySpan(g) in converted
    ensures (roots[k].spans[0].source, GatewaySpan(g)) in Arrows(Resolved(roots, gateway), converted)
  {
    hide Resolved, Arrows, Gateway;
    var a := (roots[k].spans[0].source, GatewaySpan(g));
    assert Links(roots, gateway, k, 0, a);
    ArrowsExactly(roots, gateway, converted, a);
  }

  function Targets(arrows: seq<(Node, Node)>): seq<Node> {
    if arrows == [] then [] else Targets(arrows[..|arrows| - 1]) + [arrows[|arrows| - 1].1]
  }

  /** One start event at the target and one finish event at the source per arrow, same id. */
  function Flows(preset: map<Node, int>, arrows: seq<(Node, Node)>): seq<Event> {
    if arrows == [] then []
    else
      var before, a := arrows[..|arrows| - 1], arrows[|arrows| - 1];
      var id := IdOf(After(preset, Targets(before)), a.1);
      Flows(preset, before) + [FlowStart(id, a.1), FlowFinish(id, a.0)]
  }

  lemma {:induction false} FlowsLength(preset: map<Node, int>, arrows: seq<(Node, Node)>)
    ensures |Targets(arrows)| == |arrows| && |Flows(preset, arrows)| == 2 * |arrows|
  {
    hide IdOf, After;
    if arrows != [] { FlowsLength(preset, arrows[..|arrows| - 1]); }
  }

  /** The k-th arrow's events carry the k-th id, the start at the target, the finish at the source. */
  lemma {:induction false} FlowsPaired(preset: map<Node, int>, arrows: seq<(Node, Node)>, k: nat)
    requires k < |arrows|
    ensures |Targets(arrows)| == |arrows| && |Flows(preset, arrows)| == 2 * |arrows|
    ensures Targets(arrows)[k] == arrows[k].1
    ensures Flows(preset, arrows)[2 * k] == FlowStart(Ids(preset, Targets(arrows))[k], arrows[k].1)
    ensures Flows(preset, arrows)[2 * k + 1] == FlowFinish(Ids(preset, Targets(arrows))[k], arrows[k].0)
  {
    hide Flows, Targets, Ids, After, IdOf, Touch;
    var n := |arrows| - 1;
    FlowsLength(preset, arrows);
    FlowsLength(preset, arrows[..n]);
    assert arrows[..n] + [arrows[n]] == arrows;
    FlowsNext(preset, arrows[..n], arrows[n]);
    if k < n { FlowsPaired(preset, arrows[..n], k); }
  }

  lemma {:induction false} FlowsNext(preset: map<Node, int>, arrows: seq<(Node, Node)>, a: (Node, Node))
    ensures var st, more := After(preset, Targets(arrows)), arrows + [a];
      && Targets(more) == Targets(arrows) + [a.1]
      && After(preset, Targets(more)) == Touch(st, a.1)
      && Ids(preset, Targets(more)) == Ids(preset, Targets(arrows)) + [IdOf(st, a.1)]
      && Flows(preset, more) == Flows(preset, arrows) + [FlowStart(IdOf(st, a.1), a.1), FlowFinish(IdOf(st, a.1), a.0)]
  {
    var more := arrows + [a];
    assert more[..|arrows|] == arrows;
    assert Targets(more)[..|Targets(arrows)|] == Targets(arrows);
  }

  class LinkGenerator {
    var correlation: map<Node, int>
    var nextId: nat
    var perfettoLinks: seq<Event>

    constructor (preset: map<Node, int>)
      ensures correlation == preset && nextId == 0 && perfettoLinks == []
    {
      correlation, nextId, perfettoLinks := preset, 0, [];
    }

    ghost predicate Emitted(preset: map<Node, int>, arrows: seq<(Node, Node)>)
      reads this
    {
      perfettoLinks == Flows(preset, arrows) && State(correlation, nextId) == After(preset, Targets(arrows))
    }

    method LinkSpan(source: Node, links: seq<Node>, converted: set<Node>, ghost preset: map<Node, int>,
                    ghost arrows: seq<(Node, Node)>)
      requires Emitted(preset, arrows)
      modifies this
      ensures Emitted(preset, arrows + ArrowsOf(source, links, converted))
    {
      hide Flows, Targets, After;
      assert arrows + ArrowsOf(source, links[..0], converted) == arrows;
      for i := 0 to |links|
        invariant Emitted(preset, arrows + ArrowsOf(source, links[..i], converted))
      {
        ghost var before := arrows + ArrowsOf(source, links[..i], converted);
        var target := links[i];
        assert links[..i + 1][..i] == links[..i];
        if target in converted {
          FlowsNext(preset, before, (source, target));
          var id;
          if target in correlation {
            id := correlation[target];
          } else {
            id := nextId;
            nextId := nextId + 1;
            correlation := correlation[target := id];
          }
          perfettoLinks := perfettoLinks + [FlowStart(id, target), FlowFinish(id, source)];
          assert before + [(source, target)] == arrows + ArrowsOf(source, links[..i + 1], converted);
        } else {
          assert before == arrows + ArrowsOf(source, links[..i + 1], converted);
        }
      }
      assert links[..|links|] == links;
    }

    /** `generate_perfetto_links`: request by request, span by span. Every request has a span here, or
        the layout pass would have raised an error before. */
    method LinkAll(roots: seq<Root>, gateway: seq<string>, converted: set<Node>, ghost preset: map<Node, int>)
      requires correlation == preset && nextId == 0 && perfettoLinks == []
      requires forall k :: 0 <= k < |roots| ==> roots[k].spans != []
      modifies this
      ensures Emitted(preset, Arrows(Resolved(roots, gateway), converted))
    {
      hide Flows, Targets, After, Emitted, Arrows;
      assert Emitted(preset, Arrows(Resolved(roots[..0], gateway), converted)) by { NothingEmitted(preset, converted); }
      for k := 0 to |roots|
        invariant Emitted(preset, Arrows(Resolved(roots[..k], gateway), converted))
      {
        ghost var before := Resolved(roots[..k], gateway);
        var spans := roots[k].spans;
        if roots[k].parentSpanId.Some? {
          var parent := LastWith(gateway, roots[k].parentSpanId.value);
          if parent.Some? {
            spans := spans[0 := spans[0].(links := [GatewaySpan(parent.value)])];
          }
        }
        LinkSpans(spans, converted, preset, before);
        assert roots[..k + 1][..k] == roots[..k];
      }
      assert roots[..|roots|] == roots;
    }

    /** The loop over one request's spans. */
    method LinkSpans(spans: seq<Linked>, converted: set<Node>, ghost preset: map<Node, int>, ghost before: seq<Linked>)
      requires Emitted(preset, Arrows(before, converted))
      modifies this
      ensures Emitted(preset, Arrows(before + spans, converted))
    {
      hide Flows, Targets, After, Emitted, Arrows;
      assert before + spans[..0] == before;
      for i := 0 to |spans|
        invariant Emitted(preset, Arrows(before + spans[..i], converted))
      {
        LinkSpan(spans[i].source, spans[i].links, converted, preset, Arrows(before + spans[..i], converted));
        ArrowsSnoc(before + spans[..i], spans[i], converted);
        assert before + spans[..i + 1] == before + spans[..i] + [spans[i]];
      }
      assert spans[..|spans|] == spans;
    }

    lemma {:induction false} NothingEmitted(preset: map<Node, int>, converted: set<Node>)
      requires correlation == preset && nextId == 0 && perfettoLinks == []
      ensures Emitted(preset, Arrows([], converted))
    {
    }
  }
}
