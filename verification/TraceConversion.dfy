/** scripts/convert_otel_2_perfetto.py, `main`: tree building, conversion, layout, linking and gathering
    one after the other, and what that makes of a trace file, said in terms of the file. */
module TraceConversion {
  import opened Prelude
  import opened SpanForest
  import opened SpanConvert
  import opened SpanGather
  import L = SpanLayout
  import S = LayoutSafety
  import O = LaneOptimality
  import T = TraceLayout
  import K = SpanLinks

  /** A gateway span as it was read. */
  datatype Gateway = Gateway(spanId: string, start: int, end: int)

  // ----- what the layout pass is given

  /** A converted engine span, as the layout pass sees it. */
  function Shown(s: Span, j: nat): L.Span
    requires s.outPid.Some?
  {
    L.Span(L.Engine(s.outPid.value), s.start, s.end, j)
  }

  function ShownGateway(g: Gateway, j: nat): L.Span { L.Span(L.Smg, g.start, g.end - 1000, j) }

  function ShownGateways(gs: seq<Gateway>): seq<L.Span> {
    if gs == [] then [] else ShownGateways(gs[..|gs| - 1]) + [ShownGateway(gs[|gs| - 1], |gs| - 1)]
  }

  /** Spans two steps below a request are converted: shortened once, with a process id. */
  lemma {:induction false} CollectedFinal(ss: seq<Span>, j: nat)
    requires RootedAt(ss, j, 2)
    ensures j < |ss| && Up(ss, j, 1).Some? && Final(ss, j).outPid == Some(ss[Up(ss, j, 1).value].pid)
    ensures Final(ss, j).start == ss[j].start && Final(ss, j).end == ss[j].end - 1000
  {
    hide Up, Final, Parent;
    FinalFields(ss, j, 2);
  }

  ghost function Drawn(ss: seq<Span>, cs: seq<nat>): seq<L.Span>
    requires forall c :: c in cs ==> RootedAt(ss, c, 2)
  {
    if cs == [] then []
    else
      var c := cs[|cs| - 1];
      CollectedFinal(ss, c);
      Drawn(ss, cs[..|cs| - 1]) + [Shown(Final(ss, c), c)]
  }

  /** The spans collected for a request. */
  function SpansOf(ss: seq<Span>, root: nat): seq<nat> { Kids(ss, Children(ss, root)) }

  lemma {:induction false} SpansOfRooted(ss: seq<Span>, root: nat)
    requires RootedAt(ss, root, 0)
    ensures forall c :: c in SpansOf(ss, root) ==> RootedAt(ss, c, 2)
  {
    hide Up, RootedAt, Kids, Parent, Children;
    ChildrenRooted(ss, root, 0);
    forall c | c in SpansOf(ss, root) ensures RootedAt(ss, c, 2) {
      KidsMembers(ss, Children(ss, root), c);
      RootedStep(ss, c, 1);
    }
  }

  ghost function Requests(ss: seq<Span>, roots: seq<nat>): (r: seq<seq<L.Span>>)
    requires forall p :: p in roots ==> RootedAt(ss, p, 0)
    ensures |r| == |roots|
  {
    if roots == [] then []
    else
      var p := roots[|roots| - 1];
      SpansOfRooted(ss, p);
      Requests(ss, roots[..|roots| - 1]) + [Drawn(ss, SpansOf(ss, p))]
  }

  /** All requests of the file with their spans. */
  ghost function AllRequests(ss: seq<Span>): (r: seq<seq<L.Span>>) {
    RequestsRooted(ss);
    Requests(ss, RequestsUpTo(ss, |ss|))
  }

  lemma {:induction false} DrawnAt(ss: seq<Span>, cs: seq<nat>)
    requires forall c :: c in cs ==> RootedAt(ss, c, 2)
    ensures |Drawn(ss, cs)| == |cs|
    ensures forall k :: 0 <= k < |cs| ==>
      var x := Drawn(ss, cs)[k];
      && cs[k] < |ss| && Up(ss, cs[k], 1).Some? && x.id == cs[k] && x.pid == L.Engine(ss[Up(ss, cs[k], 1).value].pid)
      && x.start == ss[cs[k]].start && x.end == ss[cs[k]].end - 1000
  {
    hide RootedAt, Final, Up;
    if cs != [] {
      var n := |cs| - 1;
      assert cs[n] in cs;
      DrawnAt(ss, cs[..n]);
      CollectedFinal(ss, cs[n]);
    }
  }

  lemma {:induction false} RequestsAt(ss: seq<Span>, roots: seq<nat>, k: nat)
    requires (forall p :: p in roots ==> RootedAt(ss, p, 0)) && k < |roots|
    ensures forall c :: c in SpansOf(ss, roots[k]) ==> RootedAt(ss, c, 2)
    ensures Requests(ss, roots)[k] == Drawn(ss, SpansOf(ss, roots[k]))
  {
    hide RootedAt, Drawn, SpansOf;
    var n := |roots| - 1;
    assert roots[k] in roots;
    SpansOfRooted(ss, roots[k]);
    if k < n { RequestsAt(ss, roots[..n], k); }
  }

  /** What a request's spans are, in terms of the file: each is drawn in the process of its thread, the
      span above it, and 1000 ns shorter. */
  ghost predicate FromFile(ss: seq<Span>, x: L.Span) {
    && RootedAt(ss, x.id, 2) && Up(ss, x.id, 1).Some? && x.pid == L.Engine(ss[Up(ss, x.id, 1).value].pid)
    && x.start == ss[x.id].start && x.end == ss[x.id].end - 1000
  }

  lemma {:induction false} RequestsFromFile(ss: seq<Span>, k: nat)
    requires k < |AllRequests(ss)|
    ensures forall i :: 0 <= i < |AllRequests(ss)[k]| ==> FromFile(ss, AllRequests(ss)[k][i])
  {
    hide RootedAt, Drawn, SpansOf, Requests, RequestsUpTo;
    var roots := RequestsUpTo(ss, |ss|);
    RequestsRooted(ss);
    RequestsAt(ss, roots, k);
    var cs := SpansOf(ss, roots[k]);
    DrawnAt(ss, cs);
    assert forall i :: 0 <= i < |cs| ==> cs[i] in cs;
  }

  /** A request without a span of its own makes the layout pass fail. */
  lemma {:induction false} EmptyRequest(ss: seq<Span>)
    ensures [] in AllRequests(ss) <==> exists k ::
      0 <= k < |RequestsUpTo(ss, |ss|)| && SpansOf(ss, RequestsUpTo(ss, |ss|)[k]) == []
  {
    hide RootedAt, Drawn, SpansOf, Requests, RequestsUpTo;
    RequestsRooted(ss);
    var roots := RequestsUpTo(ss, |ss|);
    forall k | 0 <= k < |roots| ensures AllRequests(ss)[k] == [] <==> SpansOf(ss, roots[k]) == [] {
      RequestsAt(ss, roots, k);
      DrawnAt(ss, SpansOf(ss, roots[k]));
    }
  }

  // ----- the drawing, in terms of the file

  lemma {:induction false} SortMembers(ss: seq<L.Span>, x: L.Span)
    ensures x in T.SortByStart(ss) <==> x in ss
  {
    hide T.SortByStart, O.AliveCount;
    T.SortKeeps(ss);
    assert x in multiset(T.SortByStart(ss)) <==> x in multiset(ss);
  }

  lemma {:induction false} SortEachMembers(rs: seq<seq<L.Span>>, k: nat)
    requires k < |T.SortEach(rs)|
    ensures |T.SortEach(rs)| == |rs| && T.SortEach(rs)[k] == T.SortByStart(rs[k])
  {
    hide T.SortByStart;
    SortEachSize(rs);
    if k < |rs| - 1 { SortEachMembers(rs[..|rs| - 1], k); }
    SortEachSize(rs[..|rs| - 1]);
  }

  lemma {:induction false} SortEachSize(rs: seq<seq<L.Span>>)
    ensures |T.SortEach(rs)| == |rs|
  {
    hide T.SortByStart;
    if rs != [] { SortEachSize(rs[..|rs| - 1]); }
  }

  lemma {:induction false} RequestsMembers(rs: seq<seq<L.Span>>, x: L.Span)
    ensures x in S.SpansOf(T.Requests(rs)) ==> exists k :: 0 <= k < |rs| && x in rs[k]
  {
    if rs != [] {
      var n := |rs| - 1;
      RequestsMembers(rs[..n], x);
      T.SpansOfRequest(rs[n]);
      T.SpansOfConcat(T.Requests(rs[..n]), T.Request(rs[n]));
    }
  }

  /** Whatever the layout pass places was given to it. */
  lemma {:induction false} PlacedWasGiven(requests: seq<seq<L.Span>>, smg: seq<L.Span>, x: L.Span)
    requires [] !in requests && x in S.SpansOf(T.LayoutEvents(requests, smg))
    ensures x in smg || exists k :: 0 <= k < |requests| && x in requests[k]
  {
    hide T.SortByStart, T.SortEach, T.Requests, T.Request, S.SpansOf;
    T.SortedEachNonEmpty(requests);
    var sorted := T.SortEach(requests);
    var roots := T.SortRequests(sorted);
    T.SpansOfConcat(T.Requests(roots), T.Request(T.SortByStart(smg)));
    T.SpansOfRequest(T.SortByStart(smg));
    SortMembers(smg, x);
    if x !in smg {
      RequestsMembers(roots, x);
      var k :| 0 <= k < |roots| && x in roots[k];
      assert roots[k] in multiset(sorted);
      var m :| 0 <= m < |sorted| && sorted[m] == roots[k];
      SortEachMembers(requests, m);
      SortMembers(requests[m], x);
    }
  }

  lemma {:induction false} GatewaysAt(gs: seq<Gateway>)
    ensures |ShownGateways(gs)| == |gs| && forall k :: 0 <= k < |gs| ==> ShownGateways(gs)[k] == ShownGateway(gs[k], k)
  {
    if gs != [] { GatewaysAt(gs[..|gs| - 1]); }
  }

  /** No span that gets a place of its own lasts exactly the 1000 ns that the conversion takes off. */
  ghost predicate NoThousand(ss: seq<Span>, gs: seq<Gateway>) {
    && (forall j :: 0 <= j < |ss| && RootedAt(ss, j, 2) ==> ss[j].end - ss[j].start != 1000)
    && (forall g :: 0 <= g < |gs| ==> gs[g].end - gs[g].start != 1000)
  }

  /** A trace file in which no span of a thread, and no gateway span, lasts exactly 1000 ns is drawn
      without overlap on any lane, whatever its parent ids. */
  lemma {:induction false} FileDrawnClean(ss: seq<Span>, gs: seq<Gateway>, p: L.Pid)
    requires [] !in AllRequests(ss) && NoThousand(ss, gs)
    ensures S.Disjoint(L.Run(T.LayoutEvents(AllRequests(ss), ShownGateways(gs))).placed, p)
  {
    var requests, smg := AllRequests(ss), ShownGateways(gs);
    var es := T.LayoutEvents(requests, smg);
    hide T.LayoutEvents, S.Disjoint, L.Run, AllRequests, ShownGateways, RootedAt, S.SpansOf;
    O.SpansAreEvents(es);
    forall k | 0 <= k < |es| && es[k].Place? ensures es[k].span.start != es[k].span.end {
      var x := es[k].span;
      PlacedWasGiven(requests, smg, x);
      GatewaysAt(gs);
      if x !in smg {
        var m :| 0 <= m < |requests| && x in requests[m];
        RequestsFromFile(ss, m);
        assert FromFile(ss, x);
        RootedInRange(ss, x.id, 2);
      }
    }
    S.NoZeroLengthDisjoint(es, p);
  }

  /** The gateway's lanes, in terms of the file: gateway spans that last longer than 1000 ns get exactly as
      many lanes as are open at the busiest instant. */
  lemma {:induction false} FileGatewayLanes(ss: seq<Span>, gs: seq<Gateway>)
    requires [] !in AllRequests(ss) && forall g :: 0 <= g < |gs| ==> gs[g].end - gs[g].start > 1000
    ensures var lanes := L.LaneCount(L.Run(T.LayoutEvents(AllRequests(ss), ShownGateways(gs))), L.Smg);
      && (forall t :: O.AliveCount(ShownGateways(gs), L.Smg, t) <= lanes)
      && (lanes > 0 ==> exists t :: O.AliveCount(ShownGateways(gs), L.Smg, t) == lanes)
  {
    hide T.LayoutEvents, L.Run, AllRequests, ShownGateways, RootedAt, O.AliveCount;
    GatewaysAt(gs);
    forall k | 0 <= k < |AllRequests(ss)| ensures T.OnlyEngine(AllRequests(ss)[k]) { RequestsFromFile(ss, k); }
    T.GatewayLanesMatchPeak(AllRequests(ss), ShownGateways(gs));
  }

  // ----- every collected span is placed once

  function Flat(rs: seq<seq<L.Span>>): seq<L.Span> { if rs == [] then [] else Flat(rs[..|rs| - 1]) + rs[|rs| - 1] }

  lemma {:induction false} FlatSnoc(rs: seq<seq<L.Span>>, x: seq<L.Span>)
    ensures Flat(rs + [x]) == Flat(rs) + x
  {
    assert (rs + [x])[..|rs|] == rs;
  }

  lemma {:induction false} FlatEvents(rs: seq<seq<L.Span>>)
    ensures S.SpansOf(T.Requests(rs)) == Flat(rs)
  {
    hide T.Request, S.SpansOf;
    if rs == [] {
      assert S.SpansOf([]) == [] by { NoSpans(); }
    } else {
      var n := |rs| - 1;
      FlatEvents(rs[..n]);
      T.SpansOfRequest(rs[n]);
      T.SpansOfConcat(T.Requests(rs[..n]), T.Request(rs[n]));
    }
  }

  lemma {:induction false} NoSpans()
    ensures S.SpansOf([]) == []
  {
  }

  lemma {:induction false} FlatInsert(rs: seq<seq<L.Span>>, x: seq<L.Span>)
    requires [] !in multiset(rs) && x != []
    ensures multiset(Flat(T.InsertRequest(rs, x))) == multiset(Flat(rs)) + multiset(x)
  {
    if rs == [] {
      FlatSnoc([], x);
      assert [] + [x] == [x];
    } else {
      var n := |rs| - 1;
      assert rs == rs[..n] + [rs[n]];
      assert [] !in multiset(rs[..n]) && rs[n] in multiset(rs);
      if rs[n][0].start <= x[0].start {
        FlatSnoc(rs, x);
      } else {
        FlatInsert(rs[..n], x);
        FlatSnoc(T.InsertRequest(rs[..n], x), rs[n]);
      }
    }
  }

  lemma {:induction false} FlatSort(rs: seq<seq<L.Span>>)
    requires [] !in rs
    ensures multiset(Flat(T.SortRequests(rs))) == multiset(Flat(rs))
  {
    if rs != [] {
      var n := |rs| - 1;
      assert rs == rs[..n] + [rs[n]];
      FlatSort(rs[..n]);
      assert [] !in multiset(rs[..n]);
      FlatInsert(T.SortRequests(rs[..n]), rs[n]);
    }
  }

  lemma {:induction false} FlatEach(rs: seq<seq<L.Span>>)
    ensures multiset(Flat(T.SortEach(rs))) == multiset(Flat(rs))
  {
    hide T.SortByStart, O.AliveCount;
    if rs != [] {
      var n := |rs| - 1;
      FlatEach(rs[..n]);
      T.SortKeeps(rs[n]);
      FlatSnoc(T.SortEach(rs[..n]), T.SortByStart(rs[n]));
    }
  }

  lemma {:induction false} EventBag(requests: seq<seq<L.Span>>, smg: seq<L.Span>)
    requires [] !in requests
    ensures multiset(S.SpansOf(T.LayoutEvents(requests, smg))) == multiset(Flat(requests)) + multiset(smg)
  {
    hide T.SortByStart, T.SortEach, T.Requests, T.Request, S.SpansOf, Flat, O.AliveCount;
    T.SortedEachNonEmpty(requests);
    var roots := T.SortRequests(T.SortEach(requests));
    T.SpansOfConcat(T.Requests(roots), T.Request(T.SortByStart(smg)));
    T.SpansOfRequest(T.SortByStart(smg));
    FlatEvents(roots);
    FlatSort(T.SortEach(requests));
    FlatEach(requests);
    T.SortKeeps(smg);
  }

  lemma {:induction false} DrawnConcat(ss: seq<Span>, a: seq<nat>, b: seq<nat>)
    requires (forall c :: c in a ==> RootedAt(ss, c, 2)) && forall c :: c in b ==> RootedAt(ss, c, 2)
    ensures Drawn(ss, a + b) == Drawn(ss, a) + Drawn(ss, b)
  {
    hide RootedAt, Final;
    if b == [] {
      assert a + b == a;
    } else {
      var n := |b| - 1;
      assert (a + b)[..|a| + n] == a + b[..n];
      DrawnConcat(ss, a, b[..n]);
    }
  }

  lemma {:induction false} FlatRequests(ss: seq<Span>, roots: seq<nat>)
    requires forall p :: p in roots ==> RootedAt(ss, p, 0)
    ensures forall c :: c in Kids(ss, Kids(ss, roots)) ==> RootedAt(ss, c, 2)
    ensures Flat(Requests(ss, roots)) == Drawn(ss, Kids(ss, Kids(ss, roots)))
  {
    hide RootedAt, Drawn, Children;
    if roots == [] {
      assert Drawn(ss, []) == [] by { DrawnNothing(ss); }
    } else {
      var n := |roots| - 1;
      FlatRequests(ss, roots[..n]);
      assert roots[n] in roots;
      SpansOfRooted(ss, roots[n]);
      KidsConcat(ss, Kids(ss, roots[..n]), Children(ss, roots[n]));
      DrawnConcat(ss, Kids(ss, Kids(ss, roots[..n])), SpansOf(ss, roots[n]));
      FlatSnoc(Requests(ss, roots[..n]), Drawn(ss, SpansOf(ss, roots[n])));
    }
  }

  lemma {:induction false} DrawnNothing(ss: seq<Span>)
    ensures Drawn(ss, []) == []
  {
  }

  /** What is placed is every collected span and every gateway span, each once. */
  lemma {:induction false} PlacedExactly(ss: seq<Span>, gs: seq<Gateway>)
    requires [] !in AllRequests(ss)
    ensures forall c :: c in Collected(ss) ==> RootedAt(ss, c, 2)
    ensures multiset(S.Drawn(L.Run(T.LayoutEvents(AllRequests(ss), ShownGateways(gs))).placed)) ==
      multiset(Drawn(ss, Collected(ss))) + multiset(ShownGateways(gs))
  {
    hide RootedAt, Drawn, T.LayoutEvents, L.Run, S.Drawn, S.SpansOf, Flat, ShownGateways, RequestsUpTo, Requests, Kids,
      S.SlotsMatch, S.Conserved;
    var es := T.LayoutEvents(AllRequests(ss), ShownGateways(gs));
    RequestsRooted(ss);
    FlatRequests(ss, RequestsUpTo(ss, |ss|));
    EventBag(AllRequests(ss), ShownGateways(gs));
    S.RunConserved(es);
  }

  /** Two placements of engine spans are of different spans. */
  lemma {:induction false} PlacedApart(ss: seq<Span>, gs: seq<Gateway>, placed: seq<L.Placed>, i: nat, k: nat)
    requires (forall c :: c in Collected(ss) ==> RootedAt(ss, c, 2)) && i < k < |placed|
    requires multiset(S.Drawn(placed)) == multiset(Drawn(ss, Collected(ss))) + multiset(ShownGateways(gs))
    requires placed[i].span.pid.Engine? && placed[k].span.pid.Engine?
    ensures placed[i].span.id != placed[k].span.id
  {
    hide RootedAt, Drawn, S.Drawn, Collected;
    var cs, xs := Collected(ss), S.Drawn(placed);
    var ds := Drawn(ss, cs);
    CollectedAll(ss);
    DrawnAt(ss, cs);
    if placed[i].span.id == placed[k].span.id {
      var a := EngineIndex(ss, gs, placed, i);
      var b := EngineIndex(ss, gs, placed, k);
      assert cs[a] == cs[b];
      assert a == b;
      Twice(xs, i, k);
      DistinctDrawn(ds, cs);
      AtMostOnce(ds, ds[a]);
      GatewaysAt(gs);
      assert false;
    }
  }

  lemma {:induction false} DistinctDrawn(ds: seq<L.Span>, cs: seq<nat>)
    requires |ds| == |cs| && NoRepeat(cs) && forall k :: 0 <= k < |cs| ==> ds[k].id == cs[k]
    ensures NoRepeat(ds)
  {
  }

  lemma {:induction false} EngineIndex(ss: seq<Span>, gs: seq<Gateway>, placed: seq<L.Placed>, i: nat) returns (a: nat)
    requires (forall c :: c in Collected(ss) ==> RootedAt(ss, c, 2)) && i < |placed|
    requires multiset(S.Drawn(placed)) == multiset(Drawn(ss, Collected(ss))) + multiset(ShownGateways(gs))
    requires placed[i].span.pid.Engine?
    ensures a < |Drawn(ss, Collected(ss))| == |Collected(ss)|
    ensures Drawn(ss, Collected(ss))[a] == placed[i].span && Collected(ss)[a] == placed[i].span.id
  {
    hide RootedAt, Drawn, Collected;
    DrawnAt(ss, Collected(ss));
    GatewaysAt(gs);
    var ds := Drawn(ss, Collected(ss));
    assert S.Drawn(placed)[i] in multiset(S.Drawn(placed));
    assert placed[i].span !in multiset(ShownGateways(gs));
    assert placed[i].span in multiset(ds);
    a :| 0 <= a < |ds| && ds[a] == placed[i].span;
  }

  // ----- the lanes written into the spans

  /** Span `j` is no placed span and lies below none. */
  ghost predicate Unplaced(ss: seq<Span>, j: nat, placed: seq<L.Placed>) {
    forall k :: 0 <= k < |placed| && placed[k].span.pid.Engine? ==> !Below(ss, j, placed[k].span.id, 0)
  }

  /** Every span carries the lane of the collected span it is, or lies below; other spans keep 0. */
  ghost predicate LanesWritten(ss: seq<Span>, tids: seq<nat>, placed: seq<L.Placed>) {
    && |tids| == |ss|
    && (forall k, j ::
          0 <= k < |placed| && placed[k].span.pid.Engine? && 0 <= j < |ss| && Below(ss, j, placed[k].span.id, 0)
          ==> tids[j] == placed[k].line)
    && (forall j :: 0 <= j < |ss| && Unplaced(ss, j, placed) ==> tids[j] == 0)
  }

  /** The placements are of engine spans two steps below a request, all different. */
  ghost predicate Apart(ss: seq<Span>, placed: seq<L.Placed>) {
    && (forall k :: 0 <= k < |placed| && placed[k].span.pid.Engine? ==> RootedAt(ss, placed[k].span.id, 2))
    && (forall i, k :: 0 <= i < k < |placed| && placed[i].span.pid.Engine? && placed[k].span.pid.Engine? ==>
          placed[i].span.id != placed[k].span.id)
  }

  lemma {:induction false} PlacedAreApart(ss: seq<Span>, gs: seq<Gateway>)
    requires [] !in AllRequests(ss)
    ensures Apart(ss, L.Run(T.LayoutEvents(AllRequests(ss), ShownGateways(gs))).placed)
  {
    hide RootedAt, Drawn, T.LayoutEvents, L.Run, S.Drawn, AllRequests, ShownGateways, Collected;
    PlacedExactly(ss, gs);
    var placed := L.Run(T.LayoutEvents(AllRequests(ss), ShownGateways(gs))).placed;
    forall k | 0 <= k < |placed| && placed[k].span.pid.Engine? ensures RootedAt(ss, placed[k].span.id, 2) {
      var a := EngineIndex(ss, gs, placed, k);
      assert Collected(ss)[a] in Collected(ss);
    }
    forall i, k | 0 <= i < k < |placed| && placed[i].span.pid.Engine? && placed[k].span.pid.Engine?
      ensures placed[i].span.id != placed[k].span.id
    {
      PlacedApart(ss, gs, placed, i, k);
    }
  }

  lemma {:induction false} NothingWritten(ss: seq<Span>, tids: seq<nat>)
    requires |tids| == |ss| && forall j :: 0 <= j < |ss| ==> tids[j] == 0
    ensures LanesWritten(ss, tids, [])
  {
  }

  /** Writing the lane of the next placement disturbs no earlier one. */
  lemma {:induction false} WriteNext(ss: seq<Span>, placed: seq<L.Placed>, n: nat, before: seq<nat>, tids: seq<nat>)
    requires Apart(ss, placed) && n < |placed| && LanesWritten(ss, before, placed[..n]) && |tids| == |ss|
    requires var x := placed[n];
      if x.span.pid.Engine? then forall j :: 0 <= j < |ss| ==>
        tids[j] == if Below(ss, j, x.span.id, 0) then x.line else before[j]
      else tids == before
    ensures LanesWritten(ss, tids, placed[..n + 1])
  {
    hide Below, RootedAt;
    var x := placed[n];
    forall k, j | 0 <= k < n + 1 && placed[k].span.pid.Engine? && 0 <= j < |ss| && Below(ss, j, placed[k].span.id, 0)
      ensures tids[j] == placed[k].line
    {
      if k < n {
        assert placed[..n][k] == placed[k];
        if x.span.pid.Engine? && Below(ss, j, x.span.id, 0) { BelowOne(ss, j, placed[k].span.id, x.span.id, 2); }
      }
    }
    forall j | 0 <= j < |ss| && Unplaced(ss, j, placed[..n + 1]) ensures tids[j] == 0 {
      assert x.span.pid.Engine? ==> !Below(ss, j, placed[..n + 1][n].span.id, 0);
      assert Unplaced(ss, j, placed[..n]) by {
        forall k | 0 <= k < n && placed[..n][k].span.pid.Engine? ensures !Below(ss, j, placed[..n][k].span.id, 0) {
          assert placed[..n + 1][k] == placed[..n][k];
        }
      }
    }
  }

  method WriteLanes(trace: Trace, placed: seq<L.Placed>)
    requires trace.Built() && Apart(trace.raw, placed) && forall j :: 0 <= j < |trace.raw| ==> trace.tids[j] == 0
    modifies trace`tids
    ensures trace.Built() && LanesWritten(trace.raw, trace.tids, placed)
  {
    hide Apart, LanesWritten, Below, RootedAt, RequestsUpTo;
    NothingWritten(trace.raw, trace.tids);
    for n := 0 to |placed|
      invariant trace.Built() && LanesWritten(trace.raw, trace.tids, placed[..n])
    {
      ghost var before := trace.tids;
      if placed[n].span.pid.Engine? {
        assert RootedAt(trace.raw, placed[n].span.id, 2) by { ApartRooted(trace.raw, placed, n); }
        trace.SetTid(placed[n].span.id, placed[n].line, 2);
      }
      WriteNext(trace.raw, placed, n, before, trace.tids);
    }
    assert placed[..|placed|] == placed;
  }

  lemma {:induction false} ApartRooted(ss: seq<Span>, placed: seq<L.Placed>, n: nat)
    requires Apart(ss, placed) && n < |placed| && placed[n].span.pid.Engine?
    ensures RootedAt(ss, placed[n].span.id, 2)
  {
  }

  // ----- handing the spans from pass to pass

  /** The conversion pass is over. */
  ghost predicate Ready(trace: Trace)
    reads trace
  {
    && trace.Built() && (forall j :: 0 <= j < |trace.raw| ==> trace.spans[j] == Final(trace.raw, j))
    && |trace.spansOf| == |trace.rootSpans|
    && forall n :: 0 <= n < |trace.rootSpans| ==> trace.spansOf[n] == SpansOf(trace.raw, trace.rootSpans[n])
  }

  method ShowSpans(trace: Trace, cs: seq<nat>) returns (shown: seq<L.Span>)
    requires Ready(trace) && forall c :: c in cs ==> RootedAt(trace.raw, c, 2)
    ensures shown == Drawn(trace.raw, cs)
  {
    hide RootedAt, Final, RequestsUpTo, SpansOf;
    shown := [];
    for k := 0 to |cs|
      invariant shown == Drawn(trace.raw, cs[..k])
    {
      assert cs[k] in cs && cs[..k + 1][..k] == cs[..k];
      CollectedFinal(trace.raw, cs[k]);
      shown := shown + [Shown(trace.spans[cs[k]], cs[k])];
    }
    assert cs[..|cs|] == cs;
  }

  method ShowRequests(trace: Trace) returns (requests: seq<seq<L.Span>>)
    requires Ready(trace)
    ensures requests == AllRequests(trace.raw)
  {
    hide RootedAt, Final, RequestsUpTo, SpansOf, Drawn;
    RequestsRooted(trace.raw);
    requests := [];
    ghost var roots := trace.rootSpans;
    for k := 0 to |trace.rootSpans|
      invariant requests == Requests(trace.raw, roots[..k])
    {
      assert roots[k] in roots && roots[..k + 1][..k] == roots[..k];
      SpansOfRooted(trace.raw, roots[k]);
      var shown := ShowSpans(trace, trace.spansOf[k]);
      requests := requests + [shown];
    }
    assert roots[..|roots|] == roots;
  }

  /** The gateway part of `generate_perfetto_span`. */
  method ShowGateways(gs: seq<Gateway>) returns (shown: seq<L.Span>)
    ensures shown == ShownGateways(gs)
  {
    shown := [];
    for k := 0 to |gs|
      invariant shown == ShownGateways(gs[..k])
    {
      assert gs[..k + 1][..k] == gs[..k];
      shown := shown + [ShownGateway(gs[k], k)];
    }
    assert gs[..|gs|] == gs;
  }

  // ----- after sorting

  function IdsOf(xs: seq<L.Span>): (r: seq<nat>)
    ensures |r| == |xs| && forall k :: 0 <= k < |xs| ==> r[k] == xs[k].id
  {
    if xs == [] then [] else IdsOf(xs[..|xs| - 1]) + [xs[|xs| - 1].id]
  }

  /** A request's spans in start order, as the layout pass leaves them. */
  ghost function Sorted(ss: seq<Span>, root: nat): seq<nat>
    requires RootedAt(ss, root, 0)
  {
    SpansOfRooted(ss, root);
    IdsOf(T.SortByStart(Drawn(ss, SpansOf(ss, root))))
  }

  lemma {:induction false} BagDrop<X>(a: multiset<X>, b: multiset<X>, x: X)
    requires a + multiset{x} == b + multiset{x}
    ensures a == b
  {
    forall y ensures a[y] == b[y] { assert (a + multiset{x})[y] == (b + multiset{x})[y]; }
  }

  lemma {:induction false} IdsRemove(ys: seq<L.Span>, k: nat)
    requires k < |ys|
    ensures multiset(ys) == multiset(ys[..k] + ys[k + 1..]) + multiset{ys[k]}
    ensures multiset(IdsOf(ys)) == multiset(IdsOf(ys[..k] + ys[k + 1..])) + multiset{ys[k].id}
  {
    hide IdsOf;
    var ids := IdsOf(ys);
    assert ys == ys[..k] + [ys[k]] + ys[k + 1..];
    assert ids == ids[..k] + [ids[k]] + ids[k + 1..];
    assert IdsOf(ys[..k] + ys[k + 1..]) == ids[..k] + ids[k + 1..];
  }

  lemma {:induction false} IdsOfBag(xs: seq<L.Span>, ys: seq<L.Span>)
    requires multiset(xs) == multiset(ys)
    ensures multiset(IdsOf(xs)) == multiset(IdsOf(ys))
  {
    hide IdsOf;
    if xs == [] {
      assert |multiset(ys)| == 0;
      assert IdsOf(xs) == [] == IdsOf(ys);
    } else {
      var n := |xs| - 1;
      assert xs[n] in multiset(ys);
      var k :| 0 <= k < |ys| && ys[k] == xs[n];
      IdsRemove(ys, k);
      IdsRemove(xs, n);
      assert xs[..n] + xs[n + 1..] == xs[..n];
      BagDrop(multiset(xs[..n]), multiset(ys[..k] + ys[k + 1..]), xs[n]);
      IdsOfBag(xs[..n], ys[..k] + ys[k + 1..]);
    }
  }

  lemma {:induction false} SortedBag(ss: seq<Span>, root: nat)
    requires RootedAt(ss, root, 0)
    ensures multiset(Sorted(ss, root)) == multiset(SpansOf(ss, root))
    ensures (forall c :: c in Sorted(ss, root) <==> c in SpansOf(ss, root)) && |Sorted(ss, root)| == |SpansOf(ss, root)|
  {
    hide RootedAt, Drawn, SpansOf, T.SortByStart, O.AliveCount;
    SpansOfRooted(ss, root);
    var cs := SpansOf(ss, root);
    var ds := Drawn(ss, cs);
    T.SortKeeps(ds);
    IdsOfBag(T.SortByStart(ds), ds);
    DrawnAt(ss, cs);
    assert IdsOf(ds) == cs;
    forall c ensures c in Sorted(ss, root) <==> c in cs {
      assert c in multiset(Sorted(ss, root)) <==> c in multiset(cs);
    }
    assert |multiset(Sorted(ss, root))| == |multiset(cs)|;
  }

  /** All requests' spans, request by request in file order. */
  ghost function AllSorted(ss: seq<Span>, roots: seq<nat>): seq<nat>
    requires forall p :: p in roots ==> RootedAt(ss, p, 0)
  {
    if roots == [] then [] else AllSorted(ss, roots[..|roots| - 1]) + Sorted(ss, roots[|roots| - 1])
  }

  lemma {:induction false} AllSortedBag(ss: seq<Span>, roots: seq<nat>)
    requires forall p :: p in roots ==> RootedAt(ss, p, 0)
    ensures multiset(AllSorted(ss, roots)) == multiset(Kids(ss, Kids(ss, roots)))
  {
    hide RootedAt, Sorted, Children;
    if roots != [] {
      var n := |roots| - 1;
      assert roots[n] in roots;
      AllSortedBag(ss, roots[..n]);
      SortedBag(ss, roots[n]);
      KidsConcat(ss, Kids(ss, roots[..n]), Children(ss, roots[n]));
    }
  }

  /** The engine spans in the order they are written. */
  ghost function Order(ss: seq<Span>): seq<nat> {
    RequestsRooted(ss);
    AllSorted(ss, RequestsUpTo(ss, |ss|))
  }

  lemma {:induction false} OrderBag(ss: seq<Span>)
    ensures multiset(Order(ss)) == multiset(Collected(ss))
    ensures forall c :: c in Order(ss) <==> RootedAt(ss, c, 2)
  {
    hide RootedAt, AllSorted, Kids, RequestsUpTo;
    RequestsRooted(ss);
    AllSortedBag(ss, RequestsUpTo(ss, |ss|));
    CollectedAll(ss);
    forall c ensures c in Order(ss) <==> c in Collected(ss) {
      assert c in multiset(Order(ss)) <==> c in multiset(Collected(ss));
    }
  }

  /** The output holds every converted engine span of the file once, and no other. */
  lemma {:induction false} FileWrittenOnce(ss: seq<Span>)
    ensures forall c :: c in Order(ss) ==> RootedAt(ss, c, 2)
    ensures NoRepeat(Gathered(ss, Order(ss)))
    ensures forall j :: 0 <= j < |ss| ==> (j in Gathered(ss, Order(ss)) <==> exists d: nat :: Deep(ss, j, d))
  {
    hide RootedAt, Order, Collected, Gathered;
    OrderBag(ss);
    EachWrittenOnce(ss, Order(ss));
  }

  // ----- linking

  function EngineNodes(ts: seq<nat>): (r: seq<K.Node>)
    ensures |r| == |ts| && forall k :: 0 <= k < |ts| ==> r[k] == K.EngineSpan(ts[k])
  {
    if ts == [] then [] else EngineNodes(ts[..|ts| - 1]) + [K.EngineSpan(ts[|ts| - 1])]
  }

  function LinkedSpans(ss: seq<Span>, cs: seq<nat>): (r: seq<K.Linked>)
    requires forall k :: 0 <= k < |cs| ==> cs[k] < |ss|
    ensures |r| == |cs| && forall k :: 0 <= k < |cs| ==> r[k].source == K.EngineSpan(cs[k])
  {
    if cs == [] then []
    else
      var c := cs[|cs| - 1];
      LinkedSpans(ss, cs[..|cs| - 1]) + [K.Linked(K.EngineSpan(c), EngineNodes(LinkTargets(ss, ss[c].links)))]
  }

  lemma {:induction false} SortedInRange(ss: seq<Span>, root: nat)
    requires RootedAt(ss, root, 0)
    ensures root < |ss| && forall c :: c in Sorted(ss, root) ==> c < |ss| && RootedAt(ss, c, 2)
    ensures forall k :: 0 <= k < |Sorted(ss, root)| ==> Sorted(ss, root)[k] < |ss|
  {
    hide RootedAt, Sorted, SpansOf;
    RootedInRange(ss, root, 0);
    SortedBag(ss, root);
    SpansOfRooted(ss, root);
    forall c | c in Sorted(ss, root) ensures c < |ss| && RootedAt(ss, c, 2) { RootedInRange(ss, c, 2); }
    forall k | 0 <= k < |Sorted(ss, root)| ensures Sorted(ss, root)[k] < |ss| {
      assert Sorted(ss, root)[k] in Sorted(ss, root);
    }
  }

  /** The requests as the linking pass sees them. */
  ghost function LinkRoots(ss: seq<Span>, roots: seq<nat>): (r: seq<K.Root>)
    requires forall p :: p in roots ==> RootedAt(ss, p, 0)
    ensures |r| == |roots|
  {
    if roots == [] then []
    else
      var p := roots[|roots| - 1];
      SortedInRange(ss, p);
      LinkRoots(ss, roots[..|roots| - 1]) + [K.Root(ss[p].parentSpanId, LinkedSpans(ss, Sorted(ss, p)))]
  }

  ghost function FileRoots(ss: seq<Span>): seq<K.Root> {
    RequestsRooted(ss);
    LinkRoots(ss, RequestsUpTo(ss, |ss|))
  }

  function GatewayIds(gs: seq<Gateway>): (r: seq<string>)
    ensures |r| == |gs| && forall k :: 0 <= k < |gs| ==> r[k] == gs[k].spanId
  {
    if gs == [] then [] else GatewayIds(gs[..|gs| - 1]) + [gs[|gs| - 1].spanId]
  }

  /** The spans that have been converted: those deep enough below a request, and the gateway's. */
  ghost predicate IsConverted(ss: seq<Span>, gs: seq<Gateway>, x: K.Node) {
    match x
    case EngineSpan(j) => j < |ss| && exists d: nat :: Deep(ss, j, d)
    case GatewaySpan(g) => g < |gs|
  }

  lemma {:induction false} LinkRootsAt(ss: seq<Span>, roots: seq<nat>, k: nat)
    requires (forall p :: p in roots ==> RootedAt(ss, p, 0)) && k < |roots|
    ensures roots[k] < |ss| && forall i :: 0 <= i < |Sorted(ss, roots[k])| ==> Sorted(ss, roots[k])[i] < |ss|
    ensures LinkRoots(ss, roots)[k] == K.Root(ss[roots[k]].parentSpanId, LinkedSpans(ss, Sorted(ss, roots[k])))
  {
    hide RootedAt, Sorted, LinkedSpans;
    var n := |roots| - 1;
    assert roots[k] in roots;
    SortedInRange(ss, roots[k]);
    if k < n { LinkRootsAt(ss, roots[..n], k); }
  }

  /** Unless the layout pass has failed, every request has a span to link. */
  lemma {:induction false} RootsHaveSpans(ss: seq<Span>)
    requires [] !in AllRequests(ss)
    ensures forall k :: 0 <= k < |FileRoots(ss)| ==> FileRoots(ss)[k].spans != []
  {
    hide RootedAt, Sorted, SpansOf, LinkRoots, RequestsUpTo, AllRequests;
    RequestsRooted(ss);
    var roots := RequestsUpTo(ss, |ss|);
    EmptyRequest(ss);
    forall k | 0 <= k < |roots| ensures FileRoots(ss)[k].spans != [] {
      assert roots[k] in roots;
      LinkRootsAt(ss, roots, k);
      SortedBag(ss, roots[k]);
      assert SpansOf(ss, RequestsUpTo(ss, |ss|)[k]) != [];
      assert |FileRoots(ss)[k].spans| == |Sorted(ss, roots[k])|;
    }
  }

  // ----- both ends of an arrow are written

  lemma {:induction false} ArrowEnds(spans: seq<K.Linked>, converted: set<K.Node>, a: (K.Node, K.Node))
    requires a in K.Arrows(spans, converted)
    ensures a.1 in converted && exists i :: 0 <= i < |spans| && spans[i].source == a.0
  {
    var n := |spans| - 1;
    if a in K.Arrows(spans[..n], converted) {
      ArrowEnds(spans[..n], converted, a);
    } else {
      ArrowOfEnds(spans[n].source, spans[n].links, converted, a);
    }
  }

  lemma {:induction false} ArrowOfEnds(source: K.Node, links: seq<K.Node>, converted: set<K.Node>, a: (K.Node, K.Node))
    requires a in K.ArrowsOf(source, links, converted)
    ensures a.0 == source && a.1 in converted
  {
    var n := |links| - 1;
    if a in K.ArrowsOf(source, links[..n], converted) { ArrowOfEnds(source, links[..n], converted, a); }
  }

  lemma {:induction false} ResolvedSource(roots: seq<K.Root>, gateway: seq<string>, i: nat) returns (k: nat, m: nat)
    requires (forall j :: 0 <= j < |roots| ==> roots[j].spans != []) && i < |K.Resolved(roots, gateway)|
    ensures k < |roots| && m < |roots[k].spans| && K.Resolved(roots, gateway)[i].source == roots[k].spans[m].source
  {
    var n := |roots| - 1;
    var before := |K.Resolved(roots[..n], gateway)|;
    if i < before {
      k, m := ResolvedSource(roots[..n], gateway, i);
    } else {
      k, m := n, i - before;
      K.KeepsSpans(roots[n], gateway);
    }
  }

  /** Every arrow of the output runs between two spans that are in the output. */
  lemma {:induction false} ArrowsAreAnchored(ss: seq<Span>, gs: seq<Gateway>, converted: set<K.Node>,
                                             a: (K.Node, K.Node))
    requires [] !in AllRequests(ss) && forall x :: x in converted <==> IsConverted(ss, gs, x)
    requires forall k :: 0 <= k < |FileRoots(ss)| ==> FileRoots(ss)[k].spans != []
    requires a in K.Arrows(K.Resolved(FileRoots(ss), GatewayIds(gs)), converted)
    ensures forall c :: c in Order(ss) ==> RootedAt(ss, c, 2)
    ensures a.0.EngineSpan? && a.0.index in Gathered(ss, Order(ss))
    ensures if a.1.EngineSpan? then a.1.index in Gathered(ss, Order(ss)) else a.1.index < |gs|
  {
    hide RootedAt, Order, Gathered, K.Arrows, K.Resolved, LinkRoots, RequestsUpTo, Sorted, AllRequests;
    FileWrittenOnce(ss);
    var spans := K.Resolved(FileRoots(ss), GatewayIds(gs));
    ArrowEnds(spans, converted, a);
    var i :| 0 <= i < |spans| && spans[i].source == a.0;
    var k, m := ResolvedSource(FileRoots(ss), GatewayIds(gs), i);
    RequestsRooted(ss);
    var roots := RequestsUpTo(ss, |ss|);
    assert roots[k] in roots;
    LinkRootsAt(ss, roots, k);
    SortedInRange(ss, roots[k]);
    var c := Sorted(ss, roots[k])[m];
    assert c in Sorted(ss, roots[k]);
    assert a.0 == K.EngineSpan(c);
    assert Deep(ss, c, 2);
    assert IsConverted(ss, gs, a.1);
  }

  // ----- the whole conversion

  method SortSpans(trace: Trace, requests: seq<seq<L.Span>>)
    requires Ready(trace) && requests == AllRequests(trace.raw)
    modifies trace`spansOf
    ensures trace.Built() && |trace.spansOf| == |trace.rootSpans|
    ensures forall k :: 0 <= k < |trace.rootSpans| ==>
      RootedAt(trace.raw, trace.rootSpans[k], 0) && trace.spansOf[k] == Sorted(trace.raw, trace.rootSpans[k])
  {
    hide RootedAt, Final, RequestsUpTo, SpansOf, Drawn, Requests, T.SortByStart, IdsOf;
    RequestsRooted(trace.raw);
    ghost var roots := trace.rootSpans;
    var sorted: seq<seq<nat>> := [];
    for k := 0 to |requests|
      invariant |sorted| == k
      invariant forall i :: 0 <= i < k ==> RootedAt(trace.raw, roots[i], 0) && sorted[i] == Sorted(trace.raw, roots[i])
    {
      assert roots[k] in roots;
      RequestsAt(trace.raw, roots, k);
      sorted := sorted + [IdsOf(T.SortByStart(requests[k]))];
    }
    trace.spansOf := sorted;
  }

  /** Everything but the lanes and the output is there. */
  ghost predicate SortedTrace(trace: Trace)
    reads trace
  {
    && trace.Built() && |trace.spansOf| == |trace.rootSpans|
    && forall k :: 0 <= k < |trace.rootSpans| ==>
         RootedAt(trace.raw, trace.rootSpans[k], 0) && trace.spansOf[k] == Sorted(trace.raw, trace.rootSpans[k])
  }

  method MakeLinked(trace: Trace, cs: seq<nat>) returns (spans: seq<K.Linked>)
    requires trace.Built() && forall k :: 0 <= k < |cs| ==> cs[k] < |trace.raw|
    ensures spans == LinkedSpans(trace.raw, cs)
  {
    hide RequestsUpTo, LinkTargets, Children;
    spans := [];
    for k := 0 to |cs|
      invariant spans == LinkedSpans(trace.raw, cs[..k])
    {
      assert cs[..k + 1][..k] == cs[..k];
      spans := spans + [K.Linked(K.EngineSpan(cs[k]), EngineNodes(trace.links[cs[k]]))];
    }
    assert cs[..|cs|] == cs;
  }

  method MakeRoots(trace: Trace) returns (roots: seq<K.Root>)
    requires SortedTrace(trace) && forall j :: 0 <= j < |trace.raw| ==>
      trace.spans[j].parentSpanId == trace.raw[j].parentSpanId
    ensures roots == FileRoots(trace.raw)
  {
    hide RootedAt, RequestsUpTo, Sorted, LinkedSpans, Children, LinkTargets;
    RequestsRooted(trace.raw);
    ghost var all := trace.rootSpans;
    roots := [];
    for k := 0 to |trace.rootSpans|
      invariant roots == LinkRoots(trace.raw, all[..k])
    {
      assert all[k] in all && all[..k + 1][..k] == all[..k];
      SortedInRange(trace.raw, all[k]);
      var spans := MakeLinked(trace, trace.spansOf[k]);
      roots := roots + [K.Root(trace.spans[trace.rootSpans[k]].parentSpanId, spans)];
    }
    assert all[..|all|] == all;
  }

  /** The spans that have a `perfetto_span`. */
  method ConvertedNodes(trace: Trace, gs: seq<Gateway>) returns (converted: set<K.Node>)
    requires |trace.spans| == |trace.raw| && forall j :: 0 <= j < |trace.raw| ==> trace.spans[j] == Final(trace.raw, j)
    requires forall j :: 0 <= j < |trace.raw| ==> trace.raw[j].outPid.None?
    ensures forall x :: x in converted <==> IsConverted(trace.raw, gs, x)
  {
    hide Deep;
    converted := {};
    for j := 0 to |trace.spans|
      invariant forall x :: x in converted <==> x.EngineSpan? && x.index < j && IsConverted(trace.raw, gs, x)
    {
      FinalConverted(trace.raw, j);
      if trace.spans[j].outPid.Some? { converted := converted + {K.EngineSpan(j)}; }
    }
    for g := 0 to |gs|
      invariant forall x :: x in converted <==> IsConverted(trace.raw, gs, x) && (x.GatewaySpan? ==> x.index < g)
    {
      converted := converted + {K.GatewaySpan(g)};
    }
  }

  lemma {:induction false} FinalConverted(ss: seq<Span>, j: nat)
    requires j < |ss| && ss[j].outPid.None?
    ensures Final(ss, j).outPid.Some? <==> exists d: nat :: Deep(ss, j, d)
  {
    hide Up, Deep;
    if d: nat :| Deep(ss, j, d) { FinalAt(ss, j, d); }
  }

  method GatherAll(trace: Trace) returns (elems: seq<nat>)
    requires SortedTrace(trace)
    ensures forall c :: c in Order(trace.raw) ==> RootedAt(trace.raw, c, 2)
    ensures elems == Gathered(trace.raw, Order(trace.raw))
  {
    hide RootedAt, RequestsUpTo, Sorted, Children, LinkTargets, Gathered, Walk;
    OrderBag(trace.raw);
    RequestsRooted(trace.raw);
    ghost var all := trace.rootSpans;
    elems := [];
    ghost var done: seq<nat> := [];
    GatheredNothing(trace.raw);
    for k := 0 to |trace.rootSpans|
      invariant done == AllSorted(trace.raw, all[..k]) && (forall c :: c in done ==> RootedAt(trace.raw, c, 2))
      invariant elems == Gathered(trace.raw, done)
    {
      assert all[k] in all && all[..k + 1][..k] == all[..k];
      SortedInRange(trace.raw, all[k]);
      var cs := trace.spansOf[k];
      assert done + cs[..0] == done;
      for i := 0 to |cs|
        invariant (forall c :: c in done + cs[..i] ==> RootedAt(trace.raw, c, 2)) &&
          elems == Gathered(trace.raw, done + cs[..i])
      {
        assert cs[i] in cs && done + cs[..i + 1] == done + cs[..i] + [cs[i]];
        var more := trace.GatherOne(cs[i], 2);
        GatheredNext(trace.raw, done + cs[..i], cs[i]);
        elems := elems + more;
      }
      assert cs[..|cs|] == cs;
      done := done + cs;
    }
    assert all[..|all|] == all;
  }

  lemma {:induction false} GatheredNothing(ss: seq<Span>)
    ensures Gathered(ss, []) == []
  {
  }

  lemma {:induction false} GatheredNext(ss: seq<Span>, cs: seq<nat>, c: nat)
    requires (forall x :: x in cs ==> RootedAt(ss, x, 2)) && RootedAt(ss, c, 2)
    ensures Gathered(ss, cs + [c]) == Gathered(ss, cs) + Walk(ss, c, 2)
  {
    hide RootedAt, Walk;
    var all := cs + [c];
    RootedBound(ss, c, 2);
    WalkAllSnoc(ss, all, |cs|, 2);
    assert all[..|cs| + 1] == all && all[..|cs|] == cs;
    if cs == [] { assert WalkAll(ss, [], 2) == []; }
  }

  ghost predicate AllFinal(trace: Trace)
    reads trace
  {
    |trace.spans| == |trace.raw| && forall j :: 0 <= j < |trace.raw| ==> trace.spans[j] == Final(trace.raw, j)
  }

  /** Conversion and layout. The lanes are written into the spans after all are placed; no lane search
      reads them. */
  method LayOut(otel: seq<Span>, gateway: seq<Gateway>) returns (ok: bool, trace: Trace, layout: T.Layout)
    ensures trace.raw == otel && AllFinal(trace)
    ensures ok <==> [] !in AllRequests(otel)
    ensures layout.Valid() && layout.View() ==
      if ok then L.Run(T.LayoutEvents(AllRequests(otel), ShownGateways(gateway))) else L.Start
    ensures ok ==> SortedTrace(trace) && LanesWritten(otel, trace.tids, layout.tids)
  {
    hide RootedAt, Final, RequestsUpTo, AllRequests, ShownGateways, T.LayoutEvents, L.Run, Apart, LanesWritten,
      T.Layout.Valid, SpansOf, Sorted, Children, Kids;
    trace := Prepare(otel);
    var requests := ShowRequests(trace);
    var smg := ShowGateways(gateway);
    ok, layout := T.GenerateLayout(requests, smg);
    if ok {
      SortSpans(trace, requests);
      PlacedAreApart(otel, gateway);
      WriteLanes(trace, layout.tids);
    }
  }

  method Prepare(otel: seq<Span>) returns (trace: Trace)
    ensures fresh(trace) && trace.raw == otel && Ready(trace) && AllFinal(trace)
    ensures forall j :: 0 <= j < |otel| ==> trace.tids[j] == 0
  {
    hide RootedAt, Final, RequestsUpTo, Children, Kids;
    trace := new Trace(otel);
    trace.GenerateSpans();
  }

  method LinkUp(trace: Trace, gateway: seq<Gateway>, preset: map<K.Node, int>) returns (links: K.LinkGenerator)
    requires SortedTrace(trace) && AllFinal(trace) && [] !in AllRequests(trace.raw)
    requires forall j :: 0 <= j < |trace.raw| ==> trace.raw[j].outPid.None?
    ensures LinkedUp(trace.raw, gateway, preset, links)
  {
    hide RootedAt, Final, RequestsUpTo, AllRequests, Sorted, Children, Kids, IsConverted, FileRoots, K.Arrows,
      K.Resolved, K.LinkGenerator.Emitted;
    forall j | 0 <= j < |trace.raw| ensures trace.spans[j].parentSpanId == trace.raw[j].parentSpanId {
      FinalKeepsParent(trace.raw, j);
    }
    var roots := MakeRoots(trace);
    var converted := ConvertedNodes(trace, gateway);
    RootsHaveSpans(trace.raw);
    links := new K.LinkGenerator(preset);
    links.LinkAll(roots, GatewayIds(gateway), converted, preset);
  }

  /** `main`, from the spans read to the elements written. Nothing is laid out, linked or gathered when
      some request has no span of its own, for the layout pass raises then. */
  method ConvertTrace(otel: seq<Span>, gateway: seq<Gateway>, preset: map<K.Node, int>)
    returns (ok: bool, trace: Trace, layout: T.Layout, links: Option<K.LinkGenerator>, elems: seq<nat>)
    requires forall j :: 0 <= j < |otel| ==> otel[j].outPid.None?
    ensures trace.raw == otel && AllFinal(trace)
    ensures ok <==> [] !in AllRequests(otel)
    ensures layout.Valid() && layout.View() ==
      if ok then L.Run(T.LayoutEvents(AllRequests(otel), ShownGateways(gateway))) else L.Start
    ensures ok ==> LanesWritten(otel, trace.tids, layout.tids)
    ensures ok ==> links.Some? && LinkedUp(otel, gateway, preset, links.value)
    ensures forall c :: c in Order(otel) ==> RootedAt(otel, c, 2)
    ensures elems == if ok then Gathered(otel, Order(otel)) else []
  {
    hide RootedAt, AllRequests, ShownGateways, T.LayoutEvents, L.Run, LanesWritten, Order, Gathered, T.Layout.Valid,
      SortedTrace, AllFinal, LinkedUp;
    OrderBag(otel);
    links, elems := None, [];
    ok, trace, layout := LayOut(otel, gateway);
    if ok {
      var generated := LinkUp(trace, gateway, preset);
      links := Some(generated);
      elems := GatherAll(trace);
    }
  }

  lemma {:induction false} FinalKeepsParent(ss: seq<Span>, j: nat)
    requires j < |ss|
    ensures Final(ss, j).parentSpanId == ss[j].parentSpanId
  {
  }

  /** The arrows are those between converted spans of the file. */
  ghost predicate LinkedUp(ss: seq<Span>, gs: seq<Gateway>, preset: map<K.Node, int>, links: K.LinkGenerator)
    reads links
  {
    && (forall k :: 0 <= k < |FileRoots(ss)| ==> FileRoots(ss)[k].spans != [])
    && exists converted :: (forall x :: x in converted <==> IsConverted(ss, gs, x))
         && links.Emitted(preset, K.Arrows(K.Resolved(FileRoots(ss), GatewayIds(gs)), converted))
  }
}
