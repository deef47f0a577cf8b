/** scripts/convert_otel_2_perfetto.py, the layout pass as the program runs it: containers that
    are updated in place, and the loops over requests and gateway spans. The nested dictionary
    `graph[pid][line]` is kept as one dictionary keyed by the pair, next to `len(graph[pid])`. */
module TraceLayout {
  import opened Prelude
  import opened SpanContainer
  import opened SpanLayout
  import opened LayoutSafety
  import opened LaneOptimality

  class SpanLayoutContainer {
    var intervals: Lane
    /** The entry of `graph` this container was created for. */
    ghost const owner: LaneId

    constructor (ghost owner: LaneId)
      ensures intervals == [] && this.owner == owner
    {
      intervals := [];
      this.owner := owner;
    }

    method CheckOverlap(start: int, end: int) returns (overlaps: bool)
      ensures overlaps == NeighbourOverlap(intervals, start, end)
    {
      var idx := BisectLeft(intervals, start, None, 0, |intervals|);
      if idx > 0 && intervals[idx - 1].end > start {
        return true;
      }
      if idx < |intervals| && intervals[idx].start < end {
        return true;
      }
      return false;
    }

    method InsertSpan(start: int, end: int)
      modifies this
      ensures intervals == Insort(old(intervals), Interval(start, end))
    {
      var p := BisectLeft(intervals, start, Some(end), 0, |intervals|);
      OrderedAround(intervals, Interval(start, end), p);
      intervals := intervals[..p] + [Interval(start, end)] + intervals[p..];
    }
  }

  class Layout {
    var graph: map<LaneId, SpanLayoutContainer>
    var count: map<Pid, nat>
    var slotMetaData: seq<LaneId>
    var reqThreadStatus: map<Pid, nat>
    var tids: seq<Placed>

    /** What the containers hold. */
    ghost var lanes: map<LaneId, Lane>

    ghost function View(): State
      reads this
    {
      State(lanes, count, slotMetaData, reqThreadStatus, tids)
    }

    /** The containers are separate objects holding exactly `lanes`. */
    ghost predicate Boxed()
      reads this`graph, this`lanes, graph.Values
    {
      && graph.Keys == lanes.Keys
      && forall id :: id in graph ==> graph[id].owner == id && graph[id].intervals == lanes[id]
    }

    ghost predicate Valid()
      reads this, graph.Values
    {
      Boxed() && WellFormed(View())
    }

    constructor ()
      ensures Valid() && View() == Start && graph == map[]
    {
      graph, count, slotMetaData, reqThreadStatus, tids := map[], map[], [], map[], [];
      lanes := map[];
    }

    method NewBox(id: LaneId)
      requires Boxed() && id !in lanes
      modifies this`graph, this`lanes
      ensures Boxed() && lanes == old(lanes)[id := []]
      ensures id in graph && graph == old(graph)[id := graph[id]] && fresh(graph[id])
    {
      hide Ordered;
      var box := new SpanLayoutContainer(id);
      graph := graph[id := box];
      lanes := lanes[id := []];
    }

    method OpenLine(pid: Pid, line: nat)
      requires Valid() && line == LaneCount(View(), pid) + 1
      modifies this
      ensures Valid() && View() == Open(old(View()), pid, line).st
      ensures LaneId(pid, line) in graph && fresh(graph[LaneId(pid, line)])
      ensures graph == old(graph)[LaneId(pid, line) := graph[LaneId(pid, line)]]
    {
      assert LaneId(pid, line) !in lanes;
      hide WellFormed, Ordered, Boxed;
      NewBox(LaneId(pid, line));
      count := count[pid := line];
      slotMetaData := slotMetaData + [LaneId(pid, line)];
      reqThreadStatus := reqThreadStatus[pid := line];
      assert View() == Open(old(View()), pid, line).st;
    }

    /** The scan over the lanes of a process, in opening order. */
    method FirstFree(pid: Pid, start: int, end: int) returns (fit: Option<nat>)
      requires Valid() && pid in count
      ensures fit == FirstFit(View(), pid, 1, start, end)
    {
      hide NeighbourOverlap, Ordered;
      var line := 1;
      while line <= count[pid]
        invariant 1 <= line <= count[pid] + 1
        invariant FirstFit(View(), pid, 1, start, end) == FirstFit(View(), pid, line, start, end)
      {
        assert LaneId(pid, line) in lanes;
        var overlaps := graph[LaneId(pid, line)].CheckOverlap(start, end);
        if !overlaps {
          return Some(line);
        }
        line := line + 1;
      }
      return None;
    }

    method FillBox(id: LaneId, start: int, end: int)
      requires Boxed() && id in graph
      modifies graph[id], this`lanes
      ensures Boxed() && lanes == old(lanes)[id := Insort(old(lanes[id]), Interval(start, end))]
    {
      hide Insort, Ordered;
      graph[id].InsertSpan(start, end);
      lanes := lanes[id := graph[id].intervals];
    }

    method SearchLine(pid: Pid, start: int, end: int) returns (line: nat)
      requires Valid()
      modifies this
      ensures Valid() && LaneId(pid, line) in graph
      ensures Found(View(), line) == Search(old(View()), pid, start, end)
      ensures graph == old(graph) ||
        (graph == old(graph)[LaneId(pid, line) := graph[LaneId(pid, line)]] && fresh(graph[LaneId(pid, line)]))
    {
      hide NeighbourOverlap, Ordered, Boxed, FirstFit;
      if pid !in count {
        NothingToFit(View(), pid, start, end);
        line := 1;
        OpenLine(pid, line);
        return;
      }
      var fit := FirstFree(pid, start, end);
      if fit.Some? {
        line := fit.value;
        reqThreadStatus := reqThreadStatus[pid := line];
        assert LaneId(pid, line) in graph by { BoxedKeys(); }
      } else {
        line := count[pid] + 1;
        OpenLine(pid, line);
      }
    }

    lemma {:induction false} BoxedKeys()
      requires Boxed()
      ensures graph.Keys == lanes.Keys
    {
    }

    method FindLine(pid: Pid, start: int, end: int) returns (line: nat)
      requires Valid()
      modifies this
      ensures Valid() && LaneId(pid, line) in graph
      ensures Found(View(), line) == SpanLayout.FindLine(old(View()), pid, start, end)
      ensures graph == old(graph) ||
        (graph == old(graph)[LaneId(pid, line) := graph[LaneId(pid, line)]] && fresh(graph[LaneId(pid, line)]))
    {
      hide NeighbourOverlap, Ordered, Search;
      if pid in reqThreadStatus {
        line := reqThreadStatus[pid];
        assert LaneId(pid, line) in lanes;
        if start == end {
          return;
        }
        var overlaps := graph[LaneId(pid, line)].CheckOverlap(start, end);
        if !overlaps {
          return;
        }
      }
      line := SearchLine(pid, start, end);
    }

    method PlaceSpan(span: Span)
      requires Valid()
      modifies this, graph.Values
      ensures Valid() && View() == Step(old(View()), Place(span))
      ensures forall id :: id in graph ==> fresh(graph[id]) || (id in old(graph) && graph[id] == old(graph[id]))
    {
      hide WellFormed, NeighbourOverlap, Insort, Ordered, Boxed, SpanLayout.FindLine;
      var line := FindLine(span.pid, span.start, span.end);
      FillBox(LaneId(span.pid, line), span.start, span.end);
      tids := tids + [Placed(span, line)];
      assert View() == Step(old(View()), Place(span));
    }

    /** The loop over one request's spans (or over the gateway's), with a fresh memory. */
    method PlaceAll(spans: seq<Span>, ghost done: seq<Event>)
      requires Valid() && View() == Run(done)
      modifies this, graph.Values
      ensures Valid() && View() == Run(done + Request(spans))
      ensures forall id :: id in graph ==> fresh(graph[id]) || (id in old(graph) && graph[id] == old(graph[id]))
    {
      hide WellFormed, Step, Run;
      ResetStatus(View());
      reqThreadStatus := map[];
      RunStep(done, NewRequest);
      assert View() == Run(done + Request(spans[..0]));
      for i := 0 to |spans|
        invariant Valid() && View() == Run(done + Request(spans[..i]))
        invariant forall id :: id in graph ==> fresh(graph[id]) || (id in old(graph) && graph[id] == old(graph[id]))
      {
        PlaceSpan(spans[i]);
        RequestStep(done, spans, i);
      }
      assert spans[..|spans|] == spans;
    }
  }

  /** `generate_perfetto_span_layout`. Sorting requests by their first span raises an IndexError,
      before anything is placed, when some request has no span (`ok` is then false). */
  method GenerateLayout(requests: seq<seq<Span>>, smg: seq<Span>) returns (ok: bool, layout: Layout)
    ensures ok <==> [] !in requests
    ensures layout.Valid() && layout.View() == if ok then Run(LayoutEvents(requests, smg)) else Start
  {
    hide Run, SortByStart, SortEach, WellFormed, Layout.Boxed;
    layout := new Layout();
    assert Run([]) == Start by { RunUnfold([]); }
    if [] in requests {
      return false, layout;
    }
    ok := true;
    SortedEachNonEmpty(requests);
    var roots := SortRequests(SortEach(requests));
    assert Requests(roots[..0]) == [];
    for i := 0 to |roots|
      invariant layout.Valid() && layout.View() == Run(Requests(roots[..i]))
      invariant fresh(layout) && forall id :: id in layout.graph ==> fresh(layout.graph[id])
    {
      layout.PlaceAll(roots[i], Requests(roots[..i]));
      assert roots[..i + 1][..i] == roots[..i];
    }
    assert roots[..|roots|] == roots;
    layout.PlaceAll(SortByStart(smg), Requests(roots));
  }

  /** Python's stable sort by start time. */
  function SortByStart(ss: seq<Span>): seq<Span> {
    if ss == [] then [] else InsertByStart(SortByStart(ss[..|ss| - 1]), ss[|ss| - 1])
  }

  function InsertByStart(ss: seq<Span>, x: Span): (r: seq<Span>)
    ensures |r| == |ss| + 1
  {
    if ss == [] then [x]
    else if ss[|ss| - 1].start <= x.start then ss + [x]
    else InsertByStart(ss[..|ss| - 1], x) + [ss[|ss| - 1]]
  }

  function SortEach(rs: seq<seq<Span>>): (r: seq<seq<Span>>) {
    if rs == [] then [] else SortEach(rs[..|rs| - 1]) + [SortByStart(rs[|rs| - 1])]
  }

  /** Requests in the order of their first spans. */
  function SortRequests(rs: seq<seq<Span>>): (r: seq<seq<Span>>)
    requires [] !in rs
    ensures multiset(r) == multiset(rs)
  {
    if rs == [] then []
    else
      assert rs == rs[..|rs| - 1] + [rs[|rs| - 1]];
      InsertRequest(SortRequests(rs[..|rs| - 1]), rs[|rs| - 1])
  }

  function InsertRequest(rs: seq<seq<Span>>, x: seq<Span>): (r: seq<seq<Span>>)
    requires [] !in multiset(rs) && x != []
    ensures multiset(r) == multiset(rs) + multiset{x}
  {
    if rs == [] then [x]
    else
      assert rs == rs[..|rs| - 1] + [rs[|rs| - 1]];
      assert [] !in multiset(rs[..|rs| - 1]) && rs[|rs| - 1] in multiset(rs);
      if rs[|rs| - 1][0].start <= x[0].start then rs + [x]
      else InsertRequest(rs[..|rs| - 1], x) + [rs[|rs| - 1]]
  }

  /** The order in which the program places the spans of a trace. */
  function LayoutEvents(requests: seq<seq<Span>>, smg: seq<Span>): seq<Event>
    requires [] !in requests
  {
    SortedEachNonEmpty(requests);
    Requests(SortRequests(SortEach(requests))) + Request(SortByStart(smg))
  }

  lemma {:induction false} SortedEachNonEmpty(rs: seq<seq<Span>>)
    requires [] !in rs
    ensures [] !in SortEach(rs)
  {
    if rs != [] {
      SortedEachNonEmpty(rs[..|rs| - 1]);
      assert rs[|rs| - 1] in rs;
    }
  }

  /** The events of one request: forget the remembered lanes, then place each span. */
  function Request(spans: seq<Span>): seq<Event> {
    if spans == [] then [NewRequest] else Request(spans[..|spans| - 1]) + [Place(spans[|spans| - 1])]
  }

  function Requests(rs: seq<seq<Span>>): seq<Event> {
    if rs == [] then [] else Requests(rs[..|rs| - 1]) + Request(rs[|rs| - 1])
  }

  lemma {:induction false} NothingToFit(st: State, pid: Pid, start: int, end: int)
    requires WellFormed(st) && LaneCount(st, pid) == 0
    ensures FirstFit(st, pid, 1, start, end) == None
  {
  }

  lemma {:induction false} ResetStatus(st: State)
    requires WellFormed(st)
    ensures Step(st, NewRequest) == st.(status := map[])
  {
  }

  lemma {:induction false} RunStep(es: seq<Event>, e: Event)
    ensures Run(es + [e]) == Step(Run(es), e)
  {
    assert (es + [e])[..|es|] == es;
  }

  lemma {:induction false} RequestStep(done: seq<Event>, spans: seq<Span>, i: nat)
    requires i < |spans|
    ensures Run(done + Request(spans[..i + 1])) == Step(Run(done + Request(spans[..i])), Place(spans[i]))
  {
    assert spans[..i + 1][..i] == spans[..i];
    assert done + Request(spans[..i + 1]) == done + Request(spans[..i]) + [Place(spans[i])];
    RunStep(done + Request(spans[..i]), Place(spans[i]));
  }

  predicate OnlyEngine(ss: seq<Span>) { forall i :: 0 <= i < |ss| ==> ss[i].pid.Engine? }

  lemma {:induction false} InsertKeeps(ss: seq<Span>, x: Span)
    ensures var r := InsertByStart(ss, x);
      && multiset(r) == multiset(ss) + multiset{x}
      && (SortedByStart(ss) ==> SortedByStart(r))
      && forall p, t :: AliveCount(r, p, t) == AliveCount(ss, p, t) + if Alive(x, p, t) then 1 else 0
  {
    if ss != [] {
      var n := |ss| - 1;
      assert ss == ss[..n] + [ss[n]];
      if ss[n].start <= x.start {
        assert (ss + [x])[..n + 1] == ss;
      } else {
        InsertKeeps(ss[..n], x);
        var r' := InsertByStart(ss[..n], x);
        assert InsertByStart(ss, x)[..|r'|] == r';
        if SortedByStart(ss) { AllBefore(ss[..n], x, r', ss[n].start); }
      }
    }
  }

  lemma {:induction false} AllBefore(ss: seq<Span>, x: Span, r: seq<Span>, bound: int)
    requires multiset(r) == multiset(ss) + multiset{x}
    requires x.start <= bound && forall i :: 0 <= i < |ss| ==> ss[i].start <= bound
    ensures forall i :: 0 <= i < |r| ==> r[i].start <= bound
  {
    forall i | 0 <= i < |r| ensures r[i].start <= bound {
      assert r[i] in multiset(r);
      assert r[i] == x || r[i] in multiset(ss);
    }
  }

  ghost predicate SortedByStart(ss: seq<Span>) {
    forall i, j :: 0 <= i < j < |ss| ==> ss[i].start <= ss[j].start
  }

  /** Sorting puts the spans in start order and changes nothing else. */
  lemma {:induction false} SortKeeps(ss: seq<Span>)
    ensures var r := SortByStart(ss);
      && multiset(r) == multiset(ss) && SortedByStart(r)
      && forall p, t :: AliveCount(r, p, t) == AliveCount(ss, p, t)
  {
    if ss != [] {
      var n := |ss| - 1;
      assert ss == ss[..n] + [ss[n]];
      SortKeeps(ss[..n]);
      InsertKeeps(SortByStart(ss[..n]), ss[n]);
    }
  }

  lemma {:induction false} SpansOfConcat(a: seq<Event>, b: seq<Event>)
    ensures SpansOf(a + b) == SpansOf(a) + SpansOf(b)
  {
    if b == [] {
      assert a + b == a;
    } else {
      var n := |b| - 1;
      assert (a + b)[..|a| + n] == a + b[..n];
      SpansOfConcat(a, b[..n]);
    }
  }

  lemma {:induction false} SpansOfRequest(ss: seq<Span>)
    ensures SpansOf(Request(ss)) == ss
  {
    if ss != [] {
      var n := |ss| - 1;
      SpansOfRequest(ss[..n]);
      assert Request(ss)[..|Request(ss)| - 1] == Request(ss[..n]);
    } else {
      assert SpansOf([NewRequest][..0]) == [];
    }
  }

  lemma {:induction false} SpansOfRequests(rs: seq<seq<Span>>)
    requires forall i :: 0 <= i < |rs| ==> OnlyEngine(rs[i])
    ensures OnlyEngine(SpansOf(Requests(rs)))
  {
    if rs != [] {
      var n := |rs| - 1;
      SpansOfRequests(rs[..n]);
      SpansOfRequest(rs[n]);
      SpansOfConcat(Requests(rs[..n]), Request(rs[n]));
    }
  }

  lemma {:induction false} SortEngine(ss: seq<Span>)
    requires OnlyEngine(ss)
    ensures OnlyEngine(SortByStart(ss))
  {
    hide SortByStart, AliveCount;
    SortKeeps(ss);
    forall i | 0 <= i < |SortByStart(ss)| ensures SortByStart(ss)[i].pid.Engine? {
      assert SortByStart(ss)[i] in multiset(ss);
    }
  }

  lemma {:induction false} SortEachEngine(rs: seq<seq<Span>>)
    requires forall i :: 0 <= i < |rs| ==> OnlyEngine(rs[i])
    ensures |SortEach(rs)| == |rs| && forall i :: 0 <= i < |rs| ==> OnlyEngine(SortEach(rs)[i])
  {
    hide SortByStart, OnlyEngine;
    if rs != [] {
      SortEachEngine(rs[..|rs| - 1]);
      SortEngine(rs[|rs| - 1]);
    }
  }

  lemma {:induction false} AliveConcat(a: seq<Span>, b: seq<Span>, p: Pid, t: int)
    ensures AliveCount(a + b, p, t) == AliveCount(a, p, t) + AliveCount(b, p, t)
  {
    if b == [] {
      assert a + b == a;
    } else {
      var n := |b| - 1;
      assert (a + b)[..|a| + n] == a + b[..n];
      AliveConcat(a, b[..n], p, t);
    }
  }

  lemma {:induction false} EngineNotAlive(ss: seq<Span>, t: int)
    requires OnlyEngine(ss)
    ensures AliveCount(ss, Smg, t) == 0
  {
    if ss != [] { EngineNotAlive(ss[..|ss| - 1], t); }
  }

  /** For any trace whose gateway spans have positive adjusted length, in whatever order they are
      listed, the gateway gets exactly as many lanes as it has spans alive at its busiest instant. */
  lemma {:induction false} GatewayLanesMatchPeak(requests: seq<seq<Span>>, smg: seq<Span>)
    requires [] !in requests && forall i :: 0 <= i < |requests| ==> OnlyEngine(requests[i])
    requires forall i :: 0 <= i < |smg| ==> smg[i].pid == Smg && smg[i].start < smg[i].end
    ensures var lanes := LaneCount(Run(LayoutEvents(requests, smg)), Smg);
      && (forall t :: AliveCount(smg, Smg, t) <= lanes)
      && (lanes > 0 ==> exists t :: AliveCount(smg, Smg, t) == lanes)
  {
    hide Run, AliveCount, LaneCount, LayoutEvents;
    var es := LayoutEvents(requests, smg);
    GatewayInOrder(requests, smg);
    LanesMatchPeak(es, Smg);
    forall t ensures AliveCount(SpansOf(es), Smg, t) == AliveCount(smg, Smg, t) {
      GatewayAlive(requests, smg, t);
    }
  }

  /** Every engine span is placed before the gateway's, which come in start order. */
  lemma {:induction false} EventSpans(requests: seq<seq<Span>>, smg: seq<Span>) returns (engine: seq<Span>)
    requires [] !in requests && forall i :: 0 <= i < |requests| ==> OnlyEngine(requests[i])
    ensures OnlyEngine(engine) && SpansOf(LayoutEvents(requests, smg)) == engine + SortByStart(smg)
  {
    SortedEachNonEmpty(requests);
    SortEachEngine(requests);
    var roots := SortRequests(SortEach(requests));
    forall i | 0 <= i < |roots| ensures OnlyEngine(roots[i]) {
      assert roots[i] in multiset(SortEach(requests));
    }
    SpansOfRequests(roots);
    SpansOfRequest(SortByStart(smg));
    SpansOfConcat(Requests(roots), Request(SortByStart(smg)));
    engine := SpansOf(Requests(roots));
  }

  lemma {:induction false} GatewayInOrder(requests: seq<seq<Span>>, smg: seq<Span>)
    requires [] !in requests && forall i :: 0 <= i < |requests| ==> OnlyEngine(requests[i])
    requires forall i :: 0 <= i < |smg| ==> smg[i].pid == Smg && smg[i].start < smg[i].end
    ensures InOrder(SpansOf(LayoutEvents(requests, smg)), Smg)
  {
    hide LayoutEvents, SpansOf, SortByStart, AliveCount;
    var engine := EventSpans(requests, smg);
    SortKeeps(smg);
    var sorted := SortByStart(smg);
    forall i | 0 <= i < |sorted| ensures sorted[i].pid == Smg && sorted[i].start < sorted[i].end {
      assert sorted[i] in multiset(smg);
    }
  }

  lemma {:induction false} GatewayAlive(requests: seq<seq<Span>>, smg: seq<Span>, t: int)
    requires [] !in requests && forall i :: 0 <= i < |requests| ==> OnlyEngine(requests[i])
    ensures AliveCount(SpansOf(LayoutEvents(requests, smg)), Smg, t) == AliveCount(smg, Smg, t)
  {
    hide LayoutEvents, SpansOf, SortByStart, AliveCount;
    var engine := EventSpans(requests, smg);
    SortKeeps(smg);
    AliveConcat(engine, SortByStart(smg), Smg, t);
    EngineNotAlive(engine, t);
  }
}
