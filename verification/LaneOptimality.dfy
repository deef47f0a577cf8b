/** First fit in start order is optimal: a process gets exactly as many lanes as it has spans
    alive at one instant, and no drawing without overlap can do with fewer. */
module LaneOptimality {
  import opened Prelude
  import opened SpanContainer
  import opened SpanLayout
  import opened LayoutSafety

  predicate Alive(s: Span, p: Pid, t: int) { s.pid == p && s.start <= t < s.end }

  /** How many spans of process `p` are alive at instant `t`. */
  function AliveCount(ss: seq<Span>, p: Pid, t: int): nat {
    if ss == [] then 0 else AliveCount(ss[..|ss| - 1], p, t) + if Alive(ss[|ss| - 1], p, t) then 1 else 0
  }

  /** The spans of `p` have positive length and come in start order. */
  ghost predicate InOrder(ss: seq<Span>, p: Pid) {
    && (forall i :: 0 <= i < |ss| && ss[i].pid == p ==> ss[i].start < ss[i].end)
    && (forall i, j :: 0 <= i < j < |ss| && ss[i].pid == p && ss[j].pid == p ==> ss[i].start <= ss[j].start)
  }

  function Live(placed: seq<Placed>, p: Pid, t: int): set<int> {
    set i | 0 <= i < |placed| && Alive(placed[i].span, p, t)
  }

  lemma {:induction false} LiveSize(placed: seq<Placed>, p: Pid, t: int)
    ensures |Live(placed, p, t)| == AliveCount(Drawn(placed), p, t)
  {
    hide Live;
    if placed == [] {
      assert Live(placed, p, t) == {} by { NobodyLive(p, t); }
    } else {
      var n := |placed| - 1;
      LiveSize(placed[..n], p, t);
      assert Drawn(placed)[..n] == Drawn(placed[..n]);
      LiveLast(placed, p, t);
    }
  }

  lemma {:induction false} NobodyLive(p: Pid, t: int)
    ensures Live([], p, t) == {}
  {
  }

  lemma {:induction false} LiveLast(placed: seq<Placed>, p: Pid, t: int)
    requires placed != []
    ensures var n := |placed| - 1;
      |Live(placed, p, t)| == |Live(placed[..n], p, t)| + if Alive(placed[n].span, p, t) then 1 else 0
  {
    var n := |placed| - 1;
    assert Live(placed, p, t) == Live(placed[..n], p, t) + if Alive(placed[n].span, p, t) then {n} else {};
  }

  function LineAt(placed: seq<Placed>, i: int): int {
    if 0 <= i < |placed| then placed[i].line else 0
  }

  ghost predicate Occupied(placed: seq<Placed>, p: Pid, l: int, t: int) {
    exists i :: i in Live(placed, p, t) && LineAt(placed, i) == l
  }

  /** Every lane 1..k has a span alive at `t`. */
  ghost predicate Crowded(placed: seq<Placed>, p: Pid, k: nat, t: int) {
    forall l :: 1 <= l <= k ==> Occupied(placed, p, l, t)
  }

  lemma {:induction false} CrowdedCount(placed: seq<Placed>, p: Pid, k: nat, t: int)
    requires Crowded(placed, p, k, t)
    ensures AliveCount(Drawn(placed), p, t) >= k
  {
    LiveSize(placed, p, t);
    forall y | y in OneTo(k) ensures exists x :: x in Live(placed, p, t) && LineAt(placed, x) == y {
      assert Occupied(placed, p, y, t);
    }
    ImageSize(x => LineAt(placed, x), Live(placed, p, t), OneTo(k));
  }

  /** However a set of spans is drawn without overlap, it takes at least as many lanes as there
      are spans alive at any one instant. */
  lemma {:induction false} DrawingNeedsPeak(placed: seq<Placed>, p: Pid, m: nat, t: int)
    requires Disjoint(placed, p)
    requires forall i :: 0 <= i < |placed| && placed[i].span.pid == p ==> 1 <= placed[i].line <= m
    ensures AliveCount(Drawn(placed), p, t) <= m
  {
    LiveSize(placed, p, t);
    var live := Live(placed, p, t);
    forall x, x' | x in live && x' in live && LineAt(placed, x) == LineAt(placed, x') ensures x == x' {
      assert placed[x].Lane() == placed[x'].Lane();
      assert Overlap(placed[x].span.Range(), placed[x'].span.Range());
    }
    InjectionSize(x => LineAt(placed, x), live, OneTo(m));
  }

  /** A blocked lane holds a span that is alive when the new span starts. */
  lemma {:induction false} BlockedAlive(st: State, p: Pid, l: nat, start: int, end: int)
    requires Conserved(st) && LaneId(p, l) in st.lanes && LanesSeparated(st, p)
    requires forall i :: 0 <= i < |st.placed| && st.placed[i].span.pid == p ==>
      st.placed[i].span.start < st.placed[i].span.end && st.placed[i].span.start <= start
    requires start < end && NeighbourOverlap(st.lanes[LaneId(p, l)], start, end)
    ensures Occupied(st.placed, p, l, start)
  {
    hide NeighbourOverlap, Held;
    var id := LaneId(p, l);
    var lane := st.lanes[id];
    assert Held(st.placed, id) == multiset(lane);
    forall k | 0 <= k < |lane| ensures lane[k].start < lane[k].end {
      assert lane[k] in multiset(lane);
      HeldMembers(st.placed, id, lane[k]);
    }
    NeighbourTestExact(lane, start, end);
    var k :| 0 <= k < |lane| && Overlap(lane[k], Interval(start, end));
    assert lane[k] in multiset(lane);
    HeldMembers(st.placed, id, lane[k]);
    var i :| 0 <= i < |st.placed| && st.placed[i].Lane() == id && st.placed[i].span.Range() == lane[k];
    assert i in Live(st.placed, p, start) && LineAt(st.placed, i) == l;
  }

  lemma {:induction false} CrowdedExtends(placed: seq<Placed>, more: seq<Placed>, p: Pid, k: nat, t: int)
    requires Crowded(placed, p, k, t) && placed <= more
    ensures Crowded(more, p, k, t)
  {
    forall l | 1 <= l <= k ensures Occupied(more, p, l, t) {
      assert Occupied(placed, p, l, t);
      var i :| i in Live(placed, p, t) && LineAt(placed, i) == l;
      assert i in Live(more, p, t) && LineAt(more, i) == l;
    }
  }

  /** What a placement does to the lane count: nothing, or one lane more, all of them blocked. */
  lemma {:induction false} PlaceCount(st: State, span: Span, p: Pid)
    requires WellFormed(st)
    ensures var r := Step(st, Place(span));
      && st.placed <= r.placed
      && (LaneCount(r, p) != LaneCount(st, p) ==>
            && span.pid == p && LaneCount(r, p) == LaneCount(st, p) + 1
            && r.placed == st.placed + [Placed(span, LaneCount(r, p))]
            && forall l :: 1 <= l <= LaneCount(st, p) ==>
                 LaneId(p, l) in st.lanes && NeighbourOverlap(st.lanes[LaneId(p, l)], span.start, span.end))
  {
    hide FindLine, NeighbourOverlap, Insort;
    var f := FindLine(st, span.pid, span.start, span.end);
    assert Step(st, Place(span)).count == f.st.count;
  }

  /** Opening a lane makes the starting instant of the new span a crowded one. */
  lemma {:induction false} OpeningCrowds(st: State, span: Span, placed: seq<Placed>)
    requires Conserved(st) && LanesSeparated(st, span.pid) && span.start < span.end
    requires forall i :: 0 <= i < |st.placed| && st.placed[i].span.pid == span.pid ==>
      st.placed[i].span.start < st.placed[i].span.end && st.placed[i].span.start <= span.start
    requires forall l :: 1 <= l <= LaneCount(st, span.pid) ==>
      LaneId(span.pid, l) in st.lanes && NeighbourOverlap(st.lanes[LaneId(span.pid, l)], span.start, span.end)
    requires placed == st.placed + [Placed(span, LaneCount(st, span.pid) + 1)]
    ensures Crowded(placed, span.pid, LaneCount(st, span.pid) + 1, span.start)
  {
    hide Conserved, LanesSeparated, NeighbourOverlap;
    forall l | 1 <= l <= LaneCount(st, span.pid) + 1
      ensures Occupied(placed, span.pid, l, span.start)
    {
      if l <= LaneCount(st, span.pid) {
        BlockedAlive(st, span.pid, l, span.start, span.end);
        var i :| i in Live(st.placed, span.pid, span.start) && LineAt(st.placed, i) == l;
        assert i in Live(placed, span.pid, span.start) && LineAt(placed, i) == l;
      } else {
        assert |st.placed| in Live(placed, span.pid, span.start) && LineAt(placed, |st.placed|) == l;
      }
    }
  }

  lemma {:induction false} SpansAreEvents(es: seq<Event>)
    ensures forall k :: 0 <= k < |es| && es[k].Place? ==> es[k].span in SpansOf(es)
  {
    if es != [] { SpansAreEvents(es[..|es| - 1]); }
  }

  lemma {:induction false} InOrderNoZeroLength(es: seq<Event>, p: Pid)
    requires InOrder(SpansOf(es), p)
    ensures Disjoint(Run(es).placed, p) && LanesSeparated(Run(es), p)
  {
    hide Run, Disjoint, LanesSeparated;
    SpansAreEvents(es);
    NoZeroLengthDisjoint(es, p);
  }

  lemma {:induction false} RunCrowded(es: seq<Event>, p: Pid)
    requires InOrder(SpansOf(es), p)
    ensures LaneCount(Run(es), p) > 0 ==> exists t :: Crowded(Run(es).placed, p, LaneCount(Run(es), p), t)
  {
    hide Run, Step, Crowded, Conserved, SlotsMatch, LanesSeparated, WellFormed, Disjoint, NeighbourOverlap;
    RunUnfold(es);
    if es != [] {
      var n := |es| - 1;
      var prev, e := Run(es[..n]), es[n];
      var ss := SpansOf(es[..n]);
      assert ss == SpansOf(es)[..|ss|];
      RunCrowded(es[..n], p);
      RunConserved(es[..n]);
      InOrderNoZeroLength(es[..n], p);
      match e
      case NewRequest => SameCount(prev, p);
      case Place(span) =>
        PlaceCount(prev, span, p);
        if LaneCount(Run(es), p) != LaneCount(prev, p) {
          assert SpansOf(es)[|ss|] == span;
          OpeningCrowds(prev, span, Run(es).placed);
        } else if LaneCount(prev, p) > 0 {
          var t :| Crowded(prev.placed, p, LaneCount(prev, p), t);
          CrowdedExtends(prev.placed, Run(es).placed, p, LaneCount(prev, p), t);
        }
    }
  }

  lemma {:induction false} SameCount(st: State, p: Pid)
    requires WellFormed(st)
    ensures var r := Step(st, NewRequest); LaneCount(r, p) == LaneCount(st, p) && r.placed == st.placed
  {
  }

  lemma {:induction false} PlacedLines(st: State, p: Pid)
    requires WellFormed(st) && Conserved(st)
    ensures forall i :: 0 <= i < |st.placed| && st.placed[i].span.pid == p ==>
      1 <= st.placed[i].line <= LaneCount(st, p)
  {
    forall i | 0 <= i < |st.placed| && st.placed[i].span.pid == p ensures 1 <= st.placed[i].line <= LaneCount(st, p) {
      HeldMembers(st.placed, st.placed[i].Lane(), st.placed[i].span.Range());
    }
  }

  /** The lanes a process is given are exactly as many as its spans alive at the busiest instant. */
  lemma {:induction false} LanesMatchPeak(es: seq<Event>, p: Pid)
    requires InOrder(SpansOf(es), p)
    ensures forall t :: AliveCount(SpansOf(es), p, t) <= LaneCount(Run(es), p)
    ensures LaneCount(Run(es), p) > 0 ==> exists t :: AliveCount(SpansOf(es), p, t) == LaneCount(Run(es), p)
  {
    hide Run, Crowded, Conserved, SlotsMatch, LanesSeparated, WellFormed, Disjoint, AliveCount, SpansOf, InOrder;
    var st := Run(es);
    RunConserved(es);
    InOrderNoZeroLength(es, p);
    PlacedLines(st, p);
    forall t ensures AliveCount(SpansOf(es), p, t) <= LaneCount(st, p) {
      DrawingNeedsPeak(st.placed, p, LaneCount(st, p), t);
    }
    RunCrowded(es, p);
    if LaneCount(st, p) > 0 {
      var t :| Crowded(st.placed, p, LaneCount(st, p), t);
      CrowdedCount(st.placed, p, LaneCount(st, p), t);
      assert AliveCount(SpansOf(es), p, t) == LaneCount(st, p);
    }
  }

  /** No other drawing of the same spans without overlap uses fewer lanes. */
  lemma {:induction false} GreedyOptimal(es: seq<Event>, p: Pid, other: seq<Placed>, m: nat)
    requires InOrder(SpansOf(es), p)
    requires Drawn(other) == SpansOf(es) && Disjoint(other, p)
    requires forall i :: 0 <= i < |other| && other[i].span.pid == p ==> 1 <= other[i].line <= m
    ensures LaneCount(Run(es), p) <= m
  {
    hide Run, Disjoint, AliveCount, InOrder;
    LanesMatchPeak(es, p);
    if LaneCount(Run(es), p) > 0 {
      var t :| AliveCount(SpansOf(es), p, t) == LaneCount(Run(es), p);
      DrawingNeedsPeak(other, p, m, t);
    }
  }
}
