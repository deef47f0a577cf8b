/** What every run of the lane allocator keeps: lanes and slot records agree, spans are
    conserved, and spans that share a lane never overlap, exactly as long as the unchecked
    zero-length shortcut is not misused. */
module LayoutSafety {
  import opened Prelude
  import opened SpanContainer
  import opened SpanLayout

  /** The intervals that were given lane `id`. */
  function Held(placed: seq<Placed>, id: LaneId): multiset<Interval> {
    if placed == [] then multiset{}
    else
      var last := placed[|placed| - 1];
      Held(placed[..|placed| - 1], id) + if last.Lane() == id then multiset{last.span.Range()} else multiset{}
  }

  /** Each lane holds exactly the spans that were given its number. */
  ghost predicate Conserved(st: State) {
    forall id :: Held(st.placed, id) == if id in st.lanes then multiset(st.lanes[id]) else multiset{}
  }

  /** The slot records of each process are its lanes 1..k, in opening order. */
  ghost predicate SlotsMatch(st: State) {
    forall p :: LinesOf(st.slots, p) == UpTo(LaneCount(st, p))
  }

  /** No two spans drawn on the same lane of process `p` overlap. */
  ghost predicate Disjoint(placed: seq<Placed>, p: Pid) {
    forall i, j :: 0 <= i < j < |placed| && placed[i].span.pid == p && placed[i].Lane() == placed[j].Lane() ==>
      !Overlap(placed[i].span.Range(), placed[j].span.Range())
  }

  ghost predicate LanesSeparated(st: State, p: Pid) {
    forall id :: id in st.lanes && id.pid == p ==> Separated(st.lanes[id])
  }

  /** The step takes the unchecked shortcut for a zero-length span of process `p` that lies
      strictly inside a span already drawn on the remembered lane. */
  ghost predicate Buried(st: State, e: Event, p: Pid)
    requires WellFormed(st)
  {
    e.Place? && e.span.pid == p && e.span.start == e.span.end && p in st.status &&
    exists iv :: iv in st.lanes[LaneId(p, st.status[p])] && iv.start < e.span.start < iv.end
  }

  function SpansOf(es: seq<Event>): seq<Span> {
    if es == [] then [] else SpansOf(es[..|es| - 1]) + if es[|es| - 1].Place? then [es[|es| - 1].span] else []
  }

  function Drawn(placed: seq<Placed>): (r: seq<Span>)
    ensures |r| == |placed| && forall i :: 0 <= i < |r| ==> r[i] == placed[i].span
  {
    if placed == [] then [] else Drawn(placed[..|placed| - 1]) + [placed[|placed| - 1].span]
  }

  lemma {:induction false} HeldMembers(placed: seq<Placed>, id: LaneId, iv: Interval)
    ensures iv in Held(placed, id) <==>
      exists k :: 0 <= k < |placed| && placed[k].Lane() == id && placed[k].span.Range() == iv
  {
    if placed != [] {
      HeldMembers(placed[..|placed| - 1], id, iv);
    }
  }

  /** One placement, as seen from outside: lane `id` grows from `lane` to `lane'`. */
  ghost predicate Effect(st: State, span: Span, r: State, id: LaneId, lane: seq<Interval>, lane': seq<Interval>) {
    && id.pid == span.pid
    && lane == (if id in st.lanes then st.lanes[id] else [])
    && multiset(lane') == multiset(lane) + multiset{span.Range()}
    && r.lanes.Keys == st.lanes.Keys + {id} && r.lanes[id] == lane'
    && (forall i :: i in st.lanes && i != id ==> r.lanes[i] == st.lanes[i])
    && r.placed == st.placed + [Placed(span, id.line)]
  }

  lemma {:induction false} PlaceEffect(st: State, span: Span) returns (id: LaneId, lane: Lane)
    requires WellFormed(st)
    ensures Effect(st, span, Step(st, Place(span)), id, lane, Insort(lane, span.Range()))
    ensures if span.start == span.end && span.pid in st.status
      then id == LaneId(span.pid, st.status[span.pid])
      else !NeighbourOverlap(lane, span.start, span.end)
  {
    hide FindLine, Insort, WellFormed, NeighbourOverlap;
    var Found(st', line) := FindLine(st, span.pid, span.start, span.end);
    id := LaneId(span.pid, line);
    lane := st'.lanes[id];
  }

  lemma {:induction false} StepSlots(st: State, e: Event)
    requires WellFormed(st) && SlotsMatch(st)
    ensures SlotsMatch(Step(st, e))
  {
    hide FindLine, Insort, WellFormed, LinesOf, UpTo, NeighbourOverlap;
    var r := Step(st, e);
    if r.slots != st.slots {
      var k := LaneCount(st, e.span.pid) + 1;
      assert r.slots == st.slots + [LaneId(e.span.pid, k)] && r.count == st.count[e.span.pid := k];
      forall p ensures LinesOf(r.slots, p) == UpTo(LaneCount(r, p)) {
        NextSlot(st.slots, e.span.pid, k, p);
        assert LinesOf(st.slots, p) == UpTo(LaneCount(st, p));
      }
    } else {
      assert r.count == st.count;
      assert forall p :: LaneCount(r, p) == LaneCount(st, p);
    }
  }

  lemma {:induction false} NextSlot(slots: seq<LaneId>, pid: Pid, line: nat, p: Pid)
    requires line >= 1
    ensures LinesOf(slots + [LaneId(pid, line)], p) == LinesOf(slots, p) + if p == pid then [line] else []
    ensures UpTo(line) == UpTo(line - 1) + [line]
  {
    assert (slots + [LaneId(pid, line)])[..|slots|] == slots;
  }

  lemma {:induction false} EffectConserved(st: State, span: Span, r: State, id: LaneId, lane: seq<Interval>,
                                           lane': seq<Interval>)
    requires Effect(st, span, r, id, lane, lane') && Conserved(st)
    ensures Conserved(r) && Drawn(r.placed) == Drawn(st.placed) + [span]
  {
    assert r.placed[..|st.placed|] == st.placed;
    forall i ensures Held(r.placed, i) == if i in r.lanes then multiset(r.lanes[i]) else multiset{} {
      assert Held(st.placed, i) == if i in st.lanes then multiset(st.lanes[i]) else multiset{};
    }
  }

  lemma {:induction false} StepConserved(st: State, e: Event)
    requires WellFormed(st) && Conserved(st)
    ensures Conserved(Step(st, e))
    ensures Drawn(Step(st, e).placed) == Drawn(st.placed) + if e.Place? then [e.span] else []
  {
    hide Step, Insort, Effect, Conserved, Drawn, NeighbourOverlap, WellFormed;
    match e
    case NewRequest => RequestConserved(st);
    case Place(span) =>
      var id, lane := PlaceEffect(st, span);
      EffectConserved(st, span, Step(st, e), id, lane, Insort(lane, span.Range()));
  }

  lemma {:induction false} RequestConserved(st: State)
    requires WellFormed(st)
    ensures Conserved(st) ==> Conserved(Step(st, NewRequest))
    ensures Step(st, NewRequest).placed == st.placed
  {
    hide Held;
  }

  lemma {:induction false} RunUnfold(es: seq<Event>)
    ensures es == [] ==> Run(es) == Start
    ensures es != [] ==> Run(es) == Step(Run(es[..|es| - 1]), es[|es| - 1])
    ensures SlotsMatch(Start) && Conserved(Start)
  {
  }

  /** In every run the lanes of a process are 1..k with one slot record each, each lane holds
      exactly the spans it was given, and every span of the run is drawn once, in order. */
  lemma {:induction false} RunConserved(es: seq<Event>)
    ensures SlotsMatch(Run(es)) && Conserved(Run(es))
    ensures Drawn(Run(es).placed) == SpansOf(es)
  {
    hide Run, Step, SlotsMatch, Conserved, WellFormed;
    RunUnfold(es);
    if es != [] {
      RunConserved(es[..|es| - 1]);
      StepSlots(Run(es[..|es| - 1]), es[|es| - 1]);
      StepConserved(Run(es[..|es| - 1]), es[|es| - 1]);
    }
  }

  /** On a separated lane the test for a zero-length span says whether it lies inside another. */
  lemma {:induction false} ZeroLengthTest(s: Lane, at: int)
    requires Separated(s)
    ensures NeighbourOverlap(s, at, at) <==> exists iv :: iv in s && iv.start < at < iv.end
  {
    var idx := BisectLeft(s, at, None, 0, |s|);
    if NeighbourOverlap(s, at, at) {
      assert s[idx - 1] in s;
    } else {
      NeighbourTestSound(s, at, at);
    }
  }

  /** A span put on a lane whose test is negative overlaps nothing drawn there before. */
  lemma {:induction false} PlacedClear(placed: seq<Placed>, id: LaneId, lane: Lane, iv: Interval)
    requires Held(placed, id) == multiset(lane) && Separated(lane) && !NeighbourOverlap(lane, iv.start, iv.end)
    ensures forall i :: 0 <= i < |placed| && placed[i].Lane() == id ==> !Overlap(placed[i].span.Range(), iv)
  {
    forall i | 0 <= i < |placed| && placed[i].Lane() == id ensures !Overlap(placed[i].span.Range(), iv) {
      HeldMembers(placed, id, placed[i].span.Range());
      assert placed[i].span.Range() in multiset(lane);
      NeighbourTestSound(lane, iv.start, iv.end);
    }
  }

  lemma {:induction false} EmptySeparated()
    ensures Separated([])
  {
  }

  lemma {:induction false} EffectLane(st: State, span: Span, r: State, id: LaneId, lane: Lane, lane': seq<Interval>)
    requires Effect(st, span, r, id, lane, lane') && Conserved(st) && LanesSeparated(st, span.pid)
    ensures Held(st.placed, id) == multiset(lane) && Separated(lane)
  {
    hide Overlap, Separated, Held;
    EmptySeparated();
    if id in st.lanes { assert Separated(st.lanes[id]); }
  }

  lemma {:induction false} EffectSeparated(st: State, span: Span, r: State, id: LaneId, lane: Lane,
                                           lane': seq<Interval>)
    requires Effect(st, span, r, id, lane, lane') && LanesSeparated(st, span.pid) && Separated(lane')
    ensures LanesSeparated(r, span.pid)
  {
    hide Separated;
  }

  lemma {:induction false} EffectDisjoint(placed: seq<Placed>, x: Placed)
    requires Disjoint(placed, x.span.pid)
    requires forall i :: 0 <= i < |placed| && placed[i].Lane() == x.Lane() ==>
      !Overlap(placed[i].span.Range(), x.span.Range())
    ensures Disjoint(placed + [x], x.span.pid)
  {
    hide Overlap;
  }

  lemma {:induction false} EffectSafe(st: State, span: Span, r: State, id: LaneId, lane: Lane, lane': seq<Interval>)
    requires Effect(st, span, r, id, lane, lane') && Conserved(st)
    requires LanesSeparated(st, span.pid) && Disjoint(st.placed, span.pid)
    requires !NeighbourOverlap(lane, span.start, span.end) && Separated(lane')
    ensures LanesSeparated(r, span.pid) && Disjoint(r.placed, span.pid)
  {
    hide NeighbourOverlap, Overlap, Separated, Held, Disjoint, LanesSeparated, Conserved;
    EffectLane(st, span, r, id, lane, lane');
    EffectSeparated(st, span, r, id, lane, lane');
    PlacedClear(st.placed, id, lane, span.Range());
    assert Placed(span, id.line).Lane() == id;
    EffectDisjoint(st.placed, Placed(span, id.line));
  }

  lemma {:induction false} EffectBuried(st: State, span: Span, r: State, id: LaneId, lane: seq<Interval>,
                                        lane': seq<Interval>, iv: Interval)
    requires Effect(st, span, r, id, lane, lane') && Conserved(st)
    requires iv in lane && iv.start < span.start < iv.end && span.start == span.end
    ensures !Disjoint(r.placed, span.pid)
  {
    hide Held;
    assert Held(st.placed, id) == multiset(lane);
    assert iv in multiset(lane);
    HeldMembers(st.placed, id, iv);
    var k :| 0 <= k < |st.placed| && st.placed[k].Lane() == id && st.placed[k].span.Range() == iv;
    assert r.placed[k].Lane() == r.placed[|st.placed|].Lane();
  }

  lemma {:induction false} EffectElsewhere(st: State, span: Span, r: State, id: LaneId, lane: seq<Interval>,
                                           lane': seq<Interval>, p: Pid)
    requires Effect(st, span, r, id, lane, lane') && span.pid != p
    requires LanesSeparated(st, p) && Disjoint(st.placed, p)
    ensures LanesSeparated(r, p) && Disjoint(r.placed, p)
  {
    hide Separated, Overlap;
  }

  /** A step from a clean drawing leaves a clean drawing exactly when it buries nothing. */
  lemma {:induction false} StepDisjoint(st: State, e: Event, p: Pid)
    requires WellFormed(st) && Conserved(st) && LanesSeparated(st, p) && Disjoint(st.placed, p)
    ensures Disjoint(Step(st, e).placed, p) <==> !Buried(st, e, p)
    ensures Disjoint(Step(st, e).placed, p) ==> LanesSeparated(Step(st, e), p)
  {
    hide Step, Insort, NeighbourOverlap, Effect, Conserved, WellFormed, Disjoint, LanesSeparated, Separated, Buried,
      Overlap;
    match e
    case NewRequest => RequestDisjoint(st, p);
    case Place(span) =>
      var id, lane := PlaceEffect(st, span);
      var r, lane' := Step(st, e), Insort(lane, span.Range());
      if span.pid != p {
        EffectElsewhere(st, span, r, id, lane, lane', p);
        assert !Buried(st, e, p) by { NotBuried(st, span, p); }
      } else {
        BuriedTest(st, span, r, id, lane, lane');
        if NeighbourOverlap(lane, span.start, span.end) {
          var iv :| iv in lane && iv.start < span.start < iv.end;
          EffectBuried(st, span, r, id, lane, lane', iv);
        } else {
          InsertKeepsSeparated(lane, span.Range());
          EffectSafe(st, span, r, id, lane, lane');
        }
      }
  }

  lemma {:induction false} NotBuried(st: State, span: Span, p: Pid)
    requires WellFormed(st) && (span.pid != p || span.start != span.end)
    ensures !Buried(st, Place(span), p)
  {
  }

  lemma {:induction false} RequestDisjoint(st: State, p: Pid)
    requires WellFormed(st)
    ensures var r := Step(st, NewRequest); r.placed == st.placed && r.lanes == st.lanes && !Buried(st, NewRequest, p)
    ensures LanesSeparated(st, p) ==> LanesSeparated(Step(st, NewRequest), p)
  {
  }

  lemma {:induction false} BuriedTest(st: State, span: Span, r: State, id: LaneId, lane: Lane, lane': seq<Interval>)
    requires WellFormed(st) && LanesSeparated(st, span.pid) && Effect(st, span, r, id, lane, lane')
    requires if span.start == span.end && span.pid in st.status
      then id == LaneId(span.pid, st.status[span.pid])
      else !NeighbourOverlap(lane, span.start, span.end)
    ensures Separated(lane)
    ensures Buried(st, Place(span), span.pid) <==> NeighbourOverlap(lane, span.start, span.end)
    ensures Buried(st, Place(span), span.pid) ==>
      span.start == span.end && exists iv :: iv in lane && iv.start < span.start < iv.end
  {
    hide NeighbourOverlap, BisectLeft;
    if span.start == span.end { ZeroLengthTest(lane, span.start); }
  }

  lemma {:induction false} StepExtends(st: State, e: Event)
    requires WellFormed(st)
    ensures st.placed <= Step(st, e).placed
  {
  }

  /** Spans on one lane of process `p` are disjoint at the end of a run if and only if no step of
      it buried a zero-length span; until then all lanes stay separated. */
  lemma {:induction false} DisjointExactly(es: seq<Event>, p: Pid)
    ensures Disjoint(Run(es).placed, p) <==> forall k :: 0 <= k < |es| ==> !Buried(Run(es[..k]), es[k], p)
    ensures Disjoint(Run(es).placed, p) ==> LanesSeparated(Run(es), p)
  {
    hide Run, Step, Buried, Conserved, WellFormed, SlotsMatch, Separated, Overlap, SpansOf, Drawn;
    RunUnfold(es);
    if es != [] {
      var n := |es| - 1;
      var prev := Run(es[..n]);
      DisjointExactly(es[..n], p);
      RunConserved(es[..n]);
      assert forall k :: 0 <= k < n ==> es[..n][..k] == es[..k];
      if Disjoint(prev.placed, p) {
        StepDisjoint(prev, es[n], p);
      } else {
        StepExtends(prev, es[n]);
        var k :| 0 <= k < n && Buried(Run(es[..n][..k]), es[..n][k], p);
        assert Buried(Run(es[..k]), es[k], p);
      }
    }
  }

  /** In particular a run without zero-length spans is always drawn without overlap, whatever
      the order of its requests and spans and however many spans are inverted. */
  lemma {:induction false} NoZeroLengthDisjoint(es: seq<Event>, p: Pid)
    requires forall k :: 0 <= k < |es| && es[k].Place? && es[k].span.pid == p ==> es[k].span.start != es[k].span.end
    ensures Disjoint(Run(es).placed, p) && LanesSeparated(Run(es), p)
  {
    DisjointExactly(es, p);
  }

  /** The hypothesis is needed: one zero-length span is enough to break the drawing. */
  lemma {:induction false} ZeroLengthWitness()
    ensures var es := [NewRequest, Place(Span(Engine(1), 0, 10, 0)), Place(Span(Engine(1), 5, 5, 1))];
      !Disjoint(Run(es).placed, Engine(1))
  {
    var es := [NewRequest, Place(Span(Engine(1), 0, 10, 0)), Place(Span(Engine(1), 5, 5, 1))];
    assert es[..2][..1] == es[..1] && es[..1][..0] == [];
    assert Run(es[..1]) == Start;
    SecondEvent(es[1].span);
    var st := Run(es[..2]);
    assert Interval(0, 10) in st.lanes[LaneId(Engine(1), 1)];
    assert Buried(st, es[2], Engine(1));
    DisjointExactly(es, Engine(1));
  }

  lemma {:induction false} SecondEvent(span: Span)
    ensures var st := Step(Start, Place(span));
      st.lanes == map[LaneId(span.pid, 1) := [span.Range()]] && st.status == map[span.pid := 1]
  {
    assert Insort([], span.Range()) == [span.Range()];
    assert FindLine(Start, span.pid, span.start, span.end) == Open(Start, span.pid, 1);
  }
}
