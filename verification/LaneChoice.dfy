/** Which lane a span gets, said of the spans drawn before it alone: the lane of the request's previous
    span on that process if nothing there overlaps it, else the lowest-numbered lane that is free. */
module LaneChoice {
  import opened Prelude
  import opened SpanContainer
  import opened SpanLayout
  import opened LayoutSafety

  /** Nothing drawn on line `l` of process `p` overlaps `iv`. */
  ghost predicate FreeAt(placed: seq<Placed>, p: Pid, l: nat, iv: Interval) {
    forall i :: 0 <= i < |placed| && placed[i].span.pid == p && placed[i].line == l ==>
      !Overlap(placed[i].span.Range(), iv)
  }

  /** Line `l` is the right one for `span` after `placed`, when the request's previous span of the process
      is on line `previous`. */
  ghost predicate Chosen(placed: seq<Placed>, previous: Option<nat>, span: Span, l: nat) {
    if previous.Some? && FreeAt(placed, span.pid, previous.value, span.Range()) then l == previous.value
    else
      && l >= 1 && FreeAt(placed, span.pid, l, span.Range())
      && forall m: nat :: 1 <= m < l ==> !FreeAt(placed, span.pid, m, span.Range())
  }

  /** The line of the last span of `p` drawn since the current request began. */
  ghost function Previous(es: seq<Event>, p: Pid): Option<nat> {
    if es == [] then None
    else
      var e := es[|es| - 1];
      if e.NewRequest? then None
      else if e.span.pid == p && Run(es).placed != [] then Some(Run(es).placed[|Run(es).placed| - 1].line)
      else Previous(es[..|es| - 1], p)
  }

  ghost predicate Positive(es: seq<Event>, p: Pid) {
    forall k :: 0 <= k < |es| && es[k].Place? && es[k].span.pid == p ==> es[k].span.start < es[k].span.end
  }

  // ----- the remembered lane is that of the previous span

  lemma {:induction false} FindRemembers(st: State, pid: Pid, start: int, end: int)
    requires WellFormed(st)
    ensures var r := FindLine(st, pid, start, end); r.st.status == st.status[pid := r.line]
  {
    hide NeighbourOverlap;
  }

  lemma {:induction false} StepPlaces(st: State, span: Span)
    requires WellFormed(st)
    ensures var r := Step(st, Place(span)); var line := FindLine(st, span.pid, span.start, span.end).line;
      r.placed == st.placed + [Placed(span, line)] && r.status == st.status[span.pid := line]
  {
    hide FindLine, Insort;
    FindRemembers(st, span.pid, span.start, span.end);
  }

  lemma {:induction false} StatusIsPrevious(es: seq<Event>, p: Pid)
    ensures Previous(es, p) == if p in Run(es).status then Some(Run(es).status[p]) else None
  {
    hide Run, Step, FindLine;
    RunUnfold(es);
    if es != [] {
      var n := |es| - 1;
      StatusIsPrevious(es[..n], p);
      match es[n]
      case Place(span) => StepPlaces(Run(es[..n]), span);
      case NewRequest => RequestForgets(Run(es[..n]));
    }
  }

  lemma {:induction false} RequestForgets(st: State)
    requires WellFormed(st)
    ensures Step(st, NewRequest).status == map[]
  {
  }

  // ----- the test says whether the lane is free

  lemma {:induction false} TestIsFree(st: State, p: Pid, l: nat, iv: Interval)
    requires Conserved(st) && LanesSeparated(st, p) && LaneId(p, l) in st.lanes && iv.start < iv.end
    requires forall i :: 0 <= i < |st.placed| && st.placed[i].span.pid == p ==>
      st.placed[i].span.start < st.placed[i].span.end
    ensures NeighbourOverlap(st.lanes[LaneId(p, l)], iv.start, iv.end) <==> !FreeAt(st.placed, p, l, iv)
  {
    hide NeighbourOverlap, Held, Overlap;
    var id := LaneId(p, l);
    var lane := st.lanes[id];
    assert Held(st.placed, id) == multiset(lane);
    forall k | 0 <= k < |lane| ensures lane[k].start < lane[k].end {
      assert lane[k] in multiset(lane);
      HeldMembers(st.placed, id, lane[k]);
    }
    NeighbourTestExact(lane, iv.start, iv.end);
    if NeighbourOverlap(lane, iv.start, iv.end) {
      var k :| 0 <= k < |lane| && Overlap(lane[k], iv);
      assert lane[k] in multiset(lane);
      HeldMembers(st.placed, id, lane[k]);
    } else {
      PlacedClear(st.placed, id, lane, iv);
      forall i | 0 <= i < |st.placed| && st.placed[i].span.pid == p && st.placed[i].line == l
        ensures !Overlap(st.placed[i].span.Range(), iv)
      {
        assert st.placed[i].Lane() == id;
      }
    }
  }

  /** A line that was never opened is free. */
  lemma {:induction false} UnopenedIsFree(st: State, p: Pid, l: nat, iv: Interval)
    requires Conserved(st) && LaneId(p, l) !in st.lanes
    ensures FreeAt(st.placed, p, l, iv)
  {
    hide Held, Overlap;
    forall i | 0 <= i < |st.placed| && st.placed[i].span.pid == p && st.placed[i].line == l ensures false {
      assert st.placed[i].Lane() == LaneId(p, l);
      HeldMembers(st.placed, LaneId(p, l), st.placed[i].span.Range());
    }
  }

  /** The search, in terms of its overlap tests. */
  lemma {:induction false} FindTests(st: State, pid: Pid, start: int, end: int)
    requires WellFormed(st) && start < end
    ensures var line := FindLine(st, pid, start, end).line;
      if pid in st.status && !NeighbourOverlap(st.lanes[LaneId(pid, st.status[pid])], start, end)
      then line == st.status[pid]
      else
        && 1 <= line <= LaneCount(st, pid) + 1
        && (line <= LaneCount(st, pid) ==> !NeighbourOverlap(st.lanes[LaneId(pid, line)], start, end))
        && forall l :: 1 <= l < line ==> NeighbourOverlap(st.lanes[LaneId(pid, l)], start, end)
  {
    hide NeighbourOverlap;
  }

  lemma {:induction false} StepChosen(st: State, span: Span)
    requires WellFormed(st) && Conserved(st) && LanesSeparated(st, span.pid) && span.start < span.end
    requires forall i :: 0 <= i < |st.placed| && st.placed[i].span.pid == span.pid ==>
      st.placed[i].span.start < st.placed[i].span.end
    ensures var previous := if span.pid in st.status then Some(st.status[span.pid]) else None;
      Chosen(st.placed, previous, span, FindLine(st, span.pid, span.start, span.end).line)
  {
    hide FindLine, NeighbourOverlap, Conserved, FreeAt, LanesSeparated;
    var p := span.pid;
    FindTests(st, p, span.start, span.end);
    forall l: nat | LaneId(p, l) in st.lanes
      ensures NeighbourOverlap(st.lanes[LaneId(p, l)], span.start, span.end) <==> !FreeAt(st.placed, p, l, span.Range())
    {
      TestIsFree(st, p, l, span.Range());
    }
    var line := FindLine(st, p, span.start, span.end).line;
    if LaneId(p, line) !in st.lanes { UnopenedIsFree(st, p, line, span.Range()); }
    assert forall l: nat :: 1 <= l < line ==> l <= LaneCount(st, p) ==> LaneId(p, l) in st.lanes;
  }

  lemma {:induction false} PlacedPositive(es: seq<Event>, p: Pid)
    requires Positive(es, p)
    ensures forall i :: 0 <= i < |Run(es).placed| && Run(es).placed[i].span.pid == p ==>
      Run(es).placed[i].span.start < Run(es).placed[i].span.end
  {
    hide Run, Step, FindLine;
    RunUnfold(es);
    if es != [] {
      var n := |es| - 1;
      PlacedPositive(es[..n], p);
      match es[n]
      case Place(span) => StepPlaces(Run(es[..n]), span);
      case NewRequest => RequestConserved(Run(es[..n]));
    }
  }

  /** In every run whose spans of a process have positive length, each of them is drawn on the line of the
      request's previous span there, if that is free for it, and on the lowest free line otherwise. */
  lemma {:induction false} EveryLaneChosen(es: seq<Event>, span: Span)
    requires Positive(es + [Place(span)], span.pid)
    ensures var before, after := Run(es).placed, Run(es + [Place(span)]).placed;
      && |after| == |before| + 1 && after[..|before|] == before && after[|before|].span == span
      && Chosen(before, Previous(es, span.pid), span, after[|before|].line)
  {
    hide Run, Step, FindLine, Conserved, LanesSeparated, Chosen, Disjoint, SlotsMatch;
    var all := es + [Place(span)];
    assert all[..|es|] == es && all[|es|] == Place(span);
    RunUnfold(all);
    assert Positive(es, span.pid) by { assert forall k :: 0 <= k < |es| ==> all[k] == es[k]; }
    RunConserved(es);
    NoZeroLengthDisjoint(es, span.pid);
    PlacedPositive(es, span.pid);
    StatusIsPrevious(es, span.pid);
    StepPlaces(Run(es), span);
    StepChosen(Run(es), span);
  }

  // ----- a request changes lanes only when it must

  lemma {:induction false} PlaceNext(es: seq<Event>, span: Span, p: Pid) returns (line: nat)
    ensures Run(es + [Place(span)]).placed == Run(es).placed + [Placed(span, line)]
    ensures Previous(es + [Place(span)], p) == if span.pid == p then Some(line) else Previous(es, p)
  {
    hide Run, Step, FindLine;
    var all := es + [Place(span)];
    assert all[..|es|] == es && all[|es|] == Place(span);
    RunUnfold(all);
    StepPlaces(Run(es), span);
    line := FindLine(Run(es), span.pid, span.start, span.end).line;
  }

  /** No new request begins and no span of `p` is drawn. */
  ghost predicate Quiet(es: seq<Event>, p: Pid) {
    forall k :: 0 <= k < |es| ==> es[k].Place? && es[k].span.pid != p
  }

  lemma {:induction false} PreviousAfter(es: seq<Event>, span: Span, more: seq<Event>)
    requires Quiet(more, span.pid)
    ensures var before, after := Run(es).placed, Run(es + [Place(span)] + more).placed;
      && before < after && after[|before|].span == span
      && Previous(es + [Place(span)] + more, span.pid) == Some(after[|before|].line)
  {
    hide Run, Previous;
    var es' := es + [Place(span)];
    if more == [] {
      assert es' + more == es';
      var line := PlaceNext(es, span, span.pid);
    } else {
      var n := |more| - 1;
      PreviousAfter(es, span, more[..n]);
      assert es' + more == (es' + more[..n]) + [Place(more[n].span)];
      var line := PlaceNext(es' + more[..n], more[n].span, span.pid);
    }
  }

  /** A request's next span on a process stays on the line of its previous one if and only if nothing
      drawn there by then overlaps it. */
  lemma {:induction false} StaysUnlessForced(es: seq<Event>, a: Span, more: seq<Event>, b: Span)
    requires a.pid == b.pid && Quiet(more, a.pid) && Positive(es + [Place(a)] + more + [Place(b)], a.pid)
    ensures var i, j := |Run(es).placed|, |Run(es + [Place(a)] + more).placed|;
      var placed := Run(es + [Place(a)] + more + [Place(b)]).placed;
      && i < j && |placed| == j + 1 && placed[i].span == a && placed[j].span == b
      && (placed[j].line == placed[i].line <==> FreeAt(placed[..j], a.pid, placed[i].line, b.Range()))
  {
    hide Run, FreeAt, Previous;
    PreviousAfter(es, a, more);
    EveryLaneChosen(es + [Place(a)] + more, b);
  }

  /** With nothing drawn the first line is chosen; with one span in the way, the second; and a free
      previous line is kept. */
  lemma {:induction false} ChoiceFacts(a: Span, b: Span, c: Span, l: nat)
    requires a.pid == b.pid == c.pid
    ensures Chosen([], None, a, l) ==> l == 1
    ensures Overlap(a.Range(), b.Range()) && Chosen([Placed(a, 1)], Some(1), b, l) ==> l == 2
    ensures !Overlap(b.Range(), c.Range()) && Chosen([Placed(a, 1), Placed(b, 2)], Some(2), c, l) ==> l == 2
  {
    hide Overlap;
    assert FreeAt([], a.pid, 1, a.Range());
    var one := [Placed(a, 1)];
    assert FreeAt(one, a.pid, 2, b.Range());
    assert one[0].line == 1 && one[0].span == a;
    var two := [Placed(a, 1), Placed(b, 2)];
    assert !Overlap(b.Range(), c.Range()) ==> FreeAt(two, a.pid, 2, c.Range());
  }

  /** Spans of one request at [0, 10], [5, 15] and [20, 30]: the third stays on the second's line. */
  lemma {:induction false} StaysWitness()
    ensures var es := [NewRequest, Place(Span(Engine(1), 0, 10, 0)), Place(Span(Engine(1), 5, 15, 1)),
                       Place(Span(Engine(1), 20, 30, 2))];
      var placed := Run(es).placed;
      |placed| == 3 && placed[0].line == 1 && placed[1].line == 2 && placed[2].line == 2
  {
    hide Run, Previous, Chosen;
    var a, b, c := Span(Engine(1), 0, 10, 0), Span(Engine(1), 5, 15, 1), Span(Engine(1), 20, 30, 2);
    var none := [NewRequest];
    FreshRequest();
    var one := none + [Place(a)];
    var two := one + [Place(b)];
    EveryLaneChosen(none, a);
    ChoiceFacts(a, b, c, Run(one).placed[0].line);
    assert Run(one).placed == [Placed(a, 1)];
    assert none + [Place(a)] + [] == one && one + [Place(b)] + [] == two;
    PreviousAfter(none, a, []);
    EveryLaneChosen(one, b);
    ChoiceFacts(a, b, c, Run(two).placed[1].line);
    assert Run(two).placed == [Placed(a, 1), Placed(b, 2)];
    PreviousAfter(one, b, []);
    EveryLaneChosen(two, c);
    ChoiceFacts(a, b, c, Run(two + [Place(c)]).placed[2].line);
    assert two + [Place(c)] == [NewRequest, Place(a), Place(b), Place(c)];
  }

  lemma {:induction false} FreshRequest()
    ensures Run([NewRequest]).placed == [] && forall p :: Previous([NewRequest], p) == None
  {
    assert [NewRequest][..0] == [];
  }
}
