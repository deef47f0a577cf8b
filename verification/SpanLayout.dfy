/** scripts/convert_otel_2_perfetto.py, `__find_line` and `generate_perfetto_span_layout`: the
    sticky first-fit lane allocator, as a state machine over the spans it is given. */
module SpanLayout {
  import opened Prelude
  import opened SpanContainer

  /** Engine spans carry an integer process id; every gateway span has the process id "smg". */
  datatype Pid = Engine(id: int) | Smg

  /** A span to be drawn; `id` is its place in the input. */
  datatype Span = Span(pid: Pid, start: int, end: int, id: nat) {
    function Range(): Interval { Interval(start, end) }
  }

  /** `graph[pid][line]` */
  datatype LaneId = LaneId(pid: Pid, line: nat)

  /** A span together with the lane (the Perfetto tid) it was given. */
  datatype Placed = Placed(span: Span, line: nat) {
    function Lane(): LaneId { LaneId(span.pid, line) }
  }

  /** `graph` (its containers, and the number of them per process), `slot_meta_data` (one record
      per lane opened), the remembered lanes of the current request, and the tids written so far
      in the order they were written. */
  datatype State = State(
    lanes: map<LaneId, Lane>,
    count: map<Pid, nat>,
    slots: seq<LaneId>,
    status: map<Pid, nat>,
    placed: seq<Placed>)

  /** A run forgets the remembered lanes whenever a new request starts, and places spans. */
  datatype Event = NewRequest | Place(span: Span)

  const Start := State(map[], map[], [], map[], [])

  function LinesOf(slots: seq<LaneId>, pid: Pid): seq<nat> {
    if slots == [] then []
    else LinesOf(slots[..|slots| - 1], pid) + if slots[|slots| - 1].pid == pid then [slots[|slots| - 1].line] else []
  }

  function UpTo(n: nat): seq<nat> { if n == 0 then [] else UpTo(n - 1) + [n] }

  function LaneCount(st: State, pid: Pid): nat {
    if pid in st.count then st.count[pid] else 0
  }

  /** The lanes of a process are numbered 1..k, and every remembered lane exists. */
  ghost predicate WellFormed(st: State) {
    && (forall id :: id in st.lanes <==> 1 <= id.line <= LaneCount(st, id.pid))
    && (forall p :: p in st.status ==> LaneId(p, st.status[p]) in st.lanes)
  }

  /** The first lane, in opening order, whose overlap test is negative. */
  function FirstFit(st: State, pid: Pid, from: nat, start: int, end: int): (r: Option<nat>)
    requires WellFormed(st) && from >= 1
    ensures r.Some? ==>
      LaneId(pid, r.value) in st.lanes && !NeighbourOverlap(st.lanes[LaneId(pid, r.value)], start, end)
    ensures forall l :: from <= l <= LaneCount(st, pid) && (r.Some? ==> l < r.value) ==>
      NeighbourOverlap(st.lanes[LaneId(pid, l)], start, end)
    decreases LaneCount(st, pid) + 1 - from
  {
    if from > LaneCount(st, pid) then None
    else if !NeighbourOverlap(st.lanes[LaneId(pid, from)], start, end) then Some(from)
    else FirstFit(st, pid, from + 1, start, end)
  }

  /** What `__find_line` leaves behind, and the lane it returns. */
  datatype Found = Found(st: State, line: nat)

  /** Opens the next lane of a process. */
  function Open(st: State, pid: Pid, line: nat): (r: Found)
    requires WellFormed(st) && line == LaneCount(st, pid) + 1
    ensures WellFormed(r.st)
  {
    Found(st.(lanes := st.lanes[LaneId(pid, line) := []],
              count := st.count[pid := line],
              slots := st.slots + [LaneId(pid, line)],
              status := st.status[pid := line]), line)
  }

  /** First fit over the existing lanes, else a new one (lane 1 for a process not seen yet). */
  function Search(st: State, pid: Pid, start: int, end: int): (r: Found)
    requires WellFormed(st)
    ensures WellFormed(r.st) && LaneId(pid, r.line) in r.st.lanes && r.st.placed == st.placed
    ensures !NeighbourOverlap(r.st.lanes[LaneId(pid, r.line)], start, end)
    ensures if r.line <= LaneCount(st, pid)
      then r.st == st.(status := st.status[pid := r.line])
      else r == Open(st, pid, LaneCount(st, pid) + 1) &&
           forall l :: 1 <= l <= LaneCount(st, pid) ==> NeighbourOverlap(st.lanes[LaneId(pid, l)], start, end)
  {
    match FirstFit(st, pid, 1, start, end)
    case Some(line) => Found(st.(status := st.status[pid := line]), line)
    case None => Open(st, pid, LaneCount(st, pid) + 1)
  }

  /** The lane returned has a negative overlap test, or is the remembered one of a zero-length
      span; existing lanes are left alone, at most one empty lane is added, and it is added only
      when every existing lane of the process is blocked. */
  function FindLine(st: State, pid: Pid, start: int, end: int): (r: Found)
    requires WellFormed(st)
    ensures WellFormed(r.st) && LaneId(pid, r.line) in r.st.lanes && r.st.placed == st.placed
    ensures r.st.lanes == st.lanes ||
      (LaneId(pid, r.line) !in st.lanes && r.st.lanes == st.lanes[LaneId(pid, r.line) := []])
    ensures (r.st.slots == st.slots && r.st.count == st.count) ||
      (r.st.slots == st.slots + [LaneId(pid, r.line)] && r.line == LaneCount(st, pid) + 1 &&
        r.st.count == st.count[pid := r.line])
    ensures r.line > LaneCount(st, pid) ==>
      forall l :: 1 <= l <= LaneCount(st, pid) ==> NeighbourOverlap(st.lanes[LaneId(pid, l)], start, end)
    ensures start == end && pid in st.status ==> r == Found(st, st.status[pid])
    ensures !(start == end && pid in st.status) ==> !NeighbourOverlap(r.st.lanes[LaneId(pid, r.line)], start, end)
  {
    if pid in st.status && (start == end || !NeighbourOverlap(st.lanes[LaneId(pid, st.status[pid])], start, end)) then
      Found(st, st.status[pid])
    else
      Search(st, pid, start, end)
  }

  function Step(st: State, e: Event): (r: State)
    requires WellFormed(st)
    ensures WellFormed(r)
  {
    match e
    case NewRequest => st.(status := map[])
    case Place(span) =>
      var Found(st', line) := FindLine(st, span.pid, span.start, span.end);
      var id := LaneId(span.pid, line);
      st'.(lanes := st'.lanes[id := Insort(st'.lanes[id], span.Range())],
           placed := st.placed + [Placed(span, line)])
  }

  /** The state after a whole run. */
  function Run(es: seq<Event>): (st: State)
    ensures WellFormed(st)
  {
    if es == [] then Start else Step(Run(es[..|es| - 1]), es[|es| - 1])
  }
}
