/** Progress of the multi-turn driver: how rounds are separated, where it can come to rest, and what a
    finished run has done. */
module MultiTurnProgress {
  import opened Prelude
  import opened Counting
  import opened MultiTurn
  import opened MultiTurnSafety
  import opened MultiTurnBarrier

  /** Whenever a request is ready, being sent, in flight or unhandled, its round is the open one
      and every client has finished all earlier rounds it has; requests behind the barrier are
      for the round after the barrier's. */
  lemma {:induction false} RoundsAreSeparated(cfg: Config, run: seq<Step>, c: int, d: int)
    requires ValidConfig(cfg) && cfg.barrier && Run(cfg, run).Some?
    requires 0 <= c < |cfg.total| && 0 <= d < |cfg.total|
    ensures var s := Run(cfg, run).value;
      && |s.round| == |cfg.total|
      && (Released(s, c) > 0 ==> s.round[c] == OpenRound(s) && (s.round[d] >= s.round[c] || s.round[d] >= cfg.total[d]))
      && (Times(s.held, c) > 0 ==> s.round[c] == s.barrierRound + 1)
  {
    hide Run, Safe, Released, Times;
    RunBarrier(cfg, run);
    SafeShape(cfg, Run(cfg, run).value);
  }

  /** Every step but polling: testing the in-flight count, finding a queue empty, and finding the
      progress bar not full. */
  predicate Productive(cfg: Config, s: State, a: Step) {
    match a
    case SenderCheck => false
    case SenderPopNone => false
    case HandlerTimeout => false
    case SenderTest => Full(cfg, s)
    case HandlerTest => Full(cfg, s)
    case _ => true
  }

  predicate Polls(cfg: Config, s: State, a: Step) { Enabled(cfg, s, a) && !Productive(cfg, s, a) }

  /** The state after some polling. */
  function AfterPolls(cfg: Config, s: State, polls: seq<Step>): Option<State>
    decreases |polls|
  {
    if polls == [] then Some(s)
    else if !Polls(cfg, s, polls[0]) then None
    else AfterPolls(cfg, Apply(cfg, s, polls[0]), polls[1..])
  }

  ghost predicate Moves(cfg: Config, s: State) { exists a :: Enabled(cfg, s, a) && Productive(cfg, s, a) }

  /** Some thread can do real work, if need be after some polling. */
  ghost predicate CanProgress(cfg: Config, s: State) {
    exists polls :: AfterPolls(cfg, s, polls).Some? && Moves(cfg, AfterPolls(cfg, s, polls).value)
  }

  lemma {:induction false} NoMoves(cfg: Config, s: State, a: Step)
    requires !CanProgress(cfg, s) && Productive(cfg, s, a)
    ensures !Enabled(cfg, s, a)
  {
    assert AfterPolls(cfg, s, []) == Some(s);
    assert !Moves(cfg, s);
  }

  lemma {:induction false} StillNoMoves(cfg: Config, s: State, a: Step)
    requires !CanProgress(cfg, s) && Polls(cfg, s, a)
    ensures !CanProgress(cfg, Apply(cfg, s, a))
  {
    var s' := Apply(cfg, s, a);
    forall polls | AfterPolls(cfg, s', polls).Some? ensures !Moves(cfg, AfterPolls(cfg, s', polls).value) {
      assert ([a] + polls)[1..] == polls;
      assert AfterPolls(cfg, s, [a] + polls) == AfterPolls(cfg, s', polls);
    }
  }

  // ----- where the driver can come to rest

  /** No request is being sent or answered. */
  ghost predicate Still(s: State) {
    s.ready == [] && s.inFlight == multiset{} && s.finishing.None? && !s.sender.Holding?
  }

  /** Both threads have left. */
  ghost predicate Ended(cfg: Config, s: State) {
    Still(s) && Full(cfg, s) && s.sender.SenderLeft? && s.handler.HandlerLeft?
  }

  /** The handler has left with at least as many responses unhandled as may be in flight, so the
      sender never gets to its exit test again. */
  ghost predicate Blocked(cfg: Config, s: State) {
    Still(s) && Full(cfg, s) && s.sender.Polling? && s.handler.HandlerLeft? && s.sent - s.completed >= cfg.maxParallel
  }

  /** Both threads poll and the progress bar is not full. */
  ghost predicate Hung(cfg: Config, s: State) {
    && Still(s) && s.responses == [] && !Full(cfg, s)
    && (s.handler.Waiting? || s.handler.TimedOut?) && !s.sender.SenderLeft?
  }

  /** Both threads poll, the progress bar is not full, and no request may ever be sent. */
  ghost predicate Starved(cfg: Config, s: State) {
    && s.inFlight == multiset{} && s.finishing.None? && s.responses == [] && !Full(cfg, s)
    && (s.handler.Waiting? || s.handler.TimedOut?) && (s.sender.Polling? || s.sender.Testing?)
    && s.sent == s.completed && cfg.maxParallel < 1
  }

  lemma {:induction false} AnsweredAll(cfg: Config, s: State)
    requires Safe(cfg, s) && !CanProgress(cfg, s)
    ensures s.inFlight == multiset{} && s.finishing.None? && !s.sender.Holding?
    ensures s.handler.Waiting? || s.handler.TimedOut? || s.handler.HandlerLeft?
  {
    hide CanProgress, Full, OneEach, Stocked, Counted, Ledger, Gone;
    SafeShape(cfg, s);
    NoMoves(cfg, s, TaskPuts);
    NoMoves(cfg, s, HandlerFail);
    NoMoves(cfg, s, HandlerRecord);
    NoMoves(cfg, s, HandlerRequeue);
    NoMoves(cfg, s, HandlerRelease);
    NoMoves(cfg, s, HandlerAdvance);
    NoMoves(cfg, s, SenderStart);
    if s.inFlight != multiset{} {
      var d := SomeInBag(s.inFlight);
      NoMoves(cfg, s, TaskRaises(d));
    }
  }

  /** A handler that has not left at rest has handled everything and found the bar not full. */
  lemma {:induction false} HandlerRests(cfg: Config, s: State)
    requires !CanProgress(cfg, s) && (s.handler.Waiting? || s.handler.TimedOut?)
    ensures s.responses == [] && !Full(cfg, s)
  {
    hide CanProgress, Full;
    if s.handler.Waiting? {
      NoMoves(cfg, s, HandlerGet);
      StillNoMoves(cfg, s, HandlerTimeout);
      var s' := Apply(cfg, s, HandlerTimeout);
      assert Full(cfg, s') == Full(cfg, s) by { SameBar(cfg, s, s'); }
      if Full(cfg, s') { NoMoves(cfg, s', HandlerTest); }
    } else {
      if Full(cfg, s) { NoMoves(cfg, s, HandlerTest); }
      StillNoMoves(cfg, s, HandlerTest);
      NoMoves(cfg, Apply(cfg, s, HandlerTest), HandlerGet);
    }
  }

  lemma {:induction false} SameBar(cfg: Config, s: State, s': State)
    requires s'.pbar == s.pbar
    ensures Full(cfg, s') == Full(cfg, s)
  {
  }

  /** A sender that is let through to its queue finds it empty at rest, and then leaves if the bar is
      full. */
  lemma {:induction false} SenderRests(cfg: Config, s: State)
    requires !CanProgress(cfg, s) && s.finishing.None?
    requires s.sender.Checked? || (s.sender.Polling? && s.sent - s.completed < cfg.maxParallel)
    ensures s.ready == [] && !Full(cfg, s)
    decreases s.sender.Polling?
  {
    hide CanProgress, Full;
    if s.sender.Polling? {
      var s' := Apply(cfg, s, SenderCheck);
      StillNoMoves(cfg, s, SenderCheck);
      SenderRests(cfg, s');
      SameBar(cfg, s, s');
    } else {
      NoMoves(cfg, s, SenderPop(0));
      var s' := Apply(cfg, s, SenderPopNone);
      StillNoMoves(cfg, s, SenderPopNone);
      SameBar(cfg, s, s');
      if Full(cfg, s') { NoMoves(cfg, s', SenderTest); }
    }
  }

  /** At rest the driver has ended, hangs with both threads polling, is starved, or is blocked with
      responses nobody handles. */
  lemma {:induction false} RestIs(cfg: Config, s: State)
    requires Safe(cfg, s) && !CanProgress(cfg, s)
    ensures Ended(cfg, s) || Hung(cfg, s) || Blocked(cfg, s) || Starved(cfg, s)
    ensures Full(cfg, s) <==> s.handler.HandlerLeft?
  {
    hide CanProgress, Full, OneEach, Stocked, Need;
    AnsweredAll(cfg, s);
    FullExactly(cfg, s);
    if s.handler.HandlerLeft? {
      assert s.ready == [];
      SenderAtFull(cfg, s);
    } else {
      HandlerRests(cfg, s);
      if cfg.maxParallel >= 1 || s.sender.Checked? || s.sender.SenderLeft? { SenderIdles(cfg, s); }
    }
  }

  lemma {:induction false} SenderIdles(cfg: Config, s: State)
    requires Safe(cfg, s) && !CanProgress(cfg, s) && s.finishing.None? && !Full(cfg, s) && !s.sender.Holding?
    requires s.sent == s.completed && (cfg.maxParallel >= 1 || s.sender.Checked? || s.sender.SenderLeft?)
    ensures s.ready == [] && !s.sender.SenderLeft?
  {
    hide CanProgress, Full, OneEach, Stocked, Need;
    if s.sender.Testing? {
      StillNoMoves(cfg, s, SenderTest);
      SenderRests(cfg, Apply(cfg, s, SenderTest));
    } else if !s.sender.SenderLeft? {
      SenderRests(cfg, s);
    }
  }

  lemma {:induction false} SenderAtFull(cfg: Config, s: State)
    requires !CanProgress(cfg, s) && s.finishing.None? && Full(cfg, s) && !s.sender.Holding?
    ensures s.sender.SenderLeft? || (s.sender.Polling? && s.sent - s.completed >= cfg.maxParallel)
  {
    hide CanProgress, Full;
    if s.sender.Testing? {
      NoMoves(cfg, s, SenderTest);
    } else if s.sender.Checked? || (s.sender.Polling? && s.sent - s.completed < cfg.maxParallel) {
      SenderRests(cfg, s);
    }
  }

  // ----- what is done at rest

  lemma {:induction false} OnlyResponses(cfg: Config, s: State, c: int)
    requires Safe(cfg, s) && Still(s) && !s.handler.Got? && !s.handler.Recorded?
    ensures Outstanding(cfg, s, c) == Asked(s.responses, c) + Times(s.held, c)
    ensures Active(cfg, s, c) <==> Asked(s.responses, c) + Times(s.held, c) == 1
  {
    hide Times, Asked, Stocked, Counted, Ledger, Gone;
    assert Times([], c) == 0 by { TimesMember([], c); }
    assert Outstanding(cfg, s, c) == if Active(cfg, s, c) then 1 else 0;
  }

  lemma {:induction false} AskedMember(rs: seq<Response>, i: nat)
    requires i < |rs|
    ensures Asked(rs, rs[i].client) > 0
  {
    if i < |rs| - 1 { AskedMember(rs[..|rs| - 1], i); }
  }

  /** While some client has rounds left, no response failed and none is unhandled, the driver does not
      hang: the requests are never all behind the barrier. */
  lemma {:induction false} NeverAllHeld(cfg: Config, s: State, c: int)
    requires ValidConfig(cfg) && BarrierInv(cfg, s) && s.failed == {}
    requires 0 <= c < |s.round| == |cfg.total| && s.round[c] < cfg.total[c]
    ensures !Hung(cfg, s)
  {
    if Hung(cfg, s) { SomeoneMoves(cfg, s, c); }
  }

  lemma {:induction false} SomeoneMoves(cfg: Config, s: State, c: int)
    requires ValidConfig(cfg) && BarrierInv(cfg, s) && Still(s) && s.responses == [] && s.failed == {}
    requires 0 <= c < |s.round| == |cfg.total| && s.round[c] < cfg.total[c]
    ensures s.handler.Got? || s.handler.Recorded? || s.handler.Releasing?
  {
    hide Safe, Released, Times, Above, Outstanding, Asked, Full;
    SafeShape(cfg, s);
    if !s.handler.Got? && !s.handler.Recorded? && !s.handler.Releasing? {
      forall d ensures Active(cfg, s, d) <==> Times(s.held, d) == 1 {
        OnlyResponses(cfg, s, d);
        assert Asked([], d) == 0 by { NobodyAsked(d); }
      }
      assert Active(cfg, s, c);
      assert cfg.barrier by { if s.held == [] { TimesMember([], c); } }
      var B := s.barrierRound;
      forall d | 0 <= d < |s.round| ensures s.round[d] > B <==> cfg.total[d] > B {
        assert s.round[d] < cfg.total[d] ==> Active(cfg, s, d);
      }
      AboveSame(s.round, cfg.total, B);
      AboveZero(cfg.total, B);
    }
  }

  lemma {:induction false} NobodyAsked(c: int)
    ensures Asked([], c) == 0
  {
  }

  lemma {:induction false} RestWithRoom(cfg: Config, run: seq<Step>)
    requires ValidConfig(cfg) && cfg.maxParallel >= 1 && Run(cfg, run).Some? && !CanProgress(cfg, Run(cfg, run).value)
    ensures var s := Run(cfg, run).value; s.round == cfg.total <==> s.failed == {} && s.responses == []
  {
    hide Run, Safe, CanProgress, Separated, Tallied, Outstanding, Times, Asked, Full;
    var s := Run(cfg, run).value;
    RunBarrier(cfg, run);
    SafeShape(cfg, s);
    RestIs(cfg, s);
    if s.round == cfg.total {
      if s.failed != {} { var c := SomeInSet(s.failed); }
      if s.responses != [] {
        AskedMember(s.responses, 0);
        OnlyResponses(cfg, s, s.responses[0].client);
        assert !Active(cfg, s, s.responses[0].client);
        OneOrNone(cfg, s, s.responses[0].client);
      }
    } else if s.failed == {} && s.responses == [] {
      var c :| 0 <= c < |s.round| && s.round[c] < cfg.total[c];
      assert Active(cfg, s, c);
      if Hung(cfg, s) {
        NeverAllHeld(cfg, s, c);
      } else {
        OnlyResponses(cfg, s, c);
        NobodyAsked(c);
        HeldNone(cfg, s);
        TimesMember([], c);
      }
      assert false;
    }
  }

  lemma {:induction false} OneOrNone(cfg: Config, s: State, c: int)
    requires Safe(cfg, s)
    ensures Outstanding(cfg, s, c) == if Active(cfg, s, c) then 1 else 0
  {
    hide Outstanding;
  }

  lemma {:induction false} HeldNone(cfg: Config, s: State)
    requires Safe(cfg, s) && Full(cfg, s)
    ensures s.held == []
  {
    hide Full, Need;
    FullExactly(cfg, s);
  }

  /** Without room for a single request nothing is ever sent. */
  ghost predicate Untouched(cfg: Config, s: State) {
    && s.round == Zeros(|cfg.total|) && s.failed == {}
    && s.responses == [] && s.inFlight == multiset{} && s.finishing.None?
    && s.sender.Polling? && s.sent == s.completed && s.ready == Clients(|cfg.total|) && s.pbar == 0 && s.uncounted == 0
    && (s.handler.Waiting? || s.handler.TimedOut? || s.handler.HandlerLeft?)
  }

  lemma {:induction false} NoRoomNoRun(cfg: Config, run: seq<Step>)
    requires cfg.maxParallel < 1 && Run(cfg, run).Some?
    ensures Untouched(cfg, Run(cfg, run).value)
  {
    hide Full, Need;
    if run != [] { NoRoomNoRun(cfg, run[..|run| - 1]); }
  }

  /** When the driver has come to rest, it has completed every round of every client if and only if
      no response failed or was left unhandled and it may have a request in flight at all (or has no
      client). */
  lemma {:induction false} RestMeansDone(cfg: Config, run: seq<Step>)
    requires ValidConfig(cfg) && Run(cfg, run).Some? && !CanProgress(cfg, Run(cfg, run).value)
    ensures var s := Run(cfg, run).value;
      s.round == cfg.total <==> s.failed == {} && s.responses == [] && (cfg.maxParallel >= 1 || cfg.total == [])
  {
    hide Run, CanProgress;
    if cfg.maxParallel >= 1 {
      RestWithRoom(cfg, run);
    } else {
      NoRoomNoRun(cfg, run);
      if cfg.total != [] { assert Run(cfg, run).value.round[0] == 0 && cfg.total[0] >= 1; }
    }
  }

  /** With the barrier on, one failure holds every client back: nobody gets past the round after
      the failed one. */
  lemma {:induction false} FailureBlocks(cfg: Config, run: seq<Step>, c: int, d: int)
    requires ValidConfig(cfg) && cfg.barrier && Run(cfg, run).Some? && c in Run(cfg, run).value.failed &&
      0 <= d < |cfg.total|
    ensures var s := Run(cfg, run).value;
      0 <= c < |s.round| == |cfg.total| && s.round[d] <= s.round[c] + 1
  {
    hide Run, Safe, Released, Times, Tallied;
    RunBarrier(cfg, run);
    SafeShape(cfg, Run(cfg, run).value);
  }

  /** What a run that completed every round has handled: one response per client and round, and
      with the barrier on as many metrics for round r as there are clients with more than r rounds. */
  lemma {:induction false} DoneTotals(cfg: Config, run: seq<Step>)
    requires ValidConfig(cfg) && Run(cfg, run).Some? && Run(cfg, run).value.round == cfg.total
    ensures var s := Run(cfg, run).value;
      && s.handled == Sum(cfg.total) == AboveSum(cfg.total, cfg.maxRounds)
      && (forall c :: Outstanding(cfg, s, c) == 0)
      && (cfg.barrier ==>
            (|s.roundMetrics| == cfg.maxRounds && forall r :: 0 <= r < cfg.maxRounds ==>
              s.roundMetrics[r] == Above(cfg.total, r)))
  {
    hide Run, Outstanding, Above, Sum, Separated, Ledger;
    RunBarrier(cfg, run);
    SumByRounds(cfg.total, cfg.maxRounds);
  }

  // ----- every run ends in polling

  /** A bound on the work left. */
  function Work(cfg: Config, s: State): int {
    10 * (Sum(cfg.total) - Sum(s.round)) + 7 * |s.held| + 6 * |s.ready| + 5 * OneIf(s.sender.Holding?)
    + 4 * |s.inFlight| + 3 * OneIf(s.finishing.Some?) + 2 * |s.responses| + HandlerWork(cfg, s)
    + OneIf(!s.sender.SenderLeft?) + OneIf(!s.handler.HandlerLeft?)
  }

  function HandlerWork(cfg: Config, s: State): int {
    match s.handler
    case Got(_) => 1
    case Recorded(c) => if Between(cfg, s, c) == 1 then 9 else 2
    case Releasing => 1
    case _ => 0
  }

  /** Every step except polling uses up work; polling leaves it alone. */
  lemma {:induction false} StepWork(cfg: Config, s: State, a: Step)
    requires ValidConfig(cfg) && Safe(cfg, s) && Enabled(cfg, s, a)
    ensures Work(cfg, Apply(cfg, s, a)) <= Work(cfg, s) - OneIf(Productive(cfg, s, a))
  {
    hide Work, Apply, Safe;
    match a {
      case HandlerRecord => RecordWork(cfg, s);
      case HandlerRequeue => RequeueWork(cfg, s);
      case _ => MovesWork(cfg, s, a);
    }
  }

  lemma {:induction false} MovesWork(cfg: Config, s: State, a: Step)
    requires Enabled(cfg, s, a) && !a.HandlerRecord? && !a.HandlerRequeue?
    ensures Work(cfg, Apply(cfg, s, a)) <= Work(cfg, s) - OneIf(Productive(cfg, s, a))
  {
    hide Sum, Full;
  }

  lemma {:induction false} RecordWork(cfg: Config, s: State)
    requires ValidConfig(cfg) && Safe(cfg, s) && Enabled(cfg, s, HandlerRecord)
    ensures Work(cfg, Apply(cfg, s, HandlerRecord)) < Work(cfg, s)
  {
    hide Sum, Outstanding, Counted, Need, Between, Stocked, Ledger, Gone;
    RecordShape(cfg, s);
    var s', d := Apply(cfg, s, HandlerRecord), s.handler.response.client;
    SumUpdate(s.round, d, s.round[d] + 1);
    assert Sum(s'.round) == Sum(s.round) + 1;
    assert s'.held == s.held && s'.ready == s.ready && s'.inFlight == s.inFlight && s'.responses == s.responses &&
      s'.sender == s.sender;
    assert HandlerWork(cfg, s') <= 9;
  }

  lemma {:induction false} RequeueWork(cfg: Config, s: State)
    requires Safe(cfg, s) && Enabled(cfg, s, HandlerRequeue)
    ensures Work(cfg, Apply(cfg, s, HandlerRequeue)) < Work(cfg, s)
  {
    hide Sum, Outstanding, Counted, Need, Above, Ledger, Gone;
    NeedNonNegative(cfg.total, s.round);
  }

  function ProductiveSteps(cfg: Config, run: seq<Step>): nat
    requires Run(cfg, run).Some?
  {
    if run == [] then 0
    else
      var n := |run| - 1;
      ProductiveSteps(cfg, run[..n]) + if Productive(cfg, Run(cfg, run[..n]).value, run[n]) then 1 else 0
  }

  lemma {:induction false} RunWork(cfg: Config, run: seq<Step>)
    requires ValidConfig(cfg) && Run(cfg, run).Some?
    ensures ProductiveSteps(cfg, run) + Work(cfg, Run(cfg, run).value) <= Work(cfg, Init(cfg))
  {
    hide Work, Apply, Enabled, Init, Safe, Productive;
    if run != [] {
      var s := Run(cfg, run[..|run| - 1]).value;
      RunWork(cfg, run[..|run| - 1]);
      RunSafe(cfg, run[..|run| - 1]);
      StepWork(cfg, s, run[|run| - 1]);
    }
  }

  /** No run does more than ten steps of real work per round plus six per client, and two to end. */
  lemma {:induction false} RunsAreBounded(cfg: Config, run: seq<Step>)
    requires ValidConfig(cfg) && Run(cfg, run).Some?
    ensures ProductiveSteps(cfg, run) <= 10 * Sum(cfg.total) + 6 * |cfg.total| + 2
  {
    hide Run, Sum, Outstanding, Need, Counted, Ledger, Gone, ProductiveSteps;
    var s := Run(cfg, run).value;
    RunWork(cfg, run);
    RunSafe(cfg, run);
    assert AtMost(s.round, cfg.total);
    SumMonotone(s.round, cfg.total);
    SumZeros(|cfg.total|);
  }
}
