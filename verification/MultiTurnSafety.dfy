/** Safety of the multi-turn driver over every interleaving, failed responses included. */
module MultiTurnSafety {
  import opened Counting
  import opened MultiTurn

  /** How many responses in the queue are client `c`'s. */
  function Asked(rs: seq<Response>, c: int): nat {
    if rs == [] then 0 else Asked(rs[..|rs| - 1], c) + if rs[|rs| - 1].client == c then 1 else 0
  }

  /** Requests of client `c` that left the barrier and are not yet handled. */
  function Released(s: State, c: int): int {
    Times(s.ready, c)
    + (if s.sender.Holding? then Is(s.sender.client, c) else 0)
    + s.inFlight[c]
    + (if s.finishing.Some? then Is(s.finishing.value.client, c) else 0)
    + Asked(s.responses, c)
    + (if s.handler.Got? then Is(s.handler.response.client, c) else 0)
  }

  /** 1 while client `c`'s success is recorded but its next request is not made yet. */
  function Between(cfg: Config, s: State, c: int): int {
    if s.handler == Recorded(c) && 0 <= c < |s.round| == |cfg.total| && s.round[c] < cfg.total[c] then 1 else 0
  }

  function Outstanding(cfg: Config, s: State, c: int): int {
    Released(s, c) + Between(cfg, s, c) + Times(s.held, c)
  }

  /** Client `c` has rounds left and its requests never failed. */
  predicate Active(cfg: Config, s: State, c: int) {
    0 <= c < |s.round| == |cfg.total| && s.round[c] < cfg.total[c] && c !in s.failed
  }

  ghost predicate Shape(cfg: Config, s: State) {
    && |s.round| == |cfg.total| && |s.roundMetrics| == cfg.maxRounds
    && (forall c :: 0 <= c < |s.round| ==> 0 <= s.round[c] <= cfg.total[c])
    && (s.handler.Recorded? ==> 0 <= s.handler.client < |cfg.total| && s.handler.client !in s.failed)
    && (s.handler.Releasing? ==> cfg.barrier) && (s.held != [] ==> cfg.barrier)
    && !s.handler.Dead?
    && (forall c :: c in s.failed ==> 0 <= c < |s.round| && s.round[c] < cfg.total[c])
  }

  /** Every active client has exactly one outstanding request, and nobody else has any. */
  ghost predicate OneEach(cfg: Config, s: State) {
    Shape(cfg, s) && forall c :: Outstanding(cfg, s, c) == if Active(cfg, s, c) then 1 else 0
  }

  lemma {:induction false} AskedHead(rs: seq<Response>, c: int)
    requires rs != []
    ensures Asked(rs, c) == Is(rs[0].client, c) + Asked(rs[1..], c)
  {
    if |rs| > 1 {
      var n := |rs| - 1;
      AskedHead(rs[..n], c);
      assert rs[..n][1..] == rs[1..][..n - 1];
    }
  }

  lemma {:induction false} AskedSnoc(rs: seq<Response>, r: Response, c: int)
    ensures Asked(rs + [r], c) == Asked(rs, c) + Is(r.client, c)
  {
    assert (rs + [r])[..|rs|] == rs;
  }

  /** The steps that only move a request along, or look at the progress bar. */
  predicate Carries(a: Step) {
    || a.SenderCheck? || a.SenderPop? || a.SenderPopNone? || a.SenderStart? || a.SenderTest?
    || a.TaskCounts? || a.TaskPuts? || a.TaskRaises? || a.HandlerGet? || a.HandlerTimeout? || a.HandlerTest?
  }

  lemma {:induction false} MovesReleased(cfg: Config, s: State, a: Step, c: int)
    requires Enabled(cfg, s, a) && Carries(a)
    ensures Released(Apply(cfg, s, a), c) == Released(s, c)
  {
    hide Released, Apply, Enabled;
    match a {
      case TaskCounts(_, _) => TaskReleased(cfg, s, a, c);
      case TaskPuts => TaskReleased(cfg, s, a, c);
      case TaskRaises(_) => TaskReleased(cfg, s, a, c);
      case _ => LoopReleased(cfg, s, a, c);
    }
  }

  lemma {:induction false} TaskReleased(cfg: Config, s: State, a: Step, c: int)
    requires Enabled(cfg, s, a) && (a.TaskCounts? || a.TaskPuts? || a.TaskRaises?)
    ensures Released(Apply(cfg, s, a), c) == Released(s, c)
  {
    hide Times, Asked, Full;
    match a {
      case TaskPuts => AskedSnoc(s.responses, s.finishing.value, c);
      case TaskRaises(d) => AskedSnoc(s.responses, Response(d, false), c);
      case TaskCounts(_, _) =>
    }
  }

  /** The steps of the sender and of the handler. */
  lemma {:induction false} LoopReleased(cfg: Config, s: State, a: Step, c: int)
    requires Enabled(cfg, s, a) && Carries(a) && !a.TaskCounts? && !a.TaskPuts? && !a.TaskRaises?
    ensures Released(Apply(cfg, s, a), c) == Released(s, c)
  {
    hide Times, Asked, Full;
    match a {
      case SenderPop(i) => TimesRemove(s.ready, i, c);
      case HandlerGet => AskedHead(s.responses, c);
      case _ =>
    }
  }

  lemma {:induction false} ReleaseKeeps(cfg: Config, s: State, c: int)
    requires Enabled(cfg, s, HandlerRelease)
    ensures Outstanding(cfg, Apply(cfg, s, HandlerRelease), c) == Outstanding(cfg, s, c)
  {
    hide Times, Asked;
    TimesSnoc(s.ready, s.held[0], c);
    TimesRemove(s.held, 0, c);
    assert s.held[..0] + s.held[1..] == s.held[1..];
  }

  /** Every step but the handler's verdicts moves requests around without losing any. */
  lemma {:induction false} MovesKeep(cfg: Config, s: State, a: Step, c: int)
    requires Enabled(cfg, s, a) && Shape(cfg, s) && !a.HandlerFail? && !a.HandlerRecord? && !a.HandlerRequeue?
    ensures Outstanding(cfg, Apply(cfg, s, a), c) == Outstanding(cfg, s, c)
  {
    match a {
      case HandlerRelease => ReleaseKeeps(cfg, s, c);
      case HandlerAdvance => hide Times, Asked;
      case _ =>
        MovesReleased(cfg, s, a, c);
        hide Released;
    }
  }

  lemma {:induction false} MovesOneEach(cfg: Config, s: State, a: Step)
    requires Enabled(cfg, s, a) && OneEach(cfg, s) && !a.HandlerFail? && !a.HandlerRecord? && !a.HandlerRequeue?
    ensures OneEach(cfg, Apply(cfg, s, a))
  {
    hide Outstanding;
    var s' := Apply(cfg, s, a);
    assert s'.round == s.round && s'.failed == s.failed && Shape(cfg, s');
    forall c ensures Outstanding(cfg, s', c) == if Active(cfg, s', c) then 1 else 0 {
      MovesKeep(cfg, s, a, c);
    }
  }

  lemma {:induction false} GotIsActive(cfg: Config, s: State)
    requires OneEach(cfg, s) && s.handler.Got?
    ensures Active(cfg, s, s.handler.response.client)
  {
    hide Times, Asked;
    var c := s.handler.response.client;
    assert Outstanding(cfg, s, c) == if Active(cfg, s, c) then 1 else 0;
  }

  /** A failure drops the client's request and deactivates the client. */
  lemma {:induction false} FailOneEach(cfg: Config, s: State)
    requires OneEach(cfg, s) && Enabled(cfg, s, HandlerFail)
    ensures OneEach(cfg, Apply(cfg, s, HandlerFail))
  {
    hide Times, Asked;
    GotIsActive(cfg, s);
    var s', d := Apply(cfg, s, HandlerFail), s.handler.response.client;
    forall c ensures Outstanding(cfg, s', c) == if Active(cfg, s', c) then 1 else 0 {
      assert Outstanding(cfg, s', c) == Outstanding(cfg, s, c) - Is(d, c);
    }
  }

  lemma {:induction false} RecordShape(cfg: Config, s: State)
    requires ValidConfig(cfg) && OneEach(cfg, s) && Enabled(cfg, s, HandlerRecord)
    ensures var s', d := Apply(cfg, s, HandlerRecord), s.handler.response.client;
      && Shape(cfg, s') && Active(cfg, s, d) && s'.round == s.round[d := s.round[d] + 1]
      && s' == Record(cfg, s, d) && s'.handler == Recorded(d)
  {
    hide Outstanding;
    GotIsActive(cfg, s);
  }

  /** A success keeps the client outstanding exactly when it has rounds left. */
  lemma {:induction false} RecordOneEach(cfg: Config, s: State)
    requires ValidConfig(cfg) && OneEach(cfg, s) && Enabled(cfg, s, HandlerRecord)
    ensures OneEach(cfg, Apply(cfg, s, HandlerRecord))
  {
    hide Times, Asked, Shape;
    RecordShape(cfg, s);
    var s', d := Apply(cfg, s, HandlerRecord), s.handler.response.client;
    forall c ensures Outstanding(cfg, s', c) == if Active(cfg, s', c) then 1 else 0 {
      assert Released(s', c) == Released(s, c) - Is(d, c);
      assert Outstanding(cfg, s, c) == if Active(cfg, s, c) then 1 else 0;
    }
  }

  /** The sub-question stack holds enough for every round still to be asked. */
  ghost predicate Stocked(cfg: Config, s: State) {
    && |s.round| == |cfg.total|
    && s.subQuestions >= Need(cfg.total, s.round) + if s.handler.Recorded? then Between(cfg, s, s.handler.client) else 0
  }

  lemma {:induction false} NeedNonNegative(total: seq<int>, round: seq<int>)
    requires |total| == |round|
    ensures Need(total, round) >= 0
  {
    if total != [] { NeedNonNegative(total[..|total| - 1], round[..|round| - 1]); }
  }

  lemma {:induction false} NeedUpdate(total: seq<int>, round: seq<int>, c: nat)
    requires |total| == |round| && c < |total| && round[c] < total[c]
    ensures Need(total, round[c := round[c] + 1]) ==
      Need(total, round) - if round[c] + 1 < total[c] then 1 else 0
  {
    var n := |total| - 1;
    if c < n {
      NeedUpdate(total[..n], round[..n], c);
      assert round[c := round[c] + 1][..n] == round[..n][c := round[c] + 1];
    } else {
      assert round[c := round[c] + 1][..n] == round[..n];
    }
  }

  lemma {:induction false} RecordStocked(cfg: Config, s: State)
    requires ValidConfig(cfg) && OneEach(cfg, s) && Stocked(cfg, s) && Enabled(cfg, s, HandlerRecord)
    ensures Stocked(cfg, Apply(cfg, s, HandlerRecord))
  {
    hide Outstanding, Need;
    RecordShape(cfg, s);
    NeedUpdate(cfg.total, s.round, s.handler.response.client);
  }

  /** The handler never pops an empty stack, and the request it makes takes the client's place. */
  lemma {:induction false} RequeueShape(cfg: Config, s: State)
    requires Shape(cfg, s) && Stocked(cfg, s) && Enabled(cfg, s, HandlerRequeue)
    ensures var s' := Apply(cfg, s, HandlerRequeue); Shape(cfg, s') && Stocked(cfg, s')
  {
    hide Need, Above;
    NeedNonNegative(cfg.total, s.round);
  }

  lemma {:induction false} RequeueOneEach(cfg: Config, s: State)
    requires OneEach(cfg, s) && Stocked(cfg, s) && Enabled(cfg, s, HandlerRequeue)
    ensures OneEach(cfg, Apply(cfg, s, HandlerRequeue))
  {
    hide Times, Asked, Need, Above;
    RequeueShape(cfg, s);
    NeedNonNegative(cfg.total, s.round);
    var s', d := Apply(cfg, s, HandlerRequeue), s.handler.client;
    forall c ensures Outstanding(cfg, s', c) == if Active(cfg, s', c) then 1 else 0 {
      TimesSnoc(s.ready, d, c);
      TimesSnoc(s.held, d, c);
      assert Outstanding(cfg, s, c) == if Active(cfg, s, c) then 1 else 0;
    }
  }

  /** Answered requests that are not handled yet. */
  function Pending(s: State): nat {
    (if s.finishing.Some? then 1 else 0) + |s.responses| + if s.handler.Got? then 1 else 0
  }

  /** The request counters: what was sent and not completed is in flight or awaiting handling, and
      never exceeds the limit; the progress bar counts every answer but those of requests that raised
      an exception. */
  ghost predicate Counted(cfg: Config, s: State) {
    && s.sent - s.completed == |s.inFlight| + Pending(s)
    && (s.sender.Checked? || s.sender.Holding? ==> s.sent - s.completed < cfg.maxParallel)
    && (s.sent == s.completed || s.sent - s.completed <= cfg.maxParallel)
    && s.handled == Sum(s.round)
    && s.pbar + s.uncounted == s.handled + |s.failed| + Pending(s)
  }

  /** Requests not answered yet. */
  function Unanswered(cfg: Config, s: State): nat {
    |s.ready| + (if s.sender.Holding? then 1 else 0) + |s.inFlight| + |s.held|
    + if s.handler.Recorded? && Between(cfg, s, s.handler.client) == 1 then 1 else 0
  }

  /** Conservation: a round is completed, still to be asked, failed for good, or outstanding. */
  ghost predicate Ledger(cfg: Config, s: State) {
    && |s.round| == |cfg.total|
    && Sum(cfg.total) == Sum(s.round) + Need(cfg.total, s.round) + |s.failed| + Unanswered(cfg, s) + Pending(s)
  }

  /** A thread that has left found the progress bar full, and it still is. */
  ghost predicate Gone(cfg: Config, s: State) {
    s.sender.SenderLeft? || s.handler.HandlerLeft? ==> Full(cfg, s)
  }

  lemma {:induction false} MovesLedger(cfg: Config, s: State, a: Step)
    requires Ledger(cfg, s) && Enabled(cfg, s, a) && !a.HandlerFail? && !a.HandlerRecord? && !a.HandlerRequeue?
    ensures Ledger(cfg, Apply(cfg, s, a))
  {
    hide Sum, Need, Full;
  }

  lemma {:induction false} VerdictLedger(cfg: Config, s: State, a: Step)
    requires ValidConfig(cfg) && OneEach(cfg, s) && Stocked(cfg, s) && Ledger(cfg, s) && Enabled(cfg, s, a)
    requires a.HandlerFail? || a.HandlerRecord? || a.HandlerRequeue?
    ensures Ledger(cfg, Apply(cfg, s, a))
  {
    hide Sum, Need, Outstanding, Above;
    match a {
      case HandlerFail => GotIsActive(cfg, s);
      case HandlerRecord =>
        RecordShape(cfg, s);
        var d := s.handler.response.client;
        SumUpdate(s.round, d, s.round[d] + 1);
        NeedUpdate(cfg.total, s.round, d);
      case HandlerRequeue => NeedNonNegative(cfg.total, s.round);
    }
  }

  /** In every state the exit test says exactly this: nothing is left to send or to answer, now or
      later, and no request escaped the progress bar. */
  lemma {:induction false} FullExactly(cfg: Config, s: State)
    requires Counted(cfg, s) && Ledger(cfg, s)
    ensures s.pbar <= Sum(cfg.total)
    ensures Full(cfg, s) <==> Need(cfg.total, s.round) == 0 && Unanswered(cfg, s) == 0 && s.uncounted == 0
  {
    hide Sum, Need, Unanswered, Pending;
    NeedNonNegative(cfg.total, s.round);
  }

  lemma {:induction false} StepGone(cfg: Config, s: State, a: Step)
    requires Counted(cfg, s) && Ledger(cfg, s) && Gone(cfg, s) && Enabled(cfg, s, a)
    ensures Gone(cfg, Apply(cfg, s, a))
  {
    hide Sum, Need, Above;
    FullExactly(cfg, s);
  }

  lemma {:induction false} MovesCounted(cfg: Config, s: State, a: Step)
    requires Enabled(cfg, s, a) && Counted(cfg, s) && !a.HandlerFail? && !a.HandlerRecord? && !a.HandlerRequeue?
    ensures Counted(cfg, Apply(cfg, s, a))
  {
    hide Sum;
  }

  lemma {:induction false} VerdictCounted(cfg: Config, s: State, a: Step)
    requires ValidConfig(cfg) && OneEach(cfg, s) && Stocked(cfg, s) && Enabled(cfg, s, a) && Counted(cfg, s)
    requires a.HandlerFail? || a.HandlerRecord? || a.HandlerRequeue?
    ensures Counted(cfg, Apply(cfg, s, a))
  {
    hide Sum, Above, Need, Outstanding;
    match a {
      case HandlerFail => GotIsActive(cfg, s);
      case HandlerRecord =>
        RecordShape(cfg, s);
        var d := s.handler.response.client;
        SumUpdate(s.round, d, s.round[d] + 1);
      case HandlerRequeue => NeedNonNegative(cfg.total, s.round);
    }
  }

  /** Everything that holds in every state of every run. */
  ghost predicate Safe(cfg: Config, s: State) {
    OneEach(cfg, s) && Stocked(cfg, s) && Counted(cfg, s) && Ledger(cfg, s) && Gone(cfg, s)
  }

  lemma {:induction false} StepSafe(cfg: Config, s: State, a: Step)
    requires ValidConfig(cfg) && Safe(cfg, s) && Enabled(cfg, s, a)
    ensures Safe(cfg, Apply(cfg, s, a))
  {
    hide OneEach, Counted, Ledger, Gone;
    StepGone(cfg, s, a);
    if a.HandlerFail? || a.HandlerRecord? || a.HandlerRequeue? {
      VerdictCounted(cfg, s, a);
      VerdictLedger(cfg, s, a);
      match a {
        case HandlerFail => FailOneEach(cfg, s);
        case HandlerRecord => RecordOneEach(cfg, s); RecordStocked(cfg, s);
        case HandlerRequeue => RequeueOneEach(cfg, s); RequeueStocked(cfg, s);
      }
    } else {
      MovesCounted(cfg, s, a);
      MovesLedger(cfg, s, a);
      MovesOneEach(cfg, s, a);
    }
  }

  lemma {:induction false} RequeueStocked(cfg: Config, s: State)
    requires OneEach(cfg, s) && Stocked(cfg, s) && Enabled(cfg, s, HandlerRequeue)
    ensures Stocked(cfg, Apply(cfg, s, HandlerRequeue))
  {
    RequeueShape(cfg, s);
  }

  lemma {:induction false} TimesClients(n: nat, c: int)
    ensures Times(Clients(n), c) == if 0 <= c < n then 1 else 0
  {
    if n > 0 {
      TimesClients(n - 1, c);
      assert Clients(n)[..n - 1] == Clients(n - 1);
    }
  }

  lemma {:induction false} SumZeros(n: nat)
    ensures Sum(Zeros(n)) == 0
  {
    if n > 0 {
      SumZeros(n - 1);
      assert Zeros(n)[..n - 1] == Zeros(n - 1);
    }
  }

  lemma {:induction false} NeedZeros(total: seq<int>)
    requires forall c :: 0 <= c < |total| ==> total[c] >= 1
    ensures Need(total, Zeros(|total|)) == Sum(total) - |total|
  {
    if total != [] {
      NeedZeros(total[..|total| - 1]);
      assert Zeros(|total|)[..|total| - 1] == Zeros(|total| - 1);
    }
  }

  lemma {:induction false} InitSafe(cfg: Config)
    requires ValidConfig(cfg)
    ensures Safe(cfg, Init(cfg))
  {
    hide Times, Need, Sum;
    var s := Init(cfg);
    SumZeros(|cfg.total|);
    NeedZeros(cfg.total);
    forall c ensures Outstanding(cfg, s, c) == if Active(cfg, s, c) then 1 else 0 {
      TimesClients(|cfg.total|, c);
      assert Times([], c) == 0 by { TimesMember([], c); }
    }
  }

  /** In every interleaving, with any failures: every client with rounds left and no failure has
      exactly one outstanding request and nobody else has any; the stack is never popped when
      empty; sent minus completed is what is in flight or unhandled and respects the limit; rounds are
      conserved; and who has left its loop found the progress bar full for good. */
  lemma {:induction false} RunSafe(cfg: Config, run: seq<Step>)
    requires ValidConfig(cfg) && Run(cfg, run).Some?
    ensures Safe(cfg, Run(cfg, run).value)
  {
    hide Safe, Apply, Enabled;
    if run == [] {
      InitSafe(cfg);
    } else {
      RunSafe(cfg, run[..|run| - 1]);
      StepSafe(cfg, Run(cfg, run[..|run| - 1]).value, run[|run| - 1]);
    }
  }
}
