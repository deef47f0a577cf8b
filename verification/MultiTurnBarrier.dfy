/** The round barrier of the multi-turn driver: rounds are separated, the driver never gets stuck
    unless a response failed, and a finished run has asked every round exactly once. */
module MultiTurnBarrier {
  import opened Counting
  import opened MultiTurn
  import opened MultiTurnSafety

  /** Every client has finished the rounds below `B` that it has. */
  ghost predicate RoundsBelowDone(cfg: Config, s: State, B: int)
    requires |s.round| == |cfg.total|
  {
    forall c :: 0 <= c < |s.round| ==> s.round[c] >= B || s.round[c] >= cfg.total[c]
  }

  /** The round whose requests are out: the next one while the barrier is opening. */
  function OpenRound(s: State): int { if s.handler.Releasing? then s.barrierRound + 1 else s.barrierRound }

  ghost predicate Separated(cfg: Config, s: State)
    requires |s.round| == |cfg.total|
  {
    && RoundsBelowDone(cfg, s, OpenRound(s))
    && (forall c :: 0 <= c < |s.round| ==> s.round[c] <= s.barrierRound + 1)
    && (forall c :: 0 <= c < |s.round| && Released(s, c) > 0 ==> s.round[c] == OpenRound(s))
    && (forall c :: 0 <= c < |s.round| && Times(s.held, c) > 0 ==> s.round[c] == s.barrierRound + 1)
    && (forall c :: 0 <= c < |s.round| && c in s.failed ==> s.round[c] == OpenRound(s))
  }

  /** The barrier's counter and the per-round metrics agree with the clients' rounds. */
  ghost predicate Tallied(cfg: Config, s: State)
    requires |s.round| == |cfg.total| && |s.roundMetrics| == cfg.maxRounds
  {
    && s.barrierDone == Above(s.round, s.barrierRound) - OneIf(s.handler.Recorded?)
    && (s.handler.Recorded? ==> 0 <= s.handler.client < |s.round| && s.round[s.handler.client] == s.barrierRound + 1)
    && (s.handler.Releasing? ==> s.barrierRound < cfg.maxRounds)
    && (!s.handler.Recorded? && !s.handler.Releasing? ==>
          s.barrierDone < Above(cfg.total, s.barrierRound) || Above(cfg.total, s.barrierRound) == 0)
    && (forall r :: 0 <= r < cfg.maxRounds ==> s.roundMetrics[r] == Above(s.round, r))
  }

  ghost predicate BarrierInv(cfg: Config, s: State) {
    Safe(cfg, s) && (cfg.barrier ==> Separated(cfg, s) && Tallied(cfg, s))
  }

  lemma {:induction false} MovesBarrier(cfg: Config, s: State, a: Step)
    requires ValidConfig(cfg) && BarrierInv(cfg, s) && Enabled(cfg, s, a)
    requires Carries(a)
    ensures BarrierInv(cfg, Apply(cfg, s, a))
  {
    hide Safe, Released, Times, Above;
    StepSafe(cfg, s, a);
    var s' := Apply(cfg, s, a);
    SafeShape(cfg, s);
    if cfg.barrier {
      forall c ensures Released(s', c) == Released(s, c) { MovesReleased(cfg, s, a, c); }
    }
  }

  lemma {:induction false} SafeShape(cfg: Config, s: State)
    requires Safe(cfg, s)
    ensures Shape(cfg, s)
    ensures forall c :: 0 <= c < |s.round| ==> 0 <= s.round[c] <= cfg.total[c]
  {
  }

  lemma {:induction false} FailBarrier(cfg: Config, s: State)
    requires ValidConfig(cfg) && BarrierInv(cfg, s) && Enabled(cfg, s, HandlerFail)
    ensures BarrierInv(cfg, Apply(cfg, s, HandlerFail))
  {
    hide Safe, Times, Above, Asked;
    StepSafe(cfg, s, HandlerFail);
    SafeShape(cfg, s);
    var s' := Apply(cfg, s, HandlerFail);
    assert forall c :: Released(s', c) <= Released(s, c);
  }

  /** A released client's request is its only one. */
  lemma {:induction false} ReleasedFacts(cfg: Config, s: State, c: int)
    requires Safe(cfg, s)
    ensures 0 <= Released(s, c) <= 1
    ensures Released(s, c) > 0 ==> Active(cfg, s, c) && Times(s.held, c) == 0 && Between(cfg, s, c) == 0
    ensures Times(s.held, c) > 0 ==> Active(cfg, s, c)
  {
    hide Times, Asked;
    assert Outstanding(cfg, s, c) == if Active(cfg, s, c) then 1 else 0;
  }

  lemma {:induction false} RecordReleased(cfg: Config, s: State, c: int)
    requires ValidConfig(cfg) && Safe(cfg, s) && Enabled(cfg, s, HandlerRecord)
    ensures var s', d := Apply(cfg, s, HandlerRecord), s.handler.response.client;
      && Released(s', c) == Released(s, c) - Is(d, c) && s'.held == s.held && s'.barrierRound == s.barrierRound
      && Released(s, d) == 1
  {
    hide Times, Asked, Outstanding, Shape, Stocked;
    RecordShape(cfg, s);
    ReleasedFacts(cfg, s, s.handler.response.client);
  }

  lemma {:induction false} RecordSeparated(cfg: Config, s: State)
    requires ValidConfig(cfg) && BarrierInv(cfg, s) && cfg.barrier && Enabled(cfg, s, HandlerRecord)
    ensures Shape(cfg, Apply(cfg, s, HandlerRecord)) && Separated(cfg, Apply(cfg, s, HandlerRecord))
    ensures s.round[s.handler.response.client] == s.barrierRound
  {
    hide Safe, OneEach, Released, Times, Above, Tallied;
    SafeOneEach(cfg, s);
    RecordShape(cfg, s);
    var s', d := Apply(cfg, s, HandlerRecord), s.handler.response.client;
    forall c ensures Released(s', c) == Released(s, c) - Is(d, c) && s'.held == s.held && Released(s, d) == 1 {
      RecordReleased(cfg, s, c);
    }
    ReleasedFacts(cfg, s, d);
  }

  lemma {:induction false} SafeOneEach(cfg: Config, s: State)
    requires Safe(cfg, s)
    ensures OneEach(cfg, s) && Shape(cfg, s) && Stocked(cfg, s)
  {
  }

  lemma {:induction false} RecordBarrier(cfg: Config, s: State)
    requires ValidConfig(cfg) && BarrierInv(cfg, s) && Enabled(cfg, s, HandlerRecord)
    ensures BarrierInv(cfg, Apply(cfg, s, HandlerRecord))
  {
    hide Safe, OneEach, Above, Separated;
    StepSafe(cfg, s, HandlerRecord);
    SafeOneEach(cfg, s);
    if cfg.barrier {
      RecordSeparated(cfg, s);
      RecordShape(cfg, s);
      var s', d := Apply(cfg, s, HandlerRecord), s.handler.response.client;
      forall r ensures Above(s'.round, r) == Above(s.round, r) + OneIf(r == s.barrierRound) {
        AboveUpdate(s.round, d, s.round[d] + 1, r);
      }
    }
  }

  lemma {:induction false} RequeueEffect(cfg: Config, s: State)
    requires ValidConfig(cfg) && BarrierInv(cfg, s) && cfg.barrier && Enabled(cfg, s, HandlerRequeue)
    ensures var s', d := Apply(cfg, s, HandlerRequeue), s.handler.client;
      && s'.round == s.round && s'.barrierRound == s.barrierRound && s'.roundMetrics == s.roundMetrics
      && s'.failed == s.failed && s.barrierRound < cfg.maxRounds && s'.barrierDone == Above(s.round, s.barrierRound)
      && s'.handler == (if s'.barrierDone == Above(cfg.total, s.barrierRound) then Releasing else Waiting)
      && (forall c :: Released(s', c) == Released(s, c))
      && (s'.held == s.held || s'.held == s.held + [d]) && 0 <= d < |s.round|
  {
    hide Times, Asked, Outstanding, Above, Need, Separated;
    NeedNonNegative(cfg.total, s.round);
  }

  lemma {:induction false} RequeueBarrier(cfg: Config, s: State)
    requires ValidConfig(cfg) && BarrierInv(cfg, s) && Enabled(cfg, s, HandlerRequeue)
    ensures BarrierInv(cfg, Apply(cfg, s, HandlerRequeue))
  {
    hide Safe, OneEach, Above, Released, Times, Apply;
    StepSafe(cfg, s, HandlerRequeue);
    SafeShape(cfg, s);
    if cfg.barrier {
      RequeueEffect(cfg, s);
      AboveMonotone(s.round, cfg.total, s.barrierRound);
      var s', d := Apply(cfg, s, HandlerRequeue), s.handler.client;
      forall c ensures Times(s'.held, c) <= Times(s.held, c) + Is(d, c) { TimesSnoc(s.held, d, c); }
      forall c | 0 <= c < |s.round| && s'.handler.Releasing? ensures Released(s, c) <= 0 {
        ReleasedFacts(cfg, s, c);
      }
    }
  }

  lemma {:induction false} ReleaseBarrier(cfg: Config, s: State)
    requires ValidConfig(cfg) && BarrierInv(cfg, s) && Enabled(cfg, s, HandlerRelease)
    ensures BarrierInv(cfg, Apply(cfg, s, HandlerRelease))
  {
    hide Safe, Above, Times, Asked;
    StepSafe(cfg, s, HandlerRelease);
    SafeShape(cfg, s);
    var s', d := Apply(cfg, s, HandlerRelease), s.held[0];
    assert Times(s.held, d) > 0 by { TimesMember(s.held, d); }
    forall c ensures Released(s', c) == Released(s, c) + Is(d, c) && Times(s'.held, c) == Times(s.held, c) - Is(d, c) {
      TimesSnoc(s.ready, d, c);
      TimesRemove(s.held, 0, c);
      assert s.held[..0] + s.held[1..] == s.held[1..];
    }
  }

  lemma {:induction false} AdvanceBarrier(cfg: Config, s: State)
    requires ValidConfig(cfg) && BarrierInv(cfg, s) && Enabled(cfg, s, HandlerAdvance)
    ensures BarrierInv(cfg, Apply(cfg, s, HandlerAdvance))
  {
    hide Safe, Above, Asked, Times;
    StepSafe(cfg, s, HandlerAdvance);
    SafeShape(cfg, s);
    var s' := Apply(cfg, s, HandlerAdvance);
    assert forall c :: Released(s', c) == Released(s, c);
    forall c ensures Times([], c) == 0 { TimesMember([], c); }
    AboveZero(s.round, s'.barrierRound);
  }

  lemma {:induction false} StepBarrier(cfg: Config, s: State, a: Step)
    requires ValidConfig(cfg) && BarrierInv(cfg, s) && Enabled(cfg, s, a)
    ensures BarrierInv(cfg, Apply(cfg, s, a))
  {
    hide BarrierInv, Apply;
    match a
    case HandlerFail => FailBarrier(cfg, s);
    case HandlerRecord => RecordBarrier(cfg, s);
    case HandlerRequeue => RequeueBarrier(cfg, s);
    case HandlerRelease => ReleaseBarrier(cfg, s);
    case HandlerAdvance => AdvanceBarrier(cfg, s);
    case _ => MovesBarrier(cfg, s, a);
  }

  lemma {:induction false} AboveZeros(n: nat, r: nat)
    ensures Above(Zeros(n), r) == 0
  {
    AboveZero(Zeros(n), r);
  }

  lemma {:induction false} InitBarrier(cfg: Config)
    requires ValidConfig(cfg)
    ensures BarrierInv(cfg, Init(cfg))
  {
    hide Safe, Above, Times, Need;
    InitSafe(cfg);
    forall c ensures Times([], c) == 0 { TimesMember([], c); }
    forall r: nat ensures Above(Zeros(|cfg.total|), r) == 0 { AboveZeros(|cfg.total|, r); }
  }

  lemma {:induction false} RunBarrier(cfg: Config, run: seq<Step>)
    requires ValidConfig(cfg) && Run(cfg, run).Some?
    ensures BarrierInv(cfg, Run(cfg, run).value)
  {
    hide BarrierInv, Apply, Enabled, Init;
    if run == [] {
      InitBarrier(cfg);
    } else {
      RunBarrier(cfg, run[..|run| - 1]);
      StepBarrier(cfg, Run(cfg, run[..|run| - 1]).value, run[|run| - 1]);
    }
  }
}
