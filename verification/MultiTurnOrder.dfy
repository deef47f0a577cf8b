/** The order in which the multi-turn driver sends: with the "fifo" policy requests leave the ready queue in
    the order they became ready, and with the barrier they become ready in the order they were held. */
module MultiTurnOrder {
  import opened Counting
  import opened MultiTurn
  import opened MultiTurnSafety

  /** The handler has recorded a success of a client with rounds left, and asks its next question. */
  predicate AsksAgain(cfg: Config, s: State, a: Step) {
    && a.HandlerRequeue? && s.handler.Recorded? && 0 <= s.handler.client < |s.round| == |cfg.total|
    && s.round[s.handler.client] < cfg.total[s.handler.client]
  }

  /** Who is taken from the ready queue by a step. */
  function Takes(s: State, a: Step): seq<int> {
    if a.SenderPop? && a.index < |s.ready| then [s.ready[a.index]] else []
  }

  /** Who gets ready by a step: whoever asks again, at once or when the barrier lets it go. */
  function Readies(cfg: Config, s: State, a: Step): seq<int> {
    if AsksAgain(cfg, s, a) && !cfg.barrier then [s.handler.client] else LetsGo(s, a)
  }

  function LetsGo(s: State, a: Step): seq<int> { if a.HandlerRelease? && s.held != [] then [s.held[0]] else [] }

  /** Who is held behind the barrier by a step. */
  function Holds(cfg: Config, s: State, a: Step): seq<int> {
    if AsksAgain(cfg, s, a) && cfg.barrier then [s.handler.client] else []
  }

  /** What the steps of a run contribute, in order. */
  ghost function Over<T>(cfg: Config, run: seq<Step>, whom: (State, Step) -> seq<T>): seq<T> {
    if run == [] then []
    else
      var n := |run| - 1;
      Over(cfg, run[..n], whom) +
      if Run(cfg, run[..n]).Some? then whom(Run(cfg, run[..n]).value, run[n]) else []
  }

  ghost function Popped(cfg: Config, run: seq<Step>): seq<int> { Over(cfg, run, (s, a) => Takes(s, a)) }

  /** First everybody, then whoever a step makes ready. */
  ghost function Readied(cfg: Config, run: seq<Step>): seq<int> {
    Clients(|cfg.total|) + Over(cfg, run, (s, a) => Readies(cfg, s, a))
  }

  ghost function Delayed(cfg: Config, run: seq<Step>): seq<int> { Over(cfg, run, (s, a) => Holds(cfg, s, a)) }

  ghost function LetGo(cfg: Config, run: seq<Step>): seq<int> { Over(cfg, run, (s, a) => LetsGo(s, a)) }

  /** The queue always picks its oldest entry. */
  predicate Fifo(run: seq<Step>) { forall k :: 0 <= k < |run| && run[k].SenderPop? ==> run[k].index == 0 }

  lemma {:induction false} AskingHasQuestion(cfg: Config, s: State)
    requires Stocked(cfg, s) && s.handler.Recorded?
    ensures AsksAgain(cfg, s, HandlerRequeue) ==> s.subQuestions > 0
  {
    hide Need;
    NeedNonNegative(cfg.total, s.round);
  }

  /** What asking again does to the two queues. */
  lemma {:induction false} AskingMoves(cfg: Config, s: State)
    requires Safe(cfg, s) && s.handler.Recorded?
    ensures var s' := Apply(cfg, s, HandlerRequeue);
      && s'.ready == s.ready + Readies(cfg, s, HandlerRequeue) && s'.held == s.held + Holds(cfg, s, HandlerRequeue)
  {
    hide OneEach, Counted, Ledger, Gone, Need, Above;
    AskingHasQuestion(cfg, s);
  }

  lemma {:induction false} RecordKeeps(cfg: Config, s: State, c: int)
    ensures Record(cfg, s, c).ready == s.ready
  {
  }

  /** What one step does to the ready queue. */
  lemma {:induction false} ReadyMoves(cfg: Config, s: State, a: Step)
    requires Safe(cfg, s) && Enabled(cfg, s, a) && (a.SenderPop? ==> a.index == 0)
    ensures s.ready + Readies(cfg, s, a) == Takes(s, a) + Apply(cfg, s, a).ready
  {
    hide Full, Safe, Record, Requeue, Barrier;
    match a {
      case HandlerRequeue =>
        hide Apply, Readies;
        AskingMoves(cfg, s);
      case SenderPop(_) =>
        assert Apply(cfg, s, a).ready == s.ready[..0] + s.ready[1..];
        assert s.ready == [s.ready[0]] + s.ready[1..];
      case HandlerRecord => RecordKeeps(cfg, s, s.handler.response.client);
      case _ =>
    }
  }

  /** What one step does to the requests held. */
  lemma {:induction false} HeldMoves(cfg: Config, s: State, a: Step)
    requires Safe(cfg, s) && Enabled(cfg, s, a)
    ensures s.held + Holds(cfg, s, a) == LetsGo(s, a) + Apply(cfg, s, a).held
  {
    hide Full, Safe;
    if a.HandlerRequeue? {
      hide Apply, Holds;
      AskingMoves(cfg, s);
    }
  }

  lemma {:induction false} RunUnfold(cfg: Config, run: seq<Step>)
    requires ValidConfig(cfg) && Run(cfg, run).Some? && run != []
    ensures var n := |run| - 1;
      && Run(cfg, run[..n]).Some? && Safe(cfg, Run(cfg, run[..n]).value)
      && Enabled(cfg, Run(cfg, run[..n]).value, run[n])
      && Run(cfg, run).value == Apply(cfg, Run(cfg, run[..n]).value, run[n])
  {
    hide Safe, Enabled;
    RunSafe(cfg, run[..|run| - 1]);
  }

  /** What came in is what went out and what is left, also after one more step. */
  lemma {:induction false} StillInOrder<T>(put: seq<T>, taken: seq<T>, left: seq<T>,
                                           more: seq<T>, out: seq<T>, left': seq<T>)
    requires put == taken + left && left + more == out + left'
    ensures put + more == taken + out + left'
  {
    assert put + more == taken + (left + more);
  }

  /** With the "fifo" policy: what got ready is what was taken, in the same order, and then what is still in
      the queue. */
  lemma {:induction false} FirstReadyFirstSent(cfg: Config, run: seq<Step>)
    requires ValidConfig(cfg) && Run(cfg, run).Some? && Fifo(run)
    ensures Readied(cfg, run) == Popped(cfg, run) + Run(cfg, run).value.ready
  {
    hide Safe, Enabled, Apply, AsksAgain, Takes, Readies;
    if run != [] {
      var n := |run| - 1;
      RunUnfold(cfg, run);
      FirstReadyFirstSent(cfg, run[..n]);
      var s, s' := Run(cfg, run[..n]).value, Run(cfg, run).value;
      hide Run;
      ReadyMoves(cfg, s, run[n]);
      StillInOrder(Readied(cfg, run[..n]), Popped(cfg, run[..n]), s.ready,
                   Readies(cfg, s, run[n]), Takes(s, run[n]), s'.ready);
      assert Readied(cfg, run) == Readied(cfg, run[..n]) + Readies(cfg, s, run[n]);
      assert Popped(cfg, run) == Popped(cfg, run[..n]) + Takes(s, run[n]);
    }
  }

  /** With any policy: what was held is what was let go, in the same order, and then what is still held. */
  lemma {:induction false} FirstHeldFirstReady(cfg: Config, run: seq<Step>)
    requires ValidConfig(cfg) && Run(cfg, run).Some?
    ensures Delayed(cfg, run) == LetGo(cfg, run) + Run(cfg, run).value.held
  {
    hide Safe, Enabled, Apply, AsksAgain, LetsGo, Holds;
    if run != [] {
      var n := |run| - 1;
      RunUnfold(cfg, run);
      FirstHeldFirstReady(cfg, run[..n]);
      var s, s' := Run(cfg, run[..n]).value, Run(cfg, run).value;
      hide Run;
      HeldMoves(cfg, s, run[n]);
      StillInOrder(Delayed(cfg, run[..n]), LetGo(cfg, run[..n]), s.held,
                   Holds(cfg, s, run[n]), LetsGo(s, run[n]), s'.held);
      assert Delayed(cfg, run) == Delayed(cfg, run[..n]) + Holds(cfg, s, run[n]);
      assert LetGo(cfg, run) == LetGo(cfg, run[..n]) + LetsGo(s, run[n]);
    }
  }

  // ----- responses

  /** The response a step puts, and the one the handler gets. */
  function Puts(s: State, a: Step): seq<Response> {
    match a
    case TaskPuts => if s.finishing.Some? then [s.finishing.value] else []
    case TaskRaises(c) => [Response(c, false)]
    case _ => []
  }

  function Gets(s: State, s': State, a: Step): seq<Response> {
    if a.HandlerGet? && s'.handler.Got? then [s'.handler.response] else []
  }

  ghost function AllPut(cfg: Config, run: seq<Step>): seq<Response> { Over(cfg, run, (s, a) => Puts(s, a)) }

  ghost function AllGot(cfg: Config, run: seq<Step>): seq<Response> {
    Over(cfg, run, (s: State, a: Step) => if Enabled(cfg, s, a) then Gets(s, Apply(cfg, s, a), a) else [])
  }

  lemma {:induction false} ResponsesMove(cfg: Config, s: State, a: Step)
    requires Enabled(cfg, s, a)
    ensures s.responses + Puts(s, a) == Gets(s, Apply(cfg, s, a), a) + Apply(cfg, s, a).responses
  {
    hide Full, Above;
  }

  /** The handler gets responses in the order they were put. */
  lemma {:induction false} FirstPutFirstHandled(cfg: Config, run: seq<Step>)
    requires ValidConfig(cfg) && Run(cfg, run).Some?
    ensures AllPut(cfg, run) == AllGot(cfg, run) + Run(cfg, run).value.responses
  {
    hide Safe, Enabled, Apply, Puts, Gets;
    if run != [] {
      var n := |run| - 1;
      RunUnfold(cfg, run);
      FirstPutFirstHandled(cfg, run[..n]);
      var s, s' := Run(cfg, run[..n]).value, Run(cfg, run).value;
      hide Run;
      ResponsesMove(cfg, s, run[n]);
      StillInOrder(AllPut(cfg, run[..n]), AllGot(cfg, run[..n]), s.responses,
                   Puts(s, run[n]), Gets(s, s', run[n]), s'.responses);
      assert AllPut(cfg, run) == AllPut(cfg, run[..n]) + Puts(s, run[n]);
      assert AllGot(cfg, run) == AllGot(cfg, run[..n]) + Gets(s, s', run[n]);
    }
  }
}
