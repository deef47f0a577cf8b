/** How the multi-turn driver ends: both loops leave when the progress bar is full
    (`pbar.n == pbar.total`). When that happens, what is then left undone, and when it never happens. */
module MultiTurnExit {
  import opened Prelude
  import opened Counting
  import opened MultiTurn
  import opened MultiTurnSafety
  import opened MultiTurnBarrier
  import opened MultiTurnProgress

  // ----- requests that escape the progress bar have failed

  function Failures(rs: seq<Response>): nat {
    if rs == [] then 0 else Failures(rs[..|rs| - 1]) + if rs[|rs| - 1].success then 0 else 1
  }

  ghost predicate Escaped(s: State) {
    s.uncounted <= |s.failed| + Failures(s.responses) + OneIf(s.handler.Got? && !s.handler.response.success)
  }

  lemma {:induction false} FailuresHead(rs: seq<Response>)
    requires rs != []
    ensures Failures(rs) == OneIf(!rs[0].success) + Failures(rs[1..])
  {
    if |rs| > 1 {
      var n := |rs| - 1;
      FailuresHead(rs[..n]);
      assert rs[..n][1..] == rs[1..][..n - 1];
    }
  }

  lemma {:induction false} FailuresSnoc(rs: seq<Response>, r: Response)
    ensures Failures(rs + [r]) == Failures(rs) + OneIf(!r.success)
  {
    assert (rs + [r])[..|rs|] == rs;
  }

  lemma {:induction false} StepEscaped(cfg: Config, s: State, a: Step)
    requires ValidConfig(cfg) && OneEach(cfg, s) && Stocked(cfg, s) && Escaped(s) && Enabled(cfg, s, a)
    ensures Escaped(Apply(cfg, s, a))
  {
    hide Failures, Outstanding, Need, Full, Above;
    match a {
      case TaskPuts => FailuresSnoc(s.responses, s.finishing.value);
      case TaskRaises(c) => FailuresSnoc(s.responses, Response(c, false));
      case HandlerGet => FailuresHead(s.responses);
      case HandlerFail => GotIsActive(cfg, s);
      case HandlerRecord => RecordShape(cfg, s);
      case HandlerRequeue => NeedNonNegative(cfg.total, s.round);
      case _ =>
    }
  }

  lemma {:induction false} RunEscaped(cfg: Config, run: seq<Step>)
    requires ValidConfig(cfg) && Run(cfg, run).Some?
    ensures Escaped(Run(cfg, run).value)
  {
    hide OneEach, Stocked, Apply, Enabled, Escaped;
    if run == [] {
      FirstEscaped(cfg);
    } else {
      RunEscaped(cfg, run[..|run| - 1]);
      RunSafe(cfg, run[..|run| - 1]);
      StepEscaped(cfg, Run(cfg, run[..|run| - 1]).value, run[|run| - 1]);
    }
  }

  lemma {:induction false} FirstEscaped(cfg: Config)
    ensures Escaped(Init(cfg))
  {
    hide Need;
  }

  // ----- the exit test

  /** Nothing is left to ask exactly when every client is in its last round or beyond. */
  lemma {:induction false} NeedNothing(total: seq<int>, round: seq<int>)
    requires |total| == |round|
    ensures Need(total, round) == 0 <==> forall c :: 0 <= c < |total| ==> round[c] >= total[c] - 1
  {
    if total != [] {
      var n := |total| - 1;
      NeedNothing(total[..n], round[..n]);
      NeedNonNegative(total[..n], round[..n]);
      assert forall c :: 0 <= c < n ==> total[..n][c] == total[c] && round[..n][c] == round[c];
    }
  }

  lemma {:induction false} FinishedIsFull(cfg: Config, s: State)
    requires Safe(cfg, s) && Escaped(s) && s.round == cfg.total
    ensures Full(cfg, s)
  {
    hide Sum, Outstanding, Stocked, Gone, Failures;
    if s.failed != {} { var c := SomeInSet(s.failed); }
    NeedNothing(cfg.total, s.round);
    assert s.failed == {} && Pending(s) == 0;
    assert Failures([]) == 0 by { NoFailures(); }
  }

  lemma {:induction false} NoFailures()
    ensures Failures([]) == 0
  {
  }

  /** The exit test passes exactly when nothing is ready, held, being sent or in flight, every client
      has started its last round, and no request raised an exception past the progress bar; and it
      passes once every round is complete. So a sender that leaves has nothing left to send. */
  lemma {:induction false} ExitIsSafe(cfg: Config, run: seq<Step>)
    requires ValidConfig(cfg) && Run(cfg, run).Some?
    ensures var s := Run(cfg, run).value;
      && |s.round| == |cfg.total| && s.pbar <= Sum(cfg.total)
      && (Full(cfg, s) <==>
            && s.ready == [] && s.held == [] && s.inFlight == multiset{} && !s.sender.Holding?
            && !(s.handler.Recorded? && Between(cfg, s, s.handler.client) == 1)
            && s.uncounted == 0 && forall c :: 0 <= c < |cfg.total| ==> s.round[c] >= cfg.total[c] - 1)
      && (s.round == cfg.total ==> Full(cfg, s))
  {
    hide Run, Need, Full, OneEach, Stocked, Between, Escaped, Gone;
    var s := Run(cfg, run).value;
    RunSafe(cfg, run);
    RunEscaped(cfg, run);
    FullExactly(cfg, s);
    NeedNothing(cfg.total, s.round);
    if s.round == cfg.total { FinishedIsFull(cfg, s); }
  }

  // ----- what the handler leaves behind

  lemma {:induction false} LeftOutstanding(cfg: Config, s: State, c: int)
    requires Safe(cfg, s) && s.handler.HandlerLeft?
    ensures Outstanding(cfg, s, c) ==
      Asked(s.responses, c) + if s.finishing.Some? then Is(s.finishing.value.client, c) else 0
    ensures Active(cfg, s, c) <==> Outstanding(cfg, s, c) == 1
  {
    hide Times, Asked, Stocked, Need, Full;
    FullExactly(cfg, s);
    assert Times([], c) == 0 by { TimesMember([], c); }
    assert Outstanding(cfg, s, c) == if Active(cfg, s, c) then 1 else 0;
  }

  /** A handler that has left has completed every round if and only if no response failed, none is in
      the queue, and no task is about to put one. */
  lemma {:induction false} HandlerLeavesDone(cfg: Config, run: seq<Step>)
    requires ValidConfig(cfg) && Run(cfg, run).Some? && Run(cfg, run).value.handler.HandlerLeft?
    ensures var s := Run(cfg, run).value;
      s.round == cfg.total <==> s.failed == {} && s.responses == [] && s.finishing.None?
  {
    hide Run, Safe, Outstanding, Asked, Times;
    var s := Run(cfg, run).value;
    RunSafe(cfg, run);
    SafeShape(cfg, s);
    if s.round == cfg.total {
      if s.failed != {} { var c := SomeInSet(s.failed); }
      if s.responses != [] {
        AskedMember(s.responses, 0);
        LeftOutstanding(cfg, s, s.responses[0].client);
        OneOrNone(cfg, s, s.responses[0].client);
      }
      if s.finishing.Some? {
        LeftOutstanding(cfg, s, s.finishing.value.client);
        OneOrNone(cfg, s, s.finishing.value.client);
      }
    } else if s.failed == {} && s.responses == [] && s.finishing.None? {
      var c :| 0 <= c < |s.round| && s.round[c] < cfg.total[c];
      assert Active(cfg, s, c);
      LeftOutstanding(cfg, s, c);
      NobodyAsked(c);
      assert false;
    }
  }

  // ----- when the driver hangs

  /** No request escaped the progress bar, and every client that failed did so in its last round; with
      the barrier on it must be one with the most rounds, or others are held behind it. */
  ghost predicate Harmless(cfg: Config, s: State)
    requires |s.round| == |cfg.total|
  {
    && s.uncounted == 0
    && forall c :: c in s.failed && 0 <= c < |cfg.total| ==>
         && s.round[c] == cfg.total[c] - 1
         && (cfg.barrier ==> forall d :: 0 <= d < |cfg.total| ==> cfg.total[d] <= cfg.total[c])
  }

  lemma {:induction false} FullIsHarmless(cfg: Config, s: State)
    requires ValidConfig(cfg) && BarrierInv(cfg, s) && Full(cfg, s) && !s.handler.Releasing?
    ensures |s.round| == |cfg.total| && Harmless(cfg, s)
  {
    hide Full, Need, Outstanding, Times, Above, Stocked, Tallied;
    FullExactly(cfg, s);
    NeedNothing(cfg.total, s.round);
    if cfg.barrier {
      forall c, d | c in s.failed && 0 <= c < |cfg.total| && 0 <= d < |cfg.total| ensures cfg.total[d] <= cfg.total[c] {
        LastRoundOf(cfg, s, d);
      }
    }
  }

  /** With everything answered or failed no client has a round beyond the one after the barrier's. */
  lemma {:induction false} LastRoundOf(cfg: Config, s: State, d: int)
    requires ValidConfig(cfg) && BarrierInv(cfg, s) && Full(cfg, s) && !s.handler.Releasing? && cfg.barrier &&
      0 <= d < |cfg.total|
    ensures |s.round| == |cfg.total| && cfg.total[d] <= s.barrierRound + 1
  {
    hide Full, Need, Times, Above, Stocked, Tallied, Asked;
    FullExactly(cfg, s);
    NeedNothing(cfg.total, s.round);
    assert Outstanding(cfg, s, d) == if Active(cfg, s, d) then 1 else 0;
    assert Times(s.held, d) == 0 by { TimesMember([], d); }
    assert Between(cfg, s, d) == 0;
  }

  lemma {:induction false} HarmlessIsFull(cfg: Config, s: State)
    requires ValidConfig(cfg) && BarrierInv(cfg, s) && |s.round| == |cfg.total| && Harmless(cfg, s)
    ensures !Hung(cfg, s)
  {
    hide Full, Need, Times, Above, Released, Tallied;
    if Hung(cfg, s) {
      FullExactly(cfg, s);
      NeedNothing(cfg.total, s.round);
      if s.held == [] {
        forall c | 0 <= c < |cfg.total| ensures s.round[c] >= cfg.total[c] - 1 {
          SettledUnlessHeld(cfg, s, c);
          TimesMember([], c);
        }
        assert false;
      } else {
        HeldBack(cfg, s, s.held[0]);
      }
    }
  }

  lemma {:induction false} SettledUnlessHeld(cfg: Config, s: State, c: int)
    requires Safe(cfg, s) && Hung(cfg, s) && 0 <= c < |cfg.total|
    ensures |s.round| == |cfg.total|
    ensures s.round[c] == cfg.total[c] || c in s.failed || Times(s.held, c) == 1
  {
    hide Times, Asked, Outstanding, Stocked, Counted, Ledger, Full;
    OnlyResponses(cfg, s, c);
    NobodyAsked(c);
  }

  /** If somebody is held, a client failed in the barrier's round that has fewer rounds. */
  lemma {:induction false} HeldBack(cfg: Config, s: State, d: int)
    requires ValidConfig(cfg) && BarrierInv(cfg, s) && Hung(cfg, s) && d in s.held
    ensures |s.round| == |cfg.total| && !Harmless(cfg, s)
  {
    hide Full, Times, Released, Outstanding, Asked, Stocked, Counted, Ledger;
    TimesMember(s.held, d);
    OnlyResponses(cfg, s, d);
    HeldExists(cfg, s, d);
    var B := s.barrierRound;
    assert s.round[d] == B + 1 < cfg.total[d];
    if forall e :: 0 <= e < |cfg.total| ==> (s.round[e] > B <==> cfg.total[e] > B) {
      AboveSame(s.round, cfg.total, B);
      AboveZero(cfg.total, B);
      assert false;
    } else {
      var e :| 0 <= e < |cfg.total| && !(s.round[e] > B <==> cfg.total[e] > B);
      SettledUnlessHeld(cfg, s, e);
      assert e in s.failed && s.round[e] == B;
    }
  }

  lemma {:induction false} HeldExists(cfg: Config, s: State, d: int)
    requires Safe(cfg, s) && Times(s.held, d) > 0
    ensures Active(cfg, s, d) && s.held != [] && cfg.barrier
  {
    hide Times, Asked;
    ReleasedFacts(cfg, s, d);
    TimesMember(s.held, d);
  }

  /** At rest the progress bar is full, and the handler has left, if and only if the failures were
      harmless and a request may be in flight at all (or there is no client); otherwise both threads
      poll for ever. When it is full the sender has left too, unless it is blocked by responses that
      the handler left behind or by having no room. */
  lemma {:induction false} HangsExactly(cfg: Config, run: seq<Step>)
    requires ValidConfig(cfg) && Run(cfg, run).Some? && !CanProgress(cfg, Run(cfg, run).value)
    ensures var s := Run(cfg, run).value; var room := cfg.maxParallel >= 1;
      && |s.round| == |cfg.total|
      && (Full(cfg, s) <==> Harmless(cfg, s) && (room || cfg.total == []))
      && (if Full(cfg, s) then Ended(cfg, s) || Blocked(cfg, s) else if room then Hung(cfg, s) else Starved(cfg, s))
      && (Full(cfg, s) && s.responses == [] ==> if room then Ended(cfg, s) else Blocked(cfg, s))
  {
    hide Run, CanProgress, Full, Harmless, OneEach, Stocked, Separated, Tallied, Ledger;
    var s := Run(cfg, run).value;
    RunBarrier(cfg, run);
    SafeShape(cfg, s);
    RestIs(cfg, s);
    if Full(cfg, s) { FullIsHarmless(cfg, s); }
    if Harmless(cfg, s) { HarmlessIsFull(cfg, s); }
    if cfg.maxParallel < 1 { NoRoomRests(cfg, run); }
  }

  /** With no room for a request the bar is full only if there is nothing to send. */
  lemma {:induction false} NoRoomRests(cfg: Config, run: seq<Step>)
    requires ValidConfig(cfg) && cfg.maxParallel < 1 && Run(cfg, run).Some?
    ensures var s := Run(cfg, run).value;
      && |s.round| == |cfg.total| && Harmless(cfg, s) && s.sender.Polling?
      && (Full(cfg, s) <==> cfg.total == []) && (Hung(cfg, s) ==> Starved(cfg, s))
  {
    hide Run, Safe, Full;
    var s := Run(cfg, run).value;
    NoRoomNoRun(cfg, run);
    RunSafe(cfg, run);
    SafeShape(cfg, s);
    NoClientsFull(cfg, s);
  }

  lemma {:induction false} NoClientsFull(cfg: Config, s: State)
    requires ValidConfig(cfg) && Untouched(cfg, s) && Safe(cfg, s)
    ensures Full(cfg, s) <==> cfg.total == []
  {
    hide OneEach, Stocked, Need, Full;
    FullExactly(cfg, s);
    if cfg.total == [] {
      assert Full(cfg, s) by { EmptyFull(cfg, s); }
    }
  }

  lemma {:induction false} EmptyFull(cfg: Config, s: State)
    requires cfg.total == [] && s.pbar == 0
    ensures Full(cfg, s)
  {
  }

  /** Once hung or starved the driver stays so, whatever happens next. */
  lemma {:induction false} HungForever(cfg: Config, run: seq<Step>, more: seq<Step>)
    requires Run(cfg, run).Some? && Run(cfg, run + more).Some?
    ensures var s, s' := Run(cfg, run).value, Run(cfg, run + more).value;
      && (Hung(cfg, s) ==> Hung(cfg, s') && s'.round == s.round)
      && (Starved(cfg, s) ==> Starved(cfg, s') && s'.round == s.round)
    decreases |more|
  {
    if more == [] {
      assert run + more == run;
    } else {
      var n := |more| - 1;
      assert (run + more)[..|run| + n] == run + more[..n] && (run + more)[|run| + n] == more[n];
      HungForever(cfg, run, more[..n]);
      hide Full, Hung, Starved;
      HungStep(cfg, Run(cfg, run + more[..n]).value, more[n]);
    }
  }

  lemma {:induction false} HungStep(cfg: Config, s: State, a: Step)
    requires Enabled(cfg, s, a)
    ensures Hung(cfg, s) ==> Hung(cfg, Apply(cfg, s, a)) && Apply(cfg, s, a).round == s.round
    ensures Starved(cfg, s) ==> Starved(cfg, Apply(cfg, s, a)) && Apply(cfg, s, a).round == s.round
  {
    hide Sum;
  }

  // ----- witnesses

  lemma {:induction false} RunFirst(cfg: Config)
    ensures Run(cfg, []) == Some(Init(cfg))
  {
  }

  lemma {:induction false} RunNext(cfg: Config, run: seq<Step>, s: State, a: Step, s': State)
    requires Run(cfg, run) == Some(s) && Enabled(cfg, s, a) && s' == Apply(cfg, s, a)
    ensures Run(cfg, run + [a]) == Some(s')
  {
    assert (run + [a])[..|run|] == run;
  }

  /** One request sent, for a single client. */
  lemma {:induction false} FirstSent(cfg: Config) returns (s: State)
    requires |cfg.total| == 1 && cfg.total[0] >= 1 && cfg.maxParallel == 1
    ensures Run(cfg, [SenderCheck, SenderPop(0), SenderStart]) == Some(s)
    ensures s.ready == [] && s.inFlight == multiset{0} && s.responses == [] && s.finishing.None? && s.sender == Testing
    ensures s.handler == Waiting && s.round == [0] && s.pbar == 0 && s.sent == 1 && s.completed == 0 && s.failed == {}
  {
    var s0 := Init(cfg);
    assert s0.ready == [0] && s0.round == [0];
    hide Run, Need, Init;
    assert Run(cfg, []) == Some(s0) by { RunFirst(cfg); }
    var s1 := Apply(cfg, s0, SenderCheck);
    RunNext(cfg, [], s0, SenderCheck, s1);
    assert [] + [SenderCheck] == [SenderCheck] && [SenderCheck] + [SenderPop(0)] == [SenderCheck, SenderPop(0)];
    assert [SenderCheck, SenderPop(0)] + [SenderStart] == [SenderCheck, SenderPop(0), SenderStart];
    var s2 := Apply(cfg, s1, SenderPop(0));
    assert s2.ready == [];
    RunNext(cfg, [SenderCheck], s1, SenderPop(0), s2);
    s := Apply(cfg, s2, SenderStart);
    RunNext(cfg, [SenderCheck, SenderPop(0)], s2, SenderStart, s);
  }

  /** The request of the only client fails, and the failure is handled. */
  lemma {:induction false} FailsNext(cfg: Config, run: seq<Step>, s: State) returns (t: State)
    requires Run(cfg, run) == Some(s) && s.inFlight == multiset{0} && s.finishing.None? && s.responses == [] &&
      s.handler.Waiting?
    ensures Run(cfg, run + [TaskCounts(0, false), TaskPuts, HandlerGet, HandlerFail]) == Some(t)
    ensures t.inFlight == multiset{} && t.finishing.None? && t.responses == [] && t.handler.Waiting? &&
      t.pbar == s.pbar + 1
    ensures t.ready == s.ready && t.sender == s.sender && t.round == s.round
  {
    hide Run, Full;
    var s1 := Apply(cfg, s, TaskCounts(0, false));
    RunNext(cfg, run, s, TaskCounts(0, false), s1);
    var s2 := Apply(cfg, s1, TaskPuts);
    RunNext(cfg, run + [TaskCounts(0, false)], s1, TaskPuts, s2);
    var s3 := Apply(cfg, s2, HandlerGet);
    RunNext(cfg, run + [TaskCounts(0, false)] + [TaskPuts], s2, HandlerGet, s3);
    t := Apply(cfg, s3, HandlerFail);
    RunNext(cfg, run + [TaskCounts(0, false)] + [TaskPuts] + [HandlerGet], s3, HandlerFail, t);
    assert run + [TaskCounts(0, false)] + [TaskPuts] + [HandlerGet] + [HandlerFail]
      == run + [TaskCounts(0, false), TaskPuts, HandlerGet, HandlerFail];
  }

  const FAILING := [SenderCheck, SenderPop(0), SenderStart] + [TaskCounts(0, false), TaskPuts, HandlerGet, HandlerFail]

  /** A client with two rounds whose first request fails: the driver waits for ever for the second. */
  lemma {:induction false} FailureWitness(more: seq<Step>)
    ensures var cfg := Config([2], 2, 1, false);
      && ValidConfig(cfg) && Run(cfg, FAILING).Some? && Hung(cfg, Run(cfg, FAILING).value)
      && (Run(cfg, FAILING + more).Some? ==>
            !Full(cfg, Run(cfg, FAILING + more).value) && Run(cfg, FAILING + more).value.round == [0])
  {
    var cfg := Config([2], 2, 1, false);
    SumOne(2);
    hide Run, Sum;
    var s := FirstSent(cfg);
    var t := FailsNext(cfg, [SenderCheck, SenderPop(0), SenderStart], s);
    assert Hung(cfg, t);
    if Run(cfg, FAILING + more).Some? { HungForever(cfg, FAILING, more); }
  }

  lemma {:induction false} SumOne(n: int)
    ensures Sum([n]) == n
  {
    assert [n][..0] == [];
  }

  /** The handler times out, the request is counted, the handler leaves, and the response is put. */
  lemma {:induction false} RacesNext(cfg: Config, run: seq<Step>, s: State) returns (t: State)
    requires Run(cfg, run) == Some(s) && s.inFlight == multiset{0} && s.finishing.None? && s.responses == []
    requires s.handler.Waiting? && s.sender.Testing? && s.pbar == 0 && Sum(cfg.total) == 1
    ensures Run(cfg, run + [SenderTest, HandlerTimeout, TaskCounts(0, true), HandlerTest, TaskPuts]) == Some(t)
    ensures t.inFlight == multiset{} && t.finishing.None? && t.responses == [Response(0, true)] &&
      t.handler.HandlerLeft?
    ensures t.pbar == 1 && t.sender.Polling?
    ensures t.ready == s.ready && t.round == s.round && t.failed == s.failed && t.sent == s.sent &&
      t.completed == s.completed
  {
    hide Run, Sum;
    var s1 := Apply(cfg, s, SenderTest);
    RunNext(cfg, run, s, SenderTest, s1);
    var s2 := Apply(cfg, s1, HandlerTimeout);
    RunNext(cfg, run + [SenderTest], s1, HandlerTimeout, s2);
    var s3 := Apply(cfg, s2, TaskCounts(0, true));
    RunNext(cfg, run + [SenderTest] + [HandlerTimeout], s2, TaskCounts(0, true), s3);
    var s4 := Apply(cfg, s3, HandlerTest);
    RunNext(cfg, run + [SenderTest] + [HandlerTimeout] + [TaskCounts(0, true)], s3, HandlerTest, s4);
    t := Apply(cfg, s4, TaskPuts);
    RunNext(cfg, run + [SenderTest] + [HandlerTimeout] + [TaskCounts(0, true)] + [HandlerTest], s4, TaskPuts, t);
    assert run + [SenderTest] + [HandlerTimeout] + [TaskCounts(0, true)] + [HandlerTest] + [TaskPuts]
      == run + [SenderTest, HandlerTimeout, TaskCounts(0, true), HandlerTest, TaskPuts];
  }

  const RACING :=
    [SenderCheck, SenderPop(0), SenderStart] + [SenderTest, HandlerTimeout, TaskCounts(0, true), HandlerTest, TaskPuts]

  /** A handler that times out just before the last request is counted leaves before its response is
      put: the round is never recorded although nothing failed, and with room for one request the
      sender waits for ever. */
  lemma {:induction false} LostResponseWitness()
    ensures var cfg := Config([1], 1, 1, false);
      && ValidConfig(cfg) && Run(cfg, RACING).Some?
      && var s := Run(cfg, RACING).value;
         && s.failed == {} && s.round == [0] != cfg.total && s.responses == [Response(0, true)] && Blocked(cfg, s)
         && forall a :: !Enabled(cfg, s, a)
  {
    var cfg := Config([1], 1, 1, false);
    SumOne(1);
    hide Run, Sum;
    var s := FirstSent(cfg);
    var t := RacesNext(cfg, [SenderCheck, SenderPop(0), SenderStart], s);
    assert Blocked(cfg, t);
  }
  /** A single client and `--max-parallel 0`: nothing fails and nothing is ever sent. */
  lemma {:induction false} NoRoomWitness(more: seq<Step>)
    ensures var cfg := Config([1], 1, 0, false);
      && ValidConfig(cfg) && Starved(cfg, Init(cfg))
      && (Run(cfg, more).Some? ==> Starved(cfg, Run(cfg, more).value) && Run(cfg, more).value.round == [0])
  {
    var cfg := Config([1], 1, 0, false);
    SumOne(1);
    assert Run(cfg, []) == Some(Init(cfg));
    hide Run, Sum;
    assert [] + more == more;
    assert Starved(cfg, Init(cfg));
    if Run(cfg, more).Some? { HungForever(cfg, [], more); }
  }
}
