/** What every run of the serving benchmark keeps, whatever the order of completions and with any
    failures. */
module ServingSafety {
  import opened Counting
  import opened Serving

  lemma {:induction false} StepPlaces(cfg: Config, s: State, a: Step, c: int)
    requires Sizes(cfg, s) && OnePlace(cfg, s) && Enabled(cfg, s, a)
    ensures Places(Apply(cfg, s, a), c) == Places(s, c)
  {
    hide Places, Apply, OnePlace, Enabled;
    match a {
      case Fetch => FetchPlaces(cfg, s, c);
      case PutBack(d) => PutPlaces(cfg, s, d, c);
      case _ => AnswerPlaces(cfg, s, a, c);
    }
  }

  lemma {:induction false} FetchPlaces(cfg: Config, s: State, c: int)
    requires Sizes(cfg, s) && Enabled(cfg, s, Fetch)
    ensures Places(Apply(cfg, s, Fetch), c) == Places(s, c)
  {
    hide Times, Total;
    TimesRemove(s.queue, 0, c);
    assert s.queue[..0] + s.queue[1..] == s.queue[1..];
  }

  lemma {:induction false} PutPlaces(cfg: Config, s: State, d: int, c: int)
    requires Sizes(cfg, s) && Enabled(cfg, s, PutBack(d))
    ensures Places(Apply(cfg, s, PutBack(d)), c) == Places(s, c)
  {
    hide Times;
    TimesSnoc(s.queue, d, c);
  }

  lemma {:induction false} AnswerPlaces(cfg: Config, s: State, a: Step, c: int)
    requires Sizes(cfg, s) && OnePlace(cfg, s) && Enabled(cfg, s, a) && (a.Begin? || a.Succeed? || a.Fail?)
    ensures Places(Apply(cfg, s, a), c) == Places(s, c)
  {
    hide Times, Spent, Answered;
    assert Places(s, c) == if 0 <= c < |cfg.requests| then 1 else 0;
  }

  lemma {:induction false} StepOnePlace(cfg: Config, s: State, a: Step)
    requires Sizes(cfg, s) && OnePlace(cfg, s) && Enabled(cfg, s, a)
    ensures Sizes(cfg, Apply(cfg, s, a)) && OnePlace(cfg, Apply(cfg, s, a))
  {
    hide Places, Total, Spent;
    forall c ensures Places(Apply(cfg, s, a), c) == if 0 <= c < |cfg.requests| then 1 else 0 {
      StepPlaces(cfg, s, a, c);
      assert Places(s, c) == if 0 <= c < |cfg.requests| then 1 else 0;
    }
  }

  /** A conversation that is queued, waiting, running or being put back exists, is not over, and
      is nowhere else. */
  lemma {:induction false} Somewhere(cfg: Config, s: State, c: int)
    requires OnePlace(cfg, s) && Times(s.queue, c) + s.waiting[c] + s.running[c] + s.putting[c] > 0
    ensures 0 <= c < |cfg.requests| && c !in s.over
    ensures Times(s.queue, c) + s.waiting[c] + s.running[c] + s.putting[c] == 1
  {
    assert Places(s, c) == if 0 <= c < |cfg.requests| then 1 else 0;
  }

  lemma {:induction false} Head(s: seq<int>)
    requires s != []
    ensures Times(s, s[0]) > 0
  {
    TimesMember(s, s[0]);
  }

  lemma {:induction false} FetchConversing(cfg: Config, s: State)
    requires Inv(cfg, s) && Enabled(cfg, s, Fetch)
    ensures var s' := Apply(cfg, s, Fetch); Sizes(cfg, s') && Conversing(cfg, s') && Counts(cfg, s')
  {
    hide Times, Total, Consistent, OnePlace, Sum;
    var d := s.queue[0];
    Head(s.queue);
    Somewhere(cfg, s, d);
    SumUpdate(s.fetchedOf, d, s.fetchedOf[d] + 1);
  }

  /** The current turn exists for every conversation that is not over. */
  lemma {:induction false} TurnExists(cfg: Config, s: State, c: int)
    requires ValidConfig(cfg) && Inv(cfg, s) && s.waiting[c] + s.running[c] > 0
    ensures 0 <= c < |cfg.requests| && c !in s.over && |s.replies[c]| < |cfg.requests[c]|
    ensures s.convs[c].finished == |s.replies[c]| < |s.convs[c].prompts| == |cfg.requests[c]|
  {
    hide Times, Total, Sum;
    Somewhere(cfg, s, c);
  }

  lemma {:induction false} BeginConversing(cfg: Config, s: State, d: int)
    requires ValidConfig(cfg) && Inv(cfg, s) && Enabled(cfg, s, Begin(d))
    ensures var s' := Apply(cfg, s, Begin(d)); Sizes(cfg, s') && Conversing(cfg, s') && Counts(cfg, s')
  {
    hide Times, Total, Sum, Spent, Dialogue, OnePlace;
    TurnExists(cfg, s, d);
    Somewhere(cfg, s, d);
    var s' := Apply(cfg, s, Begin(d));
    assert Consistent(cfg.requests[d], s.replies[d], s.convs[d], false, false);
    assert Consistent(cfg.requests[d], s.replies[d], s'.convs[d], true, false);
  }

  /** A successful answer extends the dialogue by one exchange. */
  lemma {:induction false} AnsweredConsistent(ts: seq<Turn>, replies: seq<Reply>, v: Conversation, reply: Reply)
    requires Consistent(ts, replies, v, true, false)
    ensures Consistent(ts, replies + [reply], Answered(v, reply), false, false)
  {
    var n := |replies|;
    assert (replies + [reply])[..n] == replies;
    assert Answered(v, reply).prompts == Updated(ts, replies + [reply]);
    assert Dialogue(ts, replies) + [User(ts[n].prompt)] + [Assistant(reply.text)] ==
      Dialogue(ts, replies) + [User(ts[n].prompt), Assistant(reply.text)];
  }

  lemma {:induction false} SucceedConversing(cfg: Config, s: State, d: int, reply: Reply)
    requires ValidConfig(cfg) && Inv(cfg, s) && Enabled(cfg, s, Succeed(d, reply))
    ensures var s' := Apply(cfg, s, Succeed(d, reply)); Sizes(cfg, s') && Conversing(cfg, s') && Counts(cfg, s')
  {
    hide Times, Total, Sum, Spent, Consistent, OnePlace, Answered;
    TurnExists(cfg, s, d);
    Somewhere(cfg, s, d);
    AnsweredConsistent(cfg.requests[d], s.replies[d], s.convs[d], reply);
  }

  lemma {:induction false} FailConversing(cfg: Config, s: State, d: int)
    requires ValidConfig(cfg) && Inv(cfg, s) && Enabled(cfg, s, Fail(d))
    ensures var s' := Apply(cfg, s, Fail(d)); Sizes(cfg, s') && Conversing(cfg, s') && Counts(cfg, s')
  {
    hide Times, Total, Sum, Spent, Dialogue, OnePlace;
    TurnExists(cfg, s, d);
    Somewhere(cfg, s, d);
    assert Consistent(cfg.requests[d], s.replies[d], s.convs[d], true, false);
    assert Consistent(cfg.requests[d], s.replies[d], s.convs[d], false, true);
  }

  lemma {:induction false} StepInv(cfg: Config, s: State, a: Step)
    requires ValidConfig(cfg) && Inv(cfg, s) && Enabled(cfg, s, a)
    ensures Inv(cfg, Apply(cfg, s, a))
  {
    hide OnePlace, Conversing, Counts, Total;
    StepOnePlace(cfg, s, a);
    match a
    case Fetch => FetchConversing(cfg, s);
    case Begin(d) => BeginConversing(cfg, s, d);
    case Succeed(d, reply) => SucceedConversing(cfg, s, d, reply);
    case Fail(d) => FailConversing(cfg, s, d);
    case PutBack(d) => PutConversing(cfg, s, d);
  }

  lemma {:induction false} PutConversing(cfg: Config, s: State, d: int)
    requires Inv(cfg, s) && Enabled(cfg, s, PutBack(d))
    ensures var s' := Apply(cfg, s, PutBack(d)); Conversing(cfg, s') && Counts(cfg, s')
  {
    hide Consistent, OnePlace;
  }

  lemma {:induction false} TimesAll(n: nat, c: int)
    ensures Times(seq(n, i => i), c) == if 0 <= c < n then 1 else 0
  {
    if n > 0 {
      TimesAll(n - 1, c);
      assert seq(n, i => i)[..n - 1] == seq(n - 1, i => i);
    }
  }

  lemma {:induction false} SumOfZeros(s: seq<int>)
    requires forall i :: 0 <= i < |s| ==> s[i] == 0
    ensures Sum(s) == 0
  {
    if s != [] { SumOfZeros(s[..|s| - 1]); }
  }

  lemma {:induction false} InitInv(cfg: Config)
    requires ValidConfig(cfg)
    ensures Inv(cfg, Init(cfg))
  {
    hide Times, Sum, Total;
    var s := Init(cfg);
    forall c ensures Places(s, c) == if 0 <= c < |cfg.requests| then 1 else 0 { TimesAll(|cfg.requests|, c); }
    SumOfZeros(s.fetchedOf);
    forall c | 0 <= c < |cfg.requests| ensures Consistent(cfg.requests[c], [], s.convs[c], false, false) {
      assert Updated(cfg.requests[c], []) == cfg.requests[c];
    }
  }

  /** In every run each conversation is in exactly one place, its dialogue alternates prompts and
      replies in order, and the stored lengths are the real ones. */
  lemma {:induction false} RunInv(cfg: Config, run: seq<Step>)
    requires ValidConfig(cfg) && Run(cfg, run).Some?
    ensures Inv(cfg, Run(cfg, run).value)
  {
    hide Inv, Apply, Enabled, Init;
    if run == [] {
      InitInv(cfg);
    } else {
      RunInv(cfg, run[..|run| - 1]);
      StepInv(cfg, Run(cfg, run[..|run| - 1]).value, run[|run| - 1]);
    }
  }
}
