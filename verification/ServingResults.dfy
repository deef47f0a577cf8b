/** What the serving benchmark has sent and measured. */
module ServingResults {
  import opened Prelude
  import opened Counting
  import opened Serving
  import opened ServingSafety

  /** Input lengths and real output lengths of the first `k` turns. */
  function Context(ts: seq<Turn>, replies: seq<Reply>, k: nat): int
    requires k <= |replies| <= |ts|
  {
    if k == 0 then 0 else Context(ts, replies, k - 1) + ts[k - 1].inputLen + replies[k - 1].outputLen
  }

  lemma {:induction false} SpentIsContext(ts: seq<Turn>, replies: seq<Reply>, k: nat)
    requires k <= |replies| <= |ts|
    ensures Spent(Updated(ts, replies), k) == Context(ts, replies, k)
  {
    if k > 0 { SpentIsContext(ts, replies, k - 1); }
  }

  lemma {:induction false} ContextExtends(ts: seq<Turn>, replies: seq<Reply>, r: Reply, k: nat)
    requires k <= |replies| < |ts|
    ensures Context(ts, replies + [r], k) == Context(ts, replies, k)
  {
    if k > 0 { ContextExtends(ts, replies, r, k - 1); }
  }

  /** The turns of conversation `c` that were sent, in order. */
  function TurnsOf(sent: seq<Sent>, c: int): seq<int> {
    if sent == [] then []
    else TurnsOf(sent[..|sent| - 1], c) + if sent[|sent| - 1].conversation == c then [sent[|sent| - 1].turn] else []
  }

  function FirstTurns(n: nat): seq<int> { if n == 0 then [] else FirstTurns(n - 1) + [n - 1] }

  function Started(s: State, c: int): nat
    requires 0 <= c < |s.replies|
  {
    |s.replies[c]| + if s.running[c] > 0 || c in s.failed then 1 else 0
  }

  /** The entry's prompt length is the real length of everything said before plus the new input. */
  ghost predicate Measured(cfg: Config, s: State, e: Sent)
    requires Sizes(cfg, s)
  {
    var c, k := e.conversation, e.turn;
    && 0 <= c < |cfg.requests| && 0 <= k <= |s.replies[c]| <= |cfg.requests[c]| && k < |cfg.requests[c]|
    && e.promptLen == Context(cfg.requests[c], s.replies[c], k) + cfg.requests[c][k].inputLen
  }

  ghost predicate LogOk(cfg: Config, s: State)
    requires Sizes(cfg, s)
  {
    && (forall i :: 0 <= i < |s.sent| ==> Measured(cfg, s, s.sent[i]))
    && (forall c :: 0 <= c < |cfg.requests| ==> TurnsOf(s.sent, c) == FirstTurns(Started(s, c)))
  }

  lemma {:induction false} BeginLog(cfg: Config, s: State, d: int)
    requires ValidConfig(cfg) && Inv(cfg, s) && LogOk(cfg, s) && Enabled(cfg, s, Begin(d))
    ensures var s' := Apply(cfg, s, Begin(d)); Sizes(cfg, s') && LogOk(cfg, s')
  {
    hide Total, OnePlace, FirstTurns, Dialogue;
    TurnExists(cfg, s, d);
    Somewhere(cfg, s, d);
    var s', n := Apply(cfg, s, Begin(d)), |s.replies[d]|;
    SpentIsContext(cfg.requests[d], s.replies[d], n);
    assert Consistent(cfg.requests[d], s.replies[d], s.convs[d], false, false);
    assert Measured(cfg, s', s'.sent[|s.sent|]);
    hide Context, Spent, Consistent;
    assert s'.sent[..|s.sent|] == s.sent;
    forall c | 0 <= c < |cfg.requests| ensures TurnsOf(s'.sent, c) == FirstTurns(Started(s', c)) {
      assert TurnsOf(s.sent, c) == FirstTurns(Started(s, c));
      FirstTurnsNext(n);
    }
    forall i | 0 <= i < |s.sent| ensures Measured(cfg, s', s'.sent[i]) { assert Measured(cfg, s, s.sent[i]); }
  }

  lemma {:induction false} FirstTurnsNext(n: nat)
    ensures FirstTurns(n + 1) == FirstTurns(n) + [n]
  {
  }

  lemma {:induction false} SucceedLog(cfg: Config, s: State, d: int, reply: Reply)
    requires ValidConfig(cfg) && Inv(cfg, s) && LogOk(cfg, s) && Enabled(cfg, s, Succeed(d, reply))
    ensures var s' := Apply(cfg, s, Succeed(d, reply)); Sizes(cfg, s') && LogOk(cfg, s')
  {
    hide Total, OnePlace, FirstTurns, TurnsOf, Dialogue, Answered, Context;
    TurnExists(cfg, s, d);
    Somewhere(cfg, s, d);
    var s' := Apply(cfg, s, Succeed(d, reply));
    forall i | 0 <= i < |s.sent| ensures Measured(cfg, s', s'.sent[i]) {
      assert Measured(cfg, s, s.sent[i]);
      if s.sent[i].conversation == d { ContextExtends(cfg.requests[d], s.replies[d], reply, s.sent[i].turn); }
    }
    forall c | 0 <= c < |cfg.requests| ensures TurnsOf(s'.sent, c) == FirstTurns(Started(s', c)) {
      assert TurnsOf(s.sent, c) == FirstTurns(Started(s, c));
    }
  }

  /** Steps that answer nothing and send nothing leave the log right if they start nothing. */
  lemma {:induction false} SameLog(cfg: Config, s: State, s': State)
    requires Sizes(cfg, s) && Sizes(cfg, s') && LogOk(cfg, s) && s'.replies == s.replies && s'.sent == s.sent
    requires forall c :: 0 <= c < |cfg.requests| ==> Started(s', c) == Started(s, c)
    ensures LogOk(cfg, s')
  {
    hide FirstTurns, TurnsOf, Context, Started;
    forall i | 0 <= i < |s.sent| ensures Measured(cfg, s', s'.sent[i]) { assert Measured(cfg, s, s.sent[i]); }
    forall c | 0 <= c < |cfg.requests| ensures TurnsOf(s'.sent, c) == FirstTurns(Started(s', c)) {
      assert TurnsOf(s.sent, c) == FirstTurns(Started(s, c));
    }
  }

  lemma {:induction false} OtherLog(cfg: Config, s: State, a: Step)
    requires ValidConfig(cfg) && Inv(cfg, s) && LogOk(cfg, s) && Enabled(cfg, s, a) && !a.Begin? && !a.Succeed?
    ensures var s' := Apply(cfg, s, a); Sizes(cfg, s') && LogOk(cfg, s')
  {
    hide Total, OnePlace, LogOk, Consistent, Conversing, Counts;
    if a.Fail? {
      FailStarted(cfg, s, a.conv);
    }
    SameLog(cfg, s, Apply(cfg, s, a));
  }

  lemma {:induction false} FailStarted(cfg: Config, s: State, d: int)
    requires ValidConfig(cfg) && Inv(cfg, s) && Enabled(cfg, s, Fail(d))
    ensures forall c :: 0 <= c < |cfg.requests| ==> Started(Apply(cfg, s, Fail(d)), c) == Started(s, c)
  {
    hide OnePlace, Consistent, Conversing, Counts;
    TurnExists(cfg, s, d);
    Somewhere(cfg, s, d);
  }

  /** In every run the turns of each conversation are sent once each and in order, each with a
      prompt length built from the real lengths of all earlier exchanges. */
  lemma {:induction false} RunLog(cfg: Config, run: seq<Step>)
    requires ValidConfig(cfg) && Run(cfg, run).Some?
    ensures Sizes(cfg, Run(cfg, run).value) && LogOk(cfg, Run(cfg, run).value)
  {
    hide Inv, Apply, Enabled, LogOk;
    if run == [] {
      InitLog(cfg);
    } else {
      var n := |run| - 1;
      var s := Run(cfg, run[..n]).value;
      RunLog(cfg, run[..n]);
      RunInv(cfg, run[..n]);
      match run[n] {
        case Begin(d) => BeginLog(cfg, s, d);
        case Succeed(d, reply) => SucceedLog(cfg, s, d, reply);
        case _ => OtherLog(cfg, s, run[n]);
      }
    }
  }

  lemma {:induction false} InitLog(cfg: Config)
    ensures Sizes(cfg, Init(cfg)) && LogOk(cfg, Init(cfg))
  {
  }

  lemma {:induction false} TimesTwice(s: seq<int>, i: nat, j: nat)
    requires i < j < |s| && s[i] == s[j]
    ensures Times(s, s[i]) >= 2
  {
    TimesRemove(s, j, s[i]);
    TimesMember(s[..j] + s[j + 1..], s[i]);
    assert (s[..j] + s[j + 1..])[i] == s[i];
  }

  /** Putting a conversation back never blocks: the queue always has room for it. */
  lemma {:induction false} PutBackNeverBlocks(cfg: Config, s: State, c: int)
    requires Inv(cfg, s) && c in s.putting
    ensures Enabled(cfg, s, PutBack(c))
  {
    hide Times, Conversing, Counts;
    Somewhere(cfg, s, c);
    var q := s.queue + [c];
    forall i | 0 <= i < |s.queue| ensures 0 <= s.queue[i] < |cfg.requests| && s.queue[i] != c {
      TimesMember(s.queue, s.queue[i]);
      assert s.queue[i] in s.queue;
      Somewhere(cfg, s, s.queue[i]);
    }
    forall i, j | 0 <= i < j < |q| ensures q[i] != q[j] {
      if j < |s.queue| && q[i] == q[j] {
        TimesTwice(s.queue, i, j);
        Somewhere(cfg, s, q[i]);
      }
    }
    ManyDistinct(q, |cfg.requests|);
  }

  ghost predicate AtRest(cfg: Config, s: State) { forall a :: !Enabled(cfg, s, a) }

  lemma {:induction false} FetchesBounded(cfg: Config, s: State)
    requires ValidConfig(cfg) && Inv(cfg, s)
    ensures AtMost(s.fetchedOf, Lengths(cfg.requests)) && s.fetched <= Total(cfg)
    ensures s.fetched == Total(cfg) ==> s.fetchedOf == Lengths(cfg.requests)
  {
    hide Times, Sum;
    forall c | 0 <= c < |cfg.requests| ensures s.fetchedOf[c] <= |cfg.requests[c]| {
      assert Consistent(cfg.requests[c], s.replies[c], s.convs[c], s.running[c] > 0, c in s.failed);
      if s.waiting[c] + s.running[c] > 0 { TurnExists(cfg, s, c); }
    }
    SumMonotone(s.fetchedOf, Lengths(cfg.requests));
  }

  /** No task can be left over when nothing more can happen. */
  lemma {:induction false} RestMeansNoTasks(cfg: Config, s: State)
    requires ValidConfig(cfg) && Inv(cfg, s) && AtRest(cfg, s)
    ensures s.waiting == s.running == s.putting == multiset{}
  {
    hide OnePlace, Conversing, Counts, Total, AtRest;
    if s.putting != multiset{} {
      var c := SomeInBag(s.putting);
      PutBackNeverBlocks(cfg, s, c);
      Resting(cfg, s, PutBack(c));
    }
    if s.running != multiset{} {
      var c := SomeInBag(s.running);
      Resting(cfg, s, Fail(c));
    }
    if s.waiting != multiset{} {
      var c := SomeInBag(s.waiting);
      TurnExists(cfg, s, c);
      Resting(cfg, s, Begin(c));
    }
  }

  lemma {:induction false} Resting(cfg: Config, s: State, a: Step)
    requires AtRest(cfg, s)
    ensures !Enabled(cfg, s, a)
  {
  }

  lemma {:induction false} RestMeansOver(cfg: Config, s: State, c: int)
    requires ValidConfig(cfg) && Inv(cfg, s) && AtRest(cfg, s) && 0 <= c < |cfg.requests|
    ensures c in s.over
  {
    hide Times, Sum;
    RestMeansNoTasks(cfg, s);
    assert Places(s, c) == 1;
    TimesMember(s.queue, c);
    Resting(cfg, s, Fetch);
    FetchesBounded(cfg, s);
    assert s.fetchedOf == Lengths(cfg.requests) ==> s.fetchedOf[c] == |cfg.requests[c]|;
  }

  /** When the run has come to rest, exactly the total number of turns was fetched if and only if
      every failure hit the last turn of its conversation; with no failure every conversation is
      complete. */
  lemma {:induction false} FetchTotals(cfg: Config, run: seq<Step>)
    requires ValidConfig(cfg) && Run(cfg, run).Some? && AtRest(cfg, Run(cfg, run).value)
    ensures var s := Run(cfg, run).value;
      && Sizes(cfg, s) && s.queue == []
      && (s.fetched == Total(cfg) <==> forall c :: c in s.failed && 0 <= c < |cfg.requests| ==>
           |s.replies[c]| + 1 == |cfg.requests[c]|)
      && (s.failed == {} ==> s.fetched == Total(cfg) && forall c :: 0 <= c < |cfg.requests| ==>
           |s.replies[c]| == |cfg.requests[c]|)
  {
    hide Run, Places, Sum, Consistent;
    var s := Run(cfg, run).value;
    RunInv(cfg, run);
    FetchesBounded(cfg, s);
    RestMeansNoTasks(cfg, s);
    forall c | 0 <= c < |cfg.requests| ensures c in s.over { RestMeansOver(cfg, s, c); }
    assert s.queue == [] by { RestMeansEmpty(cfg, s); }
    assert forall c :: 0 <= c < |cfg.requests| ==>
      s.fetchedOf[c] == if c in s.failed then |s.replies[c]| + 1 else |cfg.requests[c]|;
    if forall c :: c in s.failed && 0 <= c < |cfg.requests| ==> |s.replies[c]| + 1 == |cfg.requests[c]| {
      assert s.fetchedOf == Lengths(cfg.requests);
    }
  }

  lemma {:induction false} RestMeansEmpty(cfg: Config, s: State)
    requires Inv(cfg, s) && forall c :: 0 <= c < |cfg.requests| ==> c in s.over
    ensures s.queue == []
  {
    if s.queue != [] {
      Head(s.queue);
      Somewhere(cfg, s, s.queue[0]);
    }
  }

  /** Steps still to come: four per turn not yet fetched, and the rest of each turn under way. */
  function Work(cfg: Config, s: State): int {
    4 * (Total(cfg) - s.fetched) + 3 * |s.waiting| + 2 * |s.running| + |s.putting|
  }

  lemma {:induction false} StepWork(cfg: Config, s: State, a: Step)
    requires Sizes(cfg, s) && Enabled(cfg, s, a)
    ensures Work(cfg, Apply(cfg, s, a)) < Work(cfg, s)
  {
    hide Total, Spent, Answered;
  }

  lemma {:induction false} RunWork(cfg: Config, run: seq<Step>)
    requires ValidConfig(cfg) && Run(cfg, run).Some?
    ensures |run| + Work(cfg, Run(cfg, run).value) <= 4 * Total(cfg)
  {
    hide Work, Apply, Enabled, Total, Inv;
    if run == [] {
      InitWork(cfg);
    } else {
      var s := Run(cfg, run[..|run| - 1]).value;
      RunWork(cfg, run[..|run| - 1]);
      RunInv(cfg, run[..|run| - 1]);
      assert Sizes(cfg, s) by { InvSizes(cfg, s); }
      StepWork(cfg, s, run[|run| - 1]);
    }
  }

  lemma {:induction false} InitWork(cfg: Config)
    ensures Work(cfg, Init(cfg)) == 4 * Total(cfg)
  {
    hide Total;
  }

  lemma {:induction false} InvSizes(cfg: Config, s: State)
    requires Inv(cfg, s)
    ensures Sizes(cfg, s)
  {
  }

  /** Every run ends: it takes at most four steps for each turn there is. */
  lemma {:induction false} RunsAreBounded(cfg: Config, run: seq<Step>)
    requires ValidConfig(cfg) && Run(cfg, run).Some?
    ensures |run| <= 4 * Total(cfg)
  {
    hide Run, Total, Sum, OnePlace, Conversing;
    RunWork(cfg, run);
    RunInv(cfg, run);
    FetchesBounded(cfg, Run(cfg, run).value);
  }

  lemma {:induction false} RunNext(cfg: Config, run: seq<Step>, s: State, a: Step, s': State)
    requires Run(cfg, run) == Some(s) && Sizes(cfg, s) && Enabled(cfg, s, a) && s' == Apply(cfg, s, a)
    ensures Run(cfg, run + [a]) == Some(s')
  {
    assert (run + [a])[..|run|] == run;
  }

  lemma {:induction false} OneConversation(cfg: Config)
    requires |cfg.requests| == 1
    ensures var s := Init(cfg);
      Run(cfg, []) == Some(s) && Sizes(cfg, s) && s.queue == [0] && s.convs == [Conversation(cfg.requests[0], [], 0)]
    ensures Total(cfg) == |cfg.requests[0]|
  {
    var n := Lengths(cfg.requests);
    assert n[..0] == [];
    assert Sum(n) == Sum(n[..0]) + n[0];
  }

  /** The first turn of the only conversation is fetched, sent, and fails. */
  lemma {:induction false} FirstTurnFails(cfg: Config) returns (t: State)
    requires |cfg.requests| == 1 && cfg.requests[0] != [] && cfg.limit.None?
    ensures Run(cfg, [Fetch, Begin(0), Fail(0)]) == Some(t)
    ensures t.queue == [] && t.waiting == t.running == t.putting == multiset{} && t.fetched == 1
  {
    OneConversation(cfg);
    FreshStart(cfg);
    hide Run, Total, Init, Spent;
    var s := Init(cfg);
    var s1 := Apply(cfg, s, Fetch);
    RunNext(cfg, [], s, Fetch, s1);
    assert [] + [Fetch] == [Fetch];
    var s2 := Apply(cfg, s1, Begin(0));
    RunNext(cfg, [Fetch], s1, Begin(0), s2);
    assert [Fetch] + [Begin(0)] == [Fetch, Begin(0)];
    t := Apply(cfg, s2, Fail(0));
    RunNext(cfg, [Fetch, Begin(0)], s2, Fail(0), t);
    assert [Fetch, Begin(0)] + [Fail(0)] == [Fetch, Begin(0), Fail(0)];
  }

  lemma {:induction false} NothingLeft(cfg: Config, s: State)
    requires s.queue == [] && s.waiting == s.running == s.putting == multiset{}
    ensures AtRest(cfg, s)
  {
    hide Total;
  }

  /** A conversation of two turns whose first turn fails: everything is at rest after one fetch, and
      the fetch loop, which wants two, waits until it times out. */
  lemma {:induction false} FetchWitness()
    ensures var cfg := Config([[Turn("a", 1, 1), Turn("b", 1, 1)]], None);
      && ValidConfig(cfg) && Run(cfg, [Fetch, Begin(0), Fail(0)]).Some?
      && var s := Run(cfg, [Fetch, Begin(0), Fail(0)]).value;
         AtRest(cfg, s) && s.fetched == 1 && Total(cfg) == 2
  {
    hide Run, Total, AtRest, Init;
    var cfg := Config([[Turn("a", 1, 1), Turn("b", 1, 1)]], None);
    OneConversation(cfg);
    var t := FirstTurnFails(cfg);
    NothingLeft(cfg, t);
  }

  lemma {:induction false} FreshStart(cfg: Config)
    ensures var s := Init(cfg); s.waiting == s.running == s.putting == multiset{} && s.fetched == 0
  {
  }
}
