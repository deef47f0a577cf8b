/** benchmark/hicache/bench_serving.py: conversations served through a bounded queue. Each
    conversation is in the queue, fetched and waiting for the concurrency limit, being answered,
    waiting to be put back, or over. The steps are the actions another task can observe. */
module Serving {
  import opened Prelude
  import opened Counting

  /** (prompt, input_len, max_tokens); the last is overwritten with the real output length. */
  datatype Turn = Turn(prompt: string, inputLen: int, outputLen: int)

  datatype Message = User(content: string) | Assistant(content: string)

  /** `RequestFuncInput` */
  datatype Conversation = Conversation(prompts: seq<Turn>, messages: seq<Message>, finished: nat)

  datatype Reply = Reply(text: string, outputLen: int)

  /** One request as it was sent: conversation, turn, and the locally computed `prompt_len`. */
  datatype Sent = Sent(conversation: int, turn: int, promptLen: int)

  /** `replies`, `fetchedOf` and `failed` are history: the successful answers and the number of
      fetches per conversation, and the conversations whose request failed. */
  datatype State = State(
    convs: seq<Conversation>, queue: seq<int>,
    waiting: multiset<int>, running: multiset<int>, putting: multiset<int>, over: set<int>,
    fetched: int, sent: seq<Sent>,
    replies: seq<seq<Reply>>, fetchedOf: seq<int>, failed: set<int>)

  /** The conversations to run (none empty) and the concurrency limit, if any. */
  datatype Config = Config(requests: seq<seq<Turn>>, limit: Option<nat>)

  ghost predicate ValidConfig(cfg: Config) {
    (forall c :: 0 <= c < |cfg.requests| ==> cfg.requests[c] != []) && (cfg.limit.Some? ==> cfg.limit.value >= 1)
  }

  function Lengths(rs: seq<seq<Turn>>): (r: seq<int>)
    ensures |r| == |rs| && forall i :: 0 <= i < |r| ==> r[i] == |rs[i]|
  {
    seq(|rs|, i requires 0 <= i < |rs| => |rs[i]|)
  }

  /** `num_actual_requests` */
  function Total(cfg: Config): int { Sum(Lengths(cfg.requests)) }

  function Init(cfg: Config): State {
    var n := |cfg.requests|;
    State(seq(n, i requires 0 <= i < n => Conversation(cfg.requests[i], [], 0)), seq(n, i => i),
          multiset{}, multiset{}, multiset{}, {}, 0, [], seq(n, _ => []), seq(n, _ => 0), {})
  }

  /** Input and output lengths of the first `k` turns. */
  function Spent(ts: seq<Turn>, k: nat): int
    requires k <= |ts|
  {
    if k == 0 then 0 else Spent(ts, k - 1) + ts[k - 1].inputLen + ts[k - 1].outputLen
  }

  datatype Step =
    | Fetch
    | Begin(conv: int)
    | Succeed(conv: int, reply: Reply)
    | Fail(conv: int)
    | PutBack(conv: int)

  predicate Enabled(cfg: Config, s: State, a: Step) {
    match a
    case Fetch => s.queue != [] && s.fetched < Total(cfg)
    case Begin(c) => c in s.waiting && 0 <= c < |s.convs| && s.convs[c].finished < |s.convs[c].prompts|
                     && (cfg.limit.Some? ==> |s.running| + |s.putting| < cfg.limit.value)
    case Succeed(c, _) => c in s.running && 0 <= c < |s.convs| && s.convs[c].finished < |s.convs[c].prompts|
    case Fail(c) => c in s.running
    case PutBack(c) => c in s.putting && |s.queue| < |cfg.requests|
  }

  function Apply(cfg: Config, s: State, a: Step): State
    requires Enabled(cfg, s, a) && |s.convs| == |s.replies| == |s.fetchedOf|
  {
    match a
    case Fetch =>
      var c := s.queue[0];
      s.(queue := s.queue[1..], waiting := s.waiting + multiset{c}, fetched := s.fetched + 1,
         fetchedOf := if 0 <= c < |s.fetchedOf| then s.fetchedOf[c := s.fetchedOf[c] + 1] else s.fetchedOf)
    case Begin(c) =>
      var v := s.convs[c];
      s.(waiting := s.waiting - multiset{c}, running := s.running + multiset{c},
         convs := s.convs[c := v.(messages := v.messages + [User(v.prompts[v.finished].prompt)])],
         sent := s.sent + [Sent(c, v.finished, Spent(v.prompts, v.finished) + v.prompts[v.finished].inputLen)])
    case Succeed(c, reply) =>
      var v := Answered(s.convs[c], reply);
      var again := s.convs[c].finished + 1 < |s.convs[c].prompts|;
      s.(running := s.running - multiset{c}, convs := s.convs[c := v],
         replies := s.replies[c := s.replies[c] + [reply]],
         putting := if again then s.putting + multiset{c} else s.putting,
         over := if again then s.over else s.over + {c})
    case Fail(c) => s.(running := s.running - multiset{c}, over := s.over + {c}, failed := s.failed + {c})
    case PutBack(c) => s.(putting := s.putting - multiset{c}, queue := s.queue + [c])
  }

  /** The conversation after a successful answer to its current turn. */
  function Answered(v: Conversation, reply: Reply): Conversation
    requires v.finished < |v.prompts|
  {
    var k := v.finished;
    v.(prompts := v.prompts[k := v.prompts[k].(outputLen := reply.outputLen)],
       messages := v.messages + [Assistant(reply.text)],
       finished := if k + 1 < |v.prompts| then k + 1 else k)
  }

  function Run(cfg: Config, run: seq<Step>): Option<State> {
    if run == [] then Some(Init(cfg))
    else match Run(cfg, run[..|run| - 1])
      case None => None
      case Some(s) =>
        if Enabled(cfg, s, run[|run| - 1]) && |s.convs| == |s.replies| == |s.fetchedOf|
        then Some(Apply(cfg, s, run[|run| - 1])) else None
  }

  // ----- where conversations are

  function Places(s: State, c: int): int {
    Times(s.queue, c) + s.waiting[c] + s.running[c] + s.putting[c] + if c in s.over then 1 else 0
  }

  ghost predicate Sizes(cfg: Config, s: State) {
    |s.convs| == |s.replies| == |s.fetchedOf| == |cfg.requests|
  }

  /** Every conversation is in exactly one place. */
  ghost predicate OnePlace(cfg: Config, s: State) {
    forall c :: Places(s, c) == if 0 <= c < |cfg.requests| then 1 else 0
  }

  // ----- what a conversation has said

  /** The prompts with the real output lengths of the turns answered so far. */
  function Updated(ts: seq<Turn>, replies: seq<Reply>): (r: seq<Turn>)
    requires |replies| <= |ts|
    ensures |r| == |ts|
    ensures forall k :: 0 <= k < |ts| ==>
      r[k] == if k < |replies| then ts[k].(outputLen := replies[k].outputLen) else ts[k]
  {
    seq(|ts|, k requires 0 <= k < |ts| => if k < |replies| then ts[k].(outputLen := replies[k].outputLen) else ts[k])
  }

  /** Alternating user prompts and assistant replies. */
  function Dialogue(ts: seq<Turn>, replies: seq<Reply>): seq<Message>
    requires |replies| <= |ts|
  {
    if replies == [] then []
    else
      var n := |replies| - 1;
      Dialogue(ts, replies[..n]) + [User(ts[n].prompt), Assistant(replies[n].text)]
  }

  /** The state of one conversation is determined by its turns and the replies so far. */
  ghost predicate Consistent(ts: seq<Turn>, replies: seq<Reply>, v: Conversation, running: bool, fail: bool) {
    && |replies| <= |ts| && v.prompts == Updated(ts, replies)
    && v.finished == (if |replies| < |ts| then |replies| else |ts| - 1)
    && (running || fail ==> |replies| < |ts|)
    && v.messages == Dialogue(ts, replies) + if running || fail then [User(ts[|replies|].prompt)] else []
  }

  ghost predicate Conversing(cfg: Config, s: State)
    requires Sizes(cfg, s)
  {
    forall c :: 0 <= c < |cfg.requests| ==>
      && Consistent(cfg.requests[c], s.replies[c], s.convs[c], s.running[c] > 0, c in s.failed)
      && s.fetchedOf[c] == |s.replies[c]| + (if s.waiting[c] + s.running[c] > 0 || c in s.failed then 1 else 0)
      && (c in s.over && c !in s.failed <==> |s.replies[c]| == |cfg.requests[c]|)
      && (c in s.failed ==> c in s.over)
  }

  ghost predicate Counts(cfg: Config, s: State) {
    s.fetched == Sum(s.fetchedOf)
  }

  ghost predicate Inv(cfg: Config, s: State) {
    Sizes(cfg, s) && OnePlace(cfg, s) && Conversing(cfg, s) && Counts(cfg, s)
  }
}
