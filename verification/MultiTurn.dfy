/** benchmark/hicache/bench_multiturn.py: the multi-turn workload driver as a transition system.
    The sender loop, the in-flight request tasks and the response handler run concurrently; each
    step below is one action that another thread can observe. */
module MultiTurn {
  import opened Prelude
  import opened Counting

  /** The resolved settings: rounds per client, their maximum, `max_parallel`, and whether the
      round barrier is on. */
  datatype Config = Config(total: seq<int>, maxRounds: nat, maxParallel: int, barrier: bool)

  ghost predicate ValidConfig(cfg: Config) {
    forall c :: 0 <= c < |cfg.total| ==> 1 <= cfg.total[c] <= cfg.maxRounds
  }

  /** The round limits chosen by `WorkloadGenerator.__init__`. */
  function ResolveRounds(numRounds: int, minRounds: int, maxRounds: int): (r: Result<(int, int), string>)
    ensures r.Ok? ==> 1 <= r.value.0 <= r.value.1
    ensures r.Ok? && minRounds == maxRounds == 0 ==> r.value == (numRounds, numRounds)
    ensures r.Ok? && minRounds != 0 && maxRounds != 0 ==> r.value == (minRounds, maxRounds)
    ensures r.Ok? && (minRounds == 0 || maxRounds == 0) && minRounds != maxRounds ==>
      r.value == (minRounds + maxRounds, minRounds + maxRounds)
    ensures r.Err? <==>
      (minRounds == 0 && maxRounds == 0 && numRounds < 1) ||
      (minRounds == 0 && maxRounds < 0) || minRounds < 0 || (minRounds > maxRounds && maxRounds != 0)
  {
    var lo := if minRounds == 0 && maxRounds == 0 then numRounds else if minRounds == 0 then maxRounds else minRounds;
    var hi := if minRounds == 0 && maxRounds == 0 then numRounds else if maxRounds == 0 then minRounds else maxRounds;
    if lo < 1 then Err("--min-rounds must be >= 1")
    else if lo > hi then Err("--min-rounds must be <= --max-rounds")
    else Ok((lo, hi))
  }

  datatype Response = Response(client: int, success: bool)

  /** Where the sender is in its loop: about to test the in-flight count, about to pop, holding a
      popped request it has not yet started, about to test the progress bar, or gone. */
  datatype Sender = Polling | Checked | Holding(client: int) | Testing | SenderLeft

  /** Where the handler is: waiting for a response, out of patience and about to test the progress
      bar, holding a response, done recording client `c`'s round, moving held requests to the ready
      queue, gone, or dead of an uncaught exception. */
  datatype Handler =
    | Waiting | TimedOut | Got(response: Response) | Recorded(client: int) | Releasing | HandlerLeft | Dead

  /** A request is represented by its client; it always asks that client's current round.
      `finishing` is the task that has updated the progress bar and not yet put its response: there is
      at most one, as it keeps the event loop, which runs the sender too, until then. `failed`,
      `handled` and `uncounted` are history: clients whose request failed, successes handled, and
      requests that raised an exception without updating the progress bar. */
  datatype State = State(
    round: seq<int>, sent: int, completed: int,
    ready: seq<int>, inFlight: multiset<int>, finishing: Option<Response>, responses: seq<Response>, held: seq<int>,
    subQuestions: int, barrierRound: nat, barrierDone: int, roundMetrics: seq<int>,
    pbar: int, handled: int, failed: set<int>, uncounted: nat,
    sender: Sender, handler: Handler)

  /** Sub-questions still to be asked beyond each client's current round. */
  function Need(total: seq<int>, round: seq<int>): int
    requires |total| == |round|
  {
    if total == [] then 0
    else
      var n := |total| - 1;
      Need(total[..n], round[..n]) + if round[n] < total[n] then total[n] - 1 - round[n] else 0
  }

  function Zeros(n: nat): (r: seq<int>)
    ensures |r| == n && forall i :: 0 <= i < n ==> r[i] == 0
  {
    seq(n, _ => 0)
  }

  function Clients(n: nat): (r: seq<int>)
    ensures |r| == n && forall i :: 0 <= i < n ==> r[i] == i
  {
    seq(n, i => i)
  }

  function Init(cfg: Config): State {
    var n := |cfg.total|;
    var questions := Need(cfg.total, Zeros(n));
    State(Zeros(n), 0, 0, Clients(n), multiset{}, None, [], [],
          if questions < 1 then 1 else questions, 0, 0, Zeros(cfg.maxRounds),
          0, 0, {}, 0, Polling, Waiting)
  }

  datatype Step =
    | SenderCheck            // sent - completed < max_parallel
    | SenderPop(index: nat)  // the ready queue picks an entry (index 0 under "fifo")
    | SenderPopNone
    | SenderStart            // create_task, sent_requests += 1
    | SenderTest             // pbar.n == pbar.total
    | TaskCounts(client: int, success: bool)  // pbar.update(1)
    | TaskPuts               // response_queue.put
    | TaskRaises(client: int)                 // an exception before the update: a failed response is put
    | HandlerGet
    | HandlerTimeout         // queue.Empty
    | HandlerTest            // pbar.n == pbar.total
    | HandlerFail
    | HandlerRecord
    | HandlerRequeue
    | HandlerRelease
    | HandlerAdvance

  /** `pbar.n == pbar.total`, on which both loops end. */
  predicate Full(cfg: Config, s: State) { s.pbar == Sum(cfg.total) }

  predicate Enabled(cfg: Config, s: State, a: Step) {
    match a
    case SenderCheck => s.finishing.None? && s.sender.Polling? && s.sent - s.completed < cfg.maxParallel
    case SenderPop(i) => s.finishing.None? && s.sender.Checked? && i < |s.ready|
    case SenderPopNone => s.finishing.None? && s.sender.Checked? && s.ready == []
    case SenderStart => s.finishing.None? && s.sender.Holding?
    case SenderTest => s.finishing.None? && s.sender.Testing?
    case TaskCounts(c, _) => s.finishing.None? && c in s.inFlight
    case TaskPuts => s.finishing.Some?
    case TaskRaises(c) => s.finishing.None? && c in s.inFlight
    case HandlerGet => s.handler.Waiting? && s.responses != []
    case HandlerTimeout => s.handler.Waiting? && s.responses == []
    case HandlerTest => s.handler.TimedOut?
    case HandlerFail => s.handler.Got? && !s.handler.response.success
    case HandlerRecord => s.handler.Got? && s.handler.response.success
    case HandlerRequeue => s.handler.Recorded?
    case HandlerRelease => s.handler.Releasing? && s.held != []
    case HandlerAdvance => s.handler.Releasing? && s.held == []
  }

  function Apply(cfg: Config, s: State, a: Step): State
    requires Enabled(cfg, s, a)
  {
    match a
    case SenderCheck => s.(sender := Checked)
    case SenderPop(i) => s.(sender := Holding(s.ready[i]), ready := s.ready[..i] + s.ready[i + 1..])
    case SenderPopNone => s.(sender := Testing)
    case SenderStart => s.(sender := Testing, inFlight := s.inFlight + multiset{s.sender.client}, sent := s.sent + 1)
    case SenderTest => s.(sender := if Full(cfg, s) then SenderLeft else Polling)
    case TaskCounts(c, success) =>
      s.(inFlight := s.inFlight - multiset{c}, finishing := Some(Response(c, success)), pbar := s.pbar + 1)
    case TaskPuts => s.(finishing := None, responses := s.responses + [s.finishing.value])
    case TaskRaises(c) =>
      s.(inFlight := s.inFlight - multiset{c}, responses := s.responses + [Response(c, false)],
         uncounted := s.uncounted + 1)
    case HandlerTimeout => s.(handler := TimedOut)
    case HandlerTest => s.(handler := if Full(cfg, s) then HandlerLeft else Waiting)
    case HandlerGet => s.(handler := Got(s.responses[0]), responses := s.responses[1..])
    case HandlerFail =>
      s.(handler := Waiting, completed := s.completed + 1, failed := s.failed + {s.handler.response.client})
    case HandlerRecord => Record(cfg, s, s.handler.response.client)
    case HandlerRequeue => Barrier(cfg, Requeue(cfg, s, s.handler.client))
    case HandlerRelease => s.(ready := s.ready + [s.held[0]], held := s.held[1..])
    case HandlerAdvance => s.(handler := Waiting, barrierRound := s.barrierRound + 1, barrierDone := 0)
  }

  /** A success advances the client's round and appends its metrics; with the barrier on, the
      per-round table has entries for rounds below the maximum only. */
  function Record(cfg: Config, s: State, c: int): State {
    if !(0 <= c < |s.round|) || (cfg.barrier && !(0 <= s.round[c] < |s.roundMetrics|)) then s.(handler := Dead)
    else
      var r := s.round[c];
      s.(handler := Recorded(c), round := s.round[c := r + 1], completed := s.completed + 1, handled := s.handled + 1,
         roundMetrics := if cfg.barrier then s.roundMetrics[r := s.roundMetrics[r] + 1] else s.roundMetrics)
  }

  /** A client with rounds left takes a sub-question off the stack and asks again: behind the
      barrier if there is one, else straight into the ready queue. */
  function Requeue(cfg: Config, s: State, c: int): State {
    if !(0 <= c < |s.round| && |s.round| == |cfg.total|) then s.(handler := Dead)
    else if s.round[c] >= cfg.total[c] then s
    else if s.subQuestions <= 0 then s.(handler := Dead)
    else
      var s' := s.(subQuestions := s.subQuestions - 1);
      if cfg.barrier then s'.(held := s.held + [c]) else s'.(ready := s.ready + [c])
  }

  /** The barrier counts the response and opens when the current round is complete. */
  function Barrier(cfg: Config, s: State): State {
    if s.handler.Dead? then s
    else if !(cfg.barrier && s.barrierRound < cfg.maxRounds) then s.(handler := Waiting)
    else
      var done := s.barrierDone + 1;
      s.(barrierDone := done,
         handler := if done == Above(cfg.total, s.barrierRound) then Releasing else Waiting)
  }

  /** The state after the steps `run`, provided each was enabled in turn. */
  function Run(cfg: Config, run: seq<Step>): Option<State> {
    if run == [] then Some(Init(cfg))
    else match Run(cfg, run[..|run| - 1])
      case None => None
      case Some(s) => if Enabled(cfg, s, run[|run| - 1]) then Some(Apply(cfg, s, run[|run| - 1])) else None
  }
}
