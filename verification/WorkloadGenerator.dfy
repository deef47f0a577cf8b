/** benchmark/hicache/bench_multiturn.py, `ReadyQueue` and `WorkloadGenerator`: the fields the
    threads share, and the code of each step, proved to take the step of the transition system. */
module WorkloadGenerator {
  import opened Prelude
  import opened Counting
  import opened MultiTurn
  import opened MultiTurnSafety

  datatype Policy = RandomPick | Fifo | Unknown

  class ReadyQueue {
    var requests: seq<int>
    const policy: Policy

    constructor (requests: seq<int>, policy: Policy)
      ensures this.requests == requests && this.policy == policy
    {
      this.requests, this.policy := requests, policy;
    }

    method Append(client: int)
      modifies this
      ensures requests == old(requests) + [client]
    {
      requests := requests + [client];
    }

    /** An empty queue gives nothing under any policy; an unknown policy raises ValueError.
        `pick` stands for the random index. */
    method Pop(pick: nat) returns (r: Result<Option<int>, string>)
      requires requests != [] ==> pick < |requests|
      modifies this
      ensures old(requests) == [] ==> r == Ok(None) && requests == []
      ensures r.Err? <==> old(requests) != [] && policy == Unknown
      ensures r.Err? ==> requests == old(requests)
      ensures r.Ok? && old(requests) != [] ==>
        var i := if policy == Fifo then 0 else pick;
        r.value == Some(old(requests)[i]) && requests == old(requests)[..i] + old(requests)[i + 1..]
    {
      if requests == [] {
        return Ok(None);
      }
      match policy
      case RandomPick =>
        r := Ok(Some(requests[pick]));
        requests := requests[..pick] + requests[pick + 1..];
      case Fifo =>
        r := Ok(Some(requests[0]));
        requests := requests[..0] + requests[1..];
      case Unknown =>
        r := Err("policy not implemented");
    }
  }

  class Generator {
    const cfg: Config
    const clientsPerRound: seq<int>
    const readyQueue: ReadyQueue
    var sentRequests: int
    var completedRequests: int
    var round: seq<int>
    var responseQueue: seq<Response>
    var nextRoundReqs: seq<int>
    var subQuestionInputs: int
    var currentBarrierRound: nat
    var barrierRoundCompleted: int
    var roundMetrics: seq<int>
    var metrics: int
    var pbar: int
    var tasks: multiset<int>
    /** The response of a task that has updated the progress bar and not yet put it. */
    var finishing: Option<Response>
    var sender: Sender
    var handler: Handler
    ghost var failed: set<int>
    ghost var uncounted: nat

    ghost function View(): State
      reads this, readyQueue
    {
      State(round, sentRequests, completedRequests, readyQueue.requests, tasks, finishing, responseQueue, nextRoundReqs,
            subQuestionInputs, currentBarrierRound, barrierRoundCompleted, roundMetrics, pbar, metrics, failed,
            uncounted, sender, handler)
    }

    /** The precomputed table is the number of clients that take part in each round. */
    ghost predicate Valid() {
      |clientsPerRound| == cfg.maxRounds && forall r :: 0 <= r < cfg.maxRounds ==>
        clientsPerRound[r] == Above(cfg.total, r)
    }

    constructor (cfg: Config, policy: Policy)
      ensures Valid() && this.cfg == cfg && View() == Init(cfg) && readyQueue.policy == policy
      ensures fresh(readyQueue)
    {
      var table: seq<int> := [];
      for r := 0 to cfg.maxRounds
        invariant |table| == r && forall k :: 0 <= k < r ==> table[k] == Above(cfg.total, k)
      {
        var n := CountAbove(cfg.total, r);
        table := table + [n];
      }
      var questions := CountNeed(cfg.total);
      this.cfg, clientsPerRound := cfg, table;
      readyQueue := new ReadyQueue(Clients(|cfg.total|), policy);
      sentRequests, completedRequests, metrics, pbar := 0, 0, 0, 0;
      round, roundMetrics := Zeros(|cfg.total|), Zeros(cfg.maxRounds);
      responseQueue, nextRoundReqs, tasks, finishing := [], [], multiset{}, None;
      subQuestionInputs := if questions < 1 then 1 else questions;
      currentBarrierRound, barrierRoundCompleted := 0, 0;
      sender, handler, failed, uncounted := Polling, Waiting, {}, 0;
    }

    method SenderPoll() returns (go: bool)
      requires sender.Polling? && finishing.None?
      modifies this
      ensures go <==> Enabled(cfg, old(View()), SenderCheck)
      ensures View() == if go then Apply(cfg, old(View()), SenderCheck) else old(View())
    {
      go := sentRequests - completedRequests < cfg.maxParallel;
      if go { sender := Checked; }
    }

    /** Under a known policy the pop takes the step; an unknown one raises once there is work. */
    method SenderTake(pick: nat) returns (ok: bool)
      requires sender.Checked? && finishing.None? && (readyQueue.requests != [] ==> pick < |readyQueue.requests|)
      modifies this, readyQueue
      ensures ok <==> old(readyQueue.requests) == [] || readyQueue.policy != Unknown
      ensures ok ==> View() == Apply(cfg, old(View()),
        if old(readyQueue.requests) == [] then SenderPopNone
        else SenderPop(if readyQueue.policy == Fifo then 0 else pick))
      ensures !ok ==> View() == old(View())
    {
      var r := readyQueue.Pop(pick);
      match r
      case Err(_) => ok := false;
      case Ok(None) => ok := true; sender := Testing;
      case Ok(Some(c)) => ok := true; sender := Holding(c);
    }

    method SenderStartTask()
      requires sender.Holding? && finishing.None?
      modifies this
      ensures View() == Apply(cfg, old(View()), SenderStart)
    {
      tasks := tasks + multiset{sender.client};
      sentRequests := sentRequests + 1;
      sender := Testing;
    }

    /** The sender's exit test. */
    method SenderTestBar() returns (leaves: bool)
      requires sender.Testing? && finishing.None?
      modifies this
      ensures View() == Apply(cfg, old(View()), SenderTest)
      ensures leaves <==> sender.SenderLeft?
    {
      var total := SumOf(cfg.total);
      leaves := pbar == total;
      sender := if leaves then SenderLeft else Polling;
    }

    /** The request function updates the progress bar and returns, whether or not it succeeded. */
    method RequestReturns(client: int, success: bool)
      requires client in tasks && finishing.None?
      modifies this
      ensures View() == Apply(cfg, old(View()), TaskCounts(client, success))
    {
      pbar := pbar + 1;
      tasks := tasks - multiset{client};
      finishing := Some(Response(client, success));
    }

    /** `handle_request` then puts the response. */
    method PutResponse()
      requires finishing.Some?
      modifies this
      ensures View() == Apply(cfg, old(View()), TaskPuts)
    {
      responseQueue := responseQueue + [finishing.value];
      finishing := None;
    }

    /** The request function raises: `handle_request` puts a failed response, and the progress bar is
        not updated. */
    method RequestRaises(client: int)
      requires client in tasks && finishing.None?
      modifies this
      ensures View() == Apply(cfg, old(View()), TaskRaises(client))
    {
      tasks := tasks - multiset{client};
      responseQueue := responseQueue + [Response(client, false)];
      uncounted := uncounted + 1;
    }

    /** `queue.get` runs into its timeout. */
    method HandlerTimesOut()
      requires handler.Waiting? && responseQueue == []
      modifies this
      ensures View() == Apply(cfg, old(View()), HandlerTimeout)
    {
      handler := TimedOut;
    }

    /** The handler's exit test. */
    method HandlerTestBar() returns (leaves: bool)
      requires handler.TimedOut?
      modifies this
      ensures View() == Apply(cfg, old(View()), HandlerTest)
      ensures leaves <==> handler.HandlerLeft?
    {
      var total := SumOf(cfg.total);
      leaves := pbar == total;
      handler := if leaves then HandlerLeft else Waiting;
    }

    method HandlerReceive()
      requires handler.Waiting? && responseQueue != []
      modifies this
      ensures View() == Apply(cfg, old(View()), HandlerGet)
    {
      handler := Got(responseQueue[0]);
      responseQueue := responseQueue[1..];
    }

    method HandlerDrop()
      requires handler.Got? && !handler.response.success
      modifies this
      ensures View() == Apply(cfg, old(View()), HandlerFail)
    {
      completedRequests := completedRequests + 1;
      failed := failed + {handler.response.client};
      handler := Waiting;
    }

    /** Up to the increment of `completed_requests`; the table lookups never fail. */
    method HandlerCount()
      requires handler.Got? && handler.response.success && ValidConfig(cfg) && Safe(cfg, View())
      modifies this
      ensures View() == Apply(cfg, old(View()), HandlerRecord)
      ensures !handler.Dead?
    {
      hide Safe, ValidConfig;
      JudgeFacts(cfg, View());
      var c := handler.response.client;
      var r := round[c];
      round := round[c := r + 1];
      metrics := metrics + 1;
      if cfg.barrier {
        roundMetrics := roundMetrics[r := roundMetrics[r] + 1];
      }
      completedRequests := completedRequests + 1;
      handler := Recorded(c);
    }

    /** Asking the next round, if the client has one; the stack is never empty here. */
    method AskNext()
      requires handler.Recorded? && Safe(cfg, View())
      modifies this, readyQueue
      ensures View() == Requeue(cfg, old(View()), old(handler.client))
      ensures handler == old(handler)
    {
      hide Safe, Need;
      AskFacts(cfg, View());
      var c := handler.client;
      if round[c] < cfg.total[c] {
        subQuestionInputs := subQuestionInputs - 1;
        if cfg.barrier {
          nextRoundReqs := nextRoundReqs + [c];
        } else {
          readyQueue.Append(c);
        }
      }
    }

    method CountForBarrier()
      requires Valid() && handler.Recorded?
      modifies this
      ensures View() == Barrier(cfg, old(View())) && !handler.Dead?
    {
      hide Above;
      handler := Waiting;
      if cfg.barrier && currentBarrierRound < cfg.maxRounds {
        barrierRoundCompleted := barrierRoundCompleted + 1;
        if barrierRoundCompleted == clientsPerRound[currentBarrierRound] {
          handler := Releasing;
        }
      }
    }

    method HandlerAskNext()
      requires Valid() && handler.Recorded? && Safe(cfg, View())
      modifies this, readyQueue
      ensures View() == Apply(cfg, old(View()), HandlerRequeue)
      ensures !handler.Dead?
    {
      hide Safe, Requeue, Barrier;
      AskNext();
      CountForBarrier();
    }

    /** One iteration of the release loop, or its end. */
    method HandlerReleaseOne()
      requires handler.Releasing?
      modifies this, readyQueue
      ensures View() == Apply(cfg, old(View()), if old(nextRoundReqs) != [] then HandlerRelease else HandlerAdvance)
    {
      if nextRoundReqs != [] {
        readyQueue.Append(nextRoundReqs[0]);
        nextRoundReqs := nextRoundReqs[1..];
      } else {
        currentBarrierRound := currentBarrierRound + 1;
        barrierRoundCompleted := 0;
        handler := Waiting;
      }
    }
  }

  lemma {:induction false} JudgeFacts(cfg: Config, s: State)
    requires ValidConfig(cfg) && Safe(cfg, s) && s.handler.Got?
    ensures var c := s.handler.response.client; 0 <= c < |s.round| && 0 <= s.round[c] < |s.roundMetrics|
  {
    hide Outstanding, Stocked, Counted;
    GotIsActive(cfg, s);
  }

  lemma {:induction false} AskFacts(cfg: Config, s: State)
    requires Safe(cfg, s) && s.handler.Recorded?
    ensures var c := s.handler.client;
      0 <= c < |s.round| == |cfg.total| && (s.round[c] < cfg.total[c] ==> s.subQuestions > 0)
  {
    hide Outstanding, Counted, Need;
    NeedNonNegative(cfg.total, s.round);
  }

  method CountAbove(s: seq<int>, r: int) returns (n: int)
    ensures n == Above(s, r)
  {
    n := 0;
    for i := 0 to |s|
      invariant n == Above(s[..i], r)
    {
      assert s[..i + 1][..i] == s[..i];
      if s[i] > r { n := n + 1; }
    }
    assert s[..|s|] == s;
  }

  /** `pbar.total`, the sum of all clients' rounds. */
  method SumOf(s: seq<int>) returns (n: int)
    ensures n == Sum(s)
  {
    n := 0;
    for i := 0 to |s|
      invariant n == Sum(s[..i])
    {
      assert s[..i + 1][..i] == s[..i];
      n := n + s[i];
    }
    assert s[..|s|] == s;
  }

  /** `sum(max(t - 1, 0) for t in client_total_rounds)` */
  method CountNeed(total: seq<int>) returns (n: int)
    ensures n == Need(total, Zeros(|total|))
  {
    n := 0;
    for i := 0 to |total|
      invariant n == Need(total[..i], Zeros(i))
    {
      assert total[..i + 1][..i] == total[..i] && Zeros(i + 1)[..i] == Zeros(i);
      n := n + if total[i] - 1 > 0 then total[i] - 1 else 0;
    }
    assert total[..|total|] == total;
  }
}
