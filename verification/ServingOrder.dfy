/** The order in which the serving benchmark fetches conversations: they are queued in input order, then in
    the order they are put back, and leave the queue in that order. */
module ServingOrder {
  import opened Counting
  import opened Serving

  /** The conversations that entered the queue, in order. */
  ghost function Queued(cfg: Config, run: seq<Step>): seq<int> {
    if run == [] then seq(|cfg.requests|, i => i)
    else
      var a := run[|run| - 1];
      Queued(cfg, run[..|run| - 1]) + if a.PutBack? then [a.conv] else []
  }

  /** The conversations that were fetched, in order. */
  ghost function Fetched(cfg: Config, run: seq<Step>): seq<int>
    requires Run(cfg, run).Some?
  {
    if run == [] then []
    else
      var s, a := Run(cfg, run[..|run| - 1]).value, run[|run| - 1];
      Fetched(cfg, run[..|run| - 1]) + if a.Fetch? && s.queue != [] then [s.queue[0]] else []
  }

  lemma {:induction false} QueueMoves(cfg: Config, s: State, a: Step)
    requires Enabled(cfg, s, a) && |s.convs| == |s.replies| == |s.fetchedOf|
    ensures var s' := Apply(cfg, s, a);
      if a.Fetch? then s.queue != [] && s'.queue == s.queue[1..]
      else s'.queue == s.queue + if a.PutBack? then [a.conv] else []
  {
    hide Sum, Spent;
  }

  /** In every run: what entered the queue is what was fetched, in the same order, and then what is still
      in it. */
  lemma {:induction false} FirstQueuedFirstFetched(cfg: Config, run: seq<Step>)
    requires Run(cfg, run).Some?
    ensures Queued(cfg, run) == Fetched(cfg, run) + Run(cfg, run).value.queue
  {
    if run != [] {
      var n := |run| - 1;
      FirstQueuedFirstFetched(cfg, run[..n]);
      QueueMoves(cfg, Run(cfg, run[..n]).value, run[n]);
      hide Enabled, Apply;
    }
  }

  /** In every run no more requests are running, or waiting to be put back, than the limit allows. */
  lemma {:induction false} LimitKept(cfg: Config, run: seq<Step>)
    requires Run(cfg, run).Some? && cfg.limit.Some?
    ensures |Run(cfg, run).value.running| + |Run(cfg, run).value.putting| <= cfg.limit.value
  {
    if run != [] {
      var n := |run| - 1;
      LimitKept(cfg, run[..n]);
      StepWithinLimit(cfg, Run(cfg, run[..n]).value, run[n]);
      hide Enabled, Apply;
    }
  }

  lemma {:induction false} StepWithinLimit(cfg: Config, s: State, a: Step)
    requires Enabled(cfg, s, a) && |s.convs| == |s.replies| == |s.fetchedOf|
    requires cfg.limit.Some? && |s.running| + |s.putting| <= cfg.limit.value
    ensures var s' := Apply(cfg, s, a); |s'.running| + |s'.putting| <= cfg.limit.value
  {
    hide Sum, Spent, Answered;
  }
}
