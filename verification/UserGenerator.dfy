/** benchmark/hicache/bench_mix.py, `UserGenerator`: users are generated, handed out, and pushed
    back after each answered round until they are finished. */
module UserGenerator {
  import opened Counting

  /** A user's progress and the time of its next request (prompts are left out). */
  datatype User = User(currentRound: int, totalRounds: int, start: real)

  // ----- the queue order

  ghost predicate SortedTimes(q: seq<real>) { forall i, j :: 0 <= i < j < |q| ==> q[i] <= q[j] }

  /** The insertion point the loop finds: the first entry that starts later, else the end. */
  function Later(q: seq<real>, s: real, from: nat): (r: nat)
    requires from <= |q|
    ensures from <= r <= |q| && (r < |q| ==> s < q[r]) && forall k :: from <= k < r ==> q[k] <= s
    decreases |q| - from
  {
    if from == |q| then from else if s < q[from] then from else Later(q, s, from + 1)
  }

  /** Where the code really inserts: the loop variable, which is the last index when the loop ran
      to its end. */
  function InsertAt(q: seq<real>, s: real): (r: nat)
    ensures r <= |q|
  {
    if q == [] then 0 else if Later(q, s, 0) < |q| then Later(q, s, 0) else |q| - 1
  }

  function Inserted<T>(q: seq<T>, i: nat, x: T): seq<T>
    requires i <= |q|
  {
    q[..i] + [x] + q[i..]
  }

  /** Inserting at the point found keeps the queue sorted. */
  lemma {:induction false} IntendedInsertSorts(q: seq<real>, s: real)
    requires SortedTimes(q)
    ensures SortedTimes(Inserted(q, Later(q, s, 0), s))
  {
    var p := Later(q, s, 0);
    forall k | p <= k < |q| ensures s <= q[k] { assert p < k ==> q[p] <= q[k]; }
  }

  /** The insert as written keeps a sorted queue sorted if and only if the queue is empty or the
      new user does not start after everyone queued. */
  lemma {:induction false} InsertSortsExactly(q: seq<real>, s: real)
    requires SortedTimes(q)
    ensures SortedTimes(Inserted(q, InsertAt(q, s), s)) <==> q == [] || s <= q[|q| - 1]
  {
    var r := Inserted(q, InsertAt(q, s), s);
    var n := |q|;
    if q != [] {
      if Later(q, s, 0) < n {
        IntendedInsertSorts(q, s);
        assert q[Later(q, s, 0)] <= q[n - 1];
      } else {
        assert r[n - 1] == s && r[n] == q[n - 1];
        if s <= q[n - 1] {
          assert s == q[n - 1];
          assert r == q + [s];
        }
      }
    }
  }

  /** Two pushes, the second starting later, already leave the queue in the wrong order. */
  lemma {:induction false} InsertWitness()
    ensures var q := Inserted([], InsertAt([], 1.0), 1.0);
      q == [1.0] && Inserted(q, InsertAt(q, 2.0), 2.0) == [2.0, 1.0]
  {
    assert Later([1.0], 2.0, 0) == 1;
  }

  // ----- the bookkeeping

  /** Users whose turn `r` was started, was completed, and who ended with `r` rounds. */
  function StartedTurn(us: seq<User>, r: int): nat {
    if us == [] then 0
    else StartedTurn(us[..|us| - 1], r) +
         var u := us[|us| - 1]; if r <= u.currentRound && r < u.totalRounds then 1 else 0
  }

  function CompletedTurn(us: seq<User>, r: int): nat {
    if us == [] then 0 else CompletedTurn(us[..|us| - 1], r) + if us[|us| - 1].currentRound > r then 1 else 0
  }

  function EndedWith(us: seq<User>, r: int): nat {
    if us == [] then 0
    else EndedWith(us[..|us| - 1], r) + if us[|us| - 1].currentRound == us[|us| - 1].totalRounds == r then 1 else 0
  }

  function WithRounds(us: seq<User>, t: int): nat {
    if us == [] then 0 else WithRounds(us[..|us| - 1], t) + if us[|us| - 1].totalRounds == t then 1 else 0
  }

  /** Every completed round r led to a round r + 1 or to the end of its user. */
  lemma {:induction false} TurnsConserved(us: seq<User>, r: int)
    requires forall u :: 0 <= u < |us| ==> us[u].currentRound <= us[u].totalRounds
    ensures CompletedTurn(us, r) == StartedTurn(us, r + 1) + EndedWith(us, r + 1)
  {
    if us != [] { TurnsConserved(us[..|us| - 1], r); }
  }

  lemma {:induction false} EndedHaveRounds(us: seq<User>, t: int)
    ensures EndedWith(us, t) <= WithRounds(us, t)
  {
    if us != [] { EndedHaveRounds(us[..|us| - 1], t); }
  }

  lemma {:induction false} NoneStartedBeyond(us: seq<User>, n: int)
    requires forall u :: 0 <= u < |us| ==> us[u].totalRounds <= n
    ensures StartedTurn(us, n) == 0
  {
    if us != [] { NoneStartedBeyond(us[..|us| - 1], n); }
  }

  lemma {:induction false} StartedUpdate(us: seq<User>, u: nat, v: User, r: int)
    requires u < |us|
    ensures StartedTurn(us[u := v], r) == StartedTurn(us, r)
      - (if r <= us[u].currentRound && r < us[u].totalRounds then 1 else 0)
      + (if r <= v.currentRound && r < v.totalRounds then 1 else 0)
  {
    var n := |us| - 1;
    if u < n {
      StartedUpdate(us[..n], u, v, r);
      assert us[u := v][..n] == us[..n][u := v];
    } else {
      assert us[u := v][..n] == us[..n];
    }
  }

  lemma {:induction false} CompletedUpdate(us: seq<User>, u: nat, v: User, r: int)
    requires u < |us|
    ensures CompletedTurn(us[u := v], r) == CompletedTurn(us, r)
      - (if us[u].currentRound > r then 1 else 0) + (if v.currentRound > r then 1 else 0)
  {
    var n := |us| - 1;
    if u < n {
      CompletedUpdate(us[..n], u, v, r);
      assert us[u := v][..n] == us[..n][u := v];
    } else {
      assert us[u := v][..n] == us[..n];
    }
  }

  lemma {:induction false} RoundsUpdate(us: seq<User>, u: nat, v: User, t: int)
    requires u < |us| && us[u].totalRounds == v.totalRounds
    ensures WithRounds(us[u := v], t) == WithRounds(us, t)
  {
    var n := |us| - 1;
    if u < n {
      RoundsUpdate(us[..n], u, v, t);
      assert us[u := v][..n] == us[..n][u := v];
    } else {
      assert us[u := v][..n] == us[..n];
    }
  }

  /** `total` rounds go with the drawn number: up to the first ratio above it, else all. */
  ghost predicate Selects(ratios: seq<int>, drawn: int, total: int) {
    && 1 <= total <= |ratios| && (total < |ratios| ==> drawn < ratios[total - 1])
    && forall k :: 0 <= k < total - 1 ==> drawn >= ratios[k]
  }

  /** The tables hold the tallies of all users. */
  ghost predicate Tallied(us: seq<User>, ins: seq<int>, outs: seq<int>, stats: seq<int>, n: nat) {
    && |ins| == |outs| == |stats| == n
    && (forall r :: 0 <= r < n ==> ins[r] == StartedTurn(us, r) && outs[r] == CompletedTurn(us, r))
    && (forall r :: 0 <= r < n ==> stats[r] == WithRounds(us, r + 1))
  }

  lemma {:induction false} TallyNew(us: seq<User>, ins: seq<int>, outs: seq<int>, stats: seq<int>, n: nat, total: int)
    requires Tallied(us, ins, outs, stats, n) && 1 <= total <= n
    ensures Tallied(us + [User(0, total, 0.0)], ins[0 := ins[0] + 1], outs, stats[total - 1 := stats[total - 1] + 1], n)
  {
    hide StartedTurn, CompletedTurn, WithRounds;
    forall r { CountsSnoc(us, User(0, total, 0.0), r); }
  }

  class Generator {
    const numRounds: nat
    const cumulativeRatios: seq<int>
    /** All users ever generated, by user id. */
    var users: seq<User>
    var multiturnQueue: seq<int>
    /** The second entries of `input_stats` and `output_stats`, and `user_stats`. */
    var inputCounts: seq<int>
    var outputCounts: seq<int>
    var userStats: seq<int>
    /** Users given to the sender and not pushed back. */
    ghost var handedOut: set<int>

    /** Each user is queued once, handed out, or finished, and never two of these. */
    ghost predicate Placed()
      reads this
    {
      forall u :: Times(multiturnQueue, u) + (if u in handedOut then 1 else 0) ==
        if 0 <= u < |users| && users[u].currentRound < users[u].totalRounds then 1 else 0
    }

    ghost predicate Counted()
      reads this
    {
      Tallied(users, inputCounts, outputCounts, userStats, numRounds)
    }

    ghost predicate Valid()
      reads this
    {
      && numRounds >= 1 && |cumulativeRatios| == numRounds
      && (forall u :: 0 <= u < |users| ==>
            0 <= users[u].currentRound <= users[u].totalRounds <= numRounds && users[u].totalRounds >= 1)
      && Placed() && Counted()
    }

    constructor (numRounds: nat, cumulativeRatios: seq<int>)
      requires numRounds >= 1 && |cumulativeRatios| == numRounds
      ensures Valid() && users == [] && multiturnQueue == [] && handedOut == {}
    {
      this.numRounds, this.cumulativeRatios := numRounds, cumulativeRatios;
      users, multiturnQueue, handedOut := [], [], {};
      inputCounts, outputCounts, userStats := seq(numRounds, _ => 0), seq(numRounds, _ => 0), seq(numRounds, _ => 0);
    }

    /** The rounds a drawn number selects: the first ratio above it, else all rounds. */
    method DrawRounds(drawn: int) returns (total: int)
      requires numRounds >= 1 && |cumulativeRatios| == numRounds
      ensures Selects(cumulativeRatios, drawn, total)
    {
      for idx := 0 to |cumulativeRatios|
        invariant forall k :: 0 <= k < idx ==> drawn >= cumulativeRatios[k]
      {
        if drawn < cumulativeRatios[idx] {
          return idx + 1;
        }
      }
      return |cumulativeRatios|;
    }

    /** `gen` */
    method Gen(drawn: int) returns (id: int)
      requires Valid()
      modifies this
      ensures Valid() && id == |old(users)| && multiturnQueue == old(multiturnQueue)
      ensures handedOut == old(handedOut) + {id} && id !in old(handedOut)
      ensures |users| == id + 1 && users[..id] == old(users)
      ensures users[id] == User(0, users[id].totalRounds, 0.0) &&
        Selects(cumulativeRatios, drawn, users[id].totalRounds)
    {
      id := |users|;
      var total := DrawRounds(drawn);
      assert 1 <= total <= numRounds;
      assert id !in handedOut by { assert Times(multiturnQueue, id) + (if id in handedOut then 1 else 0) == 0; }
      TallyNew(users, inputCounts, outputCounts, userStats, numRounds, total);
      hide Tallied, Selects, Times;
      inputCounts := inputCounts[0 := inputCounts[0] + 1];
      userStats := userStats[total - 1 := userStats[total - 1] + 1];
      users := users + [User(0, total, 0.0)];
      handedOut := handedOut + {id};
    }

    /** `push`: counts the answered round; an unfinished user starts its next round and goes back
        into the queue at the place the code computes. */
    method Push(u: int, start: real)
      requires Valid() && u in handedOut
      modifies this
      ensures Valid() && handedOut == old(handedOut) - {u}
      ensures 0 <= u < |users| && |users| == |old(users)|
      ensures users == old(users)[u := users[u]] && users[u].currentRound == old(users)[u].currentRound + 1
      ensures users[u].totalRounds == old(users)[u].totalRounds
      ensures if users[u].currentRound >= users[u].totalRounds
        then multiturnQueue == old(multiturnQueue)
        else users[u].start == start &&
             multiturnQueue ==
               Inserted(old(multiturnQueue), InsertAt(Starts(old(users), old(multiturnQueue)), start), u)
    {
      hide StartedTurn, CompletedTurn, WithRounds, Times, InsertAt, Starts, Later;
      var v := Advance(u);
      if v.currentRound >= v.totalRounds {
        Settle(u, v, multiturnQueue);
        return;
      }
      v := v.(start := start);
      var place := 0;
      if multiturnQueue != [] {
        place := FindPlace(start);
      } else {
        InsertEmpty(users, multiturnQueue, start);
      }
      forall w
        ensures Times(multiturnQueue[..place] + [u] + multiturnQueue[place..], w) ==
          Times(multiturnQueue, w) + OneIf(w == u)
      {
        TimesInserted(multiturnQueue, place, u, w);
      }
      Settle(u, v, multiturnQueue[..place] + [u] + multiturnQueue[place..]);
    }

    /** The table updates at the head of `push` (and, for a next round, of its input count). */
    method Advance(u: int) returns (v: User)
      requires Valid() && u in handedOut
      modifies this`outputCounts, this`inputCounts
      ensures 0 <= u < |users| && v == users[u].(currentRound := users[u].currentRound + 1)
      ensures users[u].currentRound < users[u].totalRounds
      ensures |outputCounts| == |inputCounts| == |old(outputCounts)| == |old(inputCounts)| == numRounds
      ensures forall r :: 0 <= r < numRounds ==>
        && outputCounts[r] == old(outputCounts)[r] + OneIf(r == users[u].currentRound)
        && inputCounts[r] == old(inputCounts)[r] + OneIf(r == v.currentRound < v.totalRounds)
    {
      assert Times(multiturnQueue, u) + 1 ==
        if 0 <= u < |users| && users[u].currentRound < users[u].totalRounds then 1 else 0;
      var c := users[u].currentRound;
      outputCounts := outputCounts[c := outputCounts[c] + 1];
      v := users[u].(currentRound := c + 1);
      if v.currentRound < v.totalRounds {
        inputCounts := inputCounts[c + 1 := inputCounts[c + 1] + 1];
      }
    }

    /** The search loop of `push`; what it leaves in the loop variable is where it inserts. */
    method FindPlace(start: real) returns (idx: nat)
      requires multiturnQueue != []
      ensures idx == InsertAt(Starts(users, multiturnQueue), start)
    {
      ghost var q := Starts(users, multiturnQueue);
      idx := 0;
      while true
        invariant 0 <= idx < |multiturnQueue| && Later(q, start, 0) == Later(q, start, idx)
        decreases |multiturnQueue| - idx
      {
        var d := multiturnQueue[idx];
        if start < (if 0 <= d < |users| then users[d].start else 0.0) {
          return;
        }
        if idx + 1 == |multiturnQueue| {
          return;
        }
        idx := idx + 1;
      }
    }

    /** Writes the user back and puts it where it belongs. */
    method Settle(u: int, v: User, queue: seq<int>)
      requires 0 <= u < |users| && u in handedOut && v.currentRound == users[u].currentRound + 1
      requires v.totalRounds == users[u].totalRounds && 0 <= users[u].currentRound < v.totalRounds
      requires numRounds >= 1 && |cumulativeRatios| == numRounds && Placed()
      requires forall w :: 0 <= w < |users| ==>
        0 <= users[w].currentRound <= users[w].totalRounds <= numRounds && users[w].totalRounds >= 1
      requires |inputCounts| == |outputCounts| == |userStats| == numRounds
      requires forall r :: 0 <= r < numRounds ==>
        && inputCounts[r] == StartedTurn(users, r) + OneIf(r == v.currentRound < v.totalRounds)
        && outputCounts[r] == CompletedTurn(users, r) + OneIf(r == users[u].currentRound)
        && userStats[r] == WithRounds(users, r + 1)
      requires forall w :: Times(queue, w) == Times(multiturnQueue, w) + OneIf(w == u && v.currentRound < v.totalRounds)
      modifies this`users, this`multiturnQueue, this`handedOut
      ensures Valid() && users == old(users)[u := v] && multiturnQueue == queue && handedOut == old(handedOut) - {u}
    {
      hide StartedTurn, CompletedTurn, WithRounds, Times;
      forall r
        ensures StartedTurn(users[u := v], r) == StartedTurn(users, r) + OneIf(r == v.currentRound < v.totalRounds)
          && CompletedTurn(users[u := v], r) == CompletedTurn(users, r) + OneIf(r == users[u].currentRound)
          && WithRounds(users[u := v], r + 1) == WithRounds(users, r + 1)
      {
        StartedUpdate(users, u, v, r);
        CompletedUpdate(users, u, v, r);
        RoundsUpdate(users, u, v, r + 1);
      }
      users := users[u := v];
      multiturnQueue := queue;
      handedOut := handedOut - {u};
    }

    /** `pop`: the head of the queue if it is due, else a new user. */
    method Pop(now: real, drawn: int) returns (id: int)
      requires Valid()
      modifies this
      ensures Valid() && handedOut == old(handedOut) + {id} && id !in old(handedOut)
      ensures 0 <= id < |users| && users[id].currentRound < users[id].totalRounds
      ensures if old(multiturnQueue) != [] && now > Starts(old(users), old(multiturnQueue))[0]
        then id == old(multiturnQueue)[0] && multiturnQueue == old(multiturnQueue)[1..] && users == old(users)
        else id == |old(users)| && multiturnQueue == old(multiturnQueue) &&
             |users| == id + 1 && users[..id] == old(users) &&
             Selects(cumulativeRatios, drawn, users[id].totalRounds)
    {
      if multiturnQueue != [] {
        HeadPlaced();
        if now > users[multiturnQueue[0]].start {
          id := multiturnQueue[0];
          forall u ensures Times(multiturnQueue, u) == Times(multiturnQueue[1..], u) + OneIf(u == id) {
            TimesRemove(multiturnQueue, 0, u);
            assert multiturnQueue[..0] + multiturnQueue[1..] == multiturnQueue[1..];
          }
          hide Times, StartedTurn, CompletedTurn, WithRounds;
          multiturnQueue := multiturnQueue[1..];
          handedOut := handedOut + {id};
          return;
        }
      }
      id := Gen(drawn);
      assert users[id].totalRounds >= 1;
    }

    /** After any run of `gen`, `push` and `pop` the tables agree with each other: the answers of round
        r are the requests of round r + 1 and the users that ended with r + 1 rounds. */
    lemma {:induction false} TablesConserved(r: nat)
      requires Valid() && r < numRounds
      ensures outputCounts[r] == (if r + 1 < numRounds then inputCounts[r + 1] else 0) + EndedWith(users, r + 1)
      ensures EndedWith(users, r + 1) <= userStats[r]
    {
      hide StartedTurn, CompletedTurn, EndedWith, WithRounds;
      TurnsConserved(users, r);
      EndedHaveRounds(users, r + 1);
      if r + 1 == numRounds { NoneStartedBeyond(users, numRounds); }
    }

    lemma {:induction false} HeadPlaced()
      requires Valid() && multiturnQueue != []
      ensures var u := multiturnQueue[0];
        0 <= u < |users| && u !in handedOut && users[u].currentRound < users[u].totalRounds
    {
      TimesMember(multiturnQueue, multiturnQueue[0]);
      assert Times(multiturnQueue, multiturnQueue[0]) > 0;
    }
  }

  /** The start times of the queued users. */
  function Starts(us: seq<User>, queue: seq<int>): (r: seq<real>)
    ensures |r| == |queue|
    ensures forall k :: 0 <= k < |r| ==> r[k] == if 0 <= queue[k] < |us| then us[queue[k]].start else 0.0
  {
    seq(|queue|, k requires 0 <= k < |queue| => if 0 <= queue[k] < |us| then us[queue[k]].start else 0.0)
  }

  lemma {:induction false} InsertEmpty(us: seq<User>, queue: seq<int>, start: real)
    requires queue == []
    ensures InsertAt(Starts(us, queue), start) == 0
  {
  }

  lemma {:induction false} TimesInserted(q: seq<int>, i: nat, u: int, w: int)
    requires i <= |q|
    ensures Times(q[..i] + [u] + q[i..], w) == Times(q, w) + OneIf(w == u)
  {
    assert q == q[..i] + q[i..];
    TimesConcat(q[..i], q[i..], w);
    TimesConcat(q[..i] + [u], q[i..], w);
    TimesSnoc(q[..i], u, w);
  }

  lemma {:induction false} CountsSnoc(us: seq<User>, u: User, r: int)
    ensures StartedTurn(us + [u], r) == StartedTurn(us, r) + OneIf(r <= u.currentRound && r < u.totalRounds)
    ensures CompletedTurn(us + [u], r) == CompletedTurn(us, r) + OneIf(u.currentRound > r)
    ensures WithRounds(us + [u], r) == WithRounds(us, r) + OneIf(u.totalRounds == r)
  {
    assert (us + [u])[..|us|] == us;
  }
}
