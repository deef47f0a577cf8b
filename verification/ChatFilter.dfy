/** benchmark/hicache/data_processing.py, `common_filter_chat`: goes round the dataset, keeping the
    turns within the length limits, until enough conversations were collected. The tokenizer is
    represented by the token counts of each turn. */
module ChatFilter {
  import opened Prelude
  import opened Counting
  import opened Serving

  datatype RawTurn = RawTurn(prompt: string, promptLen: int, completionLen: int)

  datatype Limits = Limits(
    minPrompt: Option<int>, minOutput: Option<int>, maxPrompt: Option<int>, maxOutput: Option<int>,
    fixedOutput: Option<int>)

  function OutputLen(b: Limits, t: RawTurn): int {
    if b.fixedOutput.None? then t.completionLen else b.fixedOutput.value
  }

  predicate Pruned(b: Limits, t: RawTurn) {
    || (b.minPrompt.Some? && t.promptLen < b.minPrompt.value)
    || (b.minOutput.Some? && OutputLen(b, t) < b.minOutput.value)
    || (b.maxPrompt.Some? && t.promptLen > b.maxPrompt.value)
    || (b.maxOutput.Some? && OutputLen(b, t) > b.maxOutput.value)
  }

  function Processed(b: Limits, conv: seq<RawTurn>): seq<Turn> {
    if conv == [] then []
    else
      var t := conv[|conv| - 1];
      Processed(b, conv[..|conv| - 1]) + if Pruned(b, t) then [] else [Turn(t.prompt, t.promptLen, OutputLen(b, t))]
  }

  /** The conversations that keep at least one turn, in order. */
  function Survivors(b: Limits, data: seq<seq<RawTurn>>): (r: seq<seq<Turn>>)
    ensures forall k :: 0 <= k < |r| ==> r[k] != []
  {
    if data == [] then []
    else
      var p := Processed(b, data[|data| - 1]);
      Survivors(b, data[..|data| - 1]) + if p == [] then [] else [p]
  }

  // ----- which turns and conversations those are

  /** The output length a turn is given: the fixed one, or that of its completion. */
  ghost predicate Gives(b: Limits, t: RawTurn, n: int) {
    (b.fixedOutput.Some? ==> n == b.fixedOutput.value) && (b.fixedOutput.None? ==> n == t.completionLen)
  }

  /** A turn of `n` output tokens is within every limit that is set. */
  predicate Within(b: Limits, t: RawTurn, n: int) {
    && (b.minPrompt.Some? ==> b.minPrompt.value <= t.promptLen)
    && (b.maxPrompt.Some? ==> t.promptLen <= b.maxPrompt.value)
    && (b.minOutput.Some? ==> b.minOutput.value <= n)
    && (b.maxOutput.Some? ==> n <= b.maxOutput.value)
  }

  /** Turn `m` of a conversation is kept. */
  ghost predicate Stays(b: Limits, conv: seq<RawTurn>, m: nat) {
    m < |conv| && forall n :: Gives(b, conv[m], n) ==> Within(b, conv[m], n)
  }

  /** The positions of the kept turns among the first `n`. */
  ghost function Staying(b: Limits, conv: seq<RawTurn>, n: nat): (ix: seq<nat>)
    ensures Increasing(ix) && forall m: nat :: m in ix <==> m < n && Stays(b, conv, m)
  {
    Positions(n, (m: nat) => Stays(b, conv, m))
  }

  /** The kept turns are those within the limits, in order, each with its prompt, the prompt's tokens and
      the output tokens it is given. */
  lemma {:induction false} KeptTurns(b: Limits, conv: seq<RawTurn>, n: nat)
    requires n <= |conv|
    ensures var ix, kept := Staying(b, conv, n), Processed(b, conv[..n]);
      && |kept| == |ix|
      && forall k :: 0 <= k < |ix| ==>
           && ix[k] < |conv| && kept[k].prompt == conv[ix[k]].prompt && kept[k].inputLen == conv[ix[k]].promptLen
           && Gives(b, conv[ix[k]], kept[k].outputLen)
  {
    if n > 0 {
      hide Stays, Gives, Pruned, OutputLen;
      KeptTurns(b, conv, n - 1);
      assert conv[..n][..n - 1] == conv[..n - 1];
      TurnStays(b, conv, n - 1);
    }
  }

  lemma {:induction false} TurnStays(b: Limits, conv: seq<RawTurn>, m: nat)
    requires m < |conv|
    ensures Stays(b, conv, m) <==> !Pruned(b, conv[m])
    ensures Gives(b, conv[m], OutputLen(b, conv[m]))
  {
    var t := conv[m];
    assert Gives(b, t, OutputLen(b, t));
    forall n | Gives(b, t, n) ensures n == OutputLen(b, t) {}
  }

  /** The positions of the conversations with a turn left, among the first `n`. */
  function Surviving(b: Limits, data: seq<seq<RawTurn>>, n: nat): (ix: seq<nat>)
    ensures Increasing(ix) && forall m: nat :: m in ix <==> m < n && m < |data| && Processed(b, data[m]) != []
  {
    Positions(n, (m: nat) => m < |data| && Processed(b, data[m]) != [])
  }

  /** The survivors are those conversations, in order. */
  lemma {:induction false} SurvivorsInOrder(b: Limits, data: seq<seq<RawTurn>>, n: nat)
    requires n <= |data|
    ensures var ix, kept := Surviving(b, data, n), Survivors(b, data[..n]);
      |kept| == |ix| && forall k :: 0 <= k < |ix| ==> ix[k] < |data| && kept[k] == Processed(b, data[ix[k]])
  {
    if n > 0 {
      hide Processed;
      SurvivorsInOrder(b, data, n - 1);
      assert data[..n][..n - 1] == data[..n - 1];
    }
  }

  lemma {:induction false} SurvivorsPrefix(b: Limits, data: seq<seq<RawTurn>>, i: nat)
    requires i <= |data|
    ensures Survivors(b, data[..i]) <= Survivors(b, data)
    decreases |data| - i
  {
    if i < |data| {
      assert data[..i + 1][..i] == data[..i];
      SurvivorsPrefix(b, data, i + 1);
    } else {
      assert data[..i] == data;
    }
  }

  function InputTokens(ts: seq<Turn>): int {
    if ts == [] then 0 else InputTokens(ts[..|ts| - 1]) + ts[|ts| - 1].inputLen
  }

  function OutputTokens(ts: seq<Turn>): int {
    if ts == [] then 0 else OutputTokens(ts[..|ts| - 1]) + ts[|ts| - 1].outputLen
  }

  function AllInput(cs: seq<seq<Turn>>): int {
    if cs == [] then 0 else AllInput(cs[..|cs| - 1]) + InputTokens(cs[|cs| - 1])
  }

  function AllOutput(cs: seq<seq<Turn>>): int {
    if cs == [] then 0 else AllOutput(cs[..|cs| - 1]) + OutputTokens(cs[|cs| - 1])
  }

  function Inputs(ts: seq<Turn>): seq<int> { seq(|ts|, i requires 0 <= i < |ts| => ts[i].inputLen) }

  function Outputs(ts: seq<Turn>): seq<int> { seq(|ts|, i requires 0 <= i < |ts| => ts[i].outputLen) }

  /** The two totals are the sums of the input and of the output lengths. */
  lemma {:induction false} TotalsAreSums(ts: seq<Turn>)
    ensures InputTokens(ts) == Sum(Inputs(ts)) && OutputTokens(ts) == Sum(Outputs(ts))
  {
    if ts != [] {
      var n := |ts| - 1;
      TotalsAreSums(ts[..n]);
      assert Inputs(ts)[..n] == Inputs(ts[..n]) && Outputs(ts)[..n] == Outputs(ts[..n]);
    }
  }

  lemma {:induction false} AllTotalsAreSums(cs: seq<seq<Turn>>)
    ensures AllInput(cs) == Sum(seq(|cs|, i requires 0 <= i < |cs| => Sum(Inputs(cs[i]))))
    ensures AllOutput(cs) == Sum(seq(|cs|, i requires 0 <= i < |cs| => Sum(Outputs(cs[i]))))
  {
    hide Inputs, Outputs, InputTokens, OutputTokens;
    if cs != [] {
      var n := |cs| - 1;
      AllTotalsAreSums(cs[..n]);
      TotalsAreSums(cs[n]);
      var a := seq(|cs|, i requires 0 <= i < |cs| => Sum(Inputs(cs[i])));
      var b := seq(|cs|, i requires 0 <= i < |cs| => Sum(Outputs(cs[i])));
      assert a[..n] == seq(n, i requires 0 <= i < n => Sum(Inputs(cs[..n][i])));
      assert b[..n] == seq(n, i requires 0 <= i < n => Sum(Outputs(cs[..n][i])));
    }
  }

  /** Element k is survivor k modulo their number. */
  ghost predicate Cyclic(s: seq<seq<Turn>>, r: seq<seq<Turn>>) {
    (r != [] ==> s != []) && forall k :: 0 <= k < |r| ==> r[k] == s[k % |s|]
  }

  lemma {:induction false} AtLeastOnce(d: int, m: nat)
    requires d >= 1
    ensures d * m >= m
    decreases d
  {
    if d > 1 {
      AtLeastOnce(d - 1, m);
      assert d * m == (d - 1) * m + m;
    }
  }

  lemma {:induction false} Apart(q: int, q': int, m: nat)
    requires q > q'
    ensures q * m >= q' * m + m
  {
    AtLeastOnce(q - q', m);
    assert (q - q') * m == q * m - q' * m;
  }

  lemma {:induction false} ModUnique(x: int, q: int, j: nat, m: nat)
    requires x == q * m + j && j < m
    ensures x % m == j
  {
    var q' := x / m;
    assert x == q' * m + x % m;
    if q > q' { Apart(q, q', m); } else if q < q' { Apart(q', q, m); }
  }

  lemma {:induction false} ModStep(base: int, j: nat, m: nat)
    requires j < m && base % m == 0
    ensures (base + j) % m == j
  {
    assert base == (base / m) * m;
    ModUnique(base + j, base / m, j, m);
  }

  lemma {:induction false} ModNext(base: int, m: nat)
    requires m > 0 && base % m == 0
    ensures (base + m) % m == 0
  {
    assert base == (base / m) * m;
    assert (base / m + 1) * m == (base / m) * m + m;
    ModUnique(base + m, base / m + 1, 0, m);
  }

  /** `n` conversations are whole rounds of the survivors. */
  ghost predicate Whole(n: nat, s: seq<seq<Turn>>) { s != [] ==> n % |s| == 0 }

  lemma {:induction false} WholeNext(n: nat, s: seq<seq<Turn>>)
    requires Whole(n, s)
    ensures Whole(n + |s|, s)
  {
    if s != [] { ModNext(n, |s|); }
  }

  lemma {:induction false} CyclicFacts(s: seq<seq<Turn>>, r: seq<seq<Turn>>)
    ensures Cyclic(s, []) && Whole(0, s)
    ensures Cyclic(s, r) && (forall k :: 0 <= k < |s| ==> s[k] != []) ==> forall k :: 0 <= k < |r| ==> r[k] != []
  {
    forall k | 0 <= k < |r| && s != [] { ModBounds(k, |s|); }
  }

  /** One conversation: its kept turns and their token counts. */
  method FilterTurns(b: Limits, conv: seq<RawTurn>) returns (processed: seq<Turn>, input: int, output: int)
    ensures processed == Processed(b, conv) && input == InputTokens(processed) && output == OutputTokens(processed)
  {
    processed, input, output := [], 0, 0;
    for j := 0 to |conv|
      invariant processed == Processed(b, conv[..j]) && input == InputTokens(processed) &&
        output == OutputTokens(processed)
    {
      assert conv[..j + 1][..j] == conv[..j];
      if !Pruned(b, conv[j]) {
        var t := Turn(conv[j].prompt, conv[j].promptLen, OutputLen(b, conv[j]));
        assert (processed + [t])[..|processed|] == processed;
        input, output := input + t.inputLen, output + t.outputLen;
        processed := processed + [t];
      }
    }
    assert conv[..|conv|] == conv;
  }

  /** What one pass over the dataset makes of the conversations collected so far: the survivors are
      appended until the target is met. */
  function Pass(num: int, data: seq<seq<RawTurn>>, b: Limits, start: seq<seq<Turn>>): seq<seq<Turn>> {
    if data == [] then start
    else
      var l := Pass(num, data[..|data| - 1], b, start);
      var p := Processed(b, data[|data| - 1]);
      if |l| == num || p == [] then l else l + [p]
  }

  lemma {:induction false} PassFull(num: int, data: seq<seq<RawTurn>>, b: Limits, start: seq<seq<Turn>>, i: nat)
    requires i <= |data| && |Pass(num, data[..i], b, start)| == num
    ensures Pass(num, data, b, start) == Pass(num, data[..i], b, start)
    decreases |data| - i
  {
    if i < |data| {
      assert data[..i + 1][..i] == data[..i];
      PassFull(num, data, b, start, i + 1);
    } else {
      assert data[..i] == data;
    }
  }

  /** A pass adds every survivor, or as many as are missing. */
  lemma {:induction false} PassLength(num: int, data: seq<seq<RawTurn>>, b: Limits, start: seq<seq<Turn>>)
    requires |start| <= num
    ensures var n := |start| + |Survivors(b, data)|; |Pass(num, data, b, start)| == if n <= num then n else num
  {
    hide Processed;
    if data != [] { PassLength(num, data[..|data| - 1], b, start); }
  }

  /** The inner loop, from a state where `filtered` holds whole rounds. */
  method OneRound(num: int, data: seq<seq<RawTurn>>, b: Limits, start: seq<seq<Turn>>, inTokens: int, outTokens: int)
    returns (filtered: seq<seq<Turn>>, input: int, output: int)
    requires |start| < num && Cyclic(Survivors(b, data), start)
    requires inTokens == AllInput(start) && outTokens == AllOutput(start)
    requires Whole(|start|, Survivors(b, data))
    ensures Cyclic(Survivors(b, data), filtered) && input == AllInput(filtered) && output == AllOutput(filtered)
    ensures filtered == Pass(num, data, b, start)
    ensures |filtered| == if |start| + |Survivors(b, data)| <= num then |start| + |Survivors(b, data)| else num
  {
    hide Cyclic, AllInput, AllOutput, Processed, Survivors, Pass;
    PassLength(num, data, b, start);
    ghost var s := Survivors(b, data);
    filtered, input, output := start, inTokens, outTokens;
    PassNothing(num, b, start);
    for i := 0 to |data|
      invariant Cyclic(s, filtered) && input == AllInput(filtered) && output == AllOutput(filtered)
      invariant |filtered| <= num && |filtered| == |start| + |Survivors(b, data[..i])|
      invariant filtered == Pass(num, data[..i], b, start)
    {
      if |filtered| == num {
        PassFull(num, data, b, start, i);
        return;
      }
      var processed, tin, tout := FilterTurns(b, data[i]);
      PassNext(num, data, b, start, i);
      SurvivorsPrefix(b, data, i + 1);
      if processed != [] {
        ghost var j := |Survivors(b, data[..i])|;
        assert s[j] == Survivors(b, data[..i + 1])[j] == processed;
        NextCyclic(s, filtered, |start|, j);
        TokensNext(filtered, processed);
        filtered := filtered + [processed];
      } else {
        NoTokens();
      }
      input, output := input + tin, output + tout;
    }
    assert data[..|data|] == data;
  }

  lemma {:induction false} NoTokens()
    ensures InputTokens([]) == 0 && OutputTokens([]) == 0
  {
  }

  lemma {:induction false} PassNothing(num: int, b: Limits, start: seq<seq<Turn>>)
    ensures Pass(num, [], b, start) == start && Survivors(b, []) == []
  {
  }

  /** What one more conversation adds to a pass that is not full. */
  lemma {:induction false} PassNext(num: int, data: seq<seq<RawTurn>>, b: Limits, start: seq<seq<Turn>>, i: nat)
    requires i < |data| && |Pass(num, data[..i], b, start)| != num
    ensures var p := Processed(b, data[i]); var more := if p == [] then [] else [p];
      && Survivors(b, data[..i + 1]) == Survivors(b, data[..i]) + more
      && Pass(num, data[..i + 1], b, start) == Pass(num, data[..i], b, start) + more
  {
    hide Processed;
    assert data[..i + 1][..i] == data[..i];
  }

  lemma {:induction false} NextCyclic(s: seq<seq<Turn>>, r: seq<seq<Turn>>, base: nat, j: nat)
    requires Cyclic(s, r) && j < |s| && base % |s| == 0 && |r| == base + j
    ensures Cyclic(s, r + [s[j]])
  {
    ModStep(base, j, |s|);
  }

  lemma {:induction false} TokensNext(cs: seq<seq<Turn>>, c: seq<Turn>)
    ensures AllInput(cs + [c]) == AllInput(cs) + InputTokens(c) &&
      AllOutput(cs + [c]) == AllOutput(cs) + OutputTokens(c)
  {
    assert (cs + [c])[..|cs|] == cs;
  }

  /** `common_filter_chat`. The precondition is when it returns at all (see `StuckWithoutSurvivors`). */
  method CommonFilterChat(num: int, data: seq<seq<RawTurn>>, b: Limits)
    returns (filtered: seq<seq<Turn>>, input: int, output: int)
    requires num <= 0 || Survivors(b, data) != []
    ensures |filtered| == (if num > 0 then num else 0) && Cyclic(Survivors(b, data), filtered)
    ensures input == AllInput(filtered) && output == AllOutput(filtered)
    ensures forall k :: 0 <= k < |filtered| ==> filtered[k] != []
    ensures exists n: nat :: filtered == Rounds(num, data, b, n)
  {
    hide Survivors, Collected;
    filtered, input, output := [], 0, 0;
    ghost var n: nat := 0;
    CollectedNone(num, data, b);
    while |filtered| < num
      invariant Collected(num, data, b, n, filtered, input, output)
      decreases num - |filtered|
    {
      CollectedReady(num, data, b, n, filtered, input, output);
      ghost var before := filtered;
      filtered, input, output := OneRound(num, data, b, filtered, input, output);
      CollectedStep(num, data, b, n, before, filtered, input, output);
      n := n + 1;
    }
    CollectedAll(num, data, b, n, filtered, input, output);
  }

  /** The outer loop's variables after `n` rounds. */
  ghost predicate Collected(num: int, data: seq<seq<RawTurn>>, b: Limits, n: nat, filtered: seq<seq<Turn>>, input: int,
                            output: int)
  {
    && filtered == Rounds(num, data, b, n) && input == AllInput(filtered) && output == AllOutput(filtered)
    && Cyclic(Survivors(b, data), filtered) && |filtered| <= (if num > 0 then num else 0)
    && (|filtered| < num ==> Whole(|filtered|, Survivors(b, data)))
  }

  lemma {:induction false} CollectedNone(num: int, data: seq<seq<RawTurn>>, b: Limits)
    ensures Collected(num, data, b, 0, [], 0, 0)
  {
    hide Survivors;
    CyclicFacts(Survivors(b, data), []);
  }

  /** What a round needs. */
  lemma {:induction false} CollectedReady(num: int, data: seq<seq<RawTurn>>, b: Limits, n: nat,
                                          filtered: seq<seq<Turn>>, input: int, output: int)
    requires Collected(num, data, b, n, filtered, input, output) && |filtered| < num
    ensures filtered == Rounds(num, data, b, n)
    ensures Cyclic(Survivors(b, data), filtered) && Whole(|filtered|, Survivors(b, data))
    ensures input == AllInput(filtered) && output == AllOutput(filtered)
  {
  }

  /** What a round gives. */
  lemma {:induction false} CollectedStep(num: int, data: seq<seq<RawTurn>>, b: Limits, n: nat,
                                         before: seq<seq<Turn>>, filtered: seq<seq<Turn>>, input: int, output: int)
    requires before == Rounds(num, data, b, n) && |before| < num && Whole(|before|, Survivors(b, data))
    requires filtered == Pass(num, data, b, before) && Cyclic(Survivors(b, data), filtered)
    requires input == AllInput(filtered) && output == AllOutput(filtered)
    ensures Collected(num, data, b, n + 1, filtered, input, output)
  {
    hide Survivors, Pass, Cyclic, Whole, AllInput, AllOutput;
    WholeNext(|before|, Survivors(b, data));
    PassLength(num, data, b, before);
  }

  lemma {:induction false} CollectedAll(num: int, data: seq<seq<RawTurn>>, b: Limits, n: nat,
                                        filtered: seq<seq<Turn>>, input: int, output: int)
    requires Collected(num, data, b, n, filtered, input, output) && |filtered| >= num
    ensures |filtered| == (if num > 0 then num else 0) && Cyclic(Survivors(b, data), filtered)
    ensures input == AllInput(filtered) && output == AllOutput(filtered) && filtered == Rounds(num, data, b, n)
    ensures forall k :: 0 <= k < |filtered| ==> filtered[k] != []
  {
    CyclicFacts(Survivors(b, data), filtered);
  }

  /** The conversations collected after `n` rounds of the outer loop; once enough are there, the loop
      has ended. */
  function Rounds(num: int, data: seq<seq<RawTurn>>, b: Limits, n: nat): seq<seq<Turn>> {
    if n == 0 then []
    else
      var l := Rounds(num, data, b, n - 1);
      if |l| >= num then l else Pass(num, data, b, l)
  }

  /** The outer loop ends if and only if nothing is asked for or some conversation of the dataset
      survives: otherwise no number of rounds collects anything. */
  lemma {:induction false} StuckWithoutSurvivors(num: int, data: seq<seq<RawTurn>>, b: Limits)
    ensures (exists n: nat :: |Rounds(num, data, b, n)| >= num) <==> num <= 0 || Survivors(b, data) != []
  {
    if num <= 0 {
      assert |Rounds(num, data, b, 0)| >= num;
    } else if Survivors(b, data) != [] {
      RoundsGrow(num, data, b, num);
    } else {
      forall n: nat ensures |Rounds(num, data, b, n)| < num { RoundsStuck(num, data, b, n); }
    }
  }

  lemma {:induction false} RoundsGrow(num: int, data: seq<seq<RawTurn>>, b: Limits, n: nat)
    requires Survivors(b, data) != [] && num > 0
    ensures |Rounds(num, data, b, n)| <= num && (|Rounds(num, data, b, n)| == num || |Rounds(num, data, b, n)| >= n)
  {
    hide Survivors, Pass;
    if n > 0 {
      RoundsGrow(num, data, b, n - 1);
      PassLength(num, data, b, Rounds(num, data, b, n - 1));
    }
  }

  lemma {:induction false} RoundsStuck(num: int, data: seq<seq<RawTurn>>, b: Limits, n: nat)
    requires Survivors(b, data) == [] && num > 0
    ensures Rounds(num, data, b, n) == []
  {
    hide Survivors, Pass;
    if n > 0 {
      RoundsStuck(num, data, b, n - 1);
      PassLength(num, data, b, []);
    }
  }

  /** One conversation whose only prompt is longer than allowed: asking for one hangs. */
  lemma {:induction false} StuckWitness(n: nat)
    ensures var b := Limits(None, None, Some(1), None, None);
      |Rounds(1, [[RawTurn("prompt", 5, 5)]], b, n)| < 1
  {
    var b, conv := Limits(None, None, Some(1), None, None), [RawTurn("prompt", 5, 5)];
    assert conv[..0] == [] && Pruned(b, conv[0]);
    assert Processed(b, conv) == Processed(b, []) + [] == [];
    var data: seq<seq<RawTurn>> := [conv];
    assert data[..0] == [];
    assert Survivors(b, data) == Survivors(b, []) + [] == [];
    RoundsStuck(1, data, b, n);
  }

  /** One turn of 3 prompt and 7 completion tokens, without limits. */
  lemma {:induction false} KeepWitness()
    ensures var b, conv := Limits(None, None, None, None, None), [RawTurn("prompt", 3, 7)];
      var kept := Processed(b, conv);
      kept == [Turn("prompt", 3, 7)] && InputTokens(kept) == 3 && OutputTokens(kept) == 7
  {
    var b, conv := Limits(None, None, None, None, None), [RawTurn("prompt", 3, 7)];
    assert conv[..0] == [] && !Pruned(b, conv[0]);
    assert Processed(b, conv) == Processed(b, []) + [Turn("prompt", 3, 7)];
    var kept := [Turn("prompt", 3, 7)];
    assert kept[..0] == [];
  }

  lemma {:induction false} ModBounds(k: int, m: nat)
    requires m > 0
    ensures 0 <= k % m < m
  {
  }

  /** What the filter returns is a valid set of conversations for the serving benchmark. */
  lemma {:induction false} FilteredIsServable(s: seq<seq<Turn>>, r: seq<seq<Turn>>, limit: Option<nat>)
    requires (forall k :: 0 <= k < |s| ==> s[k] != []) && Cyclic(s, r) && (limit.Some? ==> limit.value >= 1)
    ensures ValidConfig(Config(r, limit))
  {
    forall k | 0 <= k < |r| ensures r[k] != [] { ModBounds(k, |s|); }
  }
}
