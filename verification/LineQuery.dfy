/** benchmark/line_retrieval: grouping lines by the number of hops (gen_data.py) and choosing the
    query line and its truncated context (bench_sglang.py, `eval_model`). */
module LineQuery {
  import opened Prelude
  import opened Redirects

  datatype Error = KeyError | IndexError

  /** Lines below `n` that need `hoops` hops and do not run into a ring, in order. */
  function Group(links: seq<Option<seq<nat>>>, hoops: nat, n: nat): (g: seq<nat>)
    requires n <= |links|
    ensures forall q :: q in g <==> 0 <= q < n && links[q].Some? && |links[q].value| + 1 == hoops
    ensures forall i, j :: 0 <= i < j < |g| ==> g[i] < g[j]
  {
    if n == 0 then []
    else
      var g := Group(links, hoops, n - 1);
      assert forall i :: 0 <= i < |g| ==> g[i] in g;
      if links[n - 1].Some? && |links[n - 1].value| + 1 == hoops then g + [n - 1] else g
  }

  /** The grouping loop; a number of hops with no line has no entry. */
  method GroupByHoops(links: seq<Option<seq<nat>>>, rings: set<nat>) returns (groups: map<nat, seq<nat>>)
    requires forall i :: 0 <= i < |links| ==> (i in rings <==> links[i].None?)
    ensures forall h: nat :: Group(links, h, |links|) == if h in groups then groups[h] else []
  {
    groups := map[];
    for i := 0 to |links|
      invariant forall h: nat :: Group(links, h, i) == if h in groups then groups[h] else []
    {
      if i !in rings {
        var h := |links[i].value| + 1;
        groups := groups[h := (if h in groups then groups[h] else []) + [i]];
      }
    }
  }

  /** The filter of `eval_model`: every hop and the line itself lie in the first part. */
  predicate Kept(links: seq<Option<seq<nat>>>, q: nat, srcIndex: int) {
    q < |links| && links[q].Some? && q < srcIndex && forall l :: l in links[q].value ==> l <= srcIndex
  }

  function Filtered(links: seq<Option<seq<nat>>>, group: seq<nat>, srcIndex: int): (r: seq<nat>)
    ensures forall q :: q in r <==> q in group && Kept(links, q, srcIndex)
  {
    if group == [] then []
    else
      var n := |group| - 1;
      var r := Filtered(links, group[..n], srcIndex);
      assert group == group[..n] + [group[n]];
      if Kept(links, group[n], srcIndex) then r + [group[n]] else r
  }

  /** `int(len * percent)`, truncated toward zero. */
  function Truncate(x: real): int { if x >= 0.0 then x.Floor else -((-x).Floor) }

  /** Python indexing: negative positions count from the end. */
  function At(s: seq<nat>, k: int): Result<nat, Error> {
    if 0 <= k < |s| then Ok(s[k])
    else if -|s| <= k < 0 then Ok(s[|s| + k])
    else Err(IndexError)
  }

  function Least(a: int, b: int): int { if a <= b then a else b }

  /** The positions of the queries kept, among the first `n` of the group. */
  function Keeping(links: seq<Option<seq<nat>>>, group: seq<nat>, srcIndex: int, n: nat): (ix: seq<nat>)
    ensures Increasing(ix) && forall m: nat :: m in ix <==> m < n && m < |group| && Kept(links, group[m], srcIndex)
  {
    Positions(n, (m: nat) => m < |group| && Kept(links, group[m], srcIndex))
  }

  /** They stay in the group's order. */
  lemma {:induction false} FilteredInOrder(links: seq<Option<seq<nat>>>, group: seq<nat>, srcIndex: int, n: nat)
    requires n <= |group|
    ensures var ix, kept := Keeping(links, group, srcIndex, n), Filtered(links, group[..n], srcIndex);
      |kept| == |ix| && forall k :: 0 <= k < |ix| ==> ix[k] < |group| && kept[k] == group[ix[k]]
  {
    if n > 0 {
      hide Kept;
      FilteredInOrder(links, group, srcIndex, n - 1);
      assert group[..n][..n - 1] == group[..n - 1];
    }
  }

  method FilterQueries(links: seq<Option<seq<nat>>>, group: seq<nat>, srcIndex: int) returns (queries: seq<nat>)
    ensures queries == Filtered(links, group, srcIndex)
  {
    queries := [];
    for i := 0 to |group|
      invariant queries == Filtered(links, group[..i], srcIndex)
    {
      assert group[..i + 1][..i] == group[..i];
      if Kept(links, group[i], srcIndex) {
        queries := queries + [group[i]];
      }
    }
    assert group[..|group|] == group;
  }

  /** `min(int(len * percent), len - 1)` */
  function Position(n: nat, percent: real): int { Least(Truncate(n as real * percent), n - 1) }

  /** The position is inside the list exactly when the list is not empty. */
  lemma {:induction false} PositionInside(s: seq<nat>, percent: real)
    requires 0.0 <= percent
    ensures At(s, Position(|s|, percent)).Err? <==> s == []
  {
    if s != [] { PartOf(|s| as real, percent); }
  }

  /** A percentage below 1 picks the entry that far into the list, rounded down; from 1 on, the last. */
  lemma {:induction false} PositionExactly(s: seq<nat>, percent: real)
    requires s != [] && 0.0 <= percent
    ensures var p := Position(|s|, percent);
      && 0 <= p < |s| && At(s, p) == Ok(s[p])
      && (percent < 1.0 ==> p as real <= |s| as real * percent < p as real + 1.0)
      && (percent >= 1.0 ==> p == |s| - 1)
  {
    PartOf(|s| as real, percent);
    var x := |s| as real * percent;
    assert x.Floor as real <= x < x.Floor as real + 1.0;
  }

  lemma {:induction false} PartOf(n: real, percent: real)
    requires n > 0.0 && 0.0 <= percent
    ensures 0.0 <= n * percent && (n * percent < n <==> percent < 1.0)
  {
    assert n * percent - n == n * (percent - 1.0);
    if percent < 1.0 { Product(n, 1.0 - percent); } else { Product(n, percent - 1.0); }
    Product(n, percent);
  }

  lemma {:induction false} Product(a: real, b: real)
    requires a > 0.0 && b >= 0.0
    ensures a * b >= 0.0 && (b > 0.0 ==> a * b > 0.0)
  {
  }

  lemma {:induction false} AtMember(s: seq<nat>, k: int)
    ensures At(s, k).Ok? ==> At(s, k).value in s
  {
  }

  /** The query line for a source index and a percentage. */
  method SelectQuery(links: seq<Option<seq<nat>>>, groups: map<nat, seq<nat>>, hoops: nat, srcIndex: int, percent: real)
    returns (r: Result<nat, Error>)
    ensures hoops !in groups ==> r == Err(KeyError)
    ensures hoops in groups ==>
      var queries := Filtered(links, groups[hoops], srcIndex);
      r == At(queries, Position(|queries|, percent))
    ensures r.Ok? ==> hoops in groups && r.value in groups[hoops] && Kept(links, r.value, srcIndex)
    ensures hoops in groups && 0.0 <= percent ==>
      (r.Err? <==> forall q :: q in groups[hoops] ==> !Kept(links, q, srcIndex))
  {
    hide Kept, Position, At, Filtered;
    if hoops !in groups {
      return Err(KeyError);
    }
    var queries := FilterQueries(links, groups[hoops], srcIndex);
    r := At(queries, Position(|queries|, percent));
    AtMember(queries, Position(|queries|, percent));
    if 0.0 <= percent { PositionInside(queries, percent); }
    if queries != [] { assert queries[0] in queries; }
  }

  /** Resolving a line by reading a list of lines only: fails on leaving the list or after
      `fuel` hops. */
  function Read(r: Table, values: seq<string>, q: nat, fuel: nat): Option<string>
    requires |values| == |r|
    decreases fuel
  {
    if q >= |r| then None
    else if r[q].None? then Some(values[q])
    else if fuel == 0 then None
    else Read(r, values, r[q].value, fuel - 1)
  }

  lemma {:induction false} ReadChain(r: Table, original: seq<string>, i: nat, m: nat, k: nat, n: nat, fuel: nat)
    requires InRange(r) && |original| == |r| && i < |r| && n <= |r| && EndsAt(r, i, m) && k <= m && fuel >= m - k
    requires forall j: nat :: j <= m ==> Hop(r, i, j) < n
    ensures Read(r[..n], original[..n], Hop(r, i, k), fuel) == Some(original[Hop(r, i, m)])
    decreases m - k
  {
    if k < m {
      HopNext(r, i, k);
      ReadChain(r, original, i, m, k + 1, n, fuel - 1);
    }
  }

  /** Every query the evaluator keeps can be answered from the truncated context: its chain and
      its terminal are in it, and resolving there gives the recorded value. */
  lemma {:induction false} KeptIsAnswerable(r: Table, original: seq<string>, links: seq<Option<seq<nat>>>,
                                            value: string, q: nat, srcIndex: nat)
    requires InRange(r) && |original| == |r| == |links| && Kept(links, q, srcIndex)
    requires Links(r, q, links[q]) && Resolved(r, original, q, value)
    ensures var n := if srcIndex + 1 <= |r| then srcIndex + 1 else |r|;
      && !IsRing(r, q) && q < n && Terminal(r, q) < n && (forall l :: l in links[q].value ==> l < n)
      && Read(r[..n], original[..n], q, n) == Some(value)
  {
    hide Hop, IsRing;
    var n := if srcIndex + 1 <= |r| then srcIndex + 1 else |r|;
    var m: nat :| EndsAt(r, q, m) && links[q] == Some(Chain(r, q, m));
    EndsOnce(r, q, m);
    HopZero(r, q);
    var s := Chain(r, q, m);
    forall j: nat | j <= m ensures Hop(r, q, j) < n {
      if j > 0 { assert s[j - 1] in s; }
    }
    forall l | l in s ensures l < n {
      var j :| 0 <= j < |s| && s[j] == l;
      assert Hop(r, q, j + 1) < n;
    }
    ChainNoRepeat(r, q, m);
    ManyDistinct([q] + s, n);
    ReadChain(r, original, q, m, 0, n, n);
  }

  /** No line reached from `q` lies after line `bound`. */
  ghost predicate StaysWithin(r: Table, q: nat, bound: int)
    requires InRange(r) && q < |r|
  {
    forall k: nat :: Hop(r, q, k) <= bound
  }

  /** A query is kept if and only if it lies before the source line, does not run into a ring, and no line
      on its way lies after the source line. */
  lemma {:induction false} KeptExactly(r: Table, links: seq<Option<seq<nat>>>, q: nat, srcIndex: int)
    requires InRange(r) && |r| == |links| && q < |r| && Links(r, q, links[q])
    ensures Kept(links, q, srcIndex) <==> q < srcIndex && !IsRing(r, q) && StaysWithin(r, q, srcIndex)
  {
    hide IsRing, Hop;
    if links[q].Some? && q < srcIndex {
      var m: nat :| EndsAt(r, q, m) && links[q] == Some(Chain(r, q, m));
      EndsOnce(r, q, m);
      var s := Chain(r, q, m);
      assert Kept(links, q, srcIndex) <==> forall l :: l in s ==> l <= srcIndex;
      if Kept(links, q, srcIndex) { ChainCovers(r, q, m, srcIndex); }
      if StaysWithin(r, q, srcIndex) { ChainWithin(r, q, m, srcIndex); }
    }
  }

  lemma {:induction false} ChainCovers(r: Table, q: nat, m: nat, bound: int)
    requires InRange(r) && q < |r| && EndsAt(r, q, m) && q <= bound && forall l :: l in Chain(r, q, m) ==> l <= bound
    ensures StaysWithin(r, q, bound)
  {
    hide Hop;
    var s := Chain(r, q, m);
    HopZero(r, q);
    forall k: nat ensures Hop(r, q, k) <= bound {
      var j := if k <= m then k else m;
      if k > m { HopStays(r, q, m, k); }
      if j > 0 { assert s[j - 1] in s; }
    }
  }

  lemma {:induction false} ChainWithin(r: Table, q: nat, m: nat, bound: int)
    requires InRange(r) && q < |r| && StaysWithin(r, q, bound)
    ensures forall l :: l in Chain(r, q, m) ==> l <= bound
  {
    hide Hop;
    var s := Chain(r, q, m);
    forall l | l in s ensures l <= bound {
      var j :| 0 <= j < |s| && s[j] == l;
      assert Hop(r, q, j + 1) <= bound;
    }
  }

  lemma {:induction false} HopStays(r: Table, q: nat, m: nat, k: nat)
    requires InRange(r) && q < |r| && EndsAt(r, q, m) && k >= m
    ensures Hop(r, q, k) == Hop(r, q, m)
  {
    if k > m { HopStays(r, q, m, k - 1); }
  }

  /** The context is the first srcIndex + 1 lines, cut in four; nothing is lost or repeated. */
  method SplitBody(lines: seq<string>, srcIndex: nat) returns (parts: seq<seq<string>>)
    ensures |parts| == 4
    ensures parts[0] + parts[1] + parts[2] + parts[3] ==
      if srcIndex + 1 <= |lines| then lines[..srcIndex + 1] else lines
    ensures |parts[0]| == |parts[1]| == |parts[2]| <= |parts[3]| <= |parts[0]| + 3
  {
    var body := if srcIndex + 1 <= |lines| then lines[..srcIndex + 1] else lines;
    var n := |body| / 4;
    parts := [body[..n], body[n..2 * n], body[2 * n..3 * n], body[3 * n..]];
  }
}
