/** benchmark/line_retrieval/gen_data.py, `generate_lines`: resolving redirected lines. Each line
    may redirect to another one; the pass marks lines that run into a ring, records the chain of
    the others, and overwrites the value table in place as it goes. */
module Redirects {
  import opened Prelude

  type Table = seq<Option<nat>>

  /** Redirect targets are drawn from the existing lines. */
  ghost predicate InRange(r: Table) {
    forall i :: 0 <= i < |r| && r[i].Some? ==> r[i].value < |r|
  }

  /** The line reached from `i` after `k` redirects, staying put on a line without one. */
  function Hop(r: Table, i: nat, k: nat): (j: nat)
    requires InRange(r) && i < |r|
    ensures j < |r|
  {
    if k == 0 then i
    else
      var j := Hop(r, i, k - 1);
      if r[j].Some? then r[j].value else j
  }

  /** The chain from `i` never reaches a line without a redirect. */
  ghost predicate IsRing(r: Table, i: nat)
    requires InRange(r) && i < |r|
  {
    forall k: nat :: r[Hop(r, i, k)].Some?
  }

  /** The chain from `i` first reaches a line without a redirect after `m` steps. */
  ghost predicate EndsAt(r: Table, i: nat, m: nat)
    requires InRange(r) && i < |r|
  {
    r[Hop(r, i, m)].None? && forall k: nat :: k < m ==> r[Hop(r, i, k)].Some?
  }

  /** The lines visited in steps 1..m. */
  function Chain(r: Table, i: nat, m: nat): (s: seq<nat>)
    requires InRange(r) && i < |r|
    ensures |s| == m && forall k :: 0 <= k < m ==> s[k] == Hop(r, i, k + 1)
  {
    if m == 0 then [] else Chain(r, i, m - 1) + [Hop(r, i, m)]
  }

  /** The line whose value line `i` finally has. */
  ghost function Terminal(r: Table, i: nat): (t: nat)
    requires InRange(r) && i < |r| && !IsRing(r, i)
    ensures t < |r| && r[t].None?
  {
    EndsSomewhere(r, i);
    var m: nat :| EndsAt(r, i, m);
    Hop(r, i, m)
  }

  lemma {:induction false} HopAdd(r: Table, i: nat, a: nat, b: nat)
    requires InRange(r) && i < |r|
    ensures Hop(r, i, a + b) == Hop(r, Hop(r, i, a), b)
  {
    if b > 0 { HopAdd(r, i, a, b - 1); }
  }

  lemma {:induction false} EndsFrom(r: Table, i: nat, k: nat)
    requires InRange(r) && i < |r| && r[Hop(r, i, k)].None?
    ensures exists m: nat :: m <= k && EndsAt(r, i, m)
  {
    if forall j: nat :: j < k ==> r[Hop(r, i, j)].Some? {
      assert EndsAt(r, i, k);
    } else {
      var j: nat :| j < k && r[Hop(r, i, j)].None?;
      EndsFrom(r, i, j);
    }
  }

  lemma {:induction false} EndsSomewhere(r: Table, i: nat)
    requires InRange(r) && i < |r| && !IsRing(r, i)
    ensures exists m: nat :: EndsAt(r, i, m)
  {
    var k: nat :| r[Hop(r, i, k)].None?;
    EndsFrom(r, i, k);
  }

  lemma {:induction false} EndsOnce(r: Table, i: nat, m: nat)
    requires InRange(r) && i < |r| && EndsAt(r, i, m)
    ensures !IsRing(r, i) && Terminal(r, i) == Hop(r, i, m)
    ensures forall n: nat :: EndsAt(r, i, n) ==> n == m
  {
  }

  /** Coming back to a line already visited means going round for ever. */
  lemma {:induction false} RepeatIsRing(r: Table, i: nat, a: nat, b: nat)
    requires InRange(r) && i < |r| && a < b && Hop(r, i, a) == Hop(r, i, b)
    requires forall k: nat :: k < b ==> r[Hop(r, i, k)].Some?
    ensures IsRing(r, i)
  {
    forall k: nat ensures r[Hop(r, i, k)].Some? { RepeatAt(r, i, a, b, k); }
  }

  lemma {:induction false} RepeatAt(r: Table, i: nat, a: nat, b: nat, k: nat)
    requires InRange(r) && i < |r| && a < b && Hop(r, i, a) == Hop(r, i, b)
    requires forall k: nat :: k < b ==> r[Hop(r, i, k)].Some?
    ensures r[Hop(r, i, k)].Some?
  {
    hide Hop;
    if k >= b {
      HopAdd(r, i, b, k - b);
      HopAdd(r, i, a, k - b);
      RepeatAt(r, i, a, b, k - (b - a));
    }
  }

  /** A chain that ends visits no line twice. */
  lemma {:induction false} ChainNoRepeat(r: Table, i: nat, m: nat)
    requires InRange(r) && i < |r| && EndsAt(r, i, m)
    ensures NoRepeat([i] + Chain(r, i, m))
  {
    hide Hop;
    var s := [i] + Chain(r, i, m);
    assert Hop(r, i, 0) == i by { HopZero(r, i); }
    forall a, b | 0 <= a < b < |s| ensures s[a] != s[b] {
      assert s[a] == Hop(r, i, a) && s[b] == Hop(r, i, b);
      if Hop(r, i, a) == Hop(r, i, b) { RepeatIsRing(r, i, a, b); }
    }
  }

  lemma {:induction false} HopZero(r: Table, i: nat)
    requires InRange(r) && i < |r|
    ensures Hop(r, i, 0) == i
  {
  }

  /** What the pass records for line `i`: None is the ring marker, a line without redirect has no
      links. */
  ghost predicate Links(r: Table, i: nat, links: Option<seq<nat>>)
    requires InRange(r) && i < |r|
  {
    if IsRing(r, i) then links == None
    else exists m: nat :: EndsAt(r, i, m) && links == Some(Chain(r, i, m))
  }

  /** One line: follows redirects at most as often as there are lines. */
  method ResolveLine(r: Table, i: nat) returns (links: Option<seq<nat>>, cur: nat)
    requires InRange(r) && i < |r| && r[i].Some?
    ensures Links(r, i, links) && cur < |r|
    ensures links.Some? ==> !IsRing(r, i) && cur == Terminal(r, i) && |links.value| < |r| && NoRepeat([i] + links.value)
  {
    hide Hop;
    HopZero(r, i);
    var tmpLink: seq<nat> := [];
    var visited: set<nat> := {};
    ghost var trail: seq<nat> := [];
    cur := i;
    while r[cur].Some?
      invariant cur < |r| && |trail| == |tmpLink| && forall x :: x in visited <==> x in trail
      invariant cur == Hop(r, i, |tmpLink|) && tmpLink == Chain(r, i, |tmpLink|)
      invariant forall k :: 0 <= k < |trail| ==> trail[k] == Hop(r, i, k) && r[trail[k]].Some?
      invariant NoRepeat(trail) && cur !in visited
      decreases |r| - |trail|
    {
      visited := visited + {cur};
      trail := trail + [cur];
      ManyDistinct(trail, |r|);
      HopNext(r, i, |tmpLink|);
      tmpLink := tmpLink + [r[cur].value];
      cur := r[cur].value;
      if cur in visited {
        assert cur in trail;
        ghost var a :| 0 <= a < |trail| && trail[a] == cur;
        RepeatIsRing(r, i, a, |tmpLink|);
        return None, cur;
      }
    }
    assert EndsAt(r, i, |tmpLink|);
    EndsOnce(r, i, |tmpLink|);
    ChainNoRepeat(r, i, |tmpLink|);
    ManyDistinct([i] + tmpLink, |r|);
    links := Some(tmpLink);
  }

  lemma {:induction false} HopNext(r: Table, i: nat, k: nat)
    requires InRange(r) && i < |r| && r[Hop(r, i, k)].Some?
    ensures Hop(r, i, k + 1) == r[Hop(r, i, k)].value
    ensures Chain(r, i, k + 1) == Chain(r, i, k) + [Hop(r, i, k + 1)]
  {
  }

  /** The value a line ends up with, unless it runs into a ring. */
  ghost predicate Resolved(r: Table, original: seq<string>, i: nat, value: string)
    requires InRange(r) && |original| == |r| && i < |r|
  {
    !IsRing(r, i) ==> value == original[Terminal(r, i)]
  }

  lemma {:induction false} PlainLine(r: Table, i: nat)
    requires InRange(r) && i < |r| && r[i].None?
    ensures Links(r, i, Some([])) && !IsRing(r, i) && Terminal(r, i) == i
  {
    HopZero(r, i);
    assert EndsAt(r, i, 0);
    EndsOnce(r, i, 0);
  }

  /** The whole pass. The value of a resolved line is its terminal's original value, although
      values are overwritten while the pass is reading them. */
  method ResolveAll(r: Table, values: array<string>) returns (links: seq<Option<seq<nat>>>, rings: set<nat>)
    requires InRange(r) && values.Length == |r|
    modifies values
    ensures |links| == |r|
    ensures forall i :: 0 <= i < |r| ==> Links(r, i, links[i]) && (i in rings <==> IsRing(r, i))
    ensures forall i :: 0 <= i < |r| ==> Resolved(r, old(values[..]), i, values[i])
  {
    hide Hop, IsRing, EndsAt;
    ghost var original := values[..];
    links, rings := [], {};
    for i := 0 to |r|
      invariant |links| == i && (forall j :: j in rings ==> j < i)
      invariant forall j :: 0 <= j < i ==> Links(r, j, links[j]) && (j in rings <==> IsRing(r, j))
      invariant forall j :: 0 <= j < i ==> Resolved(r, original, j, values[j])
      invariant forall j :: i <= j < |r| ==> values[j] == original[j]
      invariant forall j :: 0 <= j < |r| && r[j].None? ==> values[j] == original[j]
    {
      if r[i].None? {
        PlainLine(r, i);
        links := links + [Some([])];
      } else {
        var link, cur := ResolveLine(r, i);
        if link.None? { rings := rings + {i}; }
        values[i] := values[cur];
        links := links + [link];
      }
    }
  }
}
