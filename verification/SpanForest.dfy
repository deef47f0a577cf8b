/** scripts/convert_otel_2_perfetto.py, `build_otel_span_tree`, `__convert_to_perfetto_span` and
    `generate_perfetto_span`: parent ids are arbitrary (they may dangle or form cycles), spans are
    identified by their position in the input, and spans are converted in place, recursively. */
module SpanForest {
  import opened Prelude

  /** One engine span. `module == "sglang::request"` is `isRequest`; `links` are the ids it links to.
      `pid` and `rid` are the attributes; `outPid` is written by the conversion. */
  datatype Span = Span(
    spanId: string, parentSpanId: Option<string>, isRequest: bool, links: seq<string>,
    pid: int, rid: string, start: int, end: int, outPid: Option<int>)

  /** `span.get("parentSpanId", "")` */
  function ParentId(s: Span): string { if s.parentSpanId.Some? then s.parentSpanId.value else "" }

  /** `span_id_map[id]`: of several spans with one id, the last wins. */
  function ById(ss: seq<Span>, id: string): (r: Option<nat>)
    ensures r.Some? ==>
      r.value < |ss| && ss[r.value].spanId == id && forall k :: r.value < k < |ss| ==> ss[k].spanId != id
    ensures r.None? <==> forall k :: 0 <= k < |ss| ==> ss[k].spanId != id
  {
    if ss == [] then None
    else if ss[|ss| - 1].spanId == id then Some(|ss| - 1)
    else ById(ss[..|ss| - 1], id)
  }

  /** The span in whose child list span `i` ends up. Request spans are roots, never children. */
  function Parent(ss: seq<Span>, i: nat): (r: Option<nat>)
    requires i < |ss|
    ensures r.Some? ==> r.value < |ss|
  {
    if ss[i].isRequest then None else ById(ss, ParentId(ss[i]))
  }

  /** The first `n` spans that have parent `p`, in input order. */
  function ChildrenUpTo(ss: seq<Span>, p: nat, n: nat): (r: seq<nat>)
    requires n <= |ss|
    ensures forall c :: c in r <==> 0 <= c < n && Parent(ss, c) == Some(p)
    ensures forall i, j :: 0 <= i < j < |r| ==> r[i] < r[j]
  {
    if n == 0 then []
    else
      var r := ChildrenUpTo(ss, p, n - 1);
      assert forall i :: 0 <= i < |r| ==> r[i] in r;
      if Parent(ss, n - 1) == Some(p) then r + [n - 1] else r
  }

  function Children(ss: seq<Span>, p: nat): seq<nat> { ChildrenUpTo(ss, p, |ss|) }

  lemma {:induction false} ChildrenOnce(ss: seq<Span>, root: nat)
    ensures NoRepeat(Children(ss, root))
  {
  }

  /** The children of several spans, in order. */
  function Kids(ss: seq<Span>, ps: seq<nat>): seq<nat> {
    if ps == [] then [] else Kids(ss, ps[..|ps| - 1]) + Children(ss, ps[|ps| - 1])
  }

  /** The spans that link ids resolve to; unknown ids are dropped. */
  function LinkTargets(ss: seq<Span>, ids: seq<string>): (r: seq<nat>)
    ensures forall t :: t in r ==> t < |ss|
  {
    if ids == [] then []
    else
      var t := ById(ss, ids[|ids| - 1]);
      LinkTargets(ss, ids[..|ids| - 1]) + if t.Some? then [t.value] else []
  }

  lemma {:induction false} LinkTargetsMembers(ss: seq<Span>, ids: seq<string>, t: nat)
    ensures t in LinkTargets(ss, ids) <==> exists id :: id in ids && ById(ss, id) == Some(t)
  {
    hide ById;
    if ids != [] {
      var n := |ids| - 1;
      LinkTargetsMembers(ss, ids[..n], t);
      assert ids[n] in ids && forall id :: id in ids[..n] ==> id in ids;
      forall id | id in ids ensures id in ids[..n] || id == ids[n] {}
    }
  }

  /** The ancestor `k` steps above span `i`, if the chain is that long. */
  function Up(ss: seq<Span>, i: nat, k: nat): (r: Option<nat>)
    requires i < |ss|
    ensures r.Some? ==> r.value < |ss|
  {
    if k == 0 then Some(i)
    else match Up(ss, i, k - 1) case None => None case Some(a) => Parent(ss, a)
  }

  /** A request span sits `d` steps above span `i`. */
  predicate RootedAt(ss: seq<Span>, i: nat, d: nat) {
    i < |ss| && Up(ss, i, d).Some? && ss[Up(ss, i, d).value].isRequest
  }

  lemma {:induction false} UpAdd(ss: seq<Span>, i: nat, a: nat, b: nat)
    requires i < |ss|
    ensures Up(ss, i, a + b) == match Up(ss, i, a) case None => None case Some(m) => Up(ss, m, b)
  {
    hide Parent;
    if b > 0 { UpAdd(ss, i, a, b - 1); }
  }

  lemma {:induction false} RequestIsTop(ss: seq<Span>, i: nat, d: nat)
    requires RootedAt(ss, i, d)
    ensures Up(ss, i, d + 1).None?
  {
    hide ById;
  }

  /** A request is reached at one height only, and nothing lies above it. */
  lemma {:induction false} RootedOnce(ss: seq<Span>, i: nat, d: nat, k: nat)
    requires RootedAt(ss, i, d) && k > d
    ensures Up(ss, i, k).None?
  {
    hide Parent, Up, RootedAt;
    RootedInRange(ss, i, d);
    RequestIsTop(ss, i, d);
    UpAdd(ss, i, d + 1, k - d - 1);
  }

  lemma {:induction false} RootedAbove(ss: seq<Span>, i: nat, d: nat, k: nat)
    requires RootedAt(ss, i, d) && k <= d
    ensures Up(ss, i, k).Some? && RootedAt(ss, Up(ss, i, k).value, d - k)
  {
    hide Parent, Up;
    UpAdd(ss, i, k, d - k);
  }

  lemma {:induction false} RootedBelow(ss: seq<Span>, i: nat, k: nat, a: nat, d: nat)
    requires i < |ss| && Up(ss, i, k) == Some(a) && RootedAt(ss, a, d)
    ensures RootedAt(ss, i, k + d)
  {
    hide Parent, Up;
    UpAdd(ss, i, k, d);
  }

  lemma {:induction false} RootedUnique(ss: seq<Span>, i: nat, d: nat, d': nat)
    requires RootedAt(ss, i, d) && RootedAt(ss, i, d')
    ensures d == d'
  {
    if d < d' { RootedOnce(ss, i, d, d'); } else if d' < d { RootedOnce(ss, i, d', d); }
  }

  /** Chains that reach a request have no repetition, so they are shorter than the input. */
  lemma {:induction false} RootedBound(ss: seq<Span>, i: nat, d: nat)
    requires RootedAt(ss, i, d)
    ensures d < |ss|
  {
    hide Up, RootedAt;
    forall a, b | a in OneTo(d + 1) && b in OneTo(d + 1) && UpNo(ss, i, a) == UpNo(ss, i, b) ensures a == b {
      UpNoRooted(ss, i, d, a);
      UpNoRooted(ss, i, d, b);
      RootedUnique(ss, UpNo(ss, i, a) - 1, d - a + 1, d - b + 1);
    }
    forall a | a in OneTo(d + 1) ensures UpNo(ss, i, a) in OneTo(|ss|) { UpNoRooted(ss, i, d, a); }
    InjectionSize(k => UpNo(ss, i, k), OneTo(d + 1), OneTo(|ss|));
  }

  function UpNo(ss: seq<Span>, i: nat, k: int): int {
    if i < |ss| && k >= 1 && Up(ss, i, k - 1).Some? then Up(ss, i, k - 1).value + 1 else 0
  }

  lemma {:induction false} UpNoRooted(ss: seq<Span>, i: nat, d: nat, k: int)
    requires RootedAt(ss, i, d) && 1 <= k <= d + 1
    ensures 1 <= UpNo(ss, i, k) <= |ss| && RootedAt(ss, UpNo(ss, i, k) - 1, d - k + 1)
  {
    hide Parent, Up, RootedAt;
    RootedInRange(ss, i, d);
    RootedAbove(ss, i, d, k - 1);
  }

  /** The preorder walk of `__convert_to_perfetto_span`: the span, then its children's walks.
      The height `d` is what shows the recursion ends. */
  function Walk(ss: seq<Span>, i: nat, d: nat): seq<nat>
    requires RootedAt(ss, i, d)
    decreases |ss| - d, 0
  {
    RootedBound(ss, i, d);
    ChildrenRooted(ss, i, d);
    [i] + WalkAll(ss, Children(ss, i), d + 1)
  }

  function WalkAll(ss: seq<Span>, cs: seq<nat>, d: nat): seq<nat>
    requires d <= |ss| && forall c :: c in cs ==> RootedAt(ss, c, d)
    decreases |ss| - d, 1 + |cs|
  {
    if cs == [] then [] else Walk(ss, cs[0], d) + WalkAll(ss, cs[1..], d)
  }

  lemma {:induction false} ChildrenRooted(ss: seq<Span>, i: nat, d: nat)
    requires RootedAt(ss, i, d)
    ensures forall c :: c in Children(ss, i) ==> RootedAt(ss, c, d + 1)
  {
    forall c | c in Children(ss, i) ensures RootedAt(ss, c, d + 1) {
      assert Up(ss, c, 0) == Some(c);
      assert Up(ss, c, 1) == Some(i);
      RootedBelow(ss, c, 1, i, d);
    }
  }

  /** Span `a` lies at least `m` steps above span `j`. */
  ghost predicate Below(ss: seq<Span>, j: nat, a: nat, m: nat) {
    j < |ss| && exists k: nat :: k >= m && Up(ss, j, k) == Some(a)
  }

  /** The walk from a span visits exactly the span and everything below it. */
  lemma {:induction false} WalkMembers(ss: seq<Span>, i: nat, d: nat, j: nat)
    requires RootedAt(ss, i, d) && j < |ss|
    ensures j in Walk(ss, i, d) <==> Below(ss, j, i, 0)
    decreases |ss| - d, 0
  {
    hide Up, Below, Children, RootedAt;
    RootedBound(ss, i, d);
    ChildrenRooted(ss, i, d);
    WalkAllMembers(ss, Children(ss, i), d + 1, j);
    BelowStep(ss, j, i);
  }

  lemma {:induction false} BelowStep(ss: seq<Span>, j: nat, i: nat)
    requires j < |ss|
    ensures Below(ss, j, i, 0) <==> j == i || exists c :: c in Children(ss, i) && Below(ss, j, c, 0)
  {
    if j == i {
      assert Up(ss, j, 0) == Some(i);
    } else {
      if Below(ss, j, i, 0) {
        var k: nat :| Up(ss, j, k) == Some(i);
        assert k > 0;
        var c := Up(ss, j, k - 1).value;
        assert c in Children(ss, i);
        assert Below(ss, j, c, 0);
      }
      if c :| c in Children(ss, i) && Below(ss, j, c, 0) {
        var k: nat :| Up(ss, j, k) == Some(c);
        assert Up(ss, j, k + 1) == Some(i);
      }
    }
  }

  lemma {:induction false} WalkAllMembers(ss: seq<Span>, cs: seq<nat>, d: nat, j: nat)
    requires d <= |ss| && j < |ss| && forall c :: c in cs ==> RootedAt(ss, c, d)
    ensures j in WalkAll(ss, cs, d) <==> exists c :: c in cs && Below(ss, j, c, 0)
    decreases |ss| - d, 1 + |cs|
  {
    if cs != [] {
      WalkMembers(ss, cs[0], d, j);
      WalkAllMembers(ss, cs[1..], d, j);
      assert cs == [cs[0]] + cs[1..];
    }
  }

  lemma {:induction false} BelowHeight(ss: seq<Span>, j: nat, a: nat, d: nat) returns (k: nat)
    requires RootedAt(ss, a, d) && Below(ss, j, a, 0)
    ensures RootedAt(ss, j, k + d) && Up(ss, j, k) == Some(a)
  {
    k :| Up(ss, j, k) == Some(a);
    RootedBelow(ss, j, k, a, d);
  }

  /** Two spans at the same height have nothing below them in common. */
  lemma {:induction false} BelowOne(ss: seq<Span>, j: nat, a: nat, b: nat, d: nat)
    requires RootedAt(ss, a, d) && RootedAt(ss, b, d) && Below(ss, j, a, 0) && Below(ss, j, b, 0)
    ensures a == b
  {
    hide Up, Below, RootedAt, Parent;
    var k := BelowHeight(ss, j, a, d);
    var l := BelowHeight(ss, j, b, d);
    RootedUnique(ss, j, k + d, l + d);
  }

  lemma {:induction false} NoRepeatConcat(a: seq<nat>, b: seq<nat>)
    requires NoRepeat(a) && NoRepeat(b) && forall j :: j in a ==> j !in b
    ensures NoRepeat(a + b)
  {
    forall i, j | 0 <= i < j < |a + b| ensures (a + b)[i] != (a + b)[j] {
      if i < |a| <= j {
        assert a[i] in a && b[j - |a|] in b;
      }
    }
  }

  /** The walk visits no span twice, whatever the parent ids are. */
  lemma {:induction false} WalkNoRepeat(ss: seq<Span>, i: nat, d: nat)
    requires RootedAt(ss, i, d)
    ensures NoRepeat(Walk(ss, i, d))
    decreases |ss| - d, 0
  {
    hide RootedAt, Up, Below;
    RootedBound(ss, i, d);
    ChildrenRooted(ss, i, d);
    var cs := Children(ss, i);
    WalkAllNoRepeat(ss, cs, d + 1);
    if i in WalkAll(ss, cs, d + 1) {
      assert i < |ss| by { RootedInRange(ss, i, d); }
      WalkAllMembers(ss, cs, d + 1, i);
      var c :| c in cs && Below(ss, i, c, 0);
      NotBelowChild(ss, i, d, c);
      assert false;
    }
  }

  lemma {:induction false} RootedInRange(ss: seq<Span>, i: nat, d: nat)
    requires RootedAt(ss, i, d)
    ensures i < |ss|
  {
  }

  lemma {:induction false} NotBelowChild(ss: seq<Span>, i: nat, d: nat, c: nat)
    requires RootedAt(ss, i, d) && RootedAt(ss, c, d + 1)
    ensures !Below(ss, i, c, 0)
  {
    hide Up;
    if Below(ss, i, c, 0) {
      var k := BelowHeight(ss, i, c, d + 1);
      RootedUnique(ss, i, d, k + d + 1);
    }
  }

  lemma {:induction false} WalkAllNoRepeat(ss: seq<Span>, cs: seq<nat>, d: nat)
    requires d <= |ss| && NoRepeat(cs) && forall c :: c in cs ==> RootedAt(ss, c, d)
    ensures NoRepeat(WalkAll(ss, cs, d))
    decreases |ss| - d, 1 + |cs|
  {
    hide RootedAt, Up, Below;
    if cs != [] {
      var a, b := Walk(ss, cs[0], d), WalkAll(ss, cs[1..], d);
      WalkNoRepeat(ss, cs[0], d);
      WalkAllNoRepeat(ss, cs[1..], d);
      forall j | j in a ensures j !in b {
        if j in b {
          WalkInRange(ss, cs[0], d);
          WalkMembers(ss, cs[0], d, j);
          WalkAllMembers(ss, cs[1..], d, j);
          var c :| c in cs[1..] && Below(ss, j, c, 0);
          BelowOne(ss, j, cs[0], c, d);
          assert false;
        }
      }
      NoRepeatConcat(a, b);
    }
  }

  lemma {:induction false} WalkInRange(ss: seq<Span>, i: nat, d: nat)
    requires RootedAt(ss, i, d)
    ensures forall j :: j in Walk(ss, i, d) ==> j < |ss|
    decreases |ss| - d, 0
  {
    hide RootedAt, Children, WalkAll;
    RootedBound(ss, i, d);
    RootedInRange(ss, i, d);
    ChildrenRooted(ss, i, d);
    WalkAllInRange(ss, Children(ss, i), d + 1);
  }

  lemma {:induction false} WalkAllInRange(ss: seq<Span>, cs: seq<nat>, d: nat)
    requires d <= |ss| && forall c :: c in cs ==> RootedAt(ss, c, d)
    ensures forall j :: j in WalkAll(ss, cs, d) ==> j < |ss|
    decreases |ss| - d, 1 + |cs|
  {
    hide RootedAt, Walk;
    if cs != [] {
      WalkInRange(ss, cs[0], d);
      WalkAllInRange(ss, cs[1..], d);
    }
  }
}
