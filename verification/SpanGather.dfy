/** scripts/convert_otel_2_perfetto.py, `root_span["spans"]`, `__gather_one_span` and
    `gather_all_perfetto_elems`: which engine spans end up in the output, and how often. */
module SpanGather {
  import opened Prelude
  import opened SpanForest
  import opened SpanConvert

  /** What `generate_perfetto_span` collects in the requests' `spans`: the children of their threads. */
  function Collected(ss: seq<Span>): seq<nat> { Kids(ss, Kids(ss, RequestsUpTo(ss, |ss|))) }

  /** The spans written out, each collected one followed by everything below it. */
  function Gathered(ss: seq<Span>, cs: seq<nat>): seq<nat>
    requires forall c :: c in cs ==> RootedAt(ss, c, 2)
  {
    if cs == [] then [] else
      RootedBound(ss, cs[0], 2);
      WalkAll(ss, cs, 2)
  }

  lemma {:induction false} KidsMembers(ss: seq<Span>, ps: seq<nat>, c: nat)
    ensures c in Kids(ss, ps) <==> c < |ss| && Parent(ss, c).Some? && Parent(ss, c).value in ps
  {
    hide Parent, Children;
    if ps != [] {
      var n := |ps| - 1;
      assert ps == ps[..n] + [ps[n]];
      KidsMembers(ss, ps[..n], c);
      ChildParent(ss, ps[n], c);
    }
  }

  lemma {:induction false} KidsConcat(ss: seq<Span>, a: seq<nat>, b: seq<nat>)
    ensures Kids(ss, a + b) == Kids(ss, a) + Kids(ss, b)
  {
    hide Children;
    if b == [] {
      assert a + b == a;
    } else {
      var n := |b| - 1;
      assert (a + b)[..|a| + n] == a + b[..n];
      KidsConcat(ss, a, b[..n]);
    }
  }

  lemma {:induction false} KidsNoRepeat(ss: seq<Span>, ps: seq<nat>)
    requires NoRepeat(ps)
    ensures NoRepeat(Kids(ss, ps))
  {
    if ps != [] {
      var n := |ps| - 1;
      KidsNoRepeat(ss, ps[..n]);
      assert NoRepeat(Children(ss, ps[n]));
      hide Parent, Children;
      forall j | j in Kids(ss, ps[..n]) ensures j !in Children(ss, ps[n]) {
        KidsMembers(ss, ps[..n], j);
        ChildParent(ss, ps[n], j);
      }
      NoRepeatConcat(Kids(ss, ps[..n]), Children(ss, ps[n]));
    }
  }

  /** A span is one step further from its request than its parent. */
  lemma {:induction false} RootedStep(ss: seq<Span>, c: nat, d: nat)
    requires c < |ss|
    ensures RootedAt(ss, c, d + 1) <==> Parent(ss, c).Some? && RootedAt(ss, Parent(ss, c).value, d)
  {
    assert Up(ss, c, 0) == Some(c);
    assert Up(ss, c, 1) == Parent(ss, c);
    UpAdd(ss, c, 1, d);
  }

  lemma {:induction false} KidsAll(ss: seq<Span>, ps: seq<nat>, d: nat)
    requires NoRepeat(ps) && forall p :: p in ps <==> RootedAt(ss, p, d)
    ensures NoRepeat(Kids(ss, ps)) && forall c :: c in Kids(ss, ps) <==> RootedAt(ss, c, d + 1)
  {
    hide Kids, Up, Parent;
    KidsNoRepeat(ss, ps);
    forall c: nat ensures c in Kids(ss, ps) <==> RootedAt(ss, c, d + 1) {
      KidsMembers(ss, ps, c);
      if c < |ss| { RootedStep(ss, c, d); }
    }
  }

  /** Collected are exactly the spans two steps below a request, each once. */
  lemma {:induction false} CollectedAll(ss: seq<Span>)
    ensures NoRepeat(Collected(ss)) && forall c :: c in Collected(ss) <==> RootedAt(ss, c, 2)
  {
    hide Kids, Up, RequestsUpTo;
    var roots := RequestsUpTo(ss, |ss|);
    forall p: nat ensures p in roots <==> RootedAt(ss, p, 0) { RequestsAtZero(ss, p); }
    KidsAll(ss, roots, 0);
    KidsAll(ss, Kids(ss, roots), 1);
  }

  lemma {:induction false} RequestsAtZero(ss: seq<Span>, p: nat)
    ensures p in RequestsUpTo(ss, |ss|) <==> RootedAt(ss, p, 0)
  {
  }

  lemma {:induction false} SameBagOnce(a: seq<nat>, b: seq<nat>)
    requires NoRepeat(a) && multiset(a) == multiset(b)
    ensures NoRepeat(b) && forall x :: x in b <==> x in a
  {
    forall x ensures x in b <==> x in a { assert x in multiset(a) <==> x in multiset(b); }
    forall i, j | 0 <= i < j < |b| ensures b[i] != b[j] {
      if b[i] == b[j] {
        Twice(b, i, j);
        AtMostOnce(a, b[i]);
      }
    }
  }

  lemma {:induction false} Twice<X>(b: seq<X>, i: nat, j: nat)
    requires i < j < |b| && b[i] == b[j]
    ensures multiset(b)[b[i]] >= 2
  {
    assert b == b[..j] + b[j..];
    assert b[..j][i] == b[i] && b[j..][0] == b[i];
    assert b[i] in multiset(b[..j]) && b[i] in multiset(b[j..]);
  }

  lemma {:induction false} AtMostOnce<X>(a: seq<X>, x: X)
    requires NoRepeat(a)
    ensures multiset(a)[x] <= 1
  {
    if a != [] {
      var n := |a| - 1;
      assert a == a[..n] + [a[n]];
      AtMostOnce(a[..n], x);
      if a[n] == x { assert x !in a[..n]; }
    }
  }

  /** In whatever order the collected spans are taken (the layout pass sorts them), the output holds each
      converted span once, and no other engine span. */
  lemma {:induction false} EachWrittenOnce(ss: seq<Span>, cs: seq<nat>)
    requires multiset(cs) == multiset(Collected(ss))
    ensures forall c :: c in cs ==> RootedAt(ss, c, 2)
    ensures NoRepeat(Gathered(ss, cs))
    ensures forall j :: 0 <= j < |ss| ==> (j in Gathered(ss, cs) <==> exists d: nat :: Deep(ss, j, d))
  {
    hide Collected, Up, WalkAll;
    CollectedAll(ss);
    SameBagOnce(Collected(ss), cs);
    hide RootedAt, Deep;
    if cs != [] {
      RootedBound(ss, cs[0], 2);
      WalkAllNoRepeat(ss, cs, 2);
    }
    forall j: nat | j < |ss| ensures j in Gathered(ss, cs) <==> exists d: nat :: Deep(ss, j, d) {
      WrittenIsDeep(ss, cs, j);
    }
  }

  lemma {:induction false} WrittenIsDeep(ss: seq<Span>, cs: seq<nat>, j: nat)
    requires j < |ss| && forall c :: c in cs <==> RootedAt(ss, c, 2)
    ensures j in Gathered(ss, cs) <==> exists d: nat :: Deep(ss, j, d)
  {
    hide Up, RootedAt, WalkAll, Below;
    if cs != [] {
      RootedBound(ss, cs[0], 2);
      WalkAllMembers(ss, cs, 2, j);
      if c :| c in cs && Below(ss, j, c, 0) {
        var k := BelowHeight(ss, j, c, 2);
        assert Deep(ss, j, k + 2);
      }
    }
    if d: nat :| Deep(ss, j, d) {
      RootedAbove(ss, j, d, d - 2);
      var c := Up(ss, j, d - 2).value;
      assert c in cs;
      assert Below(ss, j, c, 0) by { UpIsBelow(ss, j, d - 2); }
    }
  }

  lemma {:induction false} UpIsBelow(ss: seq<Span>, j: nat, k: nat)
    requires j < |ss| && Up(ss, j, k).Some?
    ensures Below(ss, j, Up(ss, j, k).value, 0)
  {
  }
}
