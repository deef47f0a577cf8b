/** scripts/convert_otel_2_perfetto.py, tree building and conversion as the program runs them. */
module SpanConvert {
  import opened Prelude
  import opened SpanForest

  /** What one visit writes: the end moves by 1000 ns (so a second visit would move it again), the
      request id is written when it is not empty, and the process id is recorded. */
  function Converted(s: Span, rid: string, pid: int): Span {
    s.(end := s.end - 1000, rid := if rid != "" then rid else s.rid, outPid := Some(pid))
  }

  ghost predicate Deep(ss: seq<Span>, j: nat, d: nat) { d >= 2 && RootedAt(ss, j, d) }

  /** The end result for span `j`: converted once with the request id of its own root and the
      process id of its own thread span, if it lies two or more steps below a request; untouched
      otherwise (roots, thread spans, dangling and cyclic spans). */
  ghost function Final(ss: seq<Span>, j: nat): Span
    requires j < |ss|
  {
    if d: nat :| Deep(ss, j, d) then
      RootedAbove(ss, j, d, d - 1);
      Converted(ss[j], ss[Up(ss, j, d).value].rid, ss[Up(ss, j, d - 1).value].pid)
    else ss[j]
  }

  function RequestsUpTo(ss: seq<Span>, n: nat): (r: seq<nat>)
    requires n <= |ss|
    ensures forall c :: c in r <==> 0 <= c < n && ss[c].isRequest
    ensures forall i, j :: 0 <= i < j < |r| ==> r[i] < r[j]
  {
    if n == 0 then []
    else
      var r := RequestsUpTo(ss, n - 1);
      assert forall i :: 0 <= i < |r| ==> r[i] in r;
      if ss[n - 1].isRequest then r + [n - 1] else r
  }

  ghost predicate BelowAny(ss: seq<Span>, j: nat, cs: seq<nat>, m: nat) {
    exists c :: c in cs && Below(ss, j, c, m)
  }

  lemma {:induction false} BelowOrThere(ss: seq<Span>, j: nat, i: nat)
    requires j < |ss|
    ensures Below(ss, j, i, 0) <==> j == i || BelowAny(ss, j, Children(ss, i), 0)
  {
    hide Below, Children;
    BelowStep(ss, j, i);
  }

  lemma {:induction false} NoKids(ss: seq<Span>)
    ensures Kids(ss, []) == []
  {
  }

  lemma {:induction false} KidsNext(ss: seq<Span>, ps: seq<nat>, n: nat)
    requires n < |ps|
    ensures Kids(ss, ps[..n + 1]) == Kids(ss, ps[..n]) + Children(ss, ps[n])
  {
    assert ps[..n + 1][..n] == ps[..n];
  }

  lemma {:induction false} NoneBelow(ss: seq<Span>, m: nat)
    ensures forall j: nat :: !BelowAny(ss, j, [], m)
  {
  }

  lemma {:induction false} BelowAnyNext(ss: seq<Span>, j: nat, cs: seq<nat>, n: nat, m: nat)
    requires n < |cs|
    ensures BelowAny(ss, j, cs[..n + 1], m) <==> BelowAny(ss, j, cs[..n], m) || Below(ss, j, cs[n], m)
  {
    hide Below;
    assert cs[..n + 1] == cs[..n] + [cs[n]];
  }

  /** Strictly below a span is the same as below one of its children. */
  lemma {:induction false} BelowChildren(ss: seq<Span>, j: nat, i: nat, m: nat)
    requires j < |ss|
    ensures Below(ss, j, i, m + 1) <==> BelowAny(ss, j, Children(ss, i), m)
  {
    if Below(ss, j, i, m + 1) {
      var k: nat :| k >= m + 1 && Up(ss, j, k) == Some(i);
      var c := Up(ss, j, k - 1).value;
      assert c in Children(ss, i) && Below(ss, j, c, m);
    }
    if c :| c in Children(ss, i) && Below(ss, j, c, m) {
      var k: nat :| k >= m && Up(ss, j, k) == Some(c);
      assert Up(ss, j, k + 1) == Some(i);
    }
  }

  lemma {:induction false} BelowWeaken(ss: seq<Span>, j: nat, a: nat, m: nat)
    requires Below(ss, j, a, m)
    ensures Below(ss, j, a, 0)
  {
  }

  /** A later sibling's descendants were not touched by the earlier ones. */
  lemma {:induction false} NotBelowEarlier(ss: seq<Span>, j: nat, cs: seq<nat>, n: nat, d: nat, m: nat)
    requires n < |cs| && NoRepeat(cs) && (forall c :: c in cs ==> RootedAt(ss, c, d)) && Below(ss, j, cs[n], m)
    ensures !BelowAny(ss, j, cs[..n], m)
  {
    hide Below, RootedAt;
    if c :| c in cs[..n] && Below(ss, j, c, m) {
      BelowWeaken(ss, j, c, m);
      BelowWeaken(ss, j, cs[n], m);
      BelowOne(ss, j, c, cs[n], d);
    }
  }

  lemma {:induction false} FirstChildren(ss: seq<Span>)
    ensures forall p :: 0 <= p < |ss| ==> ChildrenUpTo(ss, p, 0) == []
    ensures RequestsUpTo(ss, 0) == []
  {
  }

  lemma {:induction false} NextChildren(ss: seq<Span>, i: nat)
    requires i < |ss|
    ensures forall p :: 0 <= p < |ss| ==>
      ChildrenUpTo(ss, p, i + 1) == ChildrenUpTo(ss, p, i) + if Parent(ss, i) == Some(p) then [i] else []
    ensures RequestsUpTo(ss, i + 1) == RequestsUpTo(ss, i) + if ss[i].isRequest then [i] else []
  {
  }

  class Trace {
    var spans: seq<Span>
    var child: seq<seq<nat>>
    var rootSpans: seq<nat>
    /** The resolved links of each span. */
    var links: seq<seq<nat>>
    /** `root_span["spans"]` of each request. */
    var spansOf: seq<seq<nat>>
    /** The lane written into each span. */
    var tids: seq<nat>
    /** The spans as they were read. */
    ghost const raw: seq<Span>

    ghost predicate Built()
      reads this
    {
      && |spans| == |raw| == |child|
      && (forall p :: 0 <= p < |raw| ==> child[p] == Children(raw, p))
      && rootSpans == RequestsUpTo(raw, |raw|)
      && LinksBuilt()
    }

    ghost predicate LinksBuilt()
      reads this`links, this`tids
    {
      |links| == |tids| == |raw| && forall p :: 0 <= p < |raw| ==> links[p] == LinkTargets(raw, raw[p].links)
    }

    /** `build_otel_span_tree` */
    constructor (otelSpans: seq<Span>)
      ensures Built() && raw == otelSpans && spans == otelSpans
      ensures spansOf == [] && tids == seq(|otelSpans|, _ => 0)
    {
      spans, raw := otelSpans, otelSpans;
      child := seq(|otelSpans|, _ => []);
      rootSpans, links, spansOf := [], [], [];
      tids := seq(|otelSpans|, _ => 0);
      new;
      hide ChildrenUpTo, RequestsUpTo, LinkTargets;
      FirstChildren(raw);
      for i := 0 to |spans|
        invariant spans == raw == otelSpans && Attached(i)
        invariant |links| == i && forall p :: 0 <= p < i ==> links[p] == LinkTargets(raw, raw[p].links)
        invariant spansOf == [] && tids == seq(|otelSpans|, _ => 0)
      {
        Attach(i);
        var targets := ResolveLinks(spans[i].links);
        links := links + [targets];
      }
    }

    ghost predicate Attached(i: nat)
      reads this
      requires i <= |raw|
    {
      && |child| == |raw|
      && (forall p :: 0 <= p < |raw| ==> child[p] == ChildrenUpTo(raw, p, i))
      && rootSpans == RequestsUpTo(raw, i)
    }

    /** The link loop of `build_otel_span_tree`. */
    method ResolveLinks(ids: seq<string>) returns (targets: seq<nat>)
      ensures targets == LinkTargets(spans, ids)
    {
      targets := [];
      for k := 0 to |ids|
        invariant targets == LinkTargets(spans, ids[..k])
      {
        assert ids[..k + 1][..k] == ids[..k];
        var target := ById(spans, ids[k]);
        if target.Some? { targets := targets + [target.value]; }
      }
      assert ids[..|ids|] == ids;
    }

    method Attach(i: nat)
      requires i < |raw| && spans == raw && Attached(i)
      modifies this`child, this`rootSpans
      ensures Attached(i + 1)
    {
      hide ChildrenUpTo, RequestsUpTo, ById;
      NextChildren(raw, i);
      if spans[i].isRequest {
        rootSpans := rootSpans + [i];
      } else {
        var parent := ById(spans, ParentId(spans[i]));
        if parent.Some? {
          child := child[parent.value := child[parent.value] + [i]];
        }
      }
    }

    /** `__convert_to_perfetto_span`: the recursion ends, and touches exactly the span and what
        lies below it, each once. */
    method Convert(i: nat, rid: string, pid: int, ghost d: nat)
      requires Built() && RootedAt(raw, i, d)
      modifies this`spans
      ensures Built()
      ensures forall j :: 0 <= j < |raw| ==>
        spans[j] == if Below(raw, j, i, 0) then Converted(old(spans)[j], rid, pid) else old(spans)[j]
      decreases |raw| - d
    {
      hide Below, BelowAny, Up, Converted, RequestsUpTo, LinksBuilt, RootedAt, Children;
      RootedBound(raw, i, d);
      RootedInRange(raw, i, d);
      ChildrenRooted(raw, i, d);
      ChildrenOnce(raw, i);
      NoneBelow(raw, 0);
      spans := spans[i := Converted(spans[i], rid, pid)];
      var cs := child[i];
      for n := 0 to |cs|
        invariant Built() && cs == Children(raw, i)
        invariant forall j :: 0 <= j < |raw| ==>
          spans[j] == if j == i || BelowAny(raw, j, cs[..n], 0) then Converted(old(spans)[j], rid, pid)
            else old(spans)[j]
      {
        ghost var before := spans;
        assert cs[n] in cs;
        Convert(cs[n], rid, pid, d + 1);
        forall j | 0 <= j < |raw|
          ensures spans[j] == if j == i || BelowAny(raw, j, cs[..n + 1], 0) then Converted(old(spans)[j], rid, pid)
            else old(spans)[j]
        {
          BelowAnyNext(raw, j, cs, n, 0);
          if Below(raw, j, cs[n], 0) {
            NotBelowEarlier(raw, j, cs, n, d + 1, 0);
            NotBelowChild(raw, i, d, cs[n]);
          }
        }
      }
      assert cs[..|cs|] == cs;
      forall j | 0 <= j < |raw| ensures Below(raw, j, i, 0) <==> j == i || BelowAny(raw, j, cs, 0) {
        BelowOrThere(raw, j, i);
      }
    }

    /** The inner loop of `generate_perfetto_span`: everything strictly below one thread span. */
    method ConvertThread(thread: nat, rid: string, pid: int, ghost d: nat) returns (found: seq<nat>)
      requires Built() && RootedAt(raw, thread, d)
      modifies this`spans
      ensures Built() && found == Children(raw, thread)
      ensures forall j :: 0 <= j < |raw| ==>
        spans[j] == if Below(raw, j, thread, 1) then Converted(old(spans)[j], rid, pid) else old(spans)[j]
    {
      hide Below, BelowAny, Up, Converted, RequestsUpTo, LinksBuilt, RootedAt, Children;
      ChildrenRooted(raw, thread, d);
      ChildrenOnce(raw, thread);
      RootedInRange(raw, thread, d);
      NoneBelow(raw, 0);
      var cs := child[thread];
      found := [];
      for n := 0 to |cs|
        invariant Built() && cs == Children(raw, thread) && found == cs[..n]
        invariant forall j :: 0 <= j < |raw| ==>
          spans[j] == if BelowAny(raw, j, cs[..n], 0) then Converted(old(spans)[j], rid, pid) else old(spans)[j]
      {
        assert cs[n] in cs;
        Convert(cs[n], rid, pid, d + 1);
        found := found + [cs[n]];
        forall j | 0 <= j < |raw|
          ensures spans[j] == if BelowAny(raw, j, cs[..n + 1], 0) then Converted(old(spans)[j], rid, pid)
            else old(spans)[j]
        {
          BelowAnyNext(raw, j, cs, n, 0);
          if Below(raw, j, cs[n], 0) { NotBelowEarlier(raw, j, cs, n, d + 1, 0); }
        }
      }
      assert cs[..|cs|] == cs;
      forall j | 0 <= j < |raw| ensures Below(raw, j, thread, 1) <==> BelowAny(raw, j, cs, 0) {
        BelowChildren(raw, j, thread, 0);
      }
    }

    /** One round of the outer loop: the threads of one request, each with its own process id. */
    method ConvertRoot(root: nat) returns (found: seq<nat>)
      requires Built() && RootedAt(raw, root, 0)
      requires forall j :: 0 <= j < |raw| && Below(raw, j, root, 0) ==> spans[j] == raw[j]
      modifies this`spans
      ensures Built() && found == Kids(raw, Children(raw, root))
      ensures forall j :: 0 <= j < |raw| ==>
        spans[j] == if Below(raw, j, root, 2) then Final(raw, j) else old(spans)[j]
    {
      hide Below, BelowAny, Up, Converted, RequestsUpTo, Final, RootedAt, LinksBuilt, Children, Kids;
      ChildrenRooted(raw, root, 0);
      ChildrenOnce(raw, root);
      RootBelowItself(raw, root);
      NoneBelow(raw, 1);
      NoKids(raw);
      var rid, ts := spans[root].rid, child[root];
      found := [];
      for n := 0 to |ts|
        invariant Built() && ts == Children(raw, root) && rid == raw[root].rid && found == Kids(raw, ts[..n])
        invariant forall j :: 0 <= j < |raw| ==>
          spans[j] == if BelowAny(raw, j, ts[..n], 1) then Final(raw, j) else old(spans)[j]
      {
        var t := ts[n];
        assert t in ts;
        ThreadUntouched(raw, root, ts, n);
        var pid := spans[t].pid;
        assert pid == raw[t].pid;
        var more := ConvertThread(t, rid, pid, 1);
        KidsNext(raw, ts, n);
        found := found + more;
        forall j | 0 <= j < |raw|
          ensures spans[j] == if BelowAny(raw, j, ts[..n + 1], 1) then Final(raw, j) else old(spans)[j]
        {
          BelowAnyNext(raw, j, ts, n, 1);
          if Below(raw, j, t, 1) {
            NotBelowEarlier(raw, j, ts, n, 1, 1);
            FinalUnder(raw, j, root, t);
          }
        }
      }
      assert ts[..|ts|] == ts;
      forall j | 0 <= j < |raw| ensures Below(raw, j, root, 2) <==> BelowAny(raw, j, ts, 1) {
        BelowChildren(raw, j, root, 1);
      }
    }

    /** `__set_span_tid`: the lane is written into the span and everything below it. */
    method SetTid(i: nat, line: nat, ghost d: nat)
      requires Built() && RootedAt(raw, i, d)
      modifies this`tids
      ensures Built()
      ensures forall j :: 0 <= j < |raw| ==> tids[j] == if Below(raw, j, i, 0) then line else old(tids)[j]
      decreases |raw| - d
    {
      hide Below, BelowAny, Up, RequestsUpTo, LinkTargets, RootedAt, Children;
      RootedBound(raw, i, d);
      RootedInRange(raw, i, d);
      ChildrenRooted(raw, i, d);
      NoneBelow(raw, 0);
      tids := tids[i := line];
      var cs := child[i];
      for n := 0 to |cs|
        invariant Built() && cs == Children(raw, i)
        invariant forall j :: 0 <= j < |raw| ==>
          tids[j] == if j == i || BelowAny(raw, j, cs[..n], 0) then line else old(tids)[j]
      {
        assert cs[n] in cs;
        SetTid(cs[n], line, d + 1);
        forall j | 0 <= j < |raw|
          ensures tids[j] == if j == i || BelowAny(raw, j, cs[..n + 1], 0) then line else old(tids)[j]
        {
          BelowAnyNext(raw, j, cs, n, 0);
        }
      }
      assert cs[..|cs|] == cs;
      forall j | 0 <= j < |raw| ensures Below(raw, j, i, 0) <==> j == i || BelowAny(raw, j, cs, 0) {
        BelowOrThere(raw, j, i);
      }
    }

    /** `__gather_one_span`: the span and everything below it, in walking order. */
    method GatherOne(i: nat, ghost d: nat) returns (elems: seq<nat>)
      requires Built() && RootedAt(raw, i, d)
      ensures elems == Walk(raw, i, d)
      decreases |raw| - d
    {
      hide Up, RequestsUpTo, LinksBuilt, RootedAt, Children;
      RootedInRange(raw, i, d);
      RootedBound(raw, i, d);
      ChildrenRooted(raw, i, d);
      elems := [i];
      var cs := child[i];
      for n := 0 to |cs|
        invariant cs == Children(raw, i) && (forall c :: c in cs[..n] ==> c in cs)
        invariant elems == [i] + WalkAll(raw, cs[..n], d + 1)
      {
        assert cs[n] in cs;
        WalkAllSnoc(raw, cs, n, d + 1);
        var more := GatherOne(cs[n], d + 1);
        elems := elems + more;
      }
      assert cs[..|cs|] == cs;
    }

    /** `generate_perfetto_span`, engine part: for arbitrary parent ids every span ends up with
        its final value, so each is converted at most once. */
    method GenerateSpans()
      requires Built() && spans == raw
      modifies this`spans, this`spansOf
      ensures Built() && forall j :: 0 <= j < |raw| ==> spans[j] == Final(raw, j)
      ensures |spansOf| == |rootSpans| && forall n :: 0 <= n < |rootSpans| ==>
        spansOf[n] == Kids(raw, Children(raw, rootSpans[n]))
    {
      hide Below, Up, RequestsUpTo, Final, RootedAt, Kids, LinksBuilt;
      var roots := rootSpans;
      spansOf := [];
      for n := 0 to |roots|
        invariant Built() && roots == RequestsUpTo(raw, |raw|)
        invariant |spansOf| == n && forall k :: 0 <= k < n ==> spansOf[k] == Kids(raw, Children(raw, roots[k]))
        invariant forall j :: 0 <= j < |raw| ==>
          spans[j] == if BelowAny(raw, j, roots[..n], 2) then Final(raw, j) else raw[j]
      {
        var root := roots[n];
        assert root in roots;
        RequestsRooted(raw);
        forall j | 0 <= j < |raw| && Below(raw, j, root, 0) ensures spans[j] == raw[j] {
          NotBelowEarlierRoot(raw, j, roots, n);
        }
        var found := ConvertRoot(root);
        spansOf := spansOf + [found];
        forall j | 0 <= j < |raw|
          ensures spans[j] == if BelowAny(raw, j, roots[..n + 1], 2) then Final(raw, j) else raw[j]
        {
          BelowAnyNext(raw, j, roots, n, 2);
        }
      }
      assert roots[..|roots|] == roots;
      forall j | 0 <= j < |raw| && !BelowAny(raw, j, roots, 2) ensures Final(raw, j) == raw[j] {
        FinalElsewhere(raw, j, roots);
      }
    }
  }

  lemma {:induction false} WalkAllSnoc(ss: seq<Span>, cs: seq<nat>, n: nat, d: nat)
    requires d <= |ss| && n < |cs| && forall c :: c in cs ==> RootedAt(ss, c, d)
    ensures forall c :: c in cs[..n + 1] ==> c in cs
    ensures WalkAll(ss, cs[..n + 1], d) == WalkAll(ss, cs[..n], d) + Walk(ss, cs[n], d)
    decreases n
  {
    hide Walk, RootedAt;
    var a := cs[..n + 1];
    if n == 0 {
      assert a[1..] == [] && cs[..n] == [];
    } else {
      WalkAllSnoc(ss, cs[1..], n - 1, d);
      assert a[1..] == cs[1..][..n] && cs[..n][1..] == cs[1..][..n - 1];
    }
  }

  lemma {:induction false} RootBelowItself(ss: seq<Span>, root: nat)
    requires RootedAt(ss, root, 0)
    ensures root < |ss| && Below(ss, root, root, 0)
  {
    assert Up(ss, root, 0) == Some(root);
  }

  /** A thread span is below its root, and below no sibling. */
  lemma {:induction false} ThreadUntouched(ss: seq<Span>, root: nat, ts: seq<nat>, n: nat)
    requires RootedAt(ss, root, 0) && ts == Children(ss, root) && n < |ts|
    ensures ts[n] < |ss| && Below(ss, ts[n], root, 0) && !BelowAny(ss, ts[n], ts[..n], 1)
  {
    hide RootedAt, Children;
    var t := ts[n];
    assert t in ts && Parent(ss, t) == Some(root) by { ChildParent(ss, root, t); }
    assert Up(ss, t, 0) == Some(t);
    assert Up(ss, t, 1) == Some(root);
    ChildrenRooted(ss, root, 0);
    if c :| c in ts[..n] && Below(ss, t, c, 1) {
      assert c in ts;
      NotBelowPeer(ss, t, c);
    }
  }

  lemma {:induction false} ChildParent(ss: seq<Span>, p: nat, c: nat)
    ensures c in Children(ss, p) <==> c < |ss| && Parent(ss, c) == Some(p)
  {
  }

  lemma {:induction false} NotBelowPeer(ss: seq<Span>, t: nat, c: nat)
    requires RootedAt(ss, t, 1) && RootedAt(ss, c, 1)
    ensures !Below(ss, t, c, 1)
  {
    hide Up, RootedAt, Parent;
    if Below(ss, t, c, 1) {
      var k: nat :| k >= 1 && Up(ss, t, k) == Some(c);
      assert t < |ss|;
      RootedBelow(ss, t, k, c, 1);
      RootedUnique(ss, t, 1, k + 1);
    }
  }

  /** What the conversion of thread `t` of request `root` writes is the final value. */
  lemma {:induction false} FinalUnder(ss: seq<Span>, j: nat, root: nat, t: nat)
    requires j < |ss| && RootedAt(ss, root, 0) && RootedAt(ss, t, 1) && t in Children(ss, root) && Below(ss, j, t, 1)
    ensures Final(ss, j) == Converted(ss[j], ss[root].rid, ss[t].pid)
    ensures Below(ss, j, root, 0)
  {
    hide Converted, Final, Up, Parent, Below, RootedAt, Children, Deep;
    var k := HeightUnder(ss, j, root, t);
    FinalAt(ss, j, k + 1);
  }

  lemma {:induction false} HeightUnder(ss: seq<Span>, j: nat, root: nat, t: nat) returns (k: nat)
    requires j < |ss| && RootedAt(ss, root, 0) && RootedAt(ss, t, 1) && t in Children(ss, root) && Below(ss, j, t, 1)
    ensures k >= 1 && Up(ss, j, k) == Some(t) && Up(ss, j, k + 1) == Some(root)
    ensures Deep(ss, j, k + 1) && Below(ss, j, root, 0)
  {
    k :| k >= 1 && Up(ss, j, k) == Some(t);
    assert Parent(ss, t) == Some(root);
    assert Up(ss, j, k + 1) == Some(root);
    RootedBelow(ss, j, k, t, 1);
  }

  lemma {:induction false} FinalAt(ss: seq<Span>, j: nat, d: nat)
    requires Deep(ss, j, d)
    ensures Up(ss, j, d - 1).Some?
    ensures Final(ss, j) == Converted(ss[j], ss[Up(ss, j, d).value].rid, ss[Up(ss, j, d - 1).value].pid)
  {
    hide Converted, Up;
    RootedAbove(ss, j, d, d - 1);
    forall e: nat | Deep(ss, j, e) ensures e == d { RootedUnique(ss, j, d, e); }
  }

  /** What a span `d` steps below a request ends up holding: the process id of its thread, one step below
      the request, the request's id unless that is empty, an end 1000 ns earlier, and all else as read. */
  lemma {:induction false} FinalFields(ss: seq<Span>, j: nat, d: nat)
    requires Deep(ss, j, d)
    ensures j < |ss| && Up(ss, j, d).Some? && Up(ss, j, d - 1).Some?
    ensures var f, u, t := Final(ss, j), Up(ss, j, d).value, Up(ss, j, d - 1).value;
      && ss[u].isRequest && Parent(ss, t) == Some(u)
      && f.outPid == Some(ss[t].pid)
      && f.rid == (if ss[u].rid != "" then ss[u].rid else ss[j].rid)
      && f.end == ss[j].end - 1000
      && f.spanId == ss[j].spanId && f.parentSpanId == ss[j].parentSpanId && f.isRequest == ss[j].isRequest
      && f.links == ss[j].links && f.pid == ss[j].pid && f.start == ss[j].start
  {
    hide Final, Parent;
    FinalAt(ss, j, d);
  }

  /** A span that is not two or more steps below a request stays as it was read. */
  lemma {:induction false} FinalUntouched(ss: seq<Span>, j: nat)
    requires j < |ss| && forall d: nat :: !Deep(ss, j, d)
    ensures Final(ss, j) == ss[j]
  {
  }

  /** A request "r1", a thread with process id 7, and below it a span with process id 3 and no request
      id: it is written with 7 and "r1". */
  lemma {:induction false} ConvertWitness()
    ensures var ss := [Span("a", None, true, [], 1, "r1", 0, 9000, None),
                       Span("b", Some("a"), false, [], 7, "", 0, 9000, None),
                       Span("c", Some("b"), false, [], 3, "", 2000, 5000, None)];
      Final(ss, 2) == Span("c", Some("b"), false, [], 3, "r1", 2000, 4000, Some(7))
  {
    var ss := [Span("a", None, true, [], 1, "r1", 0, 9000, None),
               Span("b", Some("a"), false, [], 7, "", 0, 9000, None),
               Span("c", Some("b"), false, [], 3, "", 2000, 5000, None)];
    assert ById(ss, "b") == Some(1) && ById(ss, "a") == Some(0) by {
      assert ss[0].spanId == "a" && ss[1].spanId == "b" && ss[2].spanId == "c";
      assert "a"[0] != "b"[0] && "b"[0] != "c"[0] && "a"[0] != "c"[0];
      OneById(ss, 1);
      OneById(ss, 0);
    }
    assert Up(ss, 2, 0) == Some(2);
    assert Up(ss, 2, 1) == Some(1);
    assert Up(ss, 2, 2) == Some(0);
    FinalFields(ss, 2, 2);
  }

  /** An id that only one span carries leads to that span. */
  lemma {:induction false} OneById(ss: seq<Span>, i: nat)
    requires i < |ss| && forall k :: 0 <= k < |ss| && k != i ==> ss[k].spanId != ss[i].spanId
    ensures ById(ss, ss[i].spanId) == Some(i)
  {
    hide ById;
  }

  lemma {:induction false} RequestsRooted(ss: seq<Span>)
    ensures forall c :: c in RequestsUpTo(ss, |ss|) ==> RootedAt(ss, c, 0)
  {
    forall c | c in RequestsUpTo(ss, |ss|) ensures RootedAt(ss, c, 0) {
      assert Up(ss, c, 0) == Some(c);
    }
  }

  lemma {:induction false} NotBelowEarlierRoot(ss: seq<Span>, j: nat, roots: seq<nat>, n: nat)
    requires roots == RequestsUpTo(ss, |ss|) && n < |roots| && Below(ss, j, roots[n], 0)
    ensures !BelowAny(ss, j, roots[..n], 2)
  {
    hide Below, RootedAt, RequestsUpTo;
    RequestsRooted(ss);
    if c :| c in roots[..n] && Below(ss, j, c, 2) {
      BelowWeaken(ss, j, c, 2);
      assert roots[n] in roots;
      BelowOne(ss, j, c, roots[n], 0);
    }
  }

  lemma {:induction false} FinalElsewhere(ss: seq<Span>, j: nat, roots: seq<nat>)
    requires j < |ss| && roots == RequestsUpTo(ss, |ss|) && !BelowAny(ss, j, roots, 2)
    ensures Final(ss, j) == ss[j]
  {
    hide RequestsUpTo, BelowAny, Up, RootedAt;
    if d: nat :| Deep(ss, j, d) {
      DeepIsBelow(ss, j, d);
    }
  }

  lemma {:induction false} DeepIsBelow(ss: seq<Span>, j: nat, d: nat)
    requires Deep(ss, j, d)
    ensures BelowAny(ss, j, RequestsUpTo(ss, |ss|), 2)
  {
    hide RequestsUpTo;
    assert Up(ss, j, d).value in RequestsUpTo(ss, |ss|);
    assert Below(ss, j, Up(ss, j, d).value, 2);
  }
}
