/** The order in which the layout pass takes requests and spans, and the lane each of them gets, said of
    whole traces. */
module LayoutOrder {
  import opened Prelude
  import opened SpanLayout
  import opened LayoutSafety
  import opened LaneChoice
  import opened TraceLayout

  // ----- the two sorts

  /** The spans that start at `t`, in the order given. */
  function StartingAt(ss: seq<Span>, t: int): seq<Span> {
    if ss == [] then []
    else StartingAt(ss[..|ss| - 1], t) + if ss[|ss| - 1].start == t then [ss[|ss| - 1]] else []
  }

  lemma {:induction false} StartingSnoc(ss: seq<Span>, x: Span, t: int)
    ensures StartingAt(ss + [x], t) == StartingAt(ss, t) + if x.start == t then [x] else []
  {
    assert (ss + [x])[..|ss|] == ss;
  }

  lemma {:induction false} InsertStable(ss: seq<Span>, x: Span, t: int)
    requires SortedByStart(ss)
    ensures StartingAt(InsertByStart(ss, x), t) == StartingAt(ss, t) + if x.start == t then [x] else []
  {
    if ss == [] {
      StartingSnoc([], x, t);
      assert [] + [x] == [x];
    } else {
      var n := |ss| - 1;
      assert ss == ss[..n] + [ss[n]];
      if ss[n].start <= x.start {
        StartingSnoc(ss, x, t);
      } else {
        InsertStable(ss[..n], x, t);
        StartingSnoc(InsertByStart(ss[..n], x), ss[n], t);
        StartingSnoc(ss[..n], ss[n], t);
      }
    }
  }

  /** A request's spans are taken in start order, and in their given order where they start together. */
  lemma {:induction false} SpansInOrder(ss: seq<Span>, t: int)
    ensures SortedByStart(SortByStart(ss)) && StartingAt(SortByStart(ss), t) == StartingAt(ss, t)
  {
    hide InsertByStart, StartingAt;
    SortKeeps(ss);
    if ss != [] {
      var n := |ss| - 1;
      SpansInOrder(ss[..n], t);
      InsertStable(SortByStart(ss[..n]), ss[n], t);
      assert ss == ss[..n] + [ss[n]];
      StartingSnoc(ss[..n], ss[n], t);
    }
  }

  /** When a request's first span starts. */
  function First(r: seq<Span>): int { if r == [] then 0 else r[0].start }

  ghost predicate FirstsSorted(rs: seq<seq<Span>>) {
    forall i, j :: 0 <= i < j < |rs| ==> First(rs[i]) <= First(rs[j])
  }

  /** The requests whose first span starts at `t`, in the order given. */
  function FirstAt(rs: seq<seq<Span>>, t: int): seq<seq<Span>> {
    if rs == [] then []
    else FirstAt(rs[..|rs| - 1], t) + if First(rs[|rs| - 1]) == t then [rs[|rs| - 1]] else []
  }

  lemma {:induction false} FirstSnoc(rs: seq<seq<Span>>, x: seq<Span>, t: int)
    ensures FirstAt(rs + [x], t) == FirstAt(rs, t) + if First(x) == t then [x] else []
  {
    assert (rs + [x])[..|rs|] == rs;
  }

  lemma {:induction false} InsertUnfold(rs: seq<seq<Span>>, x: seq<Span>)
    requires [] !in multiset(rs) && x != []
    ensures rs == [] ==> InsertRequest(rs, x) == [x]
    ensures rs != [] ==>
      var n := |rs| - 1;
      && rs == rs[..n] + [rs[n]] && [] !in multiset(rs[..n])
      && InsertRequest(rs, x) ==
           if First(rs[n]) <= First(x) then rs + [x] else InsertRequest(rs[..n], x) + [rs[n]]
  {
    if rs != [] {
      var n := |rs| - 1;
      assert rs == rs[..n] + [rs[n]];
      assert [] !in multiset(rs[..n]) && rs[n] in multiset(rs);
    }
  }

  lemma {:induction false} InsertStays(rs: seq<seq<Span>>, x: seq<Span>, t: int)
    requires [] !in multiset(rs) && x != [] && FirstsSorted(rs)
    ensures FirstAt(InsertRequest(rs, x), t) == FirstAt(rs, t) + if First(x) == t then [x] else []
  {
    hide InsertRequest, FirstAt, First;
    InsertUnfold(rs, x);
    if rs == [] {
      FirstSnoc([], x, t);
      assert [] + [x] == [x];
    } else {
      var n := |rs| - 1;
      if First(rs[n]) <= First(x) {
        FirstSnoc(rs, x, t);
      } else {
        InsertStays(rs[..n], x, t);
        FirstSnoc(InsertRequest(rs[..n], x), rs[n], t);
        FirstSnoc(rs[..n], rs[n], t);
      }
    }
  }

  lemma {:induction false} InsertSorts(rs: seq<seq<Span>>, x: seq<Span>)
    requires [] !in multiset(rs) && x != [] && FirstsSorted(rs)
    ensures FirstsSorted(InsertRequest(rs, x))
  {
    hide InsertRequest, First;
    InsertUnfold(rs, x);
    if rs != [] {
      var n := |rs| - 1;
      if First(rs[n]) > First(x) {
        InsertSorts(rs[..n], x);
        InsertBelow(rs[..n], x, First(rs[n]));
      }
    }
  }

  lemma {:induction false} InsertBelow(rs: seq<seq<Span>>, x: seq<Span>, bound: int)
    requires [] !in multiset(rs) && x != [] && First(x) <= bound
    requires forall i :: 0 <= i < |rs| ==> First(rs[i]) <= bound
    ensures forall i :: 0 <= i < |InsertRequest(rs, x)| ==> First(InsertRequest(rs, x)[i]) <= bound
  {
    hide InsertRequest, First;
    var r := InsertRequest(rs, x);
    forall i | 0 <= i < |r| ensures First(r[i]) <= bound {
      assert r[i] in multiset(r);
      assert r[i] == x || r[i] in multiset(rs);
    }
  }

  lemma {:induction false} SortUnfold(rs: seq<seq<Span>>)
    requires [] !in rs && rs != []
    ensures var n := |rs| - 1;
      && rs == rs[..n] + [rs[n]] && [] !in multiset(SortRequests(rs[..n])) && rs[n] != []
      && SortRequests(rs) == InsertRequest(SortRequests(rs[..n]), rs[n])
  {
    hide InsertRequest;
    var n := |rs| - 1;
    assert rs == rs[..n] + [rs[n]];
    assert rs[n] in rs;
  }

  /** Requests are taken in the order of their first spans' starts, and in file order where those start
      together. */
  lemma {:induction false} RequestsInOrder(rs: seq<seq<Span>>, t: int)
    requires [] !in rs
    ensures FirstsSorted(SortRequests(rs)) && FirstAt(SortRequests(rs), t) == FirstAt(rs, t)
  {
    if rs != [] {
      hide InsertRequest, SortRequests, FirstAt, First;
      var n := |rs| - 1;
      SortUnfold(rs);
      RequestsInOrder(rs[..n], t);
      InsertSorts(SortRequests(rs[..n]), rs[n]);
      InsertStays(SortRequests(rs[..n]), rs[n], t);
      FirstSnoc(rs[..n], rs[n], t);
    }
  }

  // ----- the lane of every span of a trace

  /** The line of the last span of `p`. */
  function LastLine(placed: seq<Placed>, p: Pid): Option<nat> {
    if placed == [] then None
    else if placed[|placed| - 1].span.pid == p then Some(placed[|placed| - 1].line)
    else LastLine(placed[..|placed| - 1], p)
  }

  /** More events draw more spans. */
  lemma {:induction false} RunExtends(es: seq<Event>, more: seq<Event>)
    ensures Run(es).placed <= Run(es + more).placed
  {
    hide Run, Step;
    if more == [] {
      assert es + more == es;
    } else {
      var n := |more| - 1;
      RunExtends(es, more[..n]);
      assert es + more == (es + more[..n]) + [more[n]];
      RunStep(es + more[..n], more[n]);
      StepExtends(Run(es + more[..n]), more[n]);
    }
  }

  lemma {:induction false} LastLineSnoc(placed: seq<Placed>, x: Placed, p: Pid)
    ensures LastLine(placed + [x], p) == if x.span.pid == p then Some(x.line) else LastLine(placed, p)
  {
    assert (placed + [x])[..|placed|] == placed;
  }

  lemma {:induction false} BeginsAfresh(done: seq<Event>, p: Pid)
    ensures Run(done + [NewRequest]).placed == Run(done).placed && Previous(done + [NewRequest], p) == None
  {
    hide Run, Step;
    RunStep(done, NewRequest);
    RequestConserved(Run(done));
  }

  lemma {:induction false} RequestNext(spans: seq<Span>, i: nat)
    requires i <= |spans|
    ensures Request(spans[..i]) == if i == 0 then [NewRequest] else Request(spans[..i - 1]) + [Place(spans[i - 1])]
  {
    if i > 0 { assert spans[..i][..i - 1] == spans[..i - 1]; }
  }

  /** What a request draws begins with no memory of other requests. */
  lemma {:induction false} RequestDraws(done: seq<Event>, spans: seq<Span>, i: nat, p: Pid)
    requires i <= |spans|
    ensures var from, now := Run(done).placed, Run(done + Request(spans[..i])).placed;
      && from <= now && |now| == |from| + i && (forall k :: 0 <= k < i ==> now[|from| + k].span == spans[k])
      && Previous(done + Request(spans[..i]), p) == LastLine(now[|from|..], p)
  {
    hide Run, Request, Previous, LastLine;
    RequestNext(spans, i);
    if i == 0 {
      BeginsAfresh(done, p);
      assert Run(done).placed[|Run(done).placed|..] == [];
      NoLine(p);
    } else {
      RequestDraws(done, spans, i - 1, p);
      var es := done + Request(spans[..i - 1]);
      var line := PlaceNext(es, spans[i - 1], p);
      assert done + Request(spans[..i]) == es + [Place(spans[i - 1])];
      var from, before := |Run(done).placed|, Run(es).placed;
      assert (before + [Placed(spans[i - 1], line)])[from..] == before[from..] + [Placed(spans[i - 1], line)];
      LastLineSnoc(before[from..], Placed(spans[i - 1], line), p);
    }
  }

  lemma {:induction false} NoLine(p: Pid)
    ensures LastLine([], p) == None
  {
  }

  /** Span `i` of a request, whatever was drawn before and comes after: it gets the line of the request's
      previous span on its process if that is free for it, else the lowest free line. */
  lemma {:induction false} RequestLanes(done: seq<Event>, spans: seq<Span>, tail: seq<Event>, i: nat)
    requires i < |spans| && Positive(done + Request(spans) + tail, spans[i].pid)
    ensures var from, placed := |Run(done).placed|, Run(done + Request(spans) + tail).placed;
      && from + i < |placed| && placed[from + i].span == spans[i]
      && Chosen(placed[..from + i], LastLine(placed[from..from + i], spans[i].pid), spans[i], placed[from + i].line)
  {
    hide Run, Chosen, Request, Previous, LastLine;
    var es := done + Request(spans[..i]);
    RequestDraws(done, spans, i, spans[i].pid);
    var rest := RequestSplits(spans, i);
    var all := done + Request(spans) + tail;
    assert all == (es + [Place(spans[i])]) + (rest + tail);
    assert Positive(es + [Place(spans[i])], spans[i].pid) by {
      assert forall k :: 0 <= k <= |es| ==> (es + [Place(spans[i])])[k] == all[k];
    }
    EveryLaneChosen(es, spans[i]);
    RunExtends(es + [Place(spans[i])], rest + tail);
    var from, placed, now := |Run(done).placed|, Run(all).placed, Run(es + [Place(spans[i])]).placed;
    assert placed[..from + i] == now[..from + i] == Run(es).placed;
    assert placed[from..from + i] == Run(es).placed[from..];
  }

  lemma {:induction false} RequestSplits(spans: seq<Span>, i: nat) returns (rest: seq<Event>)
    requires i < |spans|
    ensures Request(spans) == Request(spans[..i]) + [Place(spans[i])] + rest
  {
    var n := |spans| - 1;
    if i == n {
      rest := [];
    } else {
      rest := RequestSplits(spans[..n], i);
      assert spans[..n][..i] == spans[..i];
      rest := rest + [Place(spans[n])];
    }
  }

  /** How many spans the requests hold together. */
  function Spans(rs: seq<seq<Span>>): nat { if rs == [] then 0 else Spans(rs[..|rs| - 1]) + |rs[|rs| - 1]| }

  lemma {:induction false} RequestsDraw(rs: seq<seq<Span>>)
    ensures |Run(Requests(rs)).placed| == Spans(rs)
  {
    hide Run;
    if rs == [] {
      RunUnfold([]);
    } else {
      var n := |rs| - 1;
      RequestsDraw(rs[..n]);
      assert rs[n][..|rs[n]|] == rs[n];
      RequestDraws(Requests(rs[..n]), rs[n], |rs[n]|, Smg);
    }
  }

  lemma {:induction false} RequestsSplit(rs: seq<seq<Span>>, k: nat) returns (rest: seq<Event>)
    requires k < |rs|
    ensures Requests(rs) == Requests(rs[..k]) + Request(rs[k]) + rest
  {
    hide Request;
    var n := |rs| - 1;
    if k == n {
      rest := [];
    } else {
      rest := RequestsSplit(rs[..n], k);
      assert rs[..n][..k] == rs[..k];
      rest := rest + Request(rs[n]);
    }
  }

  /** Span `i` of the `k`-th request in that order. Every request starts afresh, and it stays on its line
      of a process as long as nothing drawn there overlaps. */
  lemma {:induction false} TraceLanes(requests: seq<seq<Span>>, smg: seq<Span>, k: nat, i: nat)
    requires [] !in requests && [] !in SortEach(requests)
    requires k < |SortRequests(SortEach(requests))| && i < |SortRequests(SortEach(requests))[k]|
    requires Positive(LayoutEvents(requests, smg), SortRequests(SortEach(requests))[k][i].pid)
    ensures var roots, placed := SortRequests(SortEach(requests)), Run(LayoutEvents(requests, smg)).placed;
      var from, span := Spans(roots[..k]), roots[k][i];
      && from + i < |placed| && placed[from + i].span == span
      && Chosen(placed[..from + i], LastLine(placed[from..from + i], span.pid), span, placed[from + i].line)
  {
    hide Run, Chosen, Request, Requests, LastLine, SortRequests, SortEach, SortByStart;
    var roots := SortRequests(SortEach(requests));
    var rest := RequestsSplit(roots, k);
    var tail := rest + Request(SortByStart(smg));
    assert LayoutEvents(requests, smg) == Requests(roots[..k]) + Request(roots[k]) + tail;
    RequestsDraw(roots[..k]);
    RequestLanes(Requests(roots[..k]), roots[k], tail, i);
  }
}
