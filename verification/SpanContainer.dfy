/** scripts/convert_otel_2_perfetto.py, `SpanLayoutContainer`: one display lane as a list of
    (start, end) pairs kept in tuple order, with an overlap test that binary-searches for the
    query's start and then looks at two neighbours only. */
module SpanContainer {
  import opened Prelude

  datatype Interval = Interval(start: int, end: int)

  /** Python's tuple order `iv < (start, end)`; the end `None` stands for minus infinity. */
  predicate Before(iv: Interval, start: int, end: Option<int>) {
    iv.start < start || (iv.start == start && end.Some? && iv.end < end.value)
  }

  ghost predicate Ordered(s: seq<Interval>) {
    forall i, j :: 0 <= i < j < |s| ==> !Before(s[j], s[i].start, Some(s[i].end))
  }

  /** A container's list: kept in tuple order by every insert. */
  type Lane = s: seq<Interval> | Ordered(s)

  /** `bisect.bisect_left` on s[lo..hi]: splits an ordered list at the key. */
  function BisectLeft(s: Lane, start: int, end: Option<int>, lo: nat, hi: nat): (r: nat)
    requires lo <= hi <= |s|
    requires forall k :: 0 <= k < lo ==> Before(s[k], start, end)
    requires forall k :: hi <= k < |s| ==> !Before(s[k], start, end)
    ensures r <= |s|
    ensures forall k :: 0 <= k < r ==> Before(s[k], start, end)
    ensures forall k :: r <= k < |s| ==> !Before(s[k], start, end)
    decreases hi - lo
  {
    if lo < hi then
      var mid := (lo + hi) / 2;
      if Before(s[mid], start, end) then BisectLeft(s, start, end, mid + 1, hi)
      else BisectLeft(s, start, end, lo, mid)
    else lo
  }

  /** `check_overlap`: only the entries on either side of the query's start are read. */
  predicate NeighbourOverlap(s: Lane, start: int, end: int) {
    var idx := BisectLeft(s, start, None, 0, |s|);
    (idx > 0 && s[idx - 1].end > start) || (idx < |s| && s[idx].start < end)
  }

  /** `insert_span`: `bisect.insort_left` of the pair. */
  function Insort(s: Lane, iv: Interval): (r: Lane)
    ensures multiset(r) == multiset(s) + multiset{iv}
  {
    var p := BisectLeft(s, iv.start, Some(iv.end), 0, |s|);
    assert s == s[..p] + s[p..];
    OrderedAround(s, iv, p);
    s[..p] + [iv] + s[p..]
  }

  lemma {:induction false} OrderedAround(s: seq<Interval>, iv: Interval, p: nat)
    requires p <= |s| && Ordered(s)
    requires forall k :: 0 <= k < p ==> Before(s[k], iv.start, Some(iv.end))
    requires forall k :: p <= k < |s| ==> !Before(s[k], iv.start, Some(iv.end))
    ensures Ordered(s[..p] + [iv] + s[p..])
  {
  }

  /** Two half-open time ranges share an instant (for spans of positive length). */
  predicate Overlap(a: Interval, b: Interval) {
    a.start < b.end && b.start < a.end
  }

  /** The reference test: scan every stored interval. */
  ghost predicate LinearOverlap(s: seq<Interval>, start: int, end: int) {
    exists k :: 0 <= k < |s| && Overlap(s[k], Interval(start, end))
  }

  /** The global invariant the two-neighbour shortcut rests on. */
  ghost predicate Separated(s: seq<Interval>) {
    forall i, j :: 0 <= i < j < |s| ==> s[i].end <= s[j].start
  }

  /** A negative answer is right for every query and every separated container, inverted
      intervals (end < start) included. */
  lemma {:induction false} NeighbourTestSound(s: Lane, start: int, end: int)
    requires Separated(s) && !NeighbourOverlap(s, start, end)
    ensures forall k :: 0 <= k < |s| ==> if s[k].start < start then s[k].end <= start else end <= s[k].start
    ensures !LinearOverlap(s, start, end)
  {
    var idx := BisectLeft(s, start, None, 0, |s|);
    forall k | 0 <= k < |s|
      ensures if s[k].start < start then s[k].end <= start else end <= s[k].start
    {
      if k < idx {
        assert k < idx - 1 ==> s[k].end <= s[idx - 1].start;
      } else {
        assert k > idx ==> !Before(s[k], s[idx].start, Some(s[idx].end));
      }
    }
  }

  /** Looking at two neighbours is the same as scanning the whole lane, for every query that is
      not inverted, as long as the stored intervals have positive length. */
  lemma {:induction false} NeighbourTestExact(s: Lane, start: int, end: int)
    requires Separated(s) && start <= end
    requires forall k :: 0 <= k < |s| ==> s[k].start < s[k].end
    ensures NeighbourOverlap(s, start, end) <==> LinearOverlap(s, start, end)
  {
    var idx := BisectLeft(s, start, None, 0, |s|);
    if NeighbourOverlap(s, start, end) {
      if idx > 0 && s[idx - 1].end > start {
        assert Overlap(s[idx - 1], Interval(start, end));
      } else {
        assert Overlap(s[idx], Interval(start, end));
      }
    } else {
      NeighbourTestSound(s, start, end);
    }
  }

  /** Every insert the test permits re-establishes the invariant. */
  lemma {:induction false} InsertKeepsSeparated(s: Lane, iv: Interval)
    requires Separated(s) && !NeighbourOverlap(s, iv.start, iv.end)
    ensures Separated(Insort(s, iv))
  {
    NeighbourTestSound(s, iv.start, iv.end);
    var p := BisectLeft(s, iv.start, Some(iv.end), 0, |s|);
    assert forall k :: 0 <= k < p ==> s[k].end <= iv.start;
    assert forall k :: p <= k < |s| ==> iv.end <= s[k].start;
    SeparatedAround(s, iv, p);
  }

  lemma {:induction false} SeparatedAround(s: seq<Interval>, iv: Interval, p: nat)
    requires p <= |s| && Separated(s)
    requires forall k :: 0 <= k < p ==> s[k].end <= iv.start
    requires forall k :: p <= k < |s| ==> iv.end <= s[k].start
    ensures Separated(s[..p] + [iv] + s[p..])
  {
  }
}
