/** python/sglang/srt/mem_cache/radix_cache.py, `RadixKey`: keys as the code stores them, a list of raw
    tokens that is read token by token or, for speculative decoding, as overlapping pairs, in pages.
    The prefix tree is modelled on sequences of units, one per page; this shows that slicing,
    aligning, matching and child lookup on raw tokens are those operations on units. */
module RadixKeys {
  import opened Prelude
  import opened RadixTree

  datatype RadixKey = RadixKey(tokens: seq<int>, extraKey: Option<string>, bigram: bool)

  /** Pairs need one token more than there are units. */
  function Extra(k: RadixKey): nat { if k.bigram then 1 else 0 }

  /** `__len__` */
  function Len(k: RadixKey): nat {
    if k.bigram then (if |k.tokens| > 0 then |k.tokens| - 1 else 0) else |k.tokens|
  }

  /** `key[start:stop]`; a pair slice keeps the token it shares with what follows. */
  function Slice(k: RadixKey, start: nat, stop: nat): RadixKey
    requires start <= stop <= Len(k)
  {
    if k.bigram then k.(tokens := if stop > start then k.tokens[start..stop + 1] else [])
    else k.(tokens := k.tokens[start..stop])
  }

  function Aligned(k: RadixKey, page: nat): RadixKey
    requires page >= 1
  {
    ProductBelow(Len(k), page);
    Slice(k, 0, Len(k) / page * page)
  }

  /** The whole pages of a key. */
  function Units(k: RadixKey, page: nat): Key
    requires page >= 1
  {
    Pages(k.tokens, k.extraKey, Extra(k), page)
  }

  function Pages(tokens: seq<int>, extraKey: Option<string>, extra: nat, page: nat): Key
    requires page >= 1
  {
    if |tokens| < page + extra then []
    else [Unit(extraKey, tokens[..page + extra])] + Pages(tokens[page..], extraKey, extra, page)
  }

  /** How many leading entries two sequences share. */
  function Common<T(==)>(a: seq<T>, b: seq<T>): (n: nat)
    ensures n <= |a| && n <= |b| && a[..n] == b[..n]
    ensures n < |a| && n < |b| ==> a[n] != b[n]
  {
    if a == [] || b == [] || a[0] != b[0] then 0
    else
      var n := 1 + Common(a[1..], b[1..]);
      assert a[..n] == [a[0]] + a[1..][..n - 1] && b[..n] == [b[0]] + b[1..][..n - 1];
      n
  }

  // ----- arithmetic

  lemma {:induction false} ProductBelow(x: nat, p: nat)
    requires p >= 1
    ensures x / p * p <= x
  {
  }

  lemma {:induction false} DivStep(x: nat, p: nat)
    requires 1 <= p <= x
    ensures x / p == (x - p) / p + 1 && x % p == (x - p) % p
  {
    var q, r := (x - p) / p, (x - p) % p;
    assert x == (q + 1) * p + r;
    Unique(x, p, q + 1, r);
  }

  lemma {:induction false} Unique(x: nat, p: nat, q: int, r: nat)
    requires r < p && x == q * p + r
    ensures x / p == q && x % p == r
  {
    var d := x / p - q;
    assert d * p == r - x % p;
    if d != 0 { Grows(if d > 0 then d else -d, p); }
  }

  lemma {:induction false} Grows(d: int, p: nat)
    requires d >= 1
    ensures d * p >= p
  {
    assert d * p == (d - 1) * p + p;
    assert (d - 1) * p >= 0;
  }

  // ----- matching

  /** Python's `s[i:i + page]`, cut off at the end. */
  function Cut(s: seq<int>, i: nat, page: nat): seq<int>
    requires i <= |s|
  {
    if i + page <= |s| then s[i..i + page] else s[i..]
  }

  /** The page-by-page comparison: where the first differing page starts. */
  function Scan(s: seq<int>, t: seq<int>, i: nat, page: nat): nat
    requires page >= 1
    decreases |s| - i
  {
    if i >= |s| || i >= |t| || Cut(s, i, page) != Cut(t, i, page) then i else Scan(s, t, i + page, page)
  }

  /** What `match` computes from the raw tokens. */
  function MatchLength(a: RadixKey, b: RadixKey, page: nat): nat
    requires page >= 1
  {
    if a.bigram then
      var i := Common(a.tokens, b.tokens);
      var pairs := if i == 0 then 0 else Least(i - 1, Least(Len(a), Len(b)));
      if page > 1 then pairs / page * page else pairs
    else if page == 1 then Common(a.tokens, b.tokens)
    else Scan(a.tokens, b.tokens, 0, page)
  }

  function Least(x: nat, y: nat): nat { if x <= y then x else y }

  /** `match`: keys of different namespaces are an error. */
  method Match(a: RadixKey, b: RadixKey, page: nat) returns (r: Result<nat, string>)
    requires page >= 1
    ensures r == if a.extraKey != b.extraKey then Err("RadixKey operations require matching extra_key")
                 else Ok(MatchLength(a, b, page))
  {
    hide Common, Scan;
    if a.extraKey != b.extraKey {
      return Err("RadixKey operations require matching extra_key");
    }
    if a.bigram {
      var i := CountEqual(a.tokens, b.tokens);
      var matched := if i == 0 then 0 else Least(i - 1, Least(Len(a), Len(b)));
      return Ok(if page > 1 then matched / page * page else matched);
    }
    if page == 1 {
      var i := CountEqual(a.tokens, b.tokens);
      return Ok(i);
    }
    var i := FirstDifferentPage(a.tokens, b.tokens, page);
    return Ok(i);
  }

  /** The page-by-page loop. */
  method FirstDifferentPage(s: seq<int>, t: seq<int>, page: nat) returns (i: nat)
    requires page >= 1
    ensures i == Scan(s, t, 0, page)
  {
    i := 0;
    while i < Least(|s|, |t|)
      invariant Scan(s, t, 0, page) == Scan(s, t, i, page)
      decreases |s| - i
    {
      if Cut(s, i, page) != Cut(t, i, page) { break; }
      i := i + page;
    }
  }

  /** The token-by-token loop. */
  method CountEqual(s: seq<int>, t: seq<int>) returns (i: nat)
    ensures i == Common(s, t)
  {
    i := 0;
    while i < |s| && i < |t| && s[i] == t[i]
      invariant i <= |s| && i <= |t| && s[..i] == t[..i]
    {
      i := i + 1;
    }
    CommonIs(s, t, i);
  }

  lemma {:induction false} CommonIs<T>(a: seq<T>, b: seq<T>, n: nat)
    requires n <= |a| && n <= |b| && a[..n] == b[..n] && (n < |a| && n < |b| ==> a[n] != b[n])
    ensures Common(a, b) == n
  {
  }

  lemma {:induction false} CommonPeel<T>(a: seq<T>, b: seq<T>)
    requires a != [] && b != []
    ensures Common(a, b) == if a[0] == b[0] then 1 + Common(a[1..], b[1..]) else 0
  {
  }

  lemma {:induction false} OneMore(p: nat, n: nat)
    ensures p * (1 + n) == p + p * n
  {
  }

  /** The tokens of the whole pages that two lists share from position `i` on, and the page that the
      scan counts too many: two equal lists with a part of a page left over. */
  ghost function Ahead(s: seq<int>, t: seq<int>, i: nat, page: nat, e: Option<string>): nat
    requires page >= 1 && i <= |s| && i <= |t|
  {
    page * Common(Pages(s[i..], e, 0, page), Pages(t[i..], e, 0, page))
    + (if s == t && (|s| - i) % page != 0 then page else 0)
  }

  /** The scan returns the start of the first page that differs, except that two equal lists with a
      part of a page left over count that part as a whole page. */
  lemma {:induction false} ScanPages(s: seq<int>, t: seq<int>, i: nat, page: nat, e: Option<string>)
    requires page >= 1 && i <= |s| && i <= |t| && s[..i] == t[..i]
    ensures Scan(s, t, i, page) == i + Ahead(s, t, i, page, e)
    decreases |s| - i
  {
    hide Ahead;
    if i < |s| && i < |t| && Cut(s, i, page) == Cut(t, i, page) {
      if i + page <= |s| && i + page <= |t| {
        FullPage(s, t, i, page, e);
        ScanPages(s, t, i + page, page, e);
      } else {
        PartPage(s, t, i, page, e);
      }
    } else {
      StopPage(s, t, i, page, e);
    }
  }

  lemma {:induction false} FullPage(s: seq<int>, t: seq<int>, i: nat, page: nat, e: Option<string>)
    requires page >= 1 && i + page <= |s| && i + page <= |t| && s[..i] == t[..i] && s[i..i + page] == t[i..i + page]
    ensures s[..i + page] == t[..i + page]
    ensures Ahead(s, t, i, page, e) == page + Ahead(s, t, i + page, page, e)
  {
    hide Pages, Common;
    assert s[..i + page] == s[..i] + s[i..i + page] && t[..i + page] == t[..i] + t[i..i + page];
    PagesPeel(s, i, page, e);
    PagesPeel(t, i, page, e);
    var a, b := Pages(s[i..], e, 0, page), Pages(t[i..], e, 0, page);
    CommonPeel(a, b);
    OneMore(page, Common(a[1..], b[1..]));
    DivStep(|s| - i, page);
  }

  lemma {:induction false} PagesPeel(s: seq<int>, i: nat, page: nat, e: Option<string>)
    requires page >= 1 && i + page <= |s|
    ensures var a := Pages(s[i..], e, 0, page);
      a != [] && a[0] == Unit(e, s[i..i + page]) && a[1..] == Pages(s[i + page..], e, 0, page)
  {
    assert s[i..][..page] == s[i..i + page] && s[i..][page..] == s[i + page..];
  }

  lemma {:induction false} PartPage(s: seq<int>, t: seq<int>, i: nat, page: nat, e: Option<string>)
    requires i < |s| && i < |t| && s[..i] == t[..i] && Cut(s, i, page) == Cut(t, i, page)
    requires page >= 1 && !(i + page <= |s| && i + page <= |t|)
    ensures s == t && |s| - i < page && Ahead(s, t, i, page, e) == page
  {
    assert s == s[..i] + s[i..] && t == t[..i] + t[i..];
    Unique(|s| - i, page, 0, |s| - i);
  }

  lemma {:induction false} StopPage(s: seq<int>, t: seq<int>, i: nat, page: nat, e: Option<string>)
    requires page >= 1 && i <= |s| && i <= |t|
    requires i == |s| || i == |t| || Cut(s, i, page) != Cut(t, i, page)
    ensures Ahead(s, t, i, page, e) == 0
  {
    if i + page <= |s| && i + page <= |t| {
      PagesPeel(s, i, page, e);
      PagesPeel(t, i, page, e);
    }
  }

  lemma {:induction false} PairPeel(s: seq<int>, page: nat, e: Option<string>)
    requires page >= 1
    ensures var a := Pages(s, e, 1, page);
      if |s| < page + 1 then a == []
      else a != [] && a[0] == Unit(e, s[..page + 1]) && a[1..] == Pages(s[page..], e, 1, page)
  {
  }

  lemma {:induction false} CommonTails(s: seq<int>, t: seq<int>, n: nat)
    requires n < Common(s, t)
    ensures s[..n + 1] == t[..n + 1] && Common(s[n..], t[n..]) == Common(s, t) - n
  {
    var c := Common(s, t);
    hide Common;
    assert s[..n + 1] == s[..c][..n + 1] && t[..n + 1] == t[..c][..n + 1];
    assert s[n..][..c - n] == s[..c][n..] && t[n..][..c - n] == t[..c][n..];
    CommonIs(s[n..], t[n..], c - n);
  }

  /** Pairs match page by page exactly as far as one token more matches. */
  lemma {:induction false} PairPages(s: seq<int>, t: seq<int>, page: nat, e: Option<string>)
    requires page >= 1
    ensures var c := Common(s, t);
      Common(Pages(s, e, 1, page), Pages(t, e, 1, page)) == (if c == 0 then 0 else (c - 1) / page)
    decreases |s|
  {
    hide Pages, Common;
    var c := Common(s, t);
    var a, b := Pages(s, e, 1, page), Pages(t, e, 1, page);
    PairPeel(s, page, e);
    PairPeel(t, page, e);
    if c >= page + 1 {
      CommonTails(s, t, page);
      CommonPeel(a, b);
      PairPages(s[page..], t[page..], page, e);
      DivStep(c - 1, page);
    } else {
      if a != [] && b != [] {
        CommonPeel(a, b);
        if a[0] == b[0] { CommonAtLeast(s, t, page + 1); }
      }
      if c > 0 { Unique(c - 1, page, 0, c - 1); }
    }
  }

  lemma {:induction false} CommonAtLeast<T>(s: seq<T>, t: seq<T>, n: nat)
    requires n <= |s| && n <= |t| && s[..n] == t[..n]
    ensures Common(s, t) >= n
  {
  }

  /** The two keys hold the same tokens, not pairs, and they do not fill their last page. */
  predicate SameLoosePage(a: RadixKey, b: RadixKey, page: nat)
    requires page >= 1
  {
    !a.bigram && a.tokens == b.tokens && |a.tokens| % page != 0
  }

  lemma {:induction false} MatchValue(a: RadixKey, b: RadixKey, page: nat)
    requires page >= 1 && a.bigram == b.bigram && a.extraKey == b.extraKey
    ensures MatchLength(a, b, page) ==
      page * Common(Units(a, page), Units(b, page)) + if SameLoosePage(a, b, page) then page else 0
  {
    if a.bigram { PairValue(a, b, page); } else { TokenValue(a, b, page); }
  }

  lemma {:induction false} PairValue(a: RadixKey, b: RadixKey, page: nat)
    requires page >= 1 && a.bigram && b.bigram && a.extraKey == b.extraKey
    ensures MatchLength(a, b, page) == page * Common(Units(a, page), Units(b, page))
  {
    hide Pages, Common;
    PairPages(a.tokens, b.tokens, page, a.extraKey);
    if page == 1 { OneByOne(Common(a.tokens, b.tokens)); }
  }

  lemma {:induction false} TokenValue(a: RadixKey, b: RadixKey, page: nat)
    requires page >= 1 && !a.bigram && !b.bigram && a.extraKey == b.extraKey
    ensures MatchLength(a, b, page) ==
      page * Common(Units(a, page), Units(b, page)) + if SameLoosePage(a, b, page) then page else 0
  {
    hide Pages, Common, Scan;
    var s, t := a.tokens, b.tokens;
    assert s[0..] == s && t[0..] == t;
    ScanPages(s, t, 0, page, a.extraKey);
    if page == 1 { ScanOnes(s, t, 0); }
  }

  lemma {:induction false} OneByOne(c: nat)
    ensures c > 0 ==> (c - 1) / 1 == c - 1
  {
  }

  lemma {:induction false} ScanOnes(s: seq<int>, t: seq<int>, i: nat)
    requires i <= |s| && i <= |t| && s[..i] == t[..i]
    ensures Scan(s, t, i, 1) == Common(s, t)
    decreases |s| - i
  {
    if i < |s| && i < |t| && Cut(s, i, 1) == Cut(t, i, 1) {
      assert Cut(s, i, 1)[0] == s[i] && Cut(t, i, 1)[0] == t[i];
      ScanOnes(s, t, i + 1);
    } else {
      CommonIs(s, t, i);
    }
  }

  /** `match` is the number of leading pages the keys share, in units, if and only if the keys are not
      the same loose page. */
  lemma {:induction false} MatchExact(a: RadixKey, b: RadixKey, page: nat)
    requires page >= 1 && a.bigram == b.bigram && a.extraKey == b.extraKey
    ensures MatchLength(a, b, page) == page * Common(Units(a, page), Units(b, page)) <==> !SameLoosePage(a, b, page)
  {
    MatchValue(a, b, page);
  }

  /** A key of five tokens matched against itself in pages of four gives eight. */
  lemma {:induction false} LoosePageWitness()
    ensures var k := RadixKey([1, 2, 3, 4, 5], None, false);
      MatchLength(k, k, 4) == 8 && Len(k) == 5
  {
    var s := [1, 2, 3, 4, 5];
    assert Scan(s, s, 8, 4) == 8;
    assert Scan(s, s, 4, 4) == 8;
  }

  // ----- slicing

  lemma {:induction false} PagesShort(s: seq<int>, e: Option<string>, extra: nat, page: nat)
    requires page >= 1
    ensures |s| < page + extra ==> Pages(s, e, extra, page) == []
    ensures |s| >= page + extra ==>
      var a := Pages(s, e, extra, page);
      a != [] && a[0] == Unit(e, s[..page + extra]) && a[1..] == Pages(s[page..], e, extra, page)
  {
  }

  /** As many pages as fit. */
  lemma {:induction false} PagesCount(s: seq<int>, e: Option<string>, extra: nat, page: nat)
    requires page >= 1
    ensures |Pages(s, e, extra, page)| == if |s| < extra then 0 else (|s| - extra) / page
    decreases |s|
  {
    hide Pages;
    PagesShort(s, e, extra, page);
    if |s| >= page + extra {
      PagesCount(s[page..], e, extra, page);
      DivStep(|s| - extra, page);
    } else if |s| >= extra {
      Unique(|s| - extra, page, 0, |s| - extra);
    }
  }

  /** The tokens from page `n` on hold the pages from `n` on. */
  lemma {:induction false} PagesDrop(s: seq<int>, e: Option<string>, extra: nat, page: nat, n: nat)
    requires page >= 1 && n <= |Pages(s, e, extra, page)|
    ensures page * n <= |s| && Pages(s[page * n..], e, extra, page) == Pages(s, e, extra, page)[n..]
    decreases n
  {
    hide Pages;
    PagesShort(s, e, extra, page);
    if n == 0 {
      assert s[page * n..] == s;
    } else {
      PagesDrop(s[page..], e, extra, page, n - 1);
      OneMore(page, n - 1);
      assert s[page..][page * (n - 1)..] == s[page * n..];
    }
  }

  /** The tokens of the first `n` pages hold exactly those. */
  lemma {:induction false} PagesTake(s: seq<int>, e: Option<string>, extra: nat, page: nat, n: nat)
    requires page >= 1 && 1 <= n <= |Pages(s, e, extra, page)|
    ensures page * n + extra <= |s| && Pages(s[..page * n + extra], e, extra, page) == Pages(s, e, extra, page)[..n]
    decreases n
  {
    hide Pages;
    PagesShort(s, e, extra, page);
    OneMore(page, n - 1);
    var all, rest := Pages(s, e, extra, page), s[page..];
    if n > 1 {
      PagesTake(rest, e, extra, page, n - 1);
    } else {
      PagesShort(rest[..extra], e, extra, page);
    }
    var t := s[..page * n + extra];
    assert t[..page + extra] == s[..page + extra] && t[page..] == rest[..page * (n - 1) + extra];
    PagesShort(t, e, extra, page);
    assert all[..n] == [all[0]] + all[1..][..n - 1];
    assert Pages(t, e, extra, page) == [all[0]] + Pages(t[page..], e, extra, page);
  }

  lemma {:induction false} UnitsCount(k: RadixKey, page: nat)
    requires page >= 1
    ensures |Units(k, page)| == Len(k) / page && page * |Units(k, page)| <= Len(k)
  {
    PagesCount(k.tokens, k.extraKey, Extra(k), page);
    ProductBelow(Len(k), page);
  }

  /** Cutting a key at a page boundary cuts its units there; for pairs both parts keep the token at the
      boundary. */
  lemma {:induction false} SliceUnits(k: RadixKey, page: nat, n: nat)
    requires page >= 1 && n <= |Units(k, page)|
    ensures page * n <= Len(k)
    ensures Units(Slice(k, 0, page * n), page) == Units(k, page)[..n]
    ensures Units(Slice(k, page * n, Len(k)), page) == Units(k, page)[n..]
  {
    hide Pages;
    var s, e, extra := k.tokens, k.extraKey, Extra(k);
    PagesDrop(s, e, extra, page, n);
    UnitsCount(k, page);
    assert page * n <= Len(k) by { if n > 0 { PagesTake(s, e, extra, page, n); } }
    if n > 0 {
      PagesTake(s, e, extra, page, n);
    } else {
      PagesShort([], e, extra, page);
    }
    if page * n == Len(k) {
      PagesShort(s[page * n..], e, extra, page);
      PagesShort([], e, extra, page);
    } else {
      assert s[page * n..|s|] == s[page * n..];
    }
    SliceTokens(k, page * n);
  }

  lemma {:induction false} SliceTokens(k: RadixKey, m: nat)
    requires m <= Len(k)
    ensures Slice(k, 0, m).tokens == if m == 0 then [] else k.tokens[..m + Extra(k)]
    ensures Slice(k, m, Len(k)).tokens == if k.bigram && m == Len(k) then [] else k.tokens[m..]
  {
  }

  /** `page_aligned` drops no unit, and what is left is never a loose page. */
  lemma {:induction false} AlignedUnits(k: RadixKey, page: nat)
    requires page >= 1
    ensures Units(Aligned(k, page), page) == Units(k, page)
    ensures Len(Aligned(k, page)) == page * |Units(k, page)|
    ensures forall b: RadixKey :: !SameLoosePage(Aligned(k, page), b, page)
  {
    hide Pages;
    UnitsCount(k, page);
    var n := Len(k) / page;
    SliceUnits(k, page, n);
    SliceTokens(k, page * n);
    assert n * page == page * n;
    Unique(page * n, page, n, 0);
  }

  // ----- looking up a child

  /** The dictionary keys under which children are stored. */
  datatype Plain = Token(t: int) | Pair(a: int, b: int) | Page(ts: seq<int>) | PairPage(ps: seq<(int, int)>)

  datatype ChildKey = Untagged(plain: Plain) | Tagged(extraKey: string, plain: Plain)

  function PairsOf(s: seq<int>, n: nat): (r: seq<(int, int)>)
    requires n < |s|
    ensures |r| == n && forall j :: 0 <= j < n ==> r[j] == (s[j], s[j + 1])
  {
    seq(n, j requires 0 <= j < n => (s[j], s[j + 1]))
  }

  /** `child_key`, for a key of at least one page. */
  function ChildKeyOf(k: RadixKey, page: nat): ChildKey
    requires page >= 1 && Units(k, page) != []
  {
    UnitsCount(k, page);
    var t := k.tokens;
    var plain :=
      if k.bigram then (if page == 1 then Pair(t[0], t[1]) else PairPage(PairsOf(t, page)))
      else if page == 1 then Token(t[0]) else Page(t[..page]);
    if k.extraKey.None? then Untagged(plain) else Tagged(k.extraKey.value, plain)
  }

  lemma {:induction false} PairsTell(s: seq<int>, t: seq<int>, n: nat)
    requires 1 <= n < |s| && n < |t|
    ensures PairsOf(s, n) == PairsOf(t, n) <==> s[..n + 1] == t[..n + 1]
  {
    if PairsOf(s, n) == PairsOf(t, n) {
      forall j | 0 <= j <= n ensures s[j] == t[j] {
        var i := if j < n then j else n - 1;
        assert PairsOf(s, n)[i] == PairsOf(t, n)[i];
      }
    }
    if s[..n + 1] == t[..n + 1] {
      forall j | 0 <= j <= n ensures s[j] == t[j] { assert s[..n + 1][j] == t[..n + 1][j]; }
    }
  }

  /** Two keys are looked up under the same entry exactly when their first units are the same, the
      namespace included. */
  lemma {:induction false} ChildKeyIsUnit(a: RadixKey, b: RadixKey, page: nat)
    requires page >= 1 && a.bigram == b.bigram && Units(a, page) != [] && Units(b, page) != []
    ensures ChildKeyOf(a, page) == ChildKeyOf(b, page) <==> Units(a, page)[0] == Units(b, page)[0]
  {
    hide Pages;
    var s, t := a.tokens, b.tokens;
    PagesShort(s, a.extraKey, Extra(a), page);
    PagesShort(t, b.extraKey, Extra(b), page);
    if a.bigram {
      PairsTell(s, t, page);
      if page == 1 { assert PairsOf(s, 1) == [(s[0], s[1])] && PairsOf(t, 1) == [(t[0], t[1])]; }
    } else if page == 1 {
      assert s[..1] == [s[0]] && t[..1] == [t[0]];
    }
  }

  lemma {:induction false} SliceLength(k: RadixKey, start: nat, stop: nat)
    requires start <= stop <= Len(k)
    ensures var part := Slice(k, start, stop);
      Len(part) == stop - start && part.bigram == k.bigram && part.extraKey == k.extraKey
  {
  }

  lemma {:induction false} WholePages(x: nat, page: nat, n: nat)
    requires page >= 1 && page * n <= x
    ensures (page * n) % page == 0 && (x % page == 0 ==> (x - page * n) % page == 0)
  {
    Unique(page * n, page, n, 0);
    if x % page == 0 {
      var q := x / page;
      assert x == q * page;
      assert x - page * n == (q - n) * page;
      Unique(x - page * n, page, q - n, 0);
    }
  }

  /** One step of a walk down the tree, on the raw tokens of the child's edge `a` and of what is left of
      the key, `b`: the code takes the child whole, or splits it, where the unit model does, both cuts
      leave the units that the model leaves, and all parts are of whole pages again. */
  lemma {:induction false} WalkStep(a: RadixKey, b: RadixKey, page: nat)
    requires page >= 1 && a.bigram == b.bigram && a.extraKey == b.extraKey && Len(a) % page == 0
    ensures var m, n := MatchLength(a, b, page), Common(Units(a, page), Units(b, page));
      && m == page * n && m <= Len(a) && m <= Len(b) && (m < Len(a) <==> n < |Units(a, page)|)
      && Units(Slice(a, 0, m), page) == Units(a, page)[..n]
      && Units(Slice(a, m, Len(a)), page) == Units(a, page)[n..]
      && Units(Slice(b, m, Len(b)), page) == Units(b, page)[n..]
      && Len(Slice(a, 0, m)) % page == 0 && Len(Slice(a, m, Len(a))) % page == 0
      && (Len(b) % page == 0 ==> Len(Slice(b, m, Len(b))) % page == 0)
  {
    hide MatchLength, Units, Common, Slice, Len;
    MatchPages(a, b, page);
    var n := Common(Units(a, page), Units(b, page));
    SliceUnits(a, page, n);
    SliceUnits(b, page, n);
    SliceLength(a, 0, page * n);
    SliceLength(a, page * n, Len(a));
    SliceLength(b, page * n, Len(b));
    WholePages(Len(a), page, n);
    WholePages(Len(b), page, n);
  }

  /** Against a key of whole pages `match` is the shared pages. */
  lemma {:induction false} MatchPages(a: RadixKey, b: RadixKey, page: nat)
    requires page >= 1 && a.bigram == b.bigram && a.extraKey == b.extraKey && Len(a) % page == 0
    ensures var m, n := MatchLength(a, b, page), Common(Units(a, page), Units(b, page));
      && m == page * n && m <= Len(a) && m <= Len(b) && (m < Len(a) <==> n < |Units(a, page)|)
  {
    hide MatchLength, Units, Common, Len, SameLoosePage, Slice;
    MatchValue(a, b, page);
    NotLoose(a, b, page);
    var n := Common(Units(a, page), Units(b, page));
    SliceUnits(a, page, n);
    SliceUnits(b, page, n);
    FewerPages(a, page, n);
  }

  lemma {:induction false} NotLoose(a: RadixKey, b: RadixKey, page: nat)
    requires page >= 1 && Len(a) % page == 0
    ensures !SameLoosePage(a, b, page)
  {
  }

  lemma {:induction false} FewerPages(a: RadixKey, page: nat, n: nat)
    requires page >= 1 && Len(a) % page == 0 && n <= |Units(a, page)|
    ensures page * n < Len(a) <==> n < |Units(a, page)|
  {
    hide Units, Len;
    UnitsCount(a, page);
    var all := |Units(a, page)|;
    assert Len(a) == page * all;
    if n < all {
      Grows(all - n, page);
      assert page * all == page * n + (all - n) * page;
    }
  }
}
