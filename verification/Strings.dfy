/** Python's `in`, `find`, `rfind`, `split` and `join` on strings, and how they interact. */
module Strings {
  import opened Prelude

  predicate OccursAt(s: string, pat: string, i: int) {
    0 <= i && i + |pat| <= |s| && s[i..i + |pat|] == pat
  }

  ghost predicate Free(s: string, pat: string) {
    forall i :: !OccursAt(s, pat, i)
  }

  /** The first occurrence at or after `from`. */
  function Find(s: string, pat: string, from: nat): (r: Option<nat>)
    ensures r.Some? ==> from <= r.value && OccursAt(s, pat, r.value)
    ensures forall i :: from <= i && (r.Some? ==> i < r.value) ==> !OccursAt(s, pat, i)
    decreases |s| + 1 - from
  {
    if from + |pat| > |s| then None
    else if OccursAt(s, pat, from) then Some(from)
    else Find(s, pat, from + 1)
  }

  /** The last occurrence. */
  function RFind(s: string, pat: string, below: nat): (r: Option<nat>)
    ensures r.Some? ==> r.value < below && OccursAt(s, pat, r.value)
    ensures forall i :: i < below && (r.Some? ==> r.value < i) ==> !OccursAt(s, pat, i)
  {
    if below == 0 then None
    else if OccursAt(s, pat, below - 1) then Some(below - 1)
    else RFind(s, pat, below - 1)
  }

  function Split(s: string, sep: string): (r: seq<string>)
    requires sep != ""
    ensures r != []
    decreases |s|
  {
    match Find(s, sep, 0)
    case None => [s]
    case Some(i) => [s[..i]] + Split(s[i + |sep|..], sep)
  }

  function Join(parts: seq<string>, sep: string): string
    requires parts != []
  {
    if |parts| == 1 then parts[0] else parts[0] + sep + Join(parts[1..], sep)
  }

  /** No proper suffix of the pattern is a prefix of it, so occurrences cannot overlap. */
  ghost predicate BorderFree(pat: string) {
    pat != "" && forall k :: 0 < k < |pat| ==> pat[k..] != pat[..|pat| - k]
  }

  ghost predicate AllFree(parts: seq<string>, sep: string) {
    forall k :: 0 <= k < |parts| ==> Free(parts[k], sep)
  }

  lemma {:induction false} OccursShift(a: string, s: string, pat: string, i: int)
    requires i >= |a|
    ensures OccursAt(a + s, pat, i) <==> OccursAt(s, pat, i - |a|)
  {
    if i + |pat| <= |a + s| {
      assert (a + s)[i..i + |pat|] == s[i - |a|..i - |a| + |pat|];
    }
  }

  lemma {:induction false} OccursPrefix(a: string, s: string, pat: string, i: int)
    requires i + |pat| <= |a|
    ensures OccursAt(a + s, pat, i) <==> OccursAt(a, pat, i)
  {
    if 0 <= i {
      assert (a + s)[i..i + |pat|] == a[i..i + |pat|];
    }
  }

  /** Two occurrences of a border-free pattern are at least its length apart. */
  lemma {:induction false} OccurrencesApart(s: string, pat: string, i: int, j: int)
    requires BorderFree(pat) && OccursAt(s, pat, i) && OccursAt(s, pat, j) && i < j
    ensures i + |pat| <= j
  {
    if j - i < |pat| { OverlapIsBorder(s, pat, i, j - i); }
  }

  lemma {:induction false} OverlapIsBorder(s: string, pat: string, i: int, k: int)
    requires OccursAt(s, pat, i) && OccursAt(s, pat, i + k) && 0 < k < |pat|
    ensures pat[k..] == pat[..|pat| - k]
  {
    assert pat[k..] == s[i..i + |pat|][k..] == s[i + k..i + |pat|];
    assert pat[..|pat| - k] == s[i + k..i + k + |pat|][..|pat| - k] == s[i + k..i + |pat|];
  }

  /** The first separator after a separator-free part is found where it was put. */
  lemma {:induction false} FirstSeparator(x: string, sep: string, y: string)
    requires BorderFree(sep) && Free(x, sep)
    ensures Find(x + sep + y, sep, 0) == Some(|x|)
  {
    var s := x + sep + y;
    assert s[|x|..|x| + |sep|] == sep;
    assert OccursAt(s, sep, |x|);
    forall i | 0 <= i < |x| ensures !OccursAt(s, sep, i) {
      if OccursAt(s, sep, i) {
        OccurrencesApart(s, sep, i, |x|);
        assert s == x + (sep + y);
        OccursPrefix(x, sep + y, sep, i);
      }
    }
  }

  lemma {:induction false} SplitFirst(x: string, sep: string, y: string)
    requires BorderFree(sep) && Free(x, sep)
    ensures Split(x + sep + y, sep) == [x] + Split(y, sep)
  {
    FirstSeparator(x, sep, y);
    var s := x + sep + y;
    assert s[..|x|] == x && s[|x| + |sep|..] == y;
  }

  lemma {:induction false} SplitFree(x: string, sep: string)
    requires sep != "" && Free(x, sep)
    ensures Split(x, sep) == [x]
  {
  }

  /** Splitting undoes joining. */
  lemma {:induction false} SplitJoin(parts: seq<string>, sep: string)
    requires BorderFree(sep) && parts != [] && AllFree(parts, sep)
    ensures Split(Join(parts, sep), sep) == parts
  {
    if |parts| == 1 {
      SplitFree(parts[0], sep);
    } else {
      SplitJoin(parts[1..], sep);
      SplitFirst(parts[0], sep, Join(parts[1..], sep));
    }
  }

  /** Joining undoes splitting, and the parts contain no separator. */
  lemma {:induction false} JoinSplit(s: string, sep: string)
    requires sep != ""
    ensures Join(Split(s, sep), sep) == s && AllFree(Split(s, sep), sep)
    decreases |s|
  {
    match Find(s, sep, 0)
    case None =>
    case Some(i) =>
      var rest := s[i + |sep|..];
      JoinSplit(rest, sep);
      assert s == s[..i] + sep + rest;
      FreeBefore(s, sep);
      assert Split(s, sep)[1..] == Split(rest, sep);
  }

  /** A separator splits the text into what its two sides split into. */
  lemma {:induction false} SplitConcat(x: string, sep: string, y: string)
    requires BorderFree(sep)
    ensures Split(x + sep + y, sep) == Split(x, sep) + Split(y, sep)
    decreases |x|
  {
    hide Split, BorderFree;
    NotEmpty(sep);
    match Find(x, sep, 0)
    case None =>
      SplitFree(x, sep);
      SplitFirst(x, sep, y);
    case Some(i) =>
      var a, rest := x[..i], x[i + |sep|..];
      assert x == a + sep + rest;
      FreeBefore(x, sep);
      SplitFirst(a, sep, rest);
      SplitConcat(rest, sep, y);
      assert x + sep + y == a + sep + (rest + sep + y);
      SplitFirst(a, sep, rest + sep + y);
  }

  lemma {:induction false} FreeBefore(s: string, sep: string)
    requires Find(s, sep, 0).Some? && sep != ""
    ensures Free(s[..Find(s, sep, 0).value], sep)
  {
    var i := Find(s, sep, 0).value;
    forall k ensures !OccursAt(s[..i], sep, k) {
      if 0 <= k && k + |sep| <= i {
        assert s == s[..i] + s[i..];
        OccursPrefix(s[..i], s[i..], sep, k);
      }
    }
  }

  /** Text without the separator, closed off by a character that is not in it, only lengthens the
      first part. */
  lemma {:induction false} SplitPrefixed(x: string, c: char, y: string, sep: string)
    requires BorderFree(sep) && c !in sep && Free(x, sep)
    ensures Split(x + [c] + y, sep) == [x + [c] + Split(y, sep)[0]] + Split(y, sep)[1..]
  {
    hide Split, BorderFree;
    NotEmpty(sep);
    match Find(y, sep, 0)
    case None =>
      FreeAround(x, c, y, sep);
      SplitFree(x + [c] + y, sep);
      SplitFree(y, sep);
    case Some(i) =>
      var a, rest := y[..i], y[i + |sep|..];
      assert y == a + sep + rest;
      FreeBefore(y, sep);
      FreeAround(x, c, a, sep);
      SplitFirst(a, sep, rest);
      assert x + [c] + y == (x + [c] + a) + sep + rest;
      SplitFirst(x + [c] + a, sep, rest);
  }

  lemma {:induction false} NotEmpty(sep: string)
    requires BorderFree(sep)
    ensures sep != ""
  {
  }

  /** A character that is not in the pattern separates its occurrences. */
  lemma {:induction false} FreeAround(x: string, c: char, y: string, pat: string)
    requires pat != "" && c !in pat && Free(x, pat) && Free(y, pat)
    ensures Free(x + [c] + y, pat)
  {
    var s := x + [c] + y;
    forall i ensures !OccursAt(s, pat, i) {
      if OccursAt(s, pat, i) {
        if i + |pat| <= |x| {
          assert s == x + ([c] + y);
          OccursPrefix(x, [c] + y, pat, i);
        } else if i > |x| {
          OccursShift(x + [c], y, pat, i);
        } else {
          CoveredIsIn(s, pat, i, |x|);
        }
      }
    }
  }

  lemma {:induction false} CoveredIsIn(s: string, pat: string, i: int, k: int)
    requires OccursAt(s, pat, i) && i <= k < i + |pat|
    ensures s[k] in pat
  {
    assert s[k] == s[i..i + |pat|][k - i];
  }

  lemma {:induction false} InOccurrence(s: string, pat: string, i: int, c: char)
    requires OccursAt(s, pat, i) && c in pat
    ensures c in s
  {
    assert c in s[i..i + |pat|];
  }

  lemma {:induction false} PlainFree(s: string, pat: string, c: char)
    requires c in pat && c !in s
    ensures Free(s, pat)
  {
    forall i ensures !OccursAt(s, pat, i) {
      if OccursAt(s, pat, i) { InOccurrence(s, pat, i, c); }
    }
  }

  lemma {:induction false} FreeShort(x: string, pat: string)
    requires |x| < |pat|
    ensures Free(x, pat)
  {
  }

  lemma {:induction false} FreeHead(x: string, pat: string, k: nat)
    requires Free(x, pat) && k <= |x|
    ensures Free(x[..k], pat)
  {
    forall i ensures !OccursAt(x[..k], pat, i) {
      if i + |pat| <= k {
        assert x == x[..k] + x[k..];
        OccursPrefix(x[..k], x[k..], pat, i);
      }
    }
  }

  lemma {:induction false} FreeTail(x: string, pat: string, k: nat)
    requires Free(x, pat) && k <= |x|
    ensures Free(x[k..], pat)
  {
    forall i ensures !OccursAt(x[k..], pat, i) {
      if i >= 0 {
        assert x == x[..k] + x[k..];
        OccursShift(x[..k], x[k..], pat, k + i);
      }
    }
  }
}
