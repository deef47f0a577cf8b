/** The two extractors of `\boxed{...}` answers: `search_boxed` (benchmark/gsm8k/eval_sglang.py)
    and `extract_boxed_answers` (benchmark/reasoning_benchmark/answer_extraction.py). */
module Boxed {
  import opened Prelude
  import opened Strings

  const BOXED := "\\boxed"
  const OPENING := "\\boxed{"
  const MARK := "boxed{"

  /** Opening minus closing braces. */
  function Depth(s: string): int {
    if s == "" then 0
    else Depth(s[..|s| - 1]) + if s[|s| - 1] == '{' then 1 else if s[|s| - 1] == '}' then -1 else 0
  }

  /** Braces match: never more closed than opened, and all closed at the end. */
  ghost predicate Balanced(s: string) {
    Depth(s) == 0 && forall k :: 0 <= k <= |s| ==> Depth(s[..k]) >= 0
  }

  /** The first position whose closing brace matches no opening one in `s`. */
  function Unmatched(s: string, from: nat): (r: Option<nat>)
    requires from <= |s|
    ensures r.Some? ==> from <= r.value < |s|
    decreases |s| - from
  {
    if from == |s| then None
    else if s[from] == '}' && Depth(s[..from + 1]) < 0 then Some(from)
    else Unmatched(s, from + 1)
  }

  lemma {:induction false} DepthNext(s: string, k: nat)
    requires k < |s|
    ensures Depth(s[..k + 1]) == Depth(s[..k]) + if s[k] == '{' then 1 else if s[k] == '}' then -1 else 0
  {
    assert s[..k + 1][..k] == s[..k];
  }

  /** Before the first unmatched brace the depth never goes negative. */
  lemma {:induction false} UnmatchedFrom(s: string, from: nat)
    requires from <= |s| && forall k :: 0 <= k <= from ==> Depth(s[..k]) >= 0
    ensures match Unmatched(s, from)
      case None => forall k :: 0 <= k <= |s| ==> Depth(s[..k]) >= 0
      case Some(i) => from <= i < |s| && s[i] == '}' && Depth(s[..i]) == 0 && forall k :: 0 <= k <= i ==>
        Depth(s[..k]) >= 0
    decreases |s| - from
  {
    if from < |s| {
      DepthNext(s, from);
      if !(s[from] == '}' && Depth(s[..from + 1]) < 0) {
        UnmatchedFrom(s, from + 1);
      }
    }
  }

  /** A balanced text followed by a closing brace is cut exactly there, and every cut is like that. */
  lemma {:induction false} UnmatchedExactly(s: string, i: nat)
    ensures Unmatched(s, 0) == Some(i) <==> i < |s| && s[i] == '}' && Balanced(s[..i])
  {
    UnmatchedFrom(s, 0);
    if i < |s| && s[i] == '}' && Balanced(s[..i]) {
      DepthNext(s, i);
      forall k | 0 <= k <= i ensures Depth(s[..k]) >= 0 { assert s[..i][..k] == s[..k]; }
      assert Depth(s[..i + 1]) < 0;
      if Unmatched(s, 0).Some? { DepthNext(s, Unmatched(s, 0).value); }
    }
    if Unmatched(s, 0) == Some(i) {
      forall k | 0 <= k <= |s[..i]| ensures Depth(s[..i][..k]) >= 0 { assert s[..i][..k] == s[..k]; }
    }
  }

  lemma {:induction false} DepthConcat(a: string, b: string)
    ensures Depth(a + b) == Depth(a) + Depth(b)
  {
    if b == "" {
      assert a + b == a;
    } else {
      var n := |b| - 1;
      assert (a + b)[..|a| + n] == a + b[..n];
      DepthConcat(a, b[..n]);
    }
  }

  lemma {:induction false} OpeningDepth()
    ensures Depth(OPENING) == 1 && forall k :: 0 <= k <= 6 ==> Depth(OPENING[..k]) == 0
  {
    DepthPlain(OPENING[..6]);
    forall k | 0 <= k <= 6 ensures Depth(OPENING[..k]) == 0 { DepthPlain(OPENING[..k]); }
    assert OPENING[..|OPENING| - 1] == OPENING[..6];
  }

  lemma {:induction false} DepthPlain(s: string)
    requires forall k :: 0 <= k < |s| ==> s[k] != '{' && s[k] != '}'
    ensures Depth(s) == 0
  {
    if s != "" { DepthPlain(s[..|s| - 1]); }
  }

  /** What `search_boxed` computes: the last `\boxed` must be followed by a brace, and the answer
      runs to that brace's partner. */
  function Search(s: string): Option<string> {
    match RFind(s, BOXED, |s|)
    case None => None
    case Some(idx) =>
      if !OccursAt(s, OPENING, idx) then None
      else
        match Unmatched(s[idx + 7..], 0)
        case None => None
        case Some(i) => Some(s[idx + 7..][..i])
  }

  /** The loop's closing brace, in terms of the text after the opening. */
  ghost predicate Closes(s: string, idx: nat, i: nat)
    requires idx <= i < |s|
  {
    s[i] == '}' && Depth(s[idx..i + 1]) == 0
  }

  lemma {:induction false} ClosesExactly(s: string, idx: nat, i: nat)
    requires OccursAt(s, OPENING, idx) && idx <= i < |s|
    ensures Closes(s, idx, i) <==>
      i >= idx + 7 && s[i] == '}' && Depth(s[idx + 7..][..i - idx - 7 + 1]) == -1
  {
    OpeningDepth();
    var t := s[idx + 7..];
    if i < idx + 7 {
      assert s[i] == OPENING[i - idx];
    } else {
      assert s[idx..i + 1] == OPENING + t[..i - idx - 7 + 1];
      DepthConcat(OPENING, t[..i - idx - 7 + 1]);
    }
  }

  /** With no earlier unmatched brace, the first one is where the depth first reaches -1. */
  lemma {:induction false} FirstUnmatched(t: string, from: nat, i: nat)
    requires from <= i < |t| && t[i] == '}' && Depth(t[..i + 1]) == -1
    requires forall k :: from <= k < i && t[k] == '}' ==> Depth(t[..k + 1]) != -1
    requires Depth(t[..from]) >= 0
    ensures Unmatched(t, from) == Some(i)
    decreases i - from
  {
    DepthNext(t, from);
    if from < i { FirstUnmatched(t, from + 1, i); }
  }

  lemma {:induction false} NoUnmatched(t: string, from: nat)
    requires from <= |t| && Depth(t[..from]) >= 0
    requires forall k :: from <= k < |t| && t[k] == '}' ==> Depth(t[..k + 1]) != -1
    ensures Unmatched(t, from) == None
    decreases |t| - from
  {
    if from < |t| {
      DepthNext(t, from);
      NoUnmatched(t, from + 1);
    }
  }

  /** The scanning loop: the first closing brace at which as many were closed as opened. */
  method ClosingBrace(s: string, idx: nat) returns (right: Option<nat>)
    requires idx <= |s|
    ensures right.Some? ==> idx <= right.value < |s| && Closes(s, idx, right.value)
    ensures forall k :: idx <= k < |s| && (right.Some? ==> k < right.value) ==> !Closes(s, idx, k)
  {
    var i, open := idx, 0;
    assert s[idx..idx] == "";
    while i < |s|
      invariant idx <= i <= |s| && open == Depth(s[idx..i])
      invariant forall k :: idx <= k < i ==> !Closes(s, idx, k)
    {
      assert s[idx..][..i - idx] == s[idx..i] && s[idx..][..i - idx + 1] == s[idx..i + 1];
      DepthNext(s[idx..], i - idx);
      if s[i] == '{' {
        open := open + 1;
      }
      if s[i] == '}' {
        open := open - 1;
        if open == 0 {
          return Some(i);
        }
      }
      i := i + 1;
    }
    return None;
  }

  /** `search_boxed` (its `\fbox` fallback can never run: the text contains `\boxed` by then). */
  method SearchBoxed(s: string) returns (r: Option<string>)
    ensures r == Search(s)
  {
    hide Depth, Closes, RFind, Search;
    var found := RFind(s, BOXED, |s|);
    if found.None? {
      SearchNothing(s);
      return None;
    }
    var idx := found.value;
    var right := ClosingBrace(s, idx);
    if right.None? {
      SearchFindsNone(s, idx);
      return None;
    }
    var retval := s[idx..right.value + 1];
    if |retval| >= |OPENING| && retval[..|OPENING|] == OPENING && retval[|retval| - 1] == '}' {
      SliceOfSlice(s, idx, right.value + 1, 0, 7);
      SearchFinds(s, idx, right.value);
      SliceOfSlice(s, idx, right.value + 1, 7, right.value - idx);
      return Some(retval[|OPENING|..|retval| - 1]);
    }
    if OccursAt(s, OPENING, idx) {
      OpeningShows(s, idx, right.value);
    } else {
      SearchNothing(s);
    }
    return None;
  }

  lemma {:induction false} SliceOfSlice(s: string, a: nat, b: nat, x: nat, y: nat)
    requires a <= b <= |s| && x <= y <= b - a
    ensures s[a..b][x..y] == s[a + x..a + y]
  {
    forall k | 0 <= k < y - x ensures s[a..b][x..y][k] == s[a + x..a + y][k] {}
  }

  lemma {:induction false} OpeningShows(s: string, idx: nat, i: nat)
    requires OccursAt(s, OPENING, idx) && idx <= i < |s| && Closes(s, idx, i)
    ensures i + 1 - idx >= 7 && s[idx..i + 1][..7] == OPENING
  {
    ClosesExactly(s, idx, i);
    SliceOfSlice(s, idx, i + 1, 0, 7);
  }

  lemma {:induction false} SearchNothing(s: string)
    requires var found := RFind(s, BOXED, |s|); found.None? || !OccursAt(s, OPENING, found.value)
    ensures Search(s) == None
  {
  }

  lemma {:induction false} SearchFindsNone(s: string, idx: nat)
    requires RFind(s, BOXED, |s|) == Some(idx) && idx <= |s|
    requires forall k :: idx <= k < |s| ==> !Closes(s, idx, k)
    ensures Search(s) == None
  {
    if OccursAt(s, OPENING, idx) {
      var t := s[idx + 7..];
      forall k | 0 <= k < |t| && t[k] == '}' ensures Depth(t[..k + 1]) != -1 { ClosesExactly(s, idx, idx + 7 + k); }
      NoUnmatched(t, 0);
    }
  }

  lemma {:induction false} SearchFinds(s: string, idx: nat, i: nat)
    requires RFind(s, BOXED, |s|) == Some(idx) && OccursAt(s, OPENING, idx)
    requires idx <= i < |s| && Closes(s, idx, i) && forall k :: idx <= k < i ==> !Closes(s, idx, k)
    ensures i >= idx + 7 && Search(s) == Some(s[idx + 7..i])
  {
    var t := s[idx + 7..];
    ClosesExactly(s, idx, i);
    forall k | 0 <= k < i - idx - 7 && t[k] == '}' ensures Depth(t[..k + 1]) != -1 {
      ClosesExactly(s, idx, idx + 7 + k);
    }
    FirstUnmatched(t, 0, i - idx - 7);
    assert t[..i - idx - 7] == s[idx + 7..i];
  }

  /** `c` is what the last `\boxed{` and its matching brace enclose. */
  ghost predicate Encloses(s: string, p: string, c: string, q: string) {
    s == p + OPENING + c + "}" + q && Balanced(c) && forall j :: j > |p| ==> !OccursAt(s, BOXED, j)
  }

  lemma {:induction false} LastBoxed(s: string, p: nat)
    requires OccursAt(s, BOXED, p) && forall j :: j > p ==> !OccursAt(s, BOXED, j)
    ensures RFind(s, BOXED, |s|) == Some(p)
  {
  }

  /** Complete: an enclosed answer is returned. */
  lemma {:induction false} SearchComplete(s: string, p: string, c: string, q: string)
    requires Encloses(s, p, c, q)
    ensures Search(s) == Some(c)
  {
    var t := c + "}" + q;
    assert s == p + (OPENING + t);
    assert s[|p|..|p| + 7] == OPENING && s[|p|..|p| + 6] == BOXED && s[|p| + 7..] == t;
    assert OccursAt(s, BOXED, |p|);
    LastBoxed(s, |p|);
    assert t[..|c|] == c;
    UnmatchedExactly(t, |c|);
  }

  /** Sound: whatever is returned is balanced and enclosed by the last `\boxed{` and its brace. */
  lemma {:induction false} SearchSound(s: string, c: string) returns (p: string, q: string)
    requires Search(s) == Some(c)
    ensures Encloses(s, p, c, q)
  {
    hide Depth;
    var idx := RFind(s, BOXED, |s|).value;
    var t := s[idx + 7..];
    var i := Unmatched(t, 0).value;
    UnmatchedExactly(t, i);
    p, q := s[..idx], t[i + 1..];
    assert s[idx..idx + 7] == OPENING;
    assert t == c + "}" + q;
    assert s == p + OPENING + t;
    assert s == p + OPENING + c + "}" + q;
    forall j | j > |p| ensures !OccursAt(s, BOXED, j) {}
  }

  /** What `extract_boxed_answers` takes from one piece: everything up to the unmatched brace, and
      the brace too when a percent sign follows. */
  function AnswerOf(piece: string): Option<string> {
    match Unmatched(piece, 0)
    case None => None
    case Some(i) => if i + 1 < |piece| && piece[i + 1] == '%' then Some(piece[..i + 1]) else Some(piece[..i])
  }

  function Answers(pieces: seq<string>): seq<string> {
    if pieces == [] then []
    else
      var n := |pieces| - 1;
      Answers(pieces[..n]) + match AnswerOf(pieces[n]) case None => [] case Some(a) => [a]
  }

  function Extract(text: string): seq<string> { Answers(Split(text, MARK)[1..]) }

  /** The inner loop, with its running count. */
  method ScanPiece(piece: string) returns (r: Option<string>)
    ensures r == AnswerOf(piece)
  {
    var n := 0;
    for i := 0 to |piece|
      invariant n == Depth(piece[..i]) && Unmatched(piece, 0) == Unmatched(piece, i) && n >= 0
    {
      DepthNext(piece, i);
      if piece[i] == '{' {
        n := n + 1;
      } else if piece[i] == '}' {
        n := n - 1;
        if n < 0 {
          if i + 1 < |piece| && piece[i + 1] == '%' {
            return Some(piece[..i + 1]);
          } else {
            return Some(piece[..i]);
          }
        }
      }
    }
    return None;
  }

  method ExtractBoxedAnswers(text: string) returns (answers: seq<string>)
    ensures answers == Extract(text)
  {
    var pieces := Split(text, MARK)[1..];
    answers := [];
    for i := 0 to |pieces|
      invariant answers == Answers(pieces[..i])
    {
      var a := ScanPiece(pieces[i]);
      assert pieces[..i + 1][..i] == pieces[..i];
      if a.Some? { answers := answers + [a.value]; }
    }
    assert pieces[..|pieces|] == pieces;
  }

  lemma {:induction false} MarkBorderFree()
    ensures BorderFree(MARK)
  {
    forall k | 0 < k < 6 ensures MARK[k..] != MARK[..6 - k] {
      assert MARK[k..][0] == MARK[k] && MARK[..6 - k][0] == MARK[0];
      assert MARK[k] != 'b';
    }
  }

  lemma {:induction false} OccursHead(s: string, pat: string, i: int)
    requires OccursAt(s, pat, i) && pat != ""
    ensures s[i] == pat[0]
  {
    assert s[i] == s[i..i + |pat|][0];
  }

  /** After `p + \boxed{`, no further `\boxed` starts inside the opening or in a free text. */
  lemma {:induction false} NoLaterBoxed(p: string, t: string, j: int)
    requires Free(t, BOXED) && j > |p|
    ensures !OccursAt(p + OPENING + t, BOXED, j)
  {
    var s := p + OPENING + t;
    if j < |p| + 7 {
      assert s[j] == OPENING[j - |p|] && OPENING[j - |p|] != BOXED[0];
      if OccursAt(s, BOXED, j) { OccursHead(s, BOXED, j); }
    } else {
      OccursShift(p + OPENING, t, BOXED, j);
    }
  }

  // ----- when the two extractors agree

  /** A `boxed{` whose balanced content is closed before the next `boxed{`. */
  ghost predicate ClosedBox(s: string, x: string, d: string, y: string) {
    s == x + MARK + d + "}" + y && Balanced(d) && Free(d, MARK)
  }

  ghost predicate NoClosedBox(s: string) { forall x, d, y :: !ClosedBox(s, x, d, y) }

  ghost predicate LastClosed(s: string, x: string, d: string, y: string) { ClosedBox(s, x, d, y) && NoClosedBox(y) }

  predicate Percent(y: string) { y != "" && y[0] == '%' }

  /** The answer taken from a closed box. */
  function Taken(d: string, y: string): string { if Percent(y) then d + "}" else d }

  function Last(answers: seq<string>): Option<string> { if answers == [] then None else Some(answers[|answers| - 1]) }

  lemma {:induction false} AnswersConcat(a: seq<string>, b: seq<string>)
    ensures Answers(a + b) == Answers(a) + Answers(b)
  {
    if b == [] {
      assert a + b == a;
    } else {
      var n := |b| - 1;
      assert (a + b)[..|a| + n] == a + b[..n];
      AnswersConcat(a, b[..n]);
    }
  }

  lemma {:induction false} AnswersOne(piece: string)
    ensures Answers([piece]) == match AnswerOf(piece) case None => [] case Some(a) => [a]
  {
    assert [piece][..0] == [];
  }

  /** Around a mark: what comes before it, the piece after it, and the pieces after that. */
  lemma {:induction false} ExtractAfter(x: string, t: string)
    ensures Extract(x + MARK + t) == Extract(x) + Answers([Split(t, MARK)[0]]) + Extract(t)
  {
    hide Split, Answers;
    MarkBorderFree();
    SplitConcat(x, MARK, t);
    var a, b := Split(x, MARK), Split(t, MARK);
    assert (a + b)[1..] == a[1..] + ([b[0]] + b[1..]);
    AnswersConcat(a[1..], [b[0]] + b[1..]);
    AnswersConcat([b[0]], b[1..]);
  }

  lemma {:induction false} FirstPieceHead(y: string)
    ensures Percent(Split(y, MARK)[0]) == Percent(y)
  {
    if Find(y, MARK, 0).Some? && Find(y, MARK, 0).value == 0 { OccursHead(y, MARK, 0); }
  }

  /** What a closed box contributes, between what comes before and after it. */
  lemma {:induction false} ClosedIsTaken(s: string, x: string, d: string, y: string)
    requires ClosedBox(s, x, d, y)
    ensures Extract(s) == Extract(x) + [Taken(d, y)] + Extract(y)
  {
    hide Split, Balanced, Depth, Free, Answers;
    var t := d + "}" + y;
    assert s == x + MARK + t;
    MarkBorderFree();
    SplitPrefixed(d, '}', y, MARK);
    var first := Split(y, MARK)[0];
    FirstPieceHead(y);
    ExtractAfter(x, t);
    AnswerOfClosed(d, first);
    AnswersOne(d + "}" + first);
  }

  lemma {:induction false} AnswerOfClosed(d: string, q: string)
    requires Balanced(d)
    ensures AnswerOf(d + "}" + q) == Some(Taken(d, q))
  {
    hide Depth;
    var t := d + "}" + q;
    assert t[..|d|] == d && t[..|d| + 1] == d + "}";
    UnmatchedExactly(t, |d|);
    assert q != "" ==> t[|d| + 1] == q[0];
  }

  /** Whatever is extracted comes from closed boxes; the last one is found. */
  lemma {:induction false} ExtractedIsClosed(s: string) returns (x: string, d: string, y: string)
    requires Extract(s) != []
    ensures LastClosed(s, x, d, y)
    decreases |s|
  {
    hide Split, Balanced, Depth, Answers, Unmatched;
    MarkBorderFree();
    var i := FirstMark(s);
    var a, t := s[..i], s[i + 6..];
    assert s == a + MARK + t;
    if Extract(t) != [] {
      x, d, y := ExtractedIsClosed(t);
      x := a + MARK + x;
      assert s == x + MARK + d + "}" + y;
    } else {
      FirstPieceGives(a, t);
      d, y := ClosedAtFront(t);
      x := a;
      assert s == a + MARK + d + "}" + y;
      assert ClosedBox(s, x, d, y);
      forall u, v, w ensures !ClosedBox(y, u, v, w) {
        if ClosedBox(y, u, v, w) { ClosedIsTaken(y, u, v, w); }
      }
    }
  }

  lemma {:induction false} FirstMark(s: string) returns (i: nat)
    requires Extract(s) != []
    ensures OccursAt(s, MARK, i) && Free(s[..i], MARK)
  {
    i := Find(s, MARK, 0).value;
    FreeBefore(s, MARK);
  }

  lemma {:induction false} FirstPieceGives(a: string, t: string)
    requires Free(a, MARK) && Extract(t) == [] && Extract(a + MARK + t) != []
    ensures AnswerOf(Split(t, MARK)[0]).Some?
  {
    hide Answers, AnswerOf;
    ExtractAfter(a, t);
    SplitFree(a, MARK);
    assert Split(a, MARK)[1..] == [];
    NoAnswers();
    AnswersOne(Split(t, MARK)[0]);
  }

  lemma {:induction false} NoAnswers()
    ensures Answers([]) == []
  {
  }

  /** A piece with an answer starts with balanced text and its closing brace. */
  lemma {:induction false} ClosedAtFront(t: string) returns (d: string, y: string)
    requires AnswerOf(Split(t, MARK)[0]).Some?
    ensures t == d + "}" + y && Balanced(d) && Free(d, MARK) && Extract(y) == Extract(t)
  {
    hide Balanced, Depth, Answers;
    MarkBorderFree();
    JoinSplit(t, MARK);
    var first := Split(t, MARK)[0];
    var i := Unmatched(first, 0).value;
    UnmatchedExactly(first, i);
    FirstPiecePrefix(t);
    d, y := first[..i], t[i + 1..];
    assert t == d + "}" + y;
    FreeHead(first, MARK, i);
    SplitPrefixed(d, '}', y, MARK);
  }

  lemma {:induction false} FirstPiecePrefix(t: string)
    ensures Split(t, MARK)[0] <= t
  {
  }

  /** The second extractor's last answer is that of the last closed box. */
  lemma {:induction false} LastIsTaken(s: string, x: string, d: string, y: string)
    requires LastClosed(s, x, d, y)
    ensures Last(Extract(s)) == Some(Taken(d, y))
  {
    hide Balanced, Free, Answers, Split;
    ClosedIsTaken(s, x, d, y);
    if Extract(y) != [] { var u, v, w := ExtractedIsClosed(y); }
  }

  lemma {:induction false} NothingTaken(s: string)
    ensures Extract(s) == [] <==> NoClosedBox(s)
  {
    hide Balanced, Free, Answers, Split, Extract;
    if Extract(s) != [] {
      var x, d, y := ExtractedIsClosed(s);
    } else {
      forall x, d, y ensures !ClosedBox(s, x, d, y) {
        if ClosedBox(s, x, d, y) { ClosedIsTaken(s, x, d, y); }
      }
    }
  }

  /** The text the last `\boxed{` encloses is also that of the last closed `boxed{`, and no percent sign
      follows it there; or there is neither. */
  ghost predicate OneAnswer(s: string) {
    || (NoClosedBox(s) && forall p, c, q :: !Encloses(s, p, c, q))
    || exists p, c, q, x, y :: Encloses(s, p, c, q) && LastClosed(s, x, c, y) && !Percent(y)
  }

  /** On every text the two extractors agree, with `None` for no answer, if and only if it has one
      answer in that sense. */
  lemma {:induction false} ExtractorsAgree(s: string)
    ensures Last(Extract(s)) == Search(s) <==> OneAnswer(s)
  {
    hide Search, Extract, Encloses, LastClosed, NoClosedBox, Percent;
    NothingTaken(s);
    forall p, c, q | Encloses(s, p, c, q) ensures Search(s) == Some(c) { SearchComplete(s, p, c, q); }
    forall x, d, y | LastClosed(s, x, d, y) ensures Last(Extract(s)) == Some(Taken(d, y)) { LastIsTaken(s, x, d, y); }
    if Search(s).Some? {
      var c := Search(s).value;
      var p, q := SearchSound(s, c);
      if Last(Extract(s)) == Some(c) {
        var x, d, y := ExtractedIsClosed(s);
        NotBraced(s, p, c, q, x, d, y);
        assert Taken(d, y) == c;
        assert Encloses(s, p, c, q) && LastClosed(s, x, c, y) && !Percent(y);
      }
    }
  }

  /** An enclosed text is balanced, so it is no balanced text with a closing brace more. */
  lemma {:induction false} NotBraced(s: string, p: string, c: string, q: string, x: string, d: string, y: string)
    requires Encloses(s, p, c, q) && LastClosed(s, x, d, y)
    ensures c != d + "}"
  {
    assert (d + "}")[..|d|] == d;
  }

  /** On a text that goes on after its last box without another `boxed{` the extractors agree if and
      only if no percent sign follows the box. */
  lemma {:induction false} LastBoxAgrees(p: string, c: string, q: string)
    requires Balanced(c) && Free(c + "}" + q, BOXED) && Free(c + "}" + q, MARK)
    ensures var s := p + OPENING + c + "}" + q;
      && Search(s) == Some(c) && Last(Extract(s)) == Some(Taken(c, q))
      && (Last(Extract(s)) == Search(s) <==> !Percent(q))
  {
    hide Search, Extract, Depth, Balanced;
    var t := c + "}" + q;
    var s := p + OPENING + c + "}" + q;
    assert s == p + OPENING + t;
    forall j | j > |p| ensures !OccursAt(s, BOXED, j) { NoLaterBoxed(p, t, j); }
    SearchComplete(s, p, c, q);
    FreeHead(t, MARK, |c|);
    FreeTail(t, MARK, |c| + 1);
    assert t[..|c|] == c && t[|c| + 1..] == q;
    assert s == (p + "\\") + MARK + c + "}" + q;
    FreeIsOpen(q);
    LastIsTaken(s, p + "\\", c, q);
  }

  lemma {:induction false} MarkOccurs(s: string, x: string, d: string, y: string)
    requires ClosedBox(s, x, d, y)
    ensures OccursAt(s, MARK, |x|)
  {
    assert s[|x|..|x| + 6] == MARK;
  }

  lemma {:induction false} FreeIsOpen(q: string)
    requires Free(q, MARK)
    ensures NoClosedBox(q)
  {
    forall x, d, y ensures !ClosedBox(q, x, d, y) {
      if ClosedBox(q, x, d, y) { MarkOccurs(q, x, d, y); }
    }
  }

  lemma {:induction false} DigitBalanced(d: string)
    requires |d| == 1 && d[0] != '{' && d[0] != '}'
    ensures Balanced(d)
  {
    DepthPlain(d);
    forall k | 0 <= k <= 1 ensures Depth(d[..k]) == 0 { DepthPlain(d[..k]); }
  }

  /** A percent sign after the box: the second extractor keeps the brace. */
  lemma {:induction false} PercentWitness()
    ensures var s := "\\boxed{5}%"; Search(s) == Some("5") && Last(Extract(s)) == Some("5}")
  {
    hide Search, Extract, Balanced, Free;
    assert "" + OPENING + "5" + "}" + "%" == "\\boxed{5}%";
    PlainFree("5}%", BOXED, 'b');
    PlainFree("5}%", MARK, 'b');
    assert "5" + "}" + "%" == "5}%";
    DigitBalanced("5");
    LastBoxAgrees("", "5", "%");
    assert Taken("5", "%") == "5" + "}" == "5}";
  }

  /** The word without its backslash after the box: the second extractor takes that. */
  lemma {:induction false} WordWitness()
    ensures var s := "\\boxed{5} boxed{6}"; Search(s) == Some("5") && Last(Extract(s)) == Some("6")
  {
    hide Search, Extract, Balanced;
    var s := "\\boxed{5} boxed{6}";
    assert s == "" + OPENING + "5" + "}" + " boxed{6}" == "\\boxed{5} " + MARK + "6" + "}" + "";
    DigitBalanced("5");
    DigitBalanced("6");
    PlainFree("5} boxed{6}", BOXED, '\\');
    assert s == "" + OPENING + "5} boxed{6}";
    forall j | j > 0 ensures !OccursAt(s, BOXED, j) { NoLaterBoxed("", "5} boxed{6}", j); }
    SearchComplete(s, "", "5", " boxed{6}");
    PlainFree("6", MARK, 'b');
    PlainFree("", MARK, 'b');
    FreeIsOpen("");
    LastIsTaken(s, "\\boxed{5} ", "6", "");
  }
}
