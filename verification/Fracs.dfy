/** benchmark/reasoning_benchmark/answer_extraction.py, `_fix_fracs`: puts braces around the two
    arguments of every `\frac`, or leaves the text alone if some `\frac` has too little after it. */
module Fracs {
  import opened Prelude
  import opened Strings

  const FRAC := "\\frac"

  /** The text after one `\frac`, with its arguments in braces; None if it is too short. */
  function FixPiece(piece: string): Option<string> {
    if |piece| > 0 && piece[0] == '{' then Some(piece)
    else if |piece| < 2 then None
    else if piece[1] != '{' then Some("{" + [piece[0]] + "}{" + [piece[1]] + "}" + piece[2..])
    else Some("{" + [piece[0]] + "}" + [piece[1]] + piece[2..])
  }

  function FixPieces(pieces: seq<string>): (r: Option<seq<string>>)
    ensures r.Some? ==> |r.value| == |pieces| && forall k :: 0 <= k < |pieces| ==>
      FixPiece(pieces[k]) == Some(r.value[k])
    ensures r.None? ==> exists k :: 0 <= k < |pieces| && FixPiece(pieces[k]).None?
  {
    if pieces == [] then Some([])
    else
      var n := |pieces| - 1;
      match (FixPieces(pieces[..n]), FixPiece(pieces[n]))
      case (Some(r), Some(p)) => Some(r + [p])
      case (_, _) => None
  }

  function FixFracs(s: string): string {
    var parts := Split(s, FRAC);
    match FixPieces(parts[1..])
    case None => s
    case Some(fixed) => Join([parts[0]] + fixed, FRAC)
  }

  lemma {:induction false} JoinSnoc(parts: seq<string>, x: string, sep: string)
    requires parts != []
    ensures Join(parts + [x], sep) == Join(parts, sep) + sep + x
  {
    if |parts| == 1 {
      assert (parts + [x])[1..] == [x];
    } else {
      JoinSnoc(parts[1..], x, sep);
      assert (parts + [x])[1..] == parts[1..] + [x];
    }
  }

  /** `_fix_fracs`, with its early return. */
  method FixFracsLoop(s: string) returns (r: string)
    ensures r == FixFracs(s)
  {
    hide Split, Join, FixPiece, FixPieces;
    var parts := Split(s, FRAC);
    var rest := parts[1..];
    r := parts[0];
    ghost var fixed: seq<string> := [];
    assert FixPieces(rest[..0]) == Some([]) && Join([parts[0]], FRAC) == r by { FixNothing(parts[0]); }
    assert [parts[0]] + fixed == [parts[0]];
    for i := 0 to |rest|
      invariant FixPieces(rest[..i]) == Some(fixed) && r == Join([parts[0]] + fixed, FRAC)
    {
      var piece := rest[i];
      FixNext(rest, i);
      JoinNext(parts[0], fixed, piece);
      r := r + FRAC;
      if |piece| > 0 && piece[0] == '{' {
        r := r + piece;
      } else if |piece| < 2 {
        FixStops(rest, i);
        return s;
      } else if piece[1] != '{' {
        r := r + ("{" + [piece[0]] + "}{" + [piece[1]] + "}" + piece[2..]);
      } else {
        r := r + ("{" + [piece[0]] + "}" + [piece[1]] + piece[2..]);
      }
      fixed := fixed + [FixPiece(piece).value];
    }
    assert rest[..|rest|] == rest;
  }

  lemma {:induction false} FixNothing(x: string)
    ensures FixPieces([]) == Some([]) && Join([x], FRAC) == x
  {
  }

  lemma {:induction false} FixNext(pieces: seq<string>, i: nat)
    requires i < |pieces| && FixPieces(pieces[..i]).Some?
    ensures FixPieces(pieces[..i + 1]) ==
      match FixPiece(pieces[i]) case None => None case Some(p) => Some(FixPieces(pieces[..i]).value + [p])
    ensures var piece := pieces[i];
      FixPiece(piece) ==
        if |piece| > 0 && piece[0] == '{' then Some(piece)
        else if |piece| < 2 then None
        else if piece[1] != '{' then Some("{" + [piece[0]] + "}{" + [piece[1]] + "}" + piece[2..])
        else Some("{" + [piece[0]] + "}" + [piece[1]] + piece[2..])
  {
    assert pieces[..i + 1][..i] == pieces[..i];
  }

  lemma {:induction false} JoinNext(head: string, fixed: seq<string>, piece: string)
    ensures FixPiece(piece).Some? ==>
      Join([head] + (fixed + [FixPiece(piece).value]), FRAC) ==
        Join([head] + fixed, FRAC) + FRAC + FixPiece(piece).value
  {
    if FixPiece(piece).Some? {
      JoinSnoc([head] + fixed, FixPiece(piece).value, FRAC);
      assert [head] + (fixed + [FixPiece(piece).value]) == [head] + fixed + [FixPiece(piece).value];
    }
  }

  lemma {:induction false} FixStops(pieces: seq<string>, i: nat)
    requires i < |pieces| && FixPiece(pieces[i]).None?
    ensures FixPieces(pieces).None?
  {
  }

  lemma {:induction false} FracBorderFree()
    ensures BorderFree(FRAC)
  {
    forall k | 0 < k < 5 ensures FRAC[k..] != FRAC[..5 - k] {
      assert FRAC[k..][0] == FRAC[k] && FRAC[..5 - k][0] == FRAC[0];
      assert FRAC[k] != '\\';
    }
  }

  /** Adding the braces makes no new `\frac`, and a fixed piece needs no more fixing. */
  lemma {:induction false} FixedPiece(piece: string)
    requires Free(piece, FRAC) && FixPiece(piece).Some?
    ensures Free(FixPiece(piece).value, FRAC) && FixPiece(FixPiece(piece).value) == FixPiece(piece)
  {
    if !(|piece| > 0 && piece[0] == '{') {
      var a, b, rest := [piece[0]], [piece[1]], piece[2..];
      FreeTail(piece, FRAC, 2);
      FreeShort("", FRAC);
      FreeShort(a, FRAC);
      FreeShort(b, FRAC);
      if piece[1] != '{' {
        FreeAround(b, '}', rest, FRAC);
        FreeAround("", '{', b + "}" + rest, FRAC);
        var t := "{" + (b + "}" + rest);
        assert "" + ['{'] + (b + "}" + rest) == t;
        FreeAround(a, '}', t, FRAC);
        FreeAround("", '{', a + "}" + t, FRAC);
        assert FixPiece(piece).value == "" + ['{'] + (a + "}" + t);
      } else {
        FreeAround("", '{', rest, FRAC);
        var t := b + rest;
        assert "" + ['{'] + rest == t;
        FreeAround(a, '}', t, FRAC);
        FreeAround("", '{', a + "}" + t, FRAC);
        assert FixPiece(piece).value == "" + ['{'] + (a + "}" + t);
      }
    }
  }

  lemma {:induction false} FixedPieces(pieces: seq<string>)
    requires AllFree(pieces, FRAC) && FixPieces(pieces).Some?
    ensures AllFree(FixPieces(pieces).value, FRAC) && FixPieces(FixPieces(pieces).value) == FixPieces(pieces)
  {
    hide FixPiece, Free;
    var fixed := FixPieces(pieces).value;
    forall k | 0 <= k < |pieces| ensures Free(fixed[k], FRAC) && FixPiece(fixed[k]) == Some(fixed[k]) {
      FixedPiece(pieces[k]);
    }
    if FixPieces(fixed).Some? {
      assert FixPieces(fixed).value == fixed;
    }
  }

  /** Fixing twice is fixing once, on every string. */
  lemma {:induction false} FixIdempotent(s: string)
    ensures FixFracs(FixFracs(s)) == FixFracs(s)
  {
    hide FixPieces, Split, Join;
    var parts := Split(s, FRAC);
    JoinSplit(s, FRAC);
    match FixPieces(parts[1..])
    case None =>
    case Some(fixed) =>
      FixedPieces(parts[1..]);
      FracBorderFree();
      var all := [parts[0]] + fixed;
      SplitJoin(all, FRAC);
      assert all[1..] == fixed;
  }

  /** The text without its braces. */
  function Strip(s: string): string {
    if s == "" then "" else Strip(s[..|s| - 1]) + if s[|s| - 1] in "{}" then "" else [s[|s| - 1]]
  }

  lemma {:induction false} StripConcat(a: string, b: string)
    ensures Strip(a + b) == Strip(a) + Strip(b)
  {
    if b == "" {
      assert a + b == a;
    } else {
      var n := |b| - 1;
      assert (a + b)[..|a| + n] == a + b[..n];
      StripConcat(a, b[..n]);
    }
  }

  lemma {:induction false} StripBrace(c: char, s: string)
    requires c in "{}"
    ensures Strip([c] + s) == Strip(s)
  {
    StripConcat([c], s);
    assert Strip([c]) == Strip([c][..0]);
  }

  lemma {:induction false} StripFixed(piece: string)
    requires FixPiece(piece).Some?
    ensures Strip(FixPiece(piece).value) == Strip(piece)
  {
    if !(|piece| > 0 && piece[0] == '{') {
      var a, b, rest := [piece[0]], [piece[1]], piece[2..];
      assert piece == a + (b + rest);
      StripConcat(a, b + rest);
      StripConcat(b, rest);
      if piece[1] != '{' {
        var t := "}" + rest;
        var u := "{" + (b + t);
        var v := "}" + u;
        assert FixPiece(piece).value == "{" + (a + v);
        StripBrace('{', a + v);
        StripConcat(a, v);
        StripBrace('}', u);
        StripBrace('{', b + t);
        StripConcat(b, t);
        StripBrace('}', rest);
      } else {
        var v := "}" + (b + rest);
        assert FixPiece(piece).value == "{" + (a + v);
        StripBrace('{', a + v);
        StripConcat(a, v);
        StripBrace('}', b + rest);
      }
    }
  }

  lemma {:induction false} StripJoin(xs: seq<string>, ys: seq<string>)
    requires |xs| == |ys| > 0 && forall k :: 0 <= k < |xs| ==> Strip(xs[k]) == Strip(ys[k])
    ensures Strip(Join(xs, FRAC)) == Strip(Join(ys, FRAC))
  {
    if |xs| > 1 {
      StripJoin(xs[1..], ys[1..]);
      StripConcat(xs[0] + FRAC, Join(xs[1..], FRAC));
      StripConcat(xs[0], FRAC);
      StripConcat(ys[0] + FRAC, Join(ys[1..], FRAC));
      StripConcat(ys[0], FRAC);
    }
  }

  /** Fixing only adds braces. */
  lemma {:induction false} FixAddsBracesOnly(s: string)
    ensures Strip(FixFracs(s)) == Strip(s)
  {
    hide FixPiece, Split, Join, Strip;
    var parts := Split(s, FRAC);
    JoinSplit(s, FRAC);
    match FixPieces(parts[1..])
    case None =>
    case Some(fixed) =>
      var all := [parts[0]] + fixed;
      forall k | 0 <= k < |parts| ensures Strip(all[k]) == Strip(parts[k]) {
        if k > 0 { StripFixed(parts[1..][k - 1]); }
      }
      StripJoin(all, parts);
  }

  // ----- what the result looks like

  /** The `\frac` at `i` has its arguments: a brace follows, or two characters before the next one. */
  predicate HasArguments(s: string, i: int) {
    || (0 <= i && i + 5 < |s| && s[i + 5] == '{')
    || (0 <= i && i + 7 <= |s| && !OccursAt(s, FRAC, i + 5) && !OccursAt(s, FRAC, i + 6))
  }

  ghost predicate Braceable(s: string) { forall i :: OccursAt(s, FRAC, i) ==> HasArguments(s, i) }

  lemma {:induction false} FirstPiece(rest: string)
    ensures Split(rest, FRAC)[0] <= rest
    ensures FixPiece(Split(rest, FRAC)[0]).Some? <==>
      || (rest != "" && rest[0] == '{')
      || (|rest| >= 2 && !OccursAt(rest, FRAC, 0) && !OccursAt(rest, FRAC, 1))
  {
    match Find(rest, FRAC, 0)
    case None =>
    case Some(i) =>
      assert Split(rest, FRAC)[0] == rest[..i];
      if i == 0 { assert rest[0] == rest[0..5][0]; }
  }

  /** Reading on after the first `\frac`. */
  lemma {:induction false} BraceableAfter(a: string, rest: string)
    requires Free(a, FRAC)
    ensures Braceable(a + FRAC + rest) <==> FixPiece(Split(rest, FRAC)[0]).Some? && Braceable(rest)
  {
    hide Split, FixPiece;
    var s := a + FRAC + rest;
    FracBorderFree();
    FirstPiece(rest);
    forall i ensures OccursAt(s, FRAC, i) <==> i == |a| || (i >= |a| + 5 && OccursAt(rest, FRAC, i - |a| - 5)) {
      OccursAfter(a, rest, i);
    }
    forall i | i >= |a| + 5 ensures HasArguments(s, i) <==> HasArguments(rest, i - |a| - 5) {
      ArgumentsAfter(a, rest, i);
    }
    ArgumentsFirst(a, rest);
    if Braceable(s) {
      assert OccursAt(s, FRAC, |a|);
      forall j | OccursAt(rest, FRAC, j) ensures HasArguments(rest, j) {
        assert OccursAt(s, FRAC, j + |a| + 5);
      }
    }
  }

  lemma {:induction false} OccursAfter(a: string, rest: string, i: int)
    requires Free(a, FRAC)
    ensures OccursAt(a + FRAC + rest, FRAC, i) <==> i == |a| || (i >= |a| + 5 && OccursAt(rest, FRAC, i - |a| - 5))
  {
    var s := a + FRAC + rest;
    FracBorderFree();
    assert s[|a|..|a| + 5] == FRAC;
    if i >= |a| + 5 {
      OccursShift(a + FRAC, rest, FRAC, i);
    } else if OccursAt(s, FRAC, i) && i != |a| {
      if i < |a| {
        OccurrencesApart(s, FRAC, i, |a|);
        assert s == a + (FRAC + rest);
        OccursPrefix(a, FRAC + rest, FRAC, i);
      } else {
        OccurrencesApart(s, FRAC, |a|, i);
      }
    }
  }

  lemma {:induction false} ArgumentsAfter(a: string, rest: string, i: int)
    requires i >= |a| + 5
    ensures HasArguments(a + FRAC + rest, i) <==> HasArguments(rest, i - |a| - 5)
  {
    OccursShift(a + FRAC, rest, FRAC, i + 5);
    OccursShift(a + FRAC, rest, FRAC, i + 6);
  }

  lemma {:induction false} ArgumentsFirst(a: string, rest: string)
    ensures HasArguments(a + FRAC + rest, |a|) <==>
      || (rest != "" && rest[0] == '{')
      || (|rest| >= 2 && !OccursAt(rest, FRAC, 0) && !OccursAt(rest, FRAC, 1))
  {
    OccursShift(a + FRAC, rest, FRAC, |a| + 5);
    OccursShift(a + FRAC, rest, FRAC, |a| + 6);
  }

  /** All pieces after a `\frac` can be braced if and only if all of them have their arguments. */
  lemma {:induction false} BraceableExactly(s: string)
    ensures FixPieces(Split(s, FRAC)[1..]).Some? <==> Braceable(s)
    decreases |s|
  {
    hide FixPiece;
    match Find(s, FRAC, 0)
    case None =>
      assert Split(s, FRAC)[1..] == [];
    case Some(i) =>
      var a, rest := s[..i], s[i + 5..];
      assert s == a + FRAC + rest by { assert s[i..i + 5] == FRAC; }
      FreeBefore(s, FRAC);
      BraceableAfter(a, rest);
      BraceableExactly(rest);
      var pieces := Split(rest, FRAC);
      assert Split(s, FRAC)[1..] == pieces;
      hide Split, Braceable;
      FixPiecesHead(pieces);
  }

  lemma {:induction false} FixPiecesHead(pieces: seq<string>)
    requires pieces != []
    ensures FixPieces(pieces).Some? <==> FixPiece(pieces[0]).Some? && FixPieces(pieces[1..]).Some?
    ensures FixPieces(pieces).Some? ==>
      FixPieces(pieces).value == [FixPiece(pieces[0]).value] + FixPieces(pieces[1..]).value
  {
    hide FixPiece;
    var n := |pieces| - 1;
    if n > 0 {
      FixPiecesHead(pieces[..n]);
      assert pieces[..n][1..] == pieces[1..][..n - 1];
    } else {
      assert pieces[..0] == [] && pieces[1..] == [];
    }
  }

  /** If some `\frac` lacks its arguments the text is left alone. */
  lemma {:induction false} LeftAlone(s: string)
    requires !Braceable(s)
    ensures FixFracs(s) == s
  {
    BraceableExactly(s);
  }

  /** Otherwise every `\frac` of the result is followed by a brace. */
  lemma {:induction false} EveryFracBraced(s: string, i: int)
    requires Braceable(s) && OccursAt(FixFracs(s), FRAC, i)
    ensures i + 5 < |FixFracs(s)| && FixFracs(s)[i + 5] == '{'
  {
    hide Split, Join, FixPiece, Braceable;
    BraceableExactly(s);
    JoinSplit(s, FRAC);
    var parts := Split(s, FRAC);
    var fixed := FixPieces(parts[1..]).value;
    FixedPieces(parts[1..]);
    forall k | 0 <= k < |fixed| ensures fixed[k] != "" && fixed[k][0] == '{' { FixedOpens(parts[1..][k]); }
    FollowedByBrace([parts[0]] + fixed, i);
  }

  lemma {:induction false} FixedOpens(piece: string)
    requires FixPiece(piece).Some?
    ensures FixPiece(piece).value != "" && FixPiece(piece).value[0] == '{'
  {
  }

  lemma {:induction false} FollowedByBrace(parts: seq<string>, i: int)
    requires parts != [] && AllFree(parts, FRAC) && OccursAt(Join(parts, FRAC), FRAC, i)
    requires forall k :: 1 <= k < |parts| ==> parts[k] != "" && parts[k][0] == '{'
    ensures i + 5 < |Join(parts, FRAC)| && Join(parts, FRAC)[i + 5] == '{'
  {
    if |parts| > 1 {
      var rest := Join(parts[1..], FRAC);
      OccursAfter(parts[0], rest, i);
      if i > |parts[0]| { FollowedByBrace(parts[1..], i - |parts[0]| - 5); }
    }
  }

  // ----- the result, piece by piece

  /** What follows the text before the first `\frac`. */
  function Tail(y: string): string {
    match FixPieces(Split(y, FRAC)[1..])
    case None => ""
    case Some(fixed) => if fixed == [] then "" else FRAC + Join(fixed, FRAC)
  }

  lemma {:induction false} FixByTail(y: string)
    requires Braceable(y)
    ensures FixFracs(y) == Split(y, FRAC)[0] + Tail(y)
  {
    BraceableExactly(y);
    hide Split, FixPieces, Braceable;
    var fixed := FixPieces(Split(y, FRAC)[1..]).value;
    JoinTail(Split(y, FRAC)[0], fixed);
  }

  lemma {:induction false} FixAfterFrac(y: string)
    requires Braceable(FRAC + y)
    ensures Braceable(y) && FixPiece(Split(y, FRAC)[0]).Some?
    ensures FixFracs(FRAC + y) == FRAC + FixPiece(Split(y, FRAC)[0]).value + Tail(y)
  {
    hide Split, FixPiece, FixPieces, Braceable, Join, FixFracs, Free;
    FreeShort("", FRAC);
    assert "" + FRAC + y == FRAC + y;
    BraceableAfter("", y);
    BraceableExactly(y);
    var pieces := Split(y, FRAC);
    FixPiecesHead(pieces);
    var first, fixed := FixPiece(pieces[0]).value, FixPieces(pieces[1..]).value;
    FracThen(y, [first] + fixed);
    JoinTail(first, fixed);
  }

  lemma {:induction false} JoinTail(p: string, fixed: seq<string>)
    ensures Join([p] + fixed, FRAC) == p + if fixed == [] then "" else FRAC + Join(fixed, FRAC)
  {
    if fixed == [] {
      assert [p] + fixed == [p];
    } else {
      assert ([p] + fixed)[1..] == fixed;
    }
  }

  /** Text in which no `\frac` starts only lengthens the first piece. */
  lemma {:induction false} SplitShift(x: string, z: string)
    requires forall i :: 0 <= i < |x| ==> !OccursAt(x + z, FRAC, i)
    ensures Split(x + z, FRAC)[0] == x + Split(z, FRAC)[0] && Tail(x + z) == Tail(z)
    ensures Braceable(x + z) ==> Braceable(z)
  {
    hide Split, FixPieces, Braceable, OccursAt;
    SplitShifted(x, z);
    assert Split(x + z, FRAC)[1..] == Split(z, FRAC)[1..];
    BraceableExactly(x + z);
    BraceableExactly(z);
  }

  lemma {:induction false} SplitShifted(x: string, z: string)
    requires forall i :: 0 <= i < |x| ==> !OccursAt(x + z, FRAC, i)
    ensures Split(x + z, FRAC) == [x + Split(z, FRAC)[0]] + Split(z, FRAC)[1..]
  {
    hide Split, OccursAt;
    FindShifted(x, z);
    match Find(z, FRAC, 0)
    case None =>
      SplitFree(z, FRAC);
      SplitFree(x + z, FRAC);
    case Some(i) =>
      FoundInside(z, i);
      FoundInside(x + z, |x| + i);
      SplitFound(z, i);
      SplitFound(x + z, |x| + i);
      assert (x + z)[..|x| + i] == x + z[..i] && (x + z)[|x| + i + 5..] == z[i + 5..];
  }

  lemma {:induction false} FoundInside(s: string, i: nat)
    requires Find(s, FRAC, 0) == Some(i)
    ensures i + 5 <= |s|
  {
  }

  lemma {:induction false} SplitFound(s: string, i: nat)
    requires Find(s, FRAC, 0) == Some(i) && i + 5 <= |s|
    ensures Split(s, FRAC) == [s[..i]] + Split(s[i + 5..], FRAC)
  {
  }

  lemma {:induction false} FindShifted(x: string, z: string)
    requires forall i :: 0 <= i < |x| ==> !OccursAt(x + z, FRAC, i)
    ensures Find(z, FRAC, 0).None? ==> Free(z, FRAC) && Free(x + z, FRAC)
    ensures Find(z, FRAC, 0).Some? ==> Find(x + z, FRAC, 0) == Some(|x| + Find(z, FRAC, 0).value)
  {
    hide Find;
    forall i | i >= |x| ensures OccursAt(x + z, FRAC, i) <==> OccursAt(z, FRAC, i - |x|) { OccursShift(x, z, FRAC, i); }
    hide OccursAt;
    if Find(z, FRAC, 0).Some? {
      var i := Find(z, FRAC, 0).value;
      assert OccursAt(x + z, FRAC, |x| + i);
      FoundFirst(x + z, |x| + i);
    } else {
      NotNegative(z);
      NotNegative(x + z);
    }
  }

  lemma {:induction false} FoundFirst(s: string, i: nat)
    requires OccursAt(s, FRAC, i) && forall k :: 0 <= k < i ==> !OccursAt(s, FRAC, k)
    ensures Find(s, FRAC, 0) == Some(i)
  {
    hide Find, OccursAt;
  }

  lemma {:induction false} NotNegative(s: string)
    ensures forall i :: i < 0 ==> !OccursAt(s, FRAC, i)
  {
  }

  /** A `\frac` whose first argument is in braces already. */
  lemma {:induction false} AfterBrace(y: string)
    requires Braceable(FRAC + y) && y != "" && y[0] == '{'
    ensures FixFracs(FRAC + y) == FRAC + FixFracs(y)
  {
    FixAfterFrac(y);
    FixByTail(y);
    FirstPieceBrace(y);
  }

  lemma {:induction false} FirstPieceBrace(y: string)
    requires y != "" && y[0] == '{'
    ensures Split(y, FRAC)[0] != "" && Split(y, FRAC)[0][0] == '{'
  {
  }

  /** Two characters that are not opening braces become two arguments in braces. */
  lemma {:induction false} AfterTwo(a: char, b: char, z: string)
    requires Braceable(FRAC + ([a, b] + z)) && a != '{' && b != '{'
    ensures FixFracs(FRAC + ([a, b] + z)) == FRAC + "{" + [a] + "}{" + [b] + "}" + FixFracs(z)
  {
    hide Split, Tail, FixFracs, Braceable;
    FixAfterFrac([a, b] + z);
    FirstPiece([a, b] + z);
    SplitShift([a, b], z);
    FixByTail(z);
  }

  /** A character before an opening brace becomes an argument in braces. */
  lemma {:induction false} AfterOne(a: char, z: string)
    requires Braceable(FRAC + ([a] + ("{" + z))) && a != '{'
    ensures FixFracs(FRAC + ([a] + ("{" + z))) == FRAC + "{" + [a] + "}" + FixFracs("{" + z)
  {
    hide Split, Tail, FixFracs, Braceable;
    FixAfterFrac([a] + ("{" + z));
    FirstPiece([a] + ("{" + z));
    SplitShift([a], "{" + z);
    FixByTail("{" + z);
    FirstPieceBrace("{" + z);
  }

  /** Text without a `\frac` stays as it is. */
  lemma {:induction false} FreeStays(x: string)
    requires Free(x, FRAC)
    ensures FixFracs(x) == x
  {
    SplitFree(x, FRAC);
    JoinTail(x, []);
    assert [x] + [] == [x];
  }

  /** What comes before a `\frac` is fixed on its own. */
  lemma {:induction false} BeforeFrac(x: string, y: string)
    requires Braceable(x + FRAC + y)
    ensures FixFracs(x + FRAC + y) == FixFracs(x) + FixFracs(FRAC + y)
  {
    hide Split, FixPieces, Braceable, Join, Free, BorderFree;
    FracBorderFree();
    FreeShort("", FRAC);
    BraceableExactly(x + FRAC + y);
    SplitConcat(x, FRAC, y);
    var a, b := Split(x, FRAC), Split(y, FRAC);
    assert (a + b)[1..] == a[1..] + b;
    FixPiecesConcat(a[1..], b);
    var fa, fb := FixPieces(a[1..]).value, FixPieces(b).value;
    assert FixFracs(x) == Join([a[0]] + fa, FRAC);
    assert FixFracs(x + FRAC + y) == Join([a[0]] + (fa + fb), FRAC);
    FixedLength(b);
    FracThen(y, fb);
    JoinConcat([a[0]] + fa, fb);
    assert [a[0]] + fa + fb == [a[0]] + (fa + fb);
  }

  lemma {:induction false} FixedLength(pieces: seq<string>)
    requires FixPieces(pieces).Some?
    ensures |FixPieces(pieces).value| == |pieces|
  {
  }

  lemma {:induction false} FracThen(y: string, fixed: seq<string>)
    requires FixPieces(Split(y, FRAC)) == Some(fixed) && fixed != []
    ensures FixFracs(FRAC + y) == FRAC + Join(fixed, FRAC)
  {
    hide Split, FixPieces, Join;
    FracBorderFree();
    FreeShort("", FRAC);
    SplitFirst("", FRAC, y);
    assert "" + FRAC + y == FRAC + y;
    assert ([""] + Split(y, FRAC))[1..] == Split(y, FRAC);
    JoinTail("", fixed);
  }

  lemma {:induction false} FixPiecesConcat(a: seq<string>, b: seq<string>)
    ensures FixPieces(a + b).Some? <==> FixPieces(a).Some? && FixPieces(b).Some?
    ensures FixPieces(a + b).Some? ==> FixPieces(a + b).value == FixPieces(a).value + FixPieces(b).value
  {
    hide FixPiece;
    if b == [] {
      assert a + b == a;
    } else {
      var n := |b| - 1;
      assert (a + b)[..|a| + n] == a + b[..n];
      FixPiecesConcat(a, b[..n]);
    }
  }

  lemma {:induction false} JoinConcat(a: seq<string>, b: seq<string>)
    requires a != [] && b != []
    ensures Join(a + b, FRAC) == Join(a, FRAC) + FRAC + Join(b, FRAC)
  {
    if |a| == 1 {
      assert (a + b)[1..] == b;
    } else {
      JoinConcat(a[1..], b);
      assert (a + b)[1..] == a[1..] + b;
    }
  }

  /** `\frac12` becomes `\frac{1}{2}`. */
  lemma {:induction false} FracWitness()
    ensures FixFracs("\\frac12") == "\\frac{1}{2}"
  {
    hide FixFracs, Braceable;
    FreeShort("", FRAC);
    assert "" + FRAC + "12" == "\\frac12" == FRAC + (['1', '2'] + "");
    assert Braceable("\\frac12") by { TwelveBraceable(); }
    AfterTwo('1', '2', "");
    assert FixFracs("") == "" by { NothingToFix(); }
  }

  lemma {:induction false} TwelveBraceable()
    ensures Braceable("" + FRAC + "12")
  {
    forall i | OccursAt("" + FRAC + "12", FRAC, i) ensures HasArguments("" + FRAC + "12", i) {
      FreeShort("", FRAC);
      OccursAfter("", "12", i);
    }
  }

  lemma {:induction false} NothingToFix()
    ensures FixFracs("") == ""
  {
    FreeShort("", FRAC);
    SplitFree("", FRAC);
  }
}
