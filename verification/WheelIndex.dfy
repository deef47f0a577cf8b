/** scripts/update_nightly_whl_index.py and scripts/update_pr_whl_index.py, `update_wheel_index`:
    the package index as a file that each run reads, merges with its own links, deduplicates by
    wheel file name, and writes again. The two scripts differ in the heading line only. */
module WheelIndex {
  import opened Prelude
  import opened Strings

  const DOCTYPE := "<!DOCTYPE html>"
  const LINK := "<a href="
  const NEWLINE := "\n"
  const CLOSING := "</a>"

  predicate StartsWith(s: string, prefix: string) { |prefix| <= |s| && s[..|prefix|] == prefix }

  predicate EndsWith(s: string, suffix: string) { |suffix| <= |s| && s[|s| - |suffix|..] == suffix }

  /** The first '<' at or after `from`. */
  function NextTag(line: string, from: nat): (r: Option<nat>)
    requires from <= |line|
    ensures r.Some? ==> from <= r.value < |line| && line[r.value] == '<'
    ensures forall k :: from <= k < |line| && (r.Some? ==> k < r.value) ==> line[k] != '<'
    decreases |line| - from
  {
    if from == |line| then None else if line[from] == '<' then Some(from) else NextTag(line, from + 1)
  }

  /** The match of `>([^<]+\.whl)</a>` at a given '>': the group runs to the next '<'. */
  function NameAt(line: string, i: nat): Option<string>
    requires i < |line|
  {
    match NextTag(line, i + 1)
    case None => None
    case Some(j) =>
      var name := line[i + 1..j];
      if |name| > 4 && EndsWith(name, ".whl") && OccursAt(line, CLOSING, j) then Some(name) else None
  }

  /** `re.search`: the leftmost match. */
  function WheelName(line: string, from: nat): Option<string>
    requires from <= |line|
    decreases |line| - from
  {
    if from == |line| then None
    else if line[from] == '>' && NameAt(line, from).Some? then NameAt(line, from)
    else WheelName(line, from + 1)
  }

  function Name(line: string): Option<string> { WheelName(line, 0) }

  /** The link line written for one wheel. */
  function MakeLink(url: string, filename: string): string {
    LINK + "\"" + url + "\">" + filename + CLOSING + "<br>"
  }

  lemma {:induction false} SkipTo(line: string, from: nat, i: nat)
    requires from <= i < |line| && forall k :: from <= k < i ==> line[k] != '>'
    ensures WheelName(line, from) == WheelName(line, i)
    decreases i - from
  {
    if from < i { SkipTo(line, from + 1, i); }
  }

  /** A link for a proper wheel name is recognised under exactly that name. */
  lemma {:induction false} LinkNamesWheel(url: string, filename: string)
    requires '>' !in url && '<' !in filename && EndsWith(filename, ".whl") && |filename| > 4
    ensures Name(MakeLink(url, filename)) == Some(filename)
  {
    hide EndsWith, NextTag;
    var pre := LINK + "\"" + url + "\"";
    var line := MakeLink(url, filename);
    assert line == pre + ">" + filename + CLOSING + "<br>";
    assert '>' !in pre;
    SkipTo(line, 0, |pre|);
    var j := |pre| + 1 + |filename|;
    assert line[j] == '<';
    forall k | |pre| + 1 <= k < j ensures line[k] != '<' { assert line[k] == filename[k - |pre| - 1]; }
    assert NextTag(line, |pre| + 1) == Some(j);
    assert line[|pre| + 1..j] == filename;
    assert line[j..j + 4] == CLOSING;
    assert NameAt(line, |pre|) == Some(filename);
  }

  /** The link leads to the URL: it is the text between the first two quotes. */
  lemma {:induction false} LinkLeadsToUrl(url: string, filename: string)
    requires Free(url, "\"")
    ensures var parts := Split(MakeLink(url, filename), "\""); |parts| >= 2 && parts[0] == LINK && parts[1] == url
  {
    hide Split;
    QuoteFacts();
    var rest := ">" + filename + CLOSING + "<br>";
    assert MakeLink(url, filename) == LINK + "\"" + (url + "\"" + rest);
    SplitFirst(LINK, "\"", url + "\"" + rest);
    SplitFirst(url, "\"", rest);
  }

  lemma {:induction false} QuoteFacts()
    ensures BorderFree("\"") && Free(LINK, "\"")
  {
    PlainFree(LINK, "\"", '\"');
  }

  /** Position `i` of the line closes a tag, and a wheel name and its closing tag follow. */
  ghost predicate NamedAt(line: string, i: nat, name: string) {
    && i < |line| && line[i] == '>' && i + 1 + |name| + 4 <= |line|
    && line[i + 1..i + 1 + |name|] == name && line[i + 1 + |name|..i + 5 + |name|] == CLOSING
    && '<' !in name && |name| > 4 && EndsWith(name, ".whl")
  }

  /** That is so at `i`, and of no name at any position between `from` and `i`. */
  ghost predicate FirstNamedAt(line: string, from: nat, i: nat, name: string) {
    from <= i && NamedAt(line, i, name) && forall k: nat, n :: from <= k < i ==> !NamedAt(line, k, n)
  }

  lemma {:induction false} NameAtExactly(line: string, i: nat, name: string)
    requires i < |line| && line[i] == '>'
    ensures NameAt(line, i) == Some(name) <==> NamedAt(line, i, name)
  {
    hide EndsWith;
    if NamedAt(line, i, name) {
      var j := i + 1 + |name|;
      assert line[j] == line[j..j + 4][0] == '<';
      forall k | i + 1 <= k < j ensures line[k] != '<' { assert line[k] == line[i + 1..j][k - i - 1]; }
    }
  }

  /** A line has a wheel name if and only if one stands in it as a link text; of several, it is the first. */
  lemma {:induction false} NameExactly(line: string, from: nat)
    requires from <= |line|
    ensures match WheelName(line, from)
      case None => forall i: nat, n :: i >= from ==> !NamedAt(line, i, n)
      case Some(name) => exists i: nat :: FirstNamedAt(line, from, i, name)
    decreases |line| - from
  {
    hide NamedAt, NameAt, FirstNamedAt;
    if from == |line| {
      forall i: nat, n | i >= from ensures !NamedAt(line, i, n) { NotATag(line, i, n); }
    } else if line[from] == '>' && NameAt(line, from).Some? {
      var name := NameAt(line, from).value;
      NameAtExactly(line, from, name);
      NamedHere(line, from, name);
      assert WheelName(line, from) == Some(name);
    } else {
      forall n ensures !NamedAt(line, from, n) {
        if line[from] == '>' { NameAtExactly(line, from, n); } else { NotATag(line, from, n); }
      }
      NameExactly(line, from + 1);
      assert WheelName(line, from) == WheelName(line, from + 1);
      if WheelName(line, from + 1).Some? {
        var name := WheelName(line, from + 1).value;
        var i: nat :| FirstNamedAt(line, from + 1, i, name);
        NamedLater(line, from, i, name);
        assert FirstNamedAt(line, from, i, name);
      }
    }
  }

  lemma {:induction false} NamedHere(line: string, from: nat, name: string)
    requires NamedAt(line, from, name)
    ensures FirstNamedAt(line, from, from, name)
  {
  }

  lemma {:induction false} NamedLater(line: string, from: nat, i: nat, name: string)
    requires FirstNamedAt(line, from + 1, i, name) && forall n :: !NamedAt(line, from, n)
    ensures FirstNamedAt(line, from, i, name)
  {
    hide NamedAt;
  }

  lemma {:induction false} NotATag(line: string, i: nat, n: string)
    requires i >= |line| || line[i] != '>'
    ensures !NamedAt(line, i, n)
  {
  }

  // ----- the file

  function Lines(links: seq<string>): string { if links == [] then "" else Join(links, NEWLINE) }

  function Render(heading: string, links: seq<string>): string {
    DOCTYPE + NEWLINE + heading + NEWLINE + Lines(links) + NEWLINE
  }

  function KeepLinks(lines: seq<string>): (r: seq<string>) {
    if lines == [] then []
    else KeepLinks(lines[..|lines| - 1]) + if StartsWith(lines[|lines| - 1], LINK) then [lines[|lines| - 1]] else []
  }

  /** The links found in the file, none if there is no file. */
  function Links(file: Option<string>): seq<string> {
    match file case None => [] case Some(content) => KeepLinks(Split(content, NEWLINE))
  }

  // ----- deduplication

  predicate Named(links: seq<string>, name: string) { exists k :: 0 <= k < |links| && Name(links[k]) == Some(name) }

  /** The first link of each name, in order; lines without a wheel name are dropped. */
  function Dedup(links: seq<string>): seq<string> {
    if links == [] then []
    else
      var n := |links| - 1;
      var kept := Dedup(links[..n]);
      if Name(links[n]).Some? && !Named(links[..n], Name(links[n]).value) then kept + [links[n]] else kept
  }

  /** The first link of a name. */
  function First(links: seq<string>, name: string): Option<string> {
    if links == [] then None
    else
      var n := |links| - 1;
      match First(links[..n], name)
      case Some(l) => Some(l)
      case None => if Name(links[n]) == Some(name) then Some(links[n]) else None
  }

  function Count(links: seq<string>, name: string): nat {
    if links == [] then 0
    else Count(links[..|links| - 1], name) + if Name(links[|links| - 1]) == Some(name) then 1 else 0
  }

  lemma {:induction false} FirstNamed(links: seq<string>, name: string)
    ensures First(links, name).Some? <==> Named(links, name)
    ensures Count(links, name) == 0 <==> First(links, name).None?
  {
    hide WheelName;
    if links != [] {
      var n := |links| - 1;
      FirstNamed(links[..n], name);
      if Named(links[..n], name) {
        var k :| 0 <= k < n && Name(links[..n][k]) == Some(name);
        assert Name(links[k]) == Some(name);
      }
      if k :| 0 <= k < n && Name(links[k]) == Some(name) {
        assert Name(links[..n][k]) == Some(name);
      }
    }
  }

  /** Deduplication keeps, for every name, exactly one link: the first. */
  /** The positions of the links that are the first with their name, among the first `n`. */
  function Firsts(links: seq<string>, n: nat): (ix: seq<nat>)
    ensures Increasing(ix) && forall m: nat :: m in ix <==> m < n && m < |links| && Leads(links, m)
  {
    Positions(n, (m: nat) => m < |links| && Leads(links, m))
  }

  predicate Leads(links: seq<string>, m: nat)
    requires m < |links|
  {
    Name(links[m]).Some? && forall k :: 0 <= k < m ==> Name(links[k]) != Name(links[m])
  }

  /** Deduplication keeps those, in order. */
  lemma {:induction false} DedupInOrder(links: seq<string>, n: nat)
    requires n <= |links|
    ensures var ix, kept := Firsts(links, n), Dedup(links[..n]);
      |kept| == |ix| && forall k :: 0 <= k < |ix| ==> ix[k] < |links| && kept[k] == links[ix[k]]
  {
    if n > 0 {
      hide Name, Leads, Named;
      DedupInOrder(links, n - 1);
      assert links[..n][..n - 1] == links[..n - 1];
      LeadsExactly(links, n - 1);
    }
  }

  lemma {:induction false} LeadsExactly(links: seq<string>, m: nat)
    requires m < |links|
    ensures Leads(links, m) <==> Name(links[m]).Some? && !Named(links[..m], Name(links[m]).value)
  {
    hide Name;
    if Name(links[m]).Some? && !Named(links[..m], Name(links[m]).value) {
      forall k | 0 <= k < m ensures Name(links[k]) != Name(links[m]) { assert links[..m][k] == links[k]; }
    }
  }

  lemma {:induction false} DedupFirst(links: seq<string>, name: string)
    ensures First(Dedup(links), name) == First(links, name)
    ensures Count(Dedup(links), name) == if Named(links, name) then 1 else 0
  {
    hide Named, Name;
    FirstNamed(links, name);
    if links != [] {
      var n := |links| - 1;
      DedupFirst(links[..n], name);
      FirstNamed(links[..n], name);
      FirstNamed(Dedup(links[..n]), name);
      var kept := Dedup(links[..n]);
      assert (kept + [links[n]])[..|kept|] == kept;
    }
  }

  lemma {:induction false} FirstConcat(a: seq<string>, b: seq<string>, name: string)
    ensures First(a + b, name) == if First(a, name).Some? then First(a, name) else First(b, name)
  {
    if b == [] {
      assert a + b == a;
    } else {
      var n := |b| - 1;
      FirstConcat(a, b[..n], name);
      assert (a + b)[..|a| + n] == a + b[..n];
    }
  }

  lemma {:induction false} NamedSame(a: seq<string>, b: seq<string>, name: string)
    requires First(a, name) == First(b, name)
    ensures Named(a, name) == Named(b, name)
  {
    FirstNamed(a, name);
    FirstNamed(b, name);
  }

  lemma {:induction false} DedupSnoc(links: seq<string>, y: string)
    ensures Dedup(links + [y]) ==
      if Name(y).Some? && !Named(links, Name(y).value) then Dedup(links) + [y] else Dedup(links)
  {
    assert (links + [y])[..|links|] == links;
  }

  /** Deduplicating the older links first changes nothing. */
  lemma {:induction false} DedupTail(xs: seq<string>, ys: seq<string>)
    ensures Dedup(xs + Dedup(ys)) == Dedup(xs + ys)
  {
    hide Named, Name, First, Dedup;
    if ys == [] {
      assert Dedup([]) == [] by { DedupNothing(); }
      assert xs + Dedup(ys) == xs + ys;
    } else {
      var n := |ys| - 1;
      var y, older := ys[n], Dedup(ys[..n]);
      DedupTail(xs, ys[..n]);
      assert ys == ys[..n] + [y];
      assert xs + ys == xs + ys[..n] + [y];
      DedupSnoc(ys[..n], y);
      DedupSnoc(xs + ys[..n], y);
      if Name(y).Some? {
        var name := Name(y).value;
        OlderNamed(xs, ys[..n], name);
        assert xs + (older + [y]) == xs + older + [y];
        DedupSnoc(xs + older, y);
      }
    }
  }

  lemma {:induction false} DedupNothing()
    ensures Dedup([]) == []
  {
  }

  lemma {:induction false} OlderNamed(xs: seq<string>, ys: seq<string>, name: string)
    ensures Named(xs + Dedup(ys), name) == Named(xs + ys, name)
    ensures Named(ys, name) ==> Named(xs + ys, name)
  {
    hide Named, First;
    DedupFirst(ys, name);
    FirstConcat(xs, Dedup(ys), name);
    FirstConcat(xs, ys, name);
    NamedSame(xs + Dedup(ys), xs + ys, name);
    FirstNamed(ys, name);
    FirstNamed(xs + ys, name);
  }

  /** Links older than a link of the same name are dropped, so adding a batch again is no change. */
  lemma {:induction false} DedupRepeat(batch: seq<string>, ys: seq<string>)
    ensures Dedup(batch + (batch + ys)) == Dedup(batch + ys)
  {
    hide Named, Name, First;
    if ys == [] {
      assert batch + ys == batch;
      SelfNamed(batch);
      DedupSelf(batch, batch);
    } else {
      var n := |ys| - 1;
      DedupRepeat(batch, ys[..n]);
      assert (batch + ys)[..|batch| + n] == batch + ys[..n];
      assert (batch + (batch + ys))[..|batch| + |batch| + n] == batch + (batch + ys[..n]);
      if Name(ys[n]).Some? {
        var name := Name(ys[n]).value;
        FirstConcat(batch, batch + ys[..n], name);
        FirstConcat(batch, ys[..n], name);
        NamedSame(batch + (batch + ys[..n]), batch + ys[..n], name);
      }
    }
  }

  lemma {:induction false} SelfNamed(batch: seq<string>)
    ensures forall k :: 0 <= k < |batch| && Name(batch[k]).Some? ==> Named(batch, Name(batch[k]).value)
  {
  }

  lemma {:induction false} DedupSelf(batch: seq<string>, more: seq<string>)
    requires forall k :: 0 <= k < |more| && Name(more[k]).Some? ==> Named(batch, Name(more[k]).value)
    ensures Dedup(batch + more) == Dedup(batch)
  {
    hide Name;
    if more == [] {
      assert batch + more == batch;
    } else {
      var n := |more| - 1;
      DedupSelf(batch, more[..n]);
      assert (batch + more)[..|batch| + n] == batch + more[..n];
      if Name(more[n]).Some? {
        var name := Name(more[n]).value;
        var k :| 0 <= k < |batch| && Name(batch[k]) == Some(name);
        assert (batch + more[..n])[k] == batch[k];
        assert Named(batch + more[..n], name);
      }
    }
  }

  // ----- one update and its history

  /** The file after one run: unchanged when there is no new wheel. */
  function Update(file: Option<string>, heading: string, batch: seq<string>): Option<string> {
    if batch == [] then file else Some(Render(heading, Dedup(batch + Links(file))))
  }

  /** The reading loop. */
  method ReadLinks(file: Option<string>) returns (existing: seq<string>)
    ensures existing == Links(file)
  {
    existing := [];
    if file.Some? {
      var lines := Split(file.value, NEWLINE);
      for i := 0 to |lines|
        invariant existing == KeepLinks(lines[..i])
      {
        assert lines[..i + 1][..i] == lines[..i];
        if StartsWith(lines[i], LINK) { existing := existing + [lines[i]]; }
      }
      assert lines[..|lines|] == lines;
    }
  }

  /** `update_wheel_index`, from the links of the new wheels on. */
  method UpdateWheelIndex(file: Option<string>, heading: string, newLinks: seq<string>) returns (result: Option<string>)
    ensures result == Update(file, heading, newLinks)
  {
    hide Name, Links, Render;
    var existing := ReadLinks(file);
    if newLinks == [] {
      return file;
    }
    var allLinks := newLinks + existing;
    var seen: set<string> := {};
    var unique: seq<string> := [];
    for i := 0 to |allLinks|
      invariant unique == Dedup(allLinks[..i])
      invariant forall name :: name in seen <==> Named(allLinks[..i], name)
    {
      var link := allLinks[i];
      assert allLinks[..i + 1] == allLinks[..i] + [link];
      DedupSnoc(allLinks[..i], link);
      forall name ensures Named(allLinks[..i + 1], name) <==> Named(allLinks[..i], name) || Name(link) == Some(name) {
        NamedSnoc(allLinks[..i], link, name);
      }
      var found := Name(link);
      if found.Some? && found.value !in seen {
        seen := seen + {found.value};
        unique := unique + [link];
      }
    }
    assert allLinks[..|allLinks|] == allLinks;
    result := Some(Render(heading, unique));
  }

  lemma {:induction false} NamedSnoc(links: seq<string>, y: string, name: string)
    ensures Named(links + [y], name) <==> Named(links, name) || Name(y) == Some(name)
  {
    hide Name;
    if Named(links, name) {
      var k :| 0 <= k < |links| && Name(links[k]) == Some(name);
      assert (links + [y])[k] == links[k];
    }
    if Name(y) == Some(name) { assert (links + [y])[|links|] == y; }
  }

  /** A line that reads back as a link. */
  ghost predicate GoodLine(s: string) { Free(s, NEWLINE) && StartsWith(s, LINK) }

  ghost predicate GoodHeading(s: string) { Free(s, NEWLINE) && !StartsWith(s, LINK) }

  lemma {:induction false} NewlineBorderFree()
    ensures BorderFree(NEWLINE)
  {
  }

  lemma {:induction false} KeepConcat(a: seq<string>, b: seq<string>)
    ensures KeepLinks(a + b) == KeepLinks(a) + KeepLinks(b)
  {
    if b == [] {
      assert a + b == a;
    } else {
      var n := |b| - 1;
      assert (a + b)[..|a| + n] == a + b[..n];
      KeepConcat(a, b[..n]);
    }
  }

  lemma {:induction false} KeepAll(links: seq<string>)
    requires forall k :: 0 <= k < |links| ==> StartsWith(links[k], LINK)
    ensures KeepLinks(links) == links
  {
    if links != [] {
      KeepAll(links[..|links| - 1]);
      assert links == links[..|links| - 1] + [links[|links| - 1]];
    }
  }

  lemma {:induction false} KeepOne(line: string)
    ensures KeepLinks([line]) == if StartsWith(line, LINK) then [line] else []
  {
    assert KeepLinks([line][..0]) == [];
  }

  lemma {:induction false} RenderIsJoin(heading: string, links: seq<string>)
    ensures Render(heading, links) == Join([DOCTYPE, heading] + (if links == [] then [""] else links) + [""], NEWLINE)
  {
    var body := if links == [] then [""] else links;
    assert Join(body, NEWLINE) == Lines(links);
    JoinEmptyEnd(body);
    var all := [DOCTYPE, heading] + body + [""];
    assert all[1..] == [heading] + (body + [""]);
    assert all[1..][1..] == body + [""];
    assert Join(all, NEWLINE) == DOCTYPE + NEWLINE + (heading + NEWLINE + (Lines(links) + NEWLINE));
    assert Render(heading, links) == DOCTYPE + NEWLINE + (heading + NEWLINE + (Lines(links) + NEWLINE));
  }

  lemma {:induction false} JoinEmptyEnd(parts: seq<string>)
    requires parts != []
    ensures Join(parts + [""], NEWLINE) == Join(parts, NEWLINE) + NEWLINE
  {
    if |parts| == 1 {
      assert (parts + [""])[1..] == [""];
      assert Join([""], NEWLINE) == "";
    } else {
      JoinEmptyEnd(parts[1..]);
      assert (parts + [""])[1..] == parts[1..] + [""];
    }
  }

  lemma {:induction false} KeepFile(heading: string, links: seq<string>)
    requires GoodHeading(heading) && forall k :: 0 <= k < |links| ==> GoodLine(links[k])
    ensures KeepLinks([DOCTYPE, heading] + (if links == [] then [""] else links) + [""]) == links
  {
    hide KeepLinks, Free;
    var body := if links == [] then [""] else links;
    KeepConcat([DOCTYPE, heading] + body, [""]);
    KeepConcat([DOCTYPE, heading], body);
    KeepConcat([DOCTYPE], [heading]);
    assert [DOCTYPE] + [heading] == [DOCTYPE, heading];
    assert DOCTYPE[..|LINK|][1] != LINK[1];
    KeepOne(DOCTYPE);
    KeepOne(heading);
    KeepOne("");
    KeepAll(links);
  }

  /** The next run reads exactly the links this run wrote; the file is the heading lines and then those. */
  lemma {:induction false} ReadBack(heading: string, links: seq<string>)
    requires GoodHeading(heading) && forall k :: 0 <= k < |links| ==> GoodLine(links[k])
    ensures Links(Some(Render(heading, links))) == links
    ensures Split(Render(heading, links), NEWLINE) ==
      [DOCTYPE, heading] + (if links == [] then [""] else links) + [""]
  {
    var body := if links == [] then [""] else links;
    var all := [DOCTYPE, heading] + body + [""];
    assert AllFree(all, NEWLINE) by {
      PlainFree(DOCTYPE, NEWLINE, '\n');
      PlainFree("", NEWLINE, '\n');
      hide Free;
    }
    hide Join, Split, Free, GoodLine, GoodHeading, KeepLinks, Render;
    NewlineBorderFree();
    RenderIsJoin(heading, links);
    SplitJoin(all, NEWLINE);
    KeepFile(heading, links);
  }

  /** Whatever the file holds, the links read from it are good lines. */
  lemma {:induction false} KeptAreGood(lines: seq<string>)
    requires AllFree(lines, NEWLINE)
    ensures forall k :: 0 <= k < |KeepLinks(lines)| ==> GoodLine(KeepLinks(lines)[k])
  {
    hide Free;
    if lines != [] { KeptAreGood(lines[..|lines| - 1]); }
  }

  lemma {:induction false} LinksAreGood(file: Option<string>)
    ensures forall k :: 0 <= k < |Links(file)| ==> GoodLine(Links(file)[k])
  {
    hide GoodLine;
    if file.Some? {
      JoinSplit(file.value, NEWLINE);
      KeptAreGood(Split(file.value, NEWLINE));
    }
  }

  lemma {:induction false} DedupIsSubset(links: seq<string>)
    ensures forall l :: l in Dedup(links) ==> l in links
  {
    hide Name, Named;
    if links != [] { DedupIsSubset(links[..|links| - 1]); }
  }

  ghost predicate GoodBatch(batch: seq<string>) { forall k :: 0 <= k < |batch| ==> GoodLine(batch[k]) }

  /** After one update with new wheels the file holds the deduplication of new and old links. */
  lemma {:induction false} UpdateLinks(file: Option<string>, heading: string, batch: seq<string>)
    requires GoodHeading(heading) && GoodBatch(batch)
    ensures Links(Update(file, heading, batch)) == if batch == [] then Links(file) else Dedup(batch + Links(file))
  {
    hide GoodLine, GoodHeading, Render, Dedup, Links;
    if batch != [] {
      LinksAreGood(file);
      var unique := Dedup(batch + Links(file));
      DedupIsSubset(batch + Links(file));
      forall k | 0 <= k < |unique| ensures GoodLine(unique[k]) {
        assert unique[k] in batch + Links(file);
      }
      ReadBack(heading, unique);
    }
  }

  /** The file after a sequence of runs, oldest first. */
  function History(file: Option<string>, heading: string, batches: seq<seq<string>>): Option<string> {
    if batches == [] then file
    else Update(History(file, heading, batches[..|batches| - 1]), heading, batches[|batches| - 1])
  }

  /** All links ever published, newest batch first. */
  function NewestFirst(batches: seq<seq<string>>): seq<string> {
    if batches == [] then [] else batches[|batches| - 1] + NewestFirst(batches[..|batches| - 1])
  }

  /** After any sequence of runs the file, as the next run reads it, is the deduplication of all
      batches newest first, followed by what the file held at the start. */
  lemma {:induction false} HistoryLinks(file: Option<string>, heading: string, batches: seq<seq<string>>)
    requires GoodHeading(heading) && forall k :: 0 <= k < |batches| ==> GoodBatch(batches[k])
    ensures var final := Links(History(file, heading, batches));
      if NewestFirst(batches) == [] then final == Links(file) else final == Dedup(NewestFirst(batches) + Links(file))
  {
    hide Update, Links, Dedup, GoodHeading, GoodBatch;
    if batches != [] {
      var n := |batches| - 1;
      var older, batch := NewestFirst(batches[..n]), batches[n];
      HistoryLinks(file, heading, batches[..n]);
      UpdateLinks(History(file, heading, batches[..n]), heading, batch);
      assert batch + older + Links(file) == batch + (older + Links(file));
      if batch == [] {
        assert NewestFirst(batches) == older;
      } else if older == [] {
        assert NewestFirst(batches) + Links(file) == batch + Links(file);
      } else {
        DedupTail(batch, older + Links(file));
      }
    }
  }

  /** The link of a name in the most recent batch that has it. */
  function Latest(batches: seq<seq<string>>, name: string): Option<string> {
    if batches == [] then None
    else if First(batches[|batches| - 1], name).Some? then First(batches[|batches| - 1], name)
    else Latest(batches[..|batches| - 1], name)
  }

  lemma {:induction false} LatestIsFirst(batches: seq<seq<string>>, name: string)
    ensures First(NewestFirst(batches), name) == Latest(batches, name)
  {
    if batches != [] {
      var n := |batches| - 1;
      LatestIsFirst(batches[..n], name);
      FirstConcat(batches[n], NewestFirst(batches[..n]), name);
    }
  }

  /** Starting from no file, every wheel name ever published is in the file exactly once, with the
      link from its most recent batch, and no other name is. */
  lemma {:induction false} EveryWheelOnce(heading: string, batches: seq<seq<string>>, name: string)
    requires GoodHeading(heading) && forall k :: 0 <= k < |batches| ==> GoodBatch(batches[k])
    ensures var final := Links(History(None, heading, batches));
      && First(final, name) == Latest(batches, name)
      && Count(final, name) == if Latest(batches, name).Some? then 1 else 0
  {
    hide History, Dedup, Named, GoodHeading, GoodBatch, Count, First, Latest;
    HistoryLinks(None, heading, batches);
    var all := NewestFirst(batches);
    assert Links(None) == [];
    assert all + [] == all;
    DedupNothing();
    LatestIsFirst(batches, name);
    DedupFirst(all, name);
    FirstNamed(all, name);
  }

  /** Running the same update twice writes the same file. */
  lemma {:induction false} UpdateTwice(file: Option<string>, heading: string, batch: seq<string>)
    requires GoodHeading(heading) && GoodBatch(batch)
    ensures Update(Update(file, heading, batch), heading, batch) == Update(file, heading, batch)
  {
    hide Links, Render, Dedup, GoodHeading, GoodBatch;
    UpdateLinks(file, heading, batch);
    if batch != [] {
      DedupTail(batch, batch + Links(file));
      DedupRepeat(batch, Links(file));
    }
  }

  /** The links the scripts generate are good lines. */
  lemma {:induction false} MadeLinksAreGood(url: string, filename: string)
    requires '\n' !in url && '\n' !in filename
    ensures GoodLine(MakeLink(url, filename))
  {
    var line := MakeLink(url, filename);
    assert line[..|LINK|] == LINK;
    assert '\n' !in line;
    PlainFree(line, NEWLINE, '\n');
  }
}
