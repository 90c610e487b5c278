/** parseHeadings (components/guide/GuideViewer.tsx): the table of contents
    of a Markdown guide, one entry per heading line of level 1 to 3. */
module Headings {
  import opened Chars
  import opened JsString
  import opened Slug

  /** One entry of the table of contents (the `Heading` interface). */
  datatype Heading = Heading(level: nat, text: string, id: string)

  datatype Option<T> = None | Some(value: T)

  /** What the map step of parseHeadings computes before the id: the
      level and the trimmed text. */
  datatype Title = Title(level: nat, text: string)

  /** What `line.match(/^(#{1,3})\s+(.+)$/)` matched: the length of
      group 1, the length of the whitespace `\s+` took, and group 2. */
  datatype HeadingMatch = HeadingMatch(hashes: nat, run: nat, body: string)

  predicate AllHashes(p: string) {
    forall i :: 0 <= i < |p| ==> p[i] == '#'
  }

  /** The number of `#` characters the line starts with. */
  function LeadingHashes(line: string): (n: nat)
    ensures n <= |line|
    ensures n == |line| || line[n] != '#'
  {
    if line != [] && line[0] == '#' then 1 + LeadingHashes(line[1..]) else 0
  }

  /** The run LeadingHashes counts is all hashes... */
  lemma {:induction false} LeadingHashesAreHashes(line: string)
    ensures AllHashes(line[..LeadingHashes(line)])
  {
    if line != [] && line[0] == '#' {
      LeadingHashesAreHashes(line[1..]);
      var n := LeadingHashes(line);
      assert line[..n] == [line[0]] + line[1..][..n - 1];
    }
  }

  /** ... and is the only run of hashes followed by something else. */
  lemma {:induction false} LeadingHashesExact(line: string, k: nat)
    requires k <= |line| && AllHashes(line[..k])
    requires k == |line| || line[k] != '#'
    ensures LeadingHashes(line) == k
  {
    if k > 0 {
      assert line[0] == line[..k][0];
      assert line[1..][..k - 1] == line[..k][1..];
      LeadingHashesExact(line[1..], k - 1);
    }
  }

  /** `/^#{1,3}\s/` matches the line with `k` hashes. */
  predicate FilterAt(line: string, k: int) {
    1 <= k <= 3 && k < |line| && AllHashes(line[..k]) && IsWs(line[k])
  }

  /** The filter of parseHeadings, decided on the run of leading hashes. */
  predicate PassesFilter(line: string): (ok: bool)
    ensures ok ==> 2 <= |line| && line[0] == '#'
  {
    var h := LeadingHashes(line);
    1 <= h <= 3 && h < |line| && IsWs(line[h])
  }

  /** The filter accepts a line exactly when `/^#{1,3}\s/` matches it, and
      the only way it can match is with the whole run of leading hashes. */
  lemma PassesFilterIff(line: string, k: int)
    ensures FilterAt(line, k) ==> PassesFilter(line) && k == LeadingHashes(line)
    ensures PassesFilter(line) ==> FilterAt(line, LeadingHashes(line))
  {
    LeadingHashesAreHashes(line);
    if FilterAt(line, k) {
      LeadingHashesExact(line, k);
    }
  }

  /** The characters `.` matches: none is a line terminator. */
  predicate NoLineTerminator(t: string) {
    forall i :: 0 <= i < |t| ==> !IsLineTerminator(t[i])
  }

  /** `(.+)$` matches all of `t`. */
  predicate DotPlus(t: string) {
    t != [] && NoLineTerminator(t)
  }

  /** `\s+(.+)$` matches `rest` with a whitespace run of length `j`. */
  predicate WsThenDot(rest: string, j: int) {
    1 <= j <= |rest| && AllWs(rest[..j]) && DotPlus(rest[j..])
  }

  /** `^(#{1,3})\s+(.+)$` matches the line with `k` hashes in group 1 and a
      whitespace run of length `j` for `\s+`; group 2 is what follows. */
  predicate RegexSplit(line: string, k: int, j: int) {
    1 <= k <= 3 && k <= |line| && AllHashes(line[..k]) && WsThenDot(line[k..], j)
  }

  /** The length of the whitespace run `s` starts with. */
  function WsRun(s: string): (n: nat)
    ensures n <= |s| && AllWs(s[..n])
    ensures n == |s| || !IsWs(s[n])
  {
    var t := TrimStart(s);
    TrimStartDropsWs(s);
    assert s[|s| - |t|..] == t;
    |s| - |t|
  }

  /** The backtracking of the greedy `\s+`: a run of length `j` is tried
      first, then `j - 1`, down to 1, and the first one after which `(.+)$`
      matches is kept. */
  function BacktrackWs(rest: string, j: nat): (r: Option<nat>)
    requires j <= |rest|
    ensures r.Some? ==> 1 <= r.value <= j && DotPlus(rest[r.value..])
    decreases j
  {
    if j == 0 then None
    else if DotPlus(rest[j..]) then Some(j)
    else BacktrackWs(rest, j - 1)
  }

  /** No longer run than the one BacktrackWs settles on works, and when it
      settles on none, no run works. */
  lemma {:induction false} BacktrackLongest(rest: string, j: nat, n: nat)
    requires 1 <= n <= j <= |rest| && DotPlus(rest[n..])
    ensures BacktrackWs(rest, j).Some? && n <= BacktrackWs(rest, j).value
  {
    if n < j && !DotPlus(rest[j..]) {
      BacktrackLongest(rest, j - 1, n);
    }
  }

  /** `line.match(/^(#{1,3})\s+(.+)$/)`. Group 1 can only end where the run
      of leading hashes ends, since `\s+` must match the next character; the
      engine then backtracks over the whitespace run. */
  function MatchHeading(line: string): (m: Option<HeadingMatch>)
    ensures m.Some? ==> 1 <= m.value.hashes <= 3 && 1 <= m.value.run && DotPlus(m.value.body)
  {
    var h := LeadingHashes(line);
    if h < 1 || 3 < h then None
    else
      var rest := line[h..];
      match BacktrackWs(rest, WsRun(rest))
      case None => None
      case Some(j) => Some(HeadingMatch(h, j, rest[j..]))
  }

  /** The run BacktrackWs settles on is whitespace followed by `(.+)$`. */
  lemma BacktrackSound(rest: string, n: nat)
    requires n <= |rest| && AllWs(rest[..n])
    requires BacktrackWs(rest, n).Some?
    ensures WsThenDot(rest, BacktrackWs(rest, n).value)
  {
    var j := BacktrackWs(rest, n).value;
    assert forall i :: 0 <= i < j ==> rest[..j][i] == rest[..n][i];
  }

  /** A match found is a match of the regular expression: hashes, a
      whitespace run, then group 2 to the end of the line. */
  lemma MatchSound(line: string)
    requires MatchHeading(line).Some?
    ensures var m := MatchHeading(line).value;
      RegexSplit(line, m.hashes, m.run) && m.body == line[m.hashes..][m.run..]
  {
    var rest := line[LeadingHashes(line)..];
    LeadingHashesAreHashes(line);
    BacktrackSound(rest, WsRun(rest));
  }

  /** Whenever the regular expression can match, MatchHeading finds a match,
      with the same group 1 and the longest whitespace run that works
      (greedy `\s+`). */
  lemma MatchGreedy(line: string, k: int, j: int)
    requires RegexSplit(line, k, j)
    ensures MatchHeading(line).Some?
    ensures k == MatchHeading(line).value.hashes && j <= MatchHeading(line).value.run
  {
    var rest := line[k..];
    assert IsWs(rest[..j][0]);
    LeadingHashesExact(line, k);
    WsRunLongest(rest, j);
    BacktrackLongest(rest, WsRun(rest), j);
  }

  /** WsRun takes every whitespace character at the front. */
  lemma WsRunLongest(s: string, j: nat)
    requires j <= |s| && AllWs(s[..j])
    ensures j <= WsRun(s)
  {
    forall i | 0 <= i < j
      ensures IsWs(s[i])
    {
      assert s[..j][i] == s[i];
    }
  }

  /** The level and the trimmed text of the heading on one line, or None:
      the filter at line 37, the match at line 39, the null at line 40, and
      `match[1].length` and `match[2].trim()` at lines 41-42. */
  function TitleOf(line: string): (r: Option<Title>)
    ensures r.Some? ==> 1 <= r.value.level <= 3 && r.value.level == LeadingHashes(line)
    ensures r.Some? ==> r.value.text == [] || (!IsWs(r.value.text[0]) && !IsWs(r.value.text[|r.value.text| - 1]))
  {
    if !PassesFilter(line) then None
    else
      match MatchHeading(line)
      case None => None
      case Some(m) => Some(Title(m.hashes, Trim(m.body)))
  }

  /** The entry of one line, or None: the record of line 43, whose id is the
      slug of its text. */
  function HeadingOf(line: string): (r: Option<Heading>)
    ensures r.Some? <==> TitleOf(line).Some?
    ensures r.Some? ==> 1 <= r.value.level <= 3 && r.value.level == LeadingHashes(line)
    ensures r.Some? ==> r.value.text == [] || (!IsWs(r.value.text[0]) && !IsWs(r.value.text[|r.value.text| - 1]))
    ensures r.Some? ==> r.value.id == Slugify(r.value.text) && IsSlug(r.value.id)
  {
    match TitleOf(line)
    case None => None
    case Some(t) => Some(Heading(t.level, t.text, Slugify(t.text)))
  }

  /** Every title comes from a line of the shape `^(#{1,3})\s+(.+)$`, its
      level is the number of hashes, and its text is the rest of the line
      trimmed, with no line terminator in it. */
  lemma TitleOfSound(line: string)
    requires TitleOf(line).Some?
    ensures var t := TitleOf(line).value;
      RegexSplit(line, t.level, MatchHeading(line).value.run)
      && t.text == Trim(line[t.level..])
      && NoLineTerminator(t.text)
  {
    MatchSound(line);
    var m := MatchHeading(line).value;
    MatchText(line[m.hashes..], m.run, m.body);
  }

  /** Trimming group 2 is trimming everything after the hashes, and keeps
      group 2 free of line terminators. */
  lemma MatchText(rest: string, j: nat, body: string)
    requires WsThenDot(rest, j) && body == rest[j..]
    ensures Trim(body) == Trim(rest) && NoLineTerminator(Trim(body))
  {
    assert rest == rest[..j] + body;
    TrimWsPrefix(rest[..j], body);
    TrimKeepsNoLineTerminator(body);
  }

  lemma TrimKeepsNoLineTerminator(s: string)
    requires NoLineTerminator(s)
    ensures NoLineTerminator(Trim(s))
  {
    var text := Trim(s);
    var off := TrimShape(s);
    assert forall i :: 0 <= i < |text| ==> text[i] == s[off + i];
  }

  /** Every line of the shape `^(#{1,3})\s+(.+)$` has a title: the filter
      never rejects a line the match accepts. */
  lemma TitleOfComplete(line: string, k: int, j: int)
    requires RegexSplit(line, k, j)
    ensures TitleOf(line).Some?
  {
    assert IsWs(line[k..][..j][0]);
    assert FilterAt(line, k);
    PassesFilterIff(line, k);
    MatchGreedy(line, k, j);
  }

  /** The entries are exactly the lines of the shape `^(#{1,3})\s+(.+)$`,
      with the text after the whitespace, trimmed, and its slug as id. */
  lemma HeadingOfSpec(line: string)
    ensures HeadingOf(line).Some? ==>
      exists j :: RegexSplit(line, HeadingOf(line).value.level, j)
    ensures HeadingOf(line).Some? ==>
      var hd := HeadingOf(line).value;
      hd.text == Trim(line[hd.level..]) && NoLineTerminator(hd.text) && hd.id == Slugify(hd.text)
    ensures forall k, j :: RegexSplit(line, k, j) ==> HeadingOf(line).Some?
  {
    if TitleOf(line).Some? {
      TitleOfSound(line);
    }
    forall k, j | RegexSplit(line, k, j) ensures HeadingOf(line).Some? {
      TitleOfComplete(line, k, j);
    }
  }

  /** A line that ends in a carriage return (a CRLF document) gives no
      entry: `.` does not match the `\r` before `$`. */
  lemma CarriageReturnDropsLine(line: string)
    requires line != [] && line[|line| - 1] == '\r'
    ensures HeadingOf(line).None?
  {
    assert TitleOf(line).None? by {
      if MatchHeading(line).Some? {
        MatchEndsWithLine(line);
      }
    }
  }

  /** Group 2 runs to the end of the line (the `$`). */
  lemma MatchEndsWithLine(line: string)
    requires MatchHeading(line).Some?
    ensures var body := MatchHeading(line).value.body;
      body != [] && body[|body| - 1] == line[|line| - 1]
  {
    MatchSound(line);
    var m := MatchHeading(line).value;
    assert m.body == line[m.hashes + m.run..];
  }

  lemma {:induction false} LeadingHashesPrefix(p: string, t: string)
    requires AllHashes(p)
    ensures LeadingHashes(p + t) == |p| + LeadingHashes(t)
  {
    if p != [] {
      assert (p + t)[1..] == p[1..] + t;
      LeadingHashesPrefix(p[1..], t);
    } else {
      assert p + t == t;
    }
  }

  /** A line the filter refuses gives no entry. */
  lemma FilteredOut(line: string)
    requires !PassesFilter(line)
    ensures HeadingOf(line).None?
  {
  }

  /** More than three hashes is not a heading the table shows:
      "#### Too Deep" gives no entry. */
  lemma TooDeepDropped(t: string)
    ensures HeadingOf("####" + t).None?
  {
    LeadingHashesPrefix("####", t);
    FilteredOut("####" + t);
  }

  /** The hashes must be followed by whitespace: "#x" gives no entry. */
  lemma NoSpaceDropped(p: string, c: char, t: string)
    requires AllHashes(p) && c != '#' && !IsWs(c)
    ensures HeadingOf(p + [c] + t).None?
  {
    NoSpaceRefused(p, c, t);
    FilteredOut(p + [c] + t);
  }

  lemma NoSpaceRefused(p: string, c: char, t: string)
    requires AllHashes(p) && c != '#' && !IsWs(c)
    ensures !PassesFilter(p + [c] + t)
  {
    var ct := [c] + t;
    ConcatAssoc(p, [c], t);
    LeadingHashesPrefix(p, ct);
    assert LeadingHashes(ct) == 0 by {
      assert ct[0] == c;
    }
    assert (p + ct)[|p|] == c;
  }

  /** On a whitespace run alone, `\s+` first takes all of it and then gives
      back its last character, which `(.+)$` takes unless it is a line
      terminator; a shorter run leaves a line terminator in group 2. */
  lemma BlankMatch(w: string)
    requires w != [] && AllWs(w)
    ensures BacktrackWs(w, WsRun(w))
      == if 2 <= |w| && !IsLineTerminator(w[|w| - 1]) then Some(|w| - 1) else None
  {
    var n := |w|;
    WsRunOfWs(w);
    BacktrackSkipsEmpty(w);
    if 2 <= n && !IsLineTerminator(w[n - 1]) {
      BacktrackLastChar(w);
    } else if 2 <= n {
      BacktrackBeforeTerminator(w, n - 1);
    }
  }

  lemma WsRunOfWs(w: string)
    requires AllWs(w)
    ensures WsRun(w) == |w|
  {
  }

  /** `(.+)` cannot match the empty remainder. */
  lemma BacktrackSkipsEmpty(rest: string)
    requires rest != []
    ensures BacktrackWs(rest, |rest|) == BacktrackWs(rest, |rest| - 1)
  {
    assert rest[|rest|..] == [];
  }

  /** `(.+)` matches a last character that is no line terminator. */
  lemma BacktrackLastChar(rest: string)
    requires 2 <= |rest| && !IsLineTerminator(rest[|rest| - 1])
    ensures BacktrackWs(rest, |rest| - 1) == Some(|rest| - 1)
  {
    assert rest[|rest| - 1..] == [rest[|rest| - 1]];
  }

  /** When the line ends in a line terminator, no run leaves `(.+)$` a match. */
  lemma {:induction false} BacktrackBeforeTerminator(rest: string, j: nat)
    requires j < |rest| && IsLineTerminator(rest[|rest| - 1])
    ensures BacktrackWs(rest, j).None?
  {
    if j > 0 {
      assert rest[j..][|rest| - 1 - j] == rest[|rest| - 1];
      BacktrackBeforeTerminator(rest, j - 1);
    }
  }

  /** A heading marker followed by whitespace only gives an entry exactly
      when `\s+` can give its last character back to `(.+)`: there are at
      least two whitespace characters and the last is not a line terminator.
      The entry then has empty text, since trim removes that character. */
  lemma BlankHeading(p: string, w: string)
    requires 1 <= |p| <= 3 && AllHashes(p)
    requires w != [] && AllWs(w)
    ensures TitleOf(p + w)
      == if 2 <= |w| && !IsLineTerminator(w[|w| - 1]) then Some(Title(|p|, "")) else None
  {
    if 2 <= |w| && !IsLineTerminator(w[|w| - 1]) {
      LastWsTrimmed(w);
      BlankTitle(p, w);
    } else {
      TitleAfterHashes(p, w);
      BlankMatch(w);
    }
  }

  /** When the run gives its last character back, that character alone is
      group 2. */
  lemma BlankTitle(p: string, w: string)
    requires 1 <= |p| <= 3 && AllHashes(p)
    requires 2 <= |w| && AllWs(w) && !IsLineTerminator(w[|w| - 1])
    ensures TitleOf(p + w) == Some(Title(|p|, Trim(w[|w| - 1..])))
  {
    TitleAfterHashes(p, w);
    BlankMatch(w);
  }

  lemma LastWsTrimmed(w: string)
    requires w != [] && AllWs(w)
    ensures Trim(w[|w| - 1..]) == ""
  {
    var c := w[|w| - 1];
    assert w[|w| - 1..] == [c];
    TrimOneWs(c);
  }

  lemma TrimOneWs(c: char)
    requires IsWs(c)
    ensures Trim([c]) == ""
  {
    TrimOfPadded([c], [], []);
    assert [c] + [] + [] == [c];
  }

  /** The title of a line made of one to three hashes and then text that
      starts with whitespace, in terms of that text alone. */
  lemma TitleAfterHashes(p: string, rest: string)
    requires 1 <= |p| <= 3 && AllHashes(p)
    requires rest != [] && IsWs(rest[0])
    ensures TitleOf(p + rest) == match BacktrackWs(rest, WsRun(rest))
      case None => None
      case Some(j) => Some(Title(|p|, Trim(rest[j..])))
  {
    HashesThenWs(p, rest);
    MatchAfterHashes(p + rest, |p|, rest);
  }

  lemma HashesThenWs(p: string, rest: string)
    requires AllHashes(p)
    requires rest != [] && IsWs(rest[0])
    ensures LeadingHashes(p + rest) == |p| && (p + rest)[|p|..] == rest
  {
    LeadingHashesPrefix(p, rest);
    assert LeadingHashes(rest) == 0 by {
      assert IsWs(rest[0]);
    }
  }

  /** After one to three hashes and whitespace the filter passes, and the
      match is decided on the text after the hashes. */
  lemma MatchAfterHashes(line: string, h: nat, rest: string)
    requires 1 <= h <= 3 && LeadingHashes(line) == h && line[h..] == rest
    requires rest != [] && IsWs(rest[0])
    ensures PassesFilter(line)
    ensures MatchHeading(line) == match BacktrackWs(rest, WsRun(rest))
      case None => None
      case Some(j) => Some(HeadingMatch(h, j, rest[j..]))
  {
  }

  /** "# " gives no entry. */
  lemma OneSpaceDropped()
    ensures HeadingOf("# ").None?
  {
    assert "# " == "#" + " ";
    BlankHeading("#", " ");
  }

  /** "#  " gives an entry with empty text and empty id. */
  lemma TwoSpacesKept()
    ensures HeadingOf("#  ") == Some(Heading(1, "", ""))
  {
    assert "#  " == "#" + "  ";
    BlankHeading("#", "  ");
    assert Slugify("") == "";
  }

  /** `lines.filter(...).map(...).filter(Boolean)` at lines 36-45, with
      `entry` giving the entry of one line or None. */
  function FilterMap(entry: string -> Option<Heading>, lines: seq<string>): (hs: seq<Heading>)
    ensures |hs| <= |lines|
  {
    if lines == [] then []
    else
      (match entry(lines[0]) case None => [] case Some(hd) => [hd])
      + FilterMap(entry, lines[1..])
  }

  /** Entries keep the order of the lines, and every line is handled on its
      own: there is no merging and no de-duplication. */
  lemma {:induction false} FilterMapConcat(entry: string -> Option<Heading>, a: seq<string>, b: seq<string>)
    ensures FilterMap(entry, a + b) == FilterMap(entry, a) + FilterMap(entry, b)
  {
    if a != [] {
      assert (a + b)[1..] == a[1..] + b;
      FilterMapConcat(entry, a[1..], b);
    } else {
      assert a + b == b;
    }
  }

  /** What holds of every entry of one line holds of every entry. */
  lemma {:induction false} FilterMapAll(entry: string -> Option<Heading>, lines: seq<string>, good: Heading -> bool)
    requires forall line :: entry(line).Some? ==> good(entry(line).value)
    ensures forall i :: 0 <= i < |FilterMap(entry, lines)| ==> good(FilterMap(entry, lines)[i])
  {
    if lines != [] {
      FilterMapAll(entry, lines[1..], good);
      var rest := FilterMap(entry, lines[1..]);
      var hs := FilterMap(entry, lines);
      var e: seq<Heading> := match entry(lines[0]) case None => [] case Some(hd) => [hd];
      assert hs == e + rest;
      forall i | 0 <= i < |hs| ensures good(hs[i]) {
        if i >= |e| {
          assert hs[i] == rest[i - |e|];
        }
      }
    }
  }

  /** The entries of a sequence of lines. */
  function ParseLines(lines: seq<string>): (hs: seq<Heading>)
    ensures |hs| <= |lines|
  {
    FilterMap(HeadingOf, lines)
  }

  /** parseHeadings: split the document on line feeds and parse each line. */
  function ParseHeadings(md: string): (hs: seq<Heading>)
    ensures |hs| <= |SplitLines(md)|
  {
    ParseLines(SplitLines(md))
  }

  /** What every entry satisfies: a level from 1 to 3, a text with no
      whitespace at either end, and the slug of that text as id. */
  predicate WellFormed(hd: Heading) {
    && 1 <= hd.level <= 3
    && (hd.text == [] || (!IsWs(hd.text[0]) && !IsWs(hd.text[|hd.text| - 1])))
    && hd.id == Slugify(hd.text) && IsSlug(hd.id)
  }

  /** Every entry of a document is well formed. */
  lemma ParseLinesWellFormed(lines: seq<string>)
    ensures forall i :: 0 <= i < |ParseLines(lines)| ==> WellFormed(ParseLines(lines)[i])
  {
    FilterMapAll(HeadingOf, lines, WellFormed);
  }

  /** Entries keep the order of the lines. */
  lemma ParseLinesConcat(a: seq<string>, b: seq<string>)
    ensures ParseLines(a + b) == ParseLines(a) + ParseLines(b)
  {
    FilterMapConcat(HeadingOf, a, b);
  }

  /** The entry of one line as a sequence of length 0 or 1. */
  function EntryOf(line: string): (hs: seq<Heading>)
    ensures HeadingOf(line).Some? ==> hs == [HeadingOf(line).value]
    ensures HeadingOf(line).None? ==> hs == []
  {
    match HeadingOf(line)
    case None => []
    case Some(hd) => [hd]
  }

  /** An empty document has no headings. */
  lemma ParseHeadingsEmpty()
    ensures ParseHeadings("") == []
  {
    assert SplitLines("") == [""];
    assert LeadingHashes("") == 0;
  }

  /** A document is its first line, a line feed and the rest: the entries
      are that line's entry followed by those of the rest. */
  lemma ParseHeadingsCons(a: string, b: string)
    requires '\n' !in a
    ensures ParseHeadings(a + "\n" + b) == EntryOf(a) + ParseHeadings(b)
  {
    SplitLinesCons(a, b);
    ParseLinesConcat([a], SplitLines(b));
    assert ParseLines([a]) == EntryOf(a);
  }

  /** The last line of a document, with no line feed after it, contributes
      its own entry. */
  lemma ParseHeadingsLast(a: string)
    requires '\n' !in a
    ensures ParseHeadings(a) == EntryOf(a)
  {
    SplitLinesNoFeed(a);
    assert ParseLines([a]) == EntryOf(a);
  }

  /** The entries of a document assembled from lines are the entries of
      those lines. */
  lemma ParseHeadingsOfLines(lines: seq<string>)
    requires |lines| >= 1
    requires forall line :: line in lines ==> '\n' !in line
    ensures ParseHeadings(JoinLines(lines)) == ParseLines(lines)
  {
    SplitJoinLines(lines);
  }
}
