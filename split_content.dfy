/** splitContent (components/guide/GuideViewer.tsx): a guide is shown in two
    tabs, its main text and its frequently-asked-questions section, which
    starts at the first level-2 heading "常见问题" on a line of its own. */
module ContentSplit {
  import opened Chars
  import opened JsString

  /** The two tabs: the main text and the Q&A section (empty when the
      guide has none). */
  datatype DocumentSplit = DocumentSplit(main: string, qa: string)

  /** The heading the Q&A section starts with. */
  const QaHeading: string := "## 常见问题"

  /** A line feed followed by the Q&A heading. */
  const QaMarker: string := "\n" + QaHeading

  /** A marker occurrence starts with a line feed. */
  lemma OccurrenceIsLineFeed(md: string, i: int)
    requires OccursAt(md, QaMarker, i)
    ensures i < |md| && md[i] == '\n'
  {
    assert QaMarker[0] == '\n';
    assert md[i] == md[i..i + |QaMarker|][0];
  }

  /** The guide has the marker nowhere. */
  predicate NoMarker(md: string) {
    forall i :: 0 <= i <= |md| ==> !OccursAt(md, QaMarker, i)
  }

  /** `idx` is the first place the marker occurs. */
  predicate FirstMarkerAt(md: string, idx: int) {
    OccursAt(md, QaMarker, idx) && forall i :: 0 <= i < idx ==> !OccursAt(md, QaMarker, i)
  }

  /** splitContent: with no marker the whole guide, untouched, is the main
      text and there is no Q&A; otherwise the guide is cut where the marker
      first occurs and both halves are trimmed. */
  function SplitContent(md: string): (r: DocumentSplit)
    ensures NoMarker(md) ==> r == DocumentSplit(md, "")
    ensures !NoMarker(md) ==> r.qa != [] && |r.main| + |r.qa| <= |md|
  {
    var idx := IndexOf(md, QaMarker);
    if idx == -1 then DocumentSplit(md, "")
    else
      QaStartsWithHeading(md, idx);
      DocumentSplit(Trim(md[..idx]), Trim(md[idx..]))
  }

  /** The cut is at the first marker: the main text is the trimmed text
      before it and the Q&A the trimmed text from it on. */
  lemma SplitAtFirstMarker(md: string, idx: int)
    requires FirstMarkerAt(md, idx)
    ensures SplitContent(md) == DocumentSplit(Trim(md[..idx]), Trim(md[idx..]))
  {
    assert IndexOf(md, QaMarker) == idx;
  }

  /** The text from the marker on, trimmed, starts with the Q&A heading:
      trim drops the line feed in front and stops at the first `#`. */
  lemma QaStartsWithHeading(md: string, idx: int)
    requires OccursAt(md, QaMarker, idx)
    ensures var qa := Trim(md[idx..]);
      |QaHeading| <= |qa| && qa[..|QaHeading|] == QaHeading
  {
    var tail := md[idx..];
    assert tail[..|QaMarker|] == QaMarker;
    var rest := tail[1..];
    assert tail == "\n" + rest;
    assert rest[..|QaHeading|] == QaHeading;
    TrimStartOfPadded("\n", rest);
    TrimEndKeepsPrefix(rest, QaHeading);
  }

  /** TrimEnd never cuts into a prefix that ends in a non-whitespace
      character. */
  lemma TrimEndKeepsPrefix(s: string, p: string)
    requires |p| <= |s| && s[..|p|] == p
    requires p != [] && !IsWs(p[|p| - 1])
    ensures |p| <= |TrimEnd(s)| && TrimEnd(s)[..|p|] == p
  {
    var r := TrimEnd(s);
    TrimEndDropsWs(s);
    AllWsTail(s, |r|);
    assert s[|p| - 1] == p[|p| - 1];
    assert r[..|p|] == s[..|r|][..|p|];
  }

  /** The main text never contains the marker: it lies before the first
      one. */
  lemma MainHasNoMarker(md: string)
    ensures NoMarker(SplitContent(md).main)
  {
    if !NoMarker(md) {
      var idx := IndexOf(md, QaMarker);
      SplitAtFirstMarker(md, idx);
      TrimmedBeforeFirst(md, idx);
    }
  }

  lemma TrimmedBeforeFirst(md: string, idx: int)
    requires FirstMarkerAt(md, idx)
    ensures NoMarker(Trim(md[..idx]))
  {
    NoMarkerBeforeFirst(md, idx);
    NoMarkerTrimmed(md[..idx]);
  }

  /** Trimming a text without the marker cannot create one. */
  lemma NoMarkerTrimmed(s: string)
    requires NoMarker(s)
    ensures NoMarker(Trim(s))
  {
    var k := TrimIsSlice(s);
    NoMarkerInSlice(s, k, k + |Trim(s)|);
  }

  /** No marker ends before the first one starts. */
  lemma NoMarkerBeforeFirst(md: string, idx: int)
    requires FirstMarkerAt(md, idx)
    ensures NoMarker(md[..idx])
  {
    forall i | 0 <= i <= idx ensures !OccursAt(md[..idx], QaMarker, i) {
      if OccursAt(md[..idx], QaMarker, i) {
        OccursInSlice(md, QaMarker, 0, idx, i);
      }
    }
  }

  /** A piece of a text without the marker has none either. */
  lemma NoMarkerInSlice(s: string, lo: int, hi: int)
    requires 0 <= lo <= hi <= |s| && NoMarker(s)
    ensures NoMarker(s[lo..hi])
  {
    forall i | 0 <= i <= hi - lo ensures !OccursAt(s[lo..hi], QaMarker, i) {
      if OccursAt(s[lo..hi], QaMarker, i) {
        OccursInSlice(s, QaMarker, lo, hi, i);
      }
    }
  }

  /** Only whitespace is lost: the guide is whitespace, the main text,
      whitespace, then, from the marker on, whitespace, the Q&A and
      whitespace. */
  lemma SplitLosesOnlyWhitespace(md: string, idx: int) returns (k1: nat, k2: nat)
    requires FirstMarkerAt(md, idx)
    ensures PaddedAt(md[..idx], SplitContent(md).main, k1)
    ensures PaddedAt(md[idx..], SplitContent(md).qa, k2)
  {
    SplitAtFirstMarker(md, idx);
    k1 := TrimShape(md[..idx]);
    k2 := TrimShape(md[idx..]);
  }

  /** The marker needs a line feed in front of it, so a guide without line
      feeds (such as one that is only the heading "## 常见问题" at index 0)
      is never split. */
  lemma NoLineFeedNoSplit(md: string)
    requires '\n' !in md
    ensures SplitContent(md) == DocumentSplit(md, "")
  {
    forall i | 0 <= i <= |md| ensures !OccursAt(md, QaMarker, i) {
      if OccursAt(md, QaMarker, i) {
        OccurrenceIsLineFeed(md, i);
      }
    }
  }

  lemma MarkerFeedOnlyFirst(j: int)
    requires 1 <= j < |QaMarker|
    ensures QaMarker[j] != '\n'
  {
  }

  /** When the text before a marker has none, that marker is the first:
      an earlier one would have to reach into this one, whose only line
      feed is its first character. */
  lemma FirstMarkerAfter(a: string, b: string)
    requires NoMarker(a)
    ensures FirstMarkerAt(a + QaMarker + b, |a|)
  {
    var md := a + QaMarker + b;
    assert md[|a|..|a| + |QaMarker|] == QaMarker;
    forall i | 0 <= i < |a| ensures !OccursAt(md, QaMarker, i) {
      if OccursAt(md, QaMarker, i) {
        if i + |QaMarker| <= |a| {
          assert md[i..i + |QaMarker|] == a[i..i + |QaMarker|];
          assert OccursAt(a, QaMarker, i);
        } else {
          assert md[|a|] == '\n';
          assert md[i..i + |QaMarker|][|a| - i] == md[|a|];
          MarkerFeedOnlyFirst(|a| - i);
        }
      }
    }
  }

  /** A text with no line feed has no marker. */
  lemma NoLineFeedNoMarker(a: string)
    requires '\n' !in a
    ensures NoMarker(a)
  {
    forall i | 0 <= i <= |a| ensures !OccursAt(a, QaMarker, i) {
      if OccursAt(a, QaMarker, i) {
        OccurrenceIsLineFeed(a, i);
      }
    }
  }

  /** Text with no marker, then the marker, then anything is cut at that
      marker. The marker matches as a prefix of a longer heading: with "汇总"
      after it (the heading "常见问题汇总") the guide is cut all the same. */
  lemma SplitsAtMarkerPrefix(a: string, b: string)
    requires NoMarker(a)
    ensures SplitContent(a + QaMarker + b) == DocumentSplit(Trim(a), Trim(QaMarker + b))
  {
    var md := a + QaMarker + b;
    assert md == a + (QaMarker + b);
    var before, after := md[..|a|], md[|a|..];
    assert before == a && after == QaMarker + b;
    FirstMarkerAfter(a, b);
    SplitAtFirstMarker(md, |a|);
  }

  /** A main text with no marker and no whitespace at its ends, then the
      marker, then a Q&A body that does not end in whitespace: the two tabs
      are the main text and the heading followed by the body. */
  lemma SplitsCleanly(a: string, b: string)
    requires NoMarker(a) && Trim(a) == a
    requires b == [] || !IsWs(b[|b| - 1])
    ensures SplitContent(a + QaMarker + b) == DocumentSplit(a, QaHeading + b)
  {
    SplitsAtMarkerPrefix(a, b);
    TrimMarkerTail(b);
  }

  /** The Q&A of a guide cut at a marker is the heading and what follows
      it, when that does not end in whitespace. */
  lemma TrimMarkerTail(b: string)
    requires b == [] || !IsWs(b[|b| - 1])
    ensures Trim(QaMarker + b) == QaHeading + b
  {
    var qa := QaHeading + b;
    assert qa[0] == '#';
    assert qa[|qa| - 1] == if b == [] then QaHeading[|QaHeading| - 1] else b[|b| - 1];
    assert QaMarker + b == "\n" + qa + [];
    TrimOfPadded("\n", qa, []);
  }
}
