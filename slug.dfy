/** slugify (components/guide/GuideViewer.tsx): heading text to anchor id,
    as six string rewrites applied in a fixed order. */
module Slug {
  import opened Chars
  import opened JsString

  predicate NoUpper(s: string) {
    forall i :: 0 <= i < |s| ==> !IsAsciiUpper(s[i])
  }

  predicate NoWs(s: string) {
    forall i :: 0 <= i < |s| ==> !IsWs(s[i])
  }

  /** Only lower-case slug characters. */
  predicate SlugChars(s: string) {
    forall i :: 0 <= i < |s| ==> IsSlugChar(s[i]) && !IsAsciiUpper(s[i])
  }

  /** A slug: lower-case ASCII word characters, CJK ideographs and hyphens,
      with no hyphen at either end. */
  predicate IsSlug(s: string) {
    SlugChars(s) && (s == [] || (s[0] != '-' && s[|s| - 1] != '-'))
  }

  /** `replace(/[ab]/g, '')`: every `a` and every `b` deleted. */
  function Without(s: string, a: char, b: char): (r: string)
    ensures |r| <= |s|
    ensures forall i :: 0 <= i < |r| ==> r[i] != a && r[i] != b
  {
    if s == [] then []
    else (if s[0] == a || s[0] == b then [] else [s[0]]) + Without(s[1..], a, b)
  }

  lemma {:induction false} WithoutNoUpper(s: string, a: char, b: char)
    requires NoUpper(s)
    ensures NoUpper(Without(s, a, b))
  {
    if s != [] {
      WithoutNoUpper(s[1..], a, b);
    }
  }

  lemma {:induction false} WithoutAvoids(s: string, a: char, b: char, c: char)
    requires forall i :: 0 <= i < |s| ==> s[i] != c
    ensures forall i :: 0 <= i < |Without(s, a, b)| ==> Without(s, a, b)[i] != c
  {
    if s != [] {
      WithoutAvoids(s[1..], a, b, c);
    }
  }

  lemma {:induction false} WithoutNoop(s: string, a: char, b: char)
    requires forall i :: 0 <= i < |s| ==> s[i] != a && s[i] != b
    ensures Without(s, a, b) == s
  {
    if s != [] {
      WithoutNoop(s[1..], a, b);
    }
  }

  predicate IsBracketOrColon(c: char) {
    c == '(' || c == ')' || c == ':' || c == '\U{FF08}' || c == '\U{FF09}' || c == '\U{FF1A}'
  }

  /** Steps 2 and 3 of slugify: `replace(/[（(]/g, '')`,
      `replace(/[）)]/g, '')` and `replace(/[：:]/g, '')` in turn. */
  function StripBrackets(s: string): (r: string)
    ensures |r| <= |s|
    ensures forall i :: 0 <= i < |r| ==> !IsBracketOrColon(r[i])
  {
    var noOpen := Without(s, '\U{FF08}', '(');
    var noClose := Without(noOpen, '\U{FF09}', ')');
    WithoutAvoids(noOpen, '\U{FF09}', ')', '\U{FF08}');
    WithoutAvoids(noOpen, '\U{FF09}', ')', '(');
    WithoutAvoids(noClose, '\U{FF1A}', ':', '\U{FF08}');
    WithoutAvoids(noClose, '\U{FF1A}', ':', '(');
    WithoutAvoids(noClose, '\U{FF1A}', ':', '\U{FF09}');
    WithoutAvoids(noClose, '\U{FF1A}', ':', ')');
    Without(noClose, '\U{FF1A}', ':')
  }

  lemma StripBracketsNoUpper(s: string)
    requires NoUpper(s)
    ensures NoUpper(StripBrackets(s))
  {
    var noOpen := Without(s, '\U{FF08}', '(');
    WithoutNoUpper(s, '\U{FF08}', '(');
    WithoutNoUpper(noOpen, '\U{FF09}', ')');
    WithoutNoUpper(Without(noOpen, '\U{FF09}', ')'), '\U{FF1A}', ':');
  }

  lemma StripBracketsNoop(s: string)
    requires forall i :: 0 <= i < |s| ==> !IsBracketOrColon(s[i])
    ensures StripBrackets(s) == s
  {
    WithoutNoop(s, '\U{FF08}', '(');
    WithoutNoop(s, '\U{FF09}', ')');
    WithoutNoop(s, '\U{FF1A}', ':');
  }

  /** `replace(/\s+/g, '-')`: each maximal run of whitespace becomes one `-`.
      The greedy `\s+` swallows the whole run, which is what TrimStart drops. */
  function CollapseWs(s: string): (r: string)
    ensures |r| <= |s|
    ensures r == [] <==> s == []
    decreases |s|
  {
    if s == [] then []
    else if IsWs(s[0]) then "-" + CollapseWs(TrimStart(s[1..]))
    else [s[0]] + CollapseWs(s[1..])
  }

  lemma NoUpperSuffix(s: string, k: nat)
    requires k <= |s| && NoUpper(s)
    ensures NoUpper(s[k..])
  {
    assert forall i :: 0 <= i < |s| - k ==> s[k..][i] == s[k + i];
  }

  lemma NoUpperConcat(a: string, b: string)
    requires NoUpper(a) && NoUpper(b)
    ensures NoUpper(a + b)
  {
    assert forall i :: |a| <= i < |a + b| ==> (a + b)[i] == b[i - |a|];
  }

  lemma {:induction false} CollapseWsNoUpper(s: string)
    requires NoUpper(s)
    ensures NoUpper(CollapseWs(s))
    decreases |s|
  {
    if s != [] {
      NoUpperSuffix(s, 1);
      if IsWs(s[0]) {
        var t := TrimStart(s[1..]);
        NoUpperSuffix(s[1..], |s[1..]| - |t|);
        CollapseWsNoUpper(t);
        NoUpperConcat("-", CollapseWs(t));
      } else {
        CollapseWsNoUpper(s[1..]);
        NoUpperConcat([s[0]], CollapseWs(s[1..]));
      }
    }
  }

  lemma {:induction false} CollapseWsNoop(s: string)
    requires NoWs(s)
    ensures CollapseWs(s) == s
  {
    if s != [] {
      CollapseWsNoop(s[1..]);
    }
  }

  /** No whitespace is left after the collapse. */
  lemma {:induction false} CollapseWsNoWs(s: string)
    ensures NoWs(CollapseWs(s))
    decreases |s|
  {
    if s != [] {
      if IsWs(s[0]) {
        CollapseWsNoWs(TrimStart(s[1..]));
      } else {
        CollapseWsNoWs(s[1..]);
      }
    }
  }

  /** `replace(/[^\w一-鿿-]/g, '')`: only slug characters kept. */
  function KeepSlugChars(s: string): (r: string)
    ensures forall i :: 0 <= i < |r| ==> IsSlugChar(r[i])
  {
    if s == [] then []
    else (if IsSlugChar(s[0]) then [s[0]] else []) + KeepSlugChars(s[1..])
  }

  lemma {:induction false} KeepSlugCharsNoUpper(s: string)
    requires NoUpper(s)
    ensures SlugChars(KeepSlugChars(s))
  {
    if s != [] {
      KeepSlugCharsNoUpper(s[1..]);
    }
  }

  lemma {:induction false} KeepSlugCharsNoop(s: string)
    requires forall i :: 0 <= i < |s| ==> IsSlugChar(s[i])
    ensures KeepSlugChars(s) == s
  {
    if s != [] {
      KeepSlugCharsNoop(s[1..]);
    }
  }

  predicate AllHyphens(s: string) {
    forall i :: 0 <= i < |s| ==> s[i] == '-'
  }

  /** What is deleted is exactly the characters that are not slug
      characters: one such character anywhere is simply dropped... */
  lemma {:induction false} KeepSlugCharsConcat(a: string, b: string)
    ensures KeepSlugChars(a + b) == KeepSlugChars(a) + KeepSlugChars(b)
  {
    if a == [] {
      assert a + b == b;
    } else {
      assert (a + b)[1..] == a[1..] + b;
      KeepSlugCharsConcat(a[1..], b);
    }
  }

  lemma KeepSlugCharsDropsOne(a: string, c: char, b: string)
    requires !IsSlugChar(c)
    ensures KeepSlugChars(a + [c] + b) == KeepSlugChars(a + b)
  {
    KeepSlugCharsConcat(a + [c], b);
    KeepSlugCharsConcat(a, [c]);
    KeepSlugCharsConcat(a, b);
    assert KeepSlugChars([c]) == [];
  }

  /** ... and one slug character anywhere is kept where it stands. */
  lemma KeepSlugCharsKeepsOne(a: string, c: char, b: string)
    requires IsSlugChar(c)
    ensures KeepSlugChars(a + [c] + b) == KeepSlugChars(a) + [c] + KeepSlugChars(b)
  {
    KeepSlugCharsConcat(a + [c], b);
    KeepSlugCharsConcat(a, [c]);
    assert KeepSlugChars([c]) == [c];
  }

  function DropLeadingHyphens(s: string): (r: string)
    ensures |r| <= |s| && r == s[|s| - |r|..]
    ensures r == [] || r[0] != '-'
  {
    if s != [] && s[0] == '-' then DropLeadingHyphens(s[1..]) else s
  }

  function DropTrailingHyphens(s: string): (r: string)
    ensures |r| <= |s| && r == s[..|r|]
    ensures r == [] || r[|r| - 1] != '-'
  {
    if s != [] && s[|s| - 1] == '-' then DropTrailingHyphens(s[..|s| - 1]) else s
  }

  /** What DropLeadingHyphens removes is all hyphens. */
  lemma {:induction false} DropLeadingHyphensDropsHyphens(s: string)
    ensures AllHyphens(s[..|s| - |DropLeadingHyphens(s)|])
  {
    if s != [] && s[0] == '-' {
      DropLeadingHyphensDropsHyphens(s[1..]);
      var n := |s| - |DropLeadingHyphens(s)|;
      assert s[..n] == [s[0]] + s[1..][..n - 1];
    }
  }

  /** What DropTrailingHyphens removes is all hyphens. */
  lemma {:induction false} DropTrailingHyphensDropsHyphens(s: string)
    ensures AllHyphens(s[|DropTrailingHyphens(s)|..])
  {
    if s != [] && s[|s| - 1] == '-' {
      var t := s[..|s| - 1];
      DropTrailingHyphensDropsHyphens(t);
      var n := |DropTrailingHyphens(s)|;
      assert s[n..] == t[n..] + [s[|s| - 1]];
    }
  }

  /** `r` stands at offset `k` of `s` with only hyphens around it. */
  predicate HyphenPaddedAt(s: string, r: string, k: int) {
    0 <= k <= |s| - |r| && s[k..k + |r|] == r
    && AllHyphens(s[..k]) && AllHyphens(s[k + |r|..])
  }

  /** `replace(/^-+|-+$/g, '')`. The global scan removes the leading run and
      then the trailing run of the same string; when the string is all
      hyphens the first alternative takes all of it. Either way this is the
      trailing run dropped from what is left after the leading run. */
  function TrimHyphens(s: string): (r: string)
    ensures r == [] || (r[0] != '-' && r[|r| - 1] != '-')
    ensures s == [] || (s[0] != '-' && s[|s| - 1] != '-') ==> r == s
  {
    DropTrailingHyphens(DropLeadingHyphens(s))
  }

  /** Step 6 removes hyphens only, from both ends: the result stands in
      the input with only hyphens around it. */
  lemma TrimHyphensShape(s: string) returns (k: nat)
    ensures HyphenPaddedAt(s, TrimHyphens(s), k)
  {
    var t := DropLeadingHyphens(s);
    k := |s| - |t|;
    DropLeadingHyphensDropsHyphens(s);
    DropTrailingHyphensDropsHyphens(t);
    HyphensAround(s, k, t, DropTrailingHyphens(t));
  }

  lemma HyphensAround(s: string, k: nat, t: string, r: string)
    requires k <= |s| && s[k..] == t && AllHyphens(s[..k])
    requires |r| <= |t| && t[..|r|] == r && AllHyphens(t[|r|..])
    ensures HyphenPaddedAt(s, r, k)
  {
    assert s[k..][..|r|] == s[k..k + |r|];
    assert s[k..][|r|..] == s[k + |r|..];
  }

  lemma TrimHyphensSlug(s: string)
    requires SlugChars(s)
    ensures IsSlug(TrimHyphens(s))
  {
    var t := DropLeadingHyphens(s);
    SlugCharsSlice(s, |s| - |t|, |s|);
    assert s[|s| - |t|..|s|] == t;
    var r := DropTrailingHyphens(t);
    SlugCharsSlice(t, 0, |r|);
    assert t[0..|r|] == r;
  }

  lemma SlugCharsSlice(s: string, lo: int, hi: int)
    requires 0 <= lo <= hi <= |s| && SlugChars(s)
    ensures SlugChars(s[lo..hi])
  {
    assert forall i :: 0 <= i < hi - lo ==> s[lo..hi][i] == s[lo + i];
  }

  /** slugify: lowercase, drop brackets and colons, turn whitespace runs
      into `-`, drop everything else that is not a slug character, trim
      hyphens. The result is always a slug, and empty text gives the empty
      slug. */
  function Slugify(text: string): (slug: string)
    ensures IsSlug(slug)
    ensures text == [] ==> slug == []
  {
    var lowered := Lower(text);
    var stripped := StripBrackets(lowered);
    var dashed := CollapseWs(stripped);
    var kept := KeepSlugChars(dashed);
    StripBracketsNoUpper(lowered);
    CollapseWsNoUpper(stripped);
    KeepSlugCharsNoUpper(dashed);
    TrimHyphensSlug(kept);
    TrimHyphens(kept)
  }

  lemma LowerFixesSlug(s: string)
    requires IsSlug(s)
    ensures Lower(s) == s
  {
    LowerFixed(s);
  }

  lemma StripBracketsFixesSlug(s: string)
    requires IsSlug(s)
    ensures StripBrackets(s) == s
  {
    StripBracketsNoop(s);
  }

  lemma CollapseWsFixesSlug(s: string)
    requires IsSlug(s)
    ensures CollapseWs(s) == s
  {
    SlugCharsNoWs(s);
    CollapseWsNoop(s);
  }

  lemma SlugCharsNoWs(s: string)
    requires SlugChars(s)
    ensures NoWs(s)
  {
    forall i | 0 <= i < |s| ensures !IsWs(s[i]) {
      SlugCharNotWs(s[i]);
    }
  }

  lemma KeepSlugCharsFixesSlug(s: string)
    requires IsSlug(s)
    ensures KeepSlugChars(s) == s
  {
    KeepSlugCharsNoop(s);
  }

  /** Every step of slugify leaves a slug alone. */
  lemma SlugifyFixesSlugs(s: string)
    requires IsSlug(s)
    ensures Slugify(s) == s
  {
    LowerFixesSlug(s);
    StripBracketsFixesSlug(s);
    CollapseWsFixesSlug(s);
    KeepSlugCharsFixesSlug(s);
  }

  /** slugify is idempotent. */
  lemma SlugifyIdempotent(text: string)
    ensures Slugify(Slugify(text)) == Slugify(text)
  {
    SlugifyFixesSlugs(Slugify(text));
  }

  /** The fixed points of slugify are exactly the slugs. */
  lemma SlugifyFixedPoints(s: string)
    ensures Slugify(s) == s <==> IsSlug(s)
  {
    if IsSlug(s) {
      SlugifyFixesSlugs(s);
    }
  }

  /** The word characters and ideographs of `s`, in order. */
  function Letters(s: string): string
  {
    if s == [] then [] else (if IsLetter(s[0]) then [s[0]] else []) + Letters(s[1..])
  }

  lemma {:induction false} LettersConcat(a: string, b: string)
    ensures Letters(a + b) == Letters(a) + Letters(b)
  {
    if a != [] {
      assert (a + b)[1..] == a[1..] + b;
      LettersConcat(a[1..], b);
    } else {
      assert a + b == b;
    }
  }

  lemma {:induction false} LettersWithout(s: string, a: char, b: char)
    requires !IsLetter(a) && !IsLetter(b)
    ensures Letters(Without(s, a, b)) == Letters(s)
  {
    if s != [] {
      var head: string := if s[0] == a || s[0] == b then [] else [s[0]];
      LettersConcat(head, Without(s[1..], a, b));
      LettersWithout(s[1..], a, b);
    }
  }

  lemma {:induction false} LettersOfNonLetters(s: string)
    requires forall i :: 0 <= i < |s| ==> !IsLetter(s[i])
    ensures Letters(s) == []
  {
    if s != [] {
      LettersOfNonLetters(s[1..]);
    }
  }

  lemma {:induction false} LettersTrimStart(s: string)
    ensures Letters(TrimStart(s)) == Letters(s)
  {
    if s != [] && IsWs(s[0]) {
      LettersTrimStart(s[1..]);
      NotLetters(s[0]);
    }
  }

  lemma {:induction false} LettersCollapseWs(s: string)
    ensures Letters(CollapseWs(s)) == Letters(s)
    decreases |s|
  {
    if s != [] {
      if IsWs(s[0]) {
        LettersWsStep(s);
        LettersCollapseWs(TrimStart(s[1..]));
      } else {
        LettersWordStep(s);
        LettersCollapseWs(s[1..]);
      }
    }
  }

  /** A whitespace run holds no letters and becomes a `-`, which is none. */
  lemma LettersWsStep(s: string)
    requires s != [] && IsWs(s[0])
    ensures Letters(s) == Letters(TrimStart(s[1..]))
    ensures Letters(CollapseWs(s)) == Letters(CollapseWs(TrimStart(s[1..])))
  {
    LettersTrimStart(s[1..]);
    NotLetters(s[0]);
    LettersHyphenFirst(CollapseWs(TrimStart(s[1..])));
  }

  lemma LettersHyphenFirst(t: string)
    ensures Letters("-" + t) == Letters(t)
  {
    assert ("-" + t)[1..] == t;
  }

  /** Any other character passes through the collapse. */
  lemma LettersWordStep(s: string)
    requires s != [] && !IsWs(s[0])
    ensures Letters(CollapseWs(s)) == Letters([s[0]]) + Letters(CollapseWs(s[1..]))
    ensures Letters(s) == Letters([s[0]]) + Letters(s[1..])
  {
    assert CollapseWs(s) == [s[0]] + CollapseWs(s[1..]);
    LettersConcat([s[0]], CollapseWs(s[1..]));
    LettersConcat([s[0]], s[1..]);
    assert s == [s[0]] + s[1..];
  }

  lemma {:induction false} LettersKeepSlugChars(s: string)
    ensures Letters(KeepSlugChars(s)) == Letters(s)
  {
    if s != [] {
      var head: string := if IsSlugChar(s[0]) then [s[0]] else [];
      LettersConcat(head, KeepSlugChars(s[1..]));
      LettersKeepSlugChars(s[1..]);
    }
  }

  lemma {:induction false} LettersDropLeadingHyphens(s: string)
    ensures Letters(DropLeadingHyphens(s)) == Letters(s)
  {
    if s != [] && s[0] == '-' {
      assert DropLeadingHyphens(s) == DropLeadingHyphens(s[1..]);
      LettersDropLeadingHyphens(s[1..]);
      NotLetters('-');
      assert Letters(s) == Letters(s[1..]);
    }
  }

  lemma {:induction false} LettersDropTrailingHyphens(s: string)
    ensures Letters(DropTrailingHyphens(s)) == Letters(s)
  {
    if s != [] && s[|s| - 1] == '-' {
      var n := |s| - 1;
      LettersDropTrailingHyphens(s[..n]);
      assert s == s[..n] + [s[n]];
      LettersConcat(s[..n], [s[n]]);
    }
  }

  lemma LettersTrimHyphens(s: string)
    ensures Letters(TrimHyphens(s)) == Letters(s)
  {
    LettersDropLeadingHyphens(s);
    LettersDropTrailingHyphens(DropLeadingHyphens(s));
  }

  lemma LettersStripBrackets(s: string)
    ensures Letters(StripBrackets(s)) == Letters(s)
  {
    NotLetters('\U{FF08}');
    NotLetters('(');
    NotLetters('\U{FF09}');
    NotLetters(')');
    NotLetters('\U{FF1A}');
    NotLetters(':');
    var noOpen := Without(s, '\U{FF08}', '(');
    var noClose := Without(noOpen, '\U{FF09}', ')');
    LettersWithout(s, '\U{FF08}', '(');
    LettersWithout(noOpen, '\U{FF09}', ')');
    LettersWithout(noClose, '\U{FF1A}', ':');
  }

  /** slugify keeps every ASCII word character and ideograph of the
      lowercased text, in order, and adds none: beyond them a slug holds
      only hyphens. */
  lemma SlugifyKeepsLetters(text: string)
    ensures Letters(Slugify(text)) == Letters(Lower(text))
  {
    var stripped := StripBrackets(Lower(text));
    var dashed := CollapseWs(stripped);
    LettersStripBrackets(Lower(text));
    LettersCollapseWs(stripped);
    LettersKeepSlugChars(dashed);
    LettersTrimHyphens(KeepSlugChars(dashed));
  }

  /** Lowercasing first makes slugify case-blind. */
  lemma SlugifyIgnoresCase(text: string)
    ensures Slugify(Lower(text)) == Slugify(text)
  {
    LowerIdempotent(text);
  }

  lemma {:induction false} WithoutConcat(x: string, y: string, a: char, b: char)
    ensures Without(x + y, a, b) == Without(x, a, b) + Without(y, a, b)
  {
    if x != [] {
      assert (x + y)[1..] == x[1..] + y;
      WithoutConcat(x[1..], y, a, b);
    } else {
      assert x + y == y;
    }
  }

  lemma StripBracketsConcat(x: string, y: string)
    ensures StripBrackets(x + y) == StripBrackets(x) + StripBrackets(y)
  {
    var x1, y1 := Without(x, '\U{FF08}', '('), Without(y, '\U{FF08}', '(');
    var x2, y2 := Without(x1, '\U{FF09}', ')'), Without(y1, '\U{FF09}', ')');
    WithoutConcat(x, y, '\U{FF08}', '(');
    WithoutConcat(x1, y1, '\U{FF09}', ')');
    WithoutConcat(x2, y2, '\U{FF1A}', ':');
  }

  lemma StripBracketsDropsOne(a: string, c: char, b: string)
    requires IsBracketOrColon(c)
    ensures StripBrackets(a + [c] + b) == StripBrackets(a + b)
  {
    StripBracketsConcat(a + [c], b);
    StripBracketsConcat(a, [c]);
    StripBracketsConcat(a, b);
    assert StripBrackets([c]) == [];
  }

  /** Brackets and colons are dropped before whitespace is collapsed, so one
      anywhere in the text, even between two spaces, never changes the slug:
      "Setup: Step 1" has the slug of "Setup Step 1". */
  lemma SlugifyIgnoresBrackets(a: string, c: char, b: string)
    requires IsBracketOrColon(c)
    ensures Slugify(a + [c] + b) == Slugify(a + b)
  {
    LowerAroundBracket(a, c, b);
    StripBracketsDropsOne(Lower(a), c, Lower(b));
  }

  lemma LowerAroundBracket(a: string, c: char, b: string)
    requires IsBracketOrColon(c)
    ensures Lower(a + [c] + b) == Lower(a) + [c] + Lower(b)
    ensures Lower(a + b) == Lower(a) + Lower(b)
  {
    LowerConcat(a + [c], b);
    LowerConcat(a, [c]);
    LowerConcat(a, b);
    assert Lower([c]) == [c];
  }

  /** A whitespace-free prefix passes through CollapseWs unchanged. */
  lemma {:induction false} CollapseWsKeepsPrefix(x: string, y: string)
    requires NoWs(x)
    ensures CollapseWs(x + y) == x + CollapseWs(y)
  {
    if x != [] {
      var xs := x[1..];
      NoWsTail(x);
      CollapseWsKeepsPrefix(xs, y);
      assert x == [x[0]] + xs;
      ConcatAssoc([x[0]], xs, y);
      CollapseWsCons(x[0], xs + y);
      ConcatAssoc([x[0]], xs, CollapseWs(y));
    } else {
      assert x + y == y;
    }
  }

  lemma NoWsTail(x: string)
    requires x != [] && NoWs(x)
    ensures NoWs(x[1..])
  {
    assert forall i :: 0 <= i < |x| - 1 ==> x[1..][i] == x[i + 1];
  }

  /** A character that is not whitespace passes through the collapse. */
  lemma CollapseWsCons(c: char, t: string)
    requires !IsWs(c)
    ensures CollapseWs([c] + t) == [c] + CollapseWs(t)
  {
    assert ([c] + t)[1..] == t;
  }

  /** A whole whitespace run becomes a single hyphen. */
  lemma CollapseWsRun(w: string, y: string)
    requires w != [] && AllWs(w)
    requires y == [] || !IsWs(y[0])
    ensures CollapseWs(w + y) == "-" + CollapseWs(y)
  {
    assert (w + y)[0] == w[0];
    assert (w + y)[1..] == w[1..] + y;
    TrimStartOfPadded(w[1..], y);
  }

  lemma WsIsPlain(c: char)
    requires IsWs(c)
    ensures !ChangesCase(c) && !IsBracketOrColon(c)
  {
  }

  /** Whitespace survives lowercasing and bracket removal. */
  lemma WsUntouched(w: string)
    requires AllWs(w)
    ensures Lower(w) == w && StripBrackets(w) == w
  {
    forall i | 0 <= i < |w| ensures !ChangesCase(w[i]) && !IsBracketOrColon(w[i]) {
      WsIsPlain(w[i]);
    }
    LowerFixed(w);
    StripBracketsNoop(w);
  }

  /** Text the first two steps of slugify leave alone. */
  predicate Plain(s: string) {
    Lower(s) == s && StripBrackets(s) == s
  }

  lemma PlainConcat(a: string, b: string)
    requires Plain(a) && Plain(b)
    ensures Plain(a + b)
  {
    LowerConcat(a, b);
    StripBracketsConcat(a, b);
  }

  lemma SlugPlain(s: string)
    requires IsSlug(s)
    ensures Plain(s)
  {
    LowerFixesSlug(s);
    StripBracketsFixesSlug(s);
  }

  /** Slugs with whitespace between them survive the first two steps. */
  lemma JoinedPlain(x: string, w: string, y: string)
    requires IsSlug(x) && IsSlug(y) && AllWs(w)
    ensures Plain(x + w + y)
  {
    SlugPlain(x);
    SlugPlain(y);
    WsUntouched(w);
    PlainConcat(x, w);
    PlainConcat(x + w, y);
  }

  /** A word, a whitespace run, then text that starts with no whitespace:
      the run becomes one hyphen after the word. */
  lemma CollapseAfterWord(x: string, w: string, r: string)
    requires NoWs(x) && w != [] && AllWs(w)
    requires r == [] || !IsWs(r[0])
    ensures CollapseWs(x + w + r) == x + "-" + CollapseWs(r)
  {
    CollapseWsRun(w, r);
    CollapseWsKeepsPrefix(x, w + r);
    JoinedAssoc(x, w, r, "-");
    JoinedAssoc(x, "-", CollapseWs(r), "-");
  }

  lemma CollapseJoined(x: string, w: string, y: string)
    requires IsSlug(x) && IsSlug(y) && y != []
    requires w != [] && AllWs(w)
    ensures CollapseWs(x + w + y) == x + "-" + y
  {
    SlugCharsNoWs(x);
    SlugCharNotWs(y[0]);
    CollapseAfterWord(x, w, y);
    CollapseWsFixesSlug(y);
  }

  lemma JoinedAssoc(x: string, w: string, y: string, d: string)
    ensures x + w + y == x + (w + y) && x + (d + y) == x + d + y
  {
  }

  lemma JoinedIsSlug(x: string, y: string)
    requires IsSlug(x) && IsSlug(y) && x != [] && y != []
    ensures IsSlug(x + "-" + y)
  {
    var joined := x + "-" + y;
    forall i | 0 <= i < |joined| ensures IsSlugChar(joined[i]) && !IsAsciiUpper(joined[i]) {
      if i > |x| { assert joined[i] == y[i - |x| - 1]; }
    }
  }

  /** Whitespace between two slugs becomes exactly one hyphen. */
  lemma SlugifyJoinsWords(x: string, w: string, y: string)
    requires IsSlug(x) && IsSlug(y) && x != [] && y != []
    requires w != [] && AllWs(w)
    ensures Slugify(x + w + y) == x + "-" + y
  {
    JoinedPlain(x, w, y);
    CollapseJoined(x, w, y);
    JoinedIsSlug(x, y);
    KeepSlugCharsFixesSlug(x + "-" + y);
  }

  /** Three slugs with whitespace between them are joined by single
      hyphens. */
  lemma SlugifyJoinsThreeWords(x: string, w1: string, y: string, w2: string, z: string)
    requires IsSlug(x) && IsSlug(y) && IsSlug(z) && x != [] && y != [] && z != []
    requires w1 != [] && AllWs(w1) && w2 != [] && AllWs(w2)
    ensures Slugify(x + w1 + y + w2 + z) == x + "-" + y + "-" + z
  {
    var r := y + w2 + z;
    ThreeWordsPlain(x, w1, y, w2, z);
    CollapseJoined(y, w2, z);
    SlugCharsNoWs(x);
    SlugCharNotWs(y[0]);
    assert r[0] == y[0];
    CollapseAfterWord(x, w1, r);
    JoinedIsSlug(y, z);
    JoinedIsSlug(x, y + "-" + z);
    FiveAssoc(x, w1, y, w2, z);
    KeepSlugCharsFixesSlug(x + "-" + (y + "-" + z));
  }

  lemma FiveAssoc(x: string, w1: string, y: string, w2: string, z: string)
    ensures x + w1 + y + w2 + z == x + w1 + (y + w2 + z)
    ensures x + "-" + (y + "-" + z) == x + "-" + y + "-" + z
  {
  }

  lemma ThreeWordsPlain(x: string, w1: string, y: string, w2: string, z: string)
    requires IsSlug(x) && IsSlug(y) && IsSlug(z)
    requires AllWs(w1) && AllWs(w2)
    ensures Plain(x + w1 + y + w2 + z)
  {
    JoinedPlain(x, w1, y);
    SlugPlain(z);
    WsUntouched(w2);
    PlainConcat(x + w1 + y, w2);
    PlainConcat(x + w1 + y + w2, z);
  }

  lemma LowerFiveParts(x: string, w1: string, y: string, w2: string, z: string)
    requires AllWs(w1) && AllWs(w2)
    ensures Lower(x + w1 + y + w2 + z) == Lower(x) + w1 + Lower(y) + w2 + Lower(z)
  {
    WsUntouched(w1);
    WsUntouched(w2);
    LowerConcat(x + w1 + y + w2, z);
    LowerConcat(x + w1 + y, w2);
    LowerConcat(x + w1, y);
    LowerConcat(x, w1);
  }

  /** Three words separated by whitespace, in any case: the slug is the
      lowercased words joined by hyphens. */
  lemma SlugifyThreeWords(x: string, w1: string, y: string, w2: string, z: string)
    requires IsSlug(Lower(x)) && IsSlug(Lower(y)) && IsSlug(Lower(z))
    requires Lower(x) != [] && Lower(y) != [] && Lower(z) != []
    requires w1 != [] && AllWs(w1) && w2 != [] && AllWs(w2)
    ensures Slugify(x + w1 + y + w2 + z) == Lower(x) + "-" + Lower(y) + "-" + Lower(z)
  {
    var s := x + w1 + y + w2 + z;
    SlugifyIgnoresCase(s);
    LowerFiveParts(x, w1, y, w2, z);
    SlugifyJoinsThreeWords(Lower(x), w1, Lower(y), w2, Lower(z));
  }

  /** A colon or bracket after the first of three words is dropped. */
  lemma SlugifyColonThreeWords(x: string, c: char, w1: string, y: string, w2: string, z: string)
    requires IsBracketOrColon(c)
    requires IsSlug(Lower(x)) && IsSlug(Lower(y)) && IsSlug(Lower(z))
    requires Lower(x) != [] && Lower(y) != [] && Lower(z) != []
    requires w1 != [] && AllWs(w1) && w2 != [] && AllWs(w2)
    ensures Slugify(x + [c] + w1 + y + w2 + z) == Lower(x) + "-" + Lower(y) + "-" + Lower(z)
  {
    var r := w1 + y + w2 + z;
    ColonAssoc(x, c, w1, y, w2, z);
    SlugifyIgnoresBrackets(x, c, r);
    SlugifyThreeWords(x, w1, y, w2, z);
  }

  lemma ColonAssoc(x: string, c: char, w1: string, y: string, w2: string, z: string)
    ensures x + [c] + w1 + y + w2 + z == x + [c] + (w1 + y + w2 + z)
    ensures x + (w1 + y + w2 + z) == x + w1 + y + w2 + z
  {
  }

  /** The colon goes, the capitals are lowered and each space becomes a
      hyphen: "Setup: Step 1" gets the id "setup-step-1". The three words
      are parameters fixed by the precondition so that the verifier works
      from the general SlugifyColonThreeWords instead of evaluating
      Slugify on the whole literal, which is far more expensive. */
  lemma SlugifySetupExample(x: string, y: string, z: string)
    requires x == "Setup" && y == "Step" && z == "1"
    ensures Slugify(x + [':'] + " " + y + " " + z) == "setup-step-1"
  {
    SetupWords();
    SlugifyColonThreeWords(x, ':', " ", y, " ", z);
  }

  lemma SetupWords()
    ensures Lower("Setup") == "setup" && Lower("Step") == "step" && Lower("1") == "1"
    ensures IsSlug("setup") && IsSlug("step") && IsSlug("1")
    ensures "setup" + "-" + "step" + "-" + "1" == "setup-step-1"
  {
    SetupLowered();
    StepLowered();
    OneLowered();
    SetupIsSlug();
    StepIsSlug();
    OneIsSlug();
    SetupJoined();
  }

  lemma SetupLowered()
    ensures Lower("Setup") == "setup"
  {
  }

  lemma StepLowered()
    ensures Lower("Step") == "step"
  {
  }

  lemma OneLowered()
    ensures Lower("1") == "1"
  {
  }

  lemma SetupIsSlug()
    ensures IsSlug("setup")
  {
  }

  lemma StepIsSlug()
    ensures IsSlug("step")
  {
  }

  lemma OneIsSlug()
    ensures IsSlug("1")
  {
  }

  lemma SetupJoined()
    ensures "setup" + "-" + "step" + "-" + "1" == "setup-step-1"
  {
  }

  /** A bracket or colon at the end adds nothing to the slug. */
  lemma SlugifyIgnoresLastBracket(z: string, c: char)
    requires IsBracketOrColon(c)
    ensures Slugify(z + [c]) == Slugify(z)
  {
    assert z + [c] == z + [c] + [];
    SlugifyIgnoresBrackets(z, c, []);
    assert z + [] == z;
  }

  /** A parenthesised tail adds nothing to a slug but its contents. */
  lemma SlugifyParenthesized(x: string, open: char, y: string, close: char)
    requires IsBracketOrColon(open) && IsBracketOrColon(close)
    requires IsSlug(x + y)
    ensures Slugify(x + [open] + y + [close]) == x + y
  {
    SlugifyIgnoresLastBracket(x + [open] + y, close);
    SlugifyIgnoresBrackets(x, open, y);
    SlugifyFixesSlugs(x + y);
  }

  lemma ExampleIsSlug()
    ensures IsSlug("快速部署入门")
  {
    var z := "快速部署入门";
    forall i | 0 <= i < |z| ensures IsCjk(z[i]) {
      assert i == 0 || i == 1 || i == 2 || i == 3 || i == 4 || i == 5;
    }
  }

  /** Full-width brackets vanish and the ideographs stay: the heading
      "快速部署（入门）" gets the id "快速部署入门". */
  lemma SlugifyFullWidthExample()
    ensures Slugify("快速部署（入门）") == "快速部署入门"
  {
    var x, y := "快速部署", "入门";
    assert "快速部署（入门）" == x + ['\U{FF08}'] + y + ['\U{FF09}'];
    assert x + y == "快速部署入门";
    ExampleIsSlug();
    SlugifyParenthesized(x, '\U{FF08}', y, '\U{FF09}');
  }
}
