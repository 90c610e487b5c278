/** The ECMAScript string operations the heading utilities are built from:
    toLowerCase, trim, split('\n') and indexOf. */
module JsString {
  import opened Chars

  /** String.prototype.toLowerCase, one character at a time (see LowerChar).
      The real operation is context-sensitive for GREEK CAPITAL LETTER SIGMA,
      whose lowercase depends on whether it ends a word; this model is not. */
  function Lower(s: string): (r: string)
    ensures |s| <= |r| <= 2 * |s|
    ensures forall i :: 0 <= i < |r| ==> !ChangesCase(r[i])
  {
    if s == [] then [] else LowerChar(s[0]) + Lower(s[1..])
  }

  /** In this model lowercasing works character by character. (The real
      toLowerCase does not, for a final capital sigma.) */
  lemma {:induction false} LowerConcat(a: string, b: string)
    ensures Lower(a + b) == Lower(a) + Lower(b)
  {
    if a != [] {
      var ab := a + b;
      assert ab[0] == a[0];
      assert ab[1..] == a[1..] + b;
      LowerConcat(a[1..], b);
      ConcatAssoc(LowerChar(a[0]), Lower(a[1..]), Lower(b));
    } else {
      assert a + b == b;
    }
  }

  /** toLowerCase is idempotent. */
  lemma LowerIdempotent(s: string)
    ensures Lower(Lower(s)) == Lower(s)
  {
    LowerFixed(Lower(s));
  }

  /** A string none of whose characters has a relevant lowercase mapping
      comes out of Lower unchanged. */
  lemma {:induction false} LowerFixed(s: string)
    requires forall i :: 0 <= i < |s| ==> !ChangesCase(s[i])
    ensures Lower(s) == s
  {
    if s != [] {
      LowerFixed(s[1..]);
    }
  }

  /** The leading whitespace run of `s` removed (String.prototype.trimStart). */
  function TrimStart(s: string): (r: string)
    ensures |r| <= |s| && r == s[|s| - |r|..]
    ensures r == [] || !IsWs(r[0])
  {
    if s != [] && IsWs(s[0]) then TrimStart(s[1..]) else s
  }

  /** What trimStart removes is whitespace. */
  lemma {:induction false} TrimStartDropsWs(s: string)
    ensures AllWs(s[..|s| - |TrimStart(s)|])
  {
    if s != [] && IsWs(s[0]) {
      TrimStartDropsWs(s[1..]);
      var k := |s| - |TrimStart(s)|;
      assert s[..k] == [s[0]] + s[1..][..k - 1];
      AllWsConcat([s[0]], s[1..][..k - 1]);
    }
  }

  /** The trailing whitespace run of `s` removed (String.prototype.trimEnd). */
  function TrimEnd(s: string): (r: string)
    ensures |r| <= |s| && r == s[..|r|]
    ensures r == [] || !IsWs(r[|r| - 1])
  {
    if s != [] && IsWs(s[|s| - 1]) then TrimEnd(s[..|s| - 1]) else s
  }

  /** What trimEnd removes is whitespace. */
  lemma {:induction false} TrimEndDropsWs(s: string)
    ensures AllWs(s[|TrimEnd(s)|..])
  {
    if s != [] && IsWs(s[|s| - 1]) {
      var n := |s| - 1;
      TrimEndDropsWs(s[..n]);
      var k := |TrimEnd(s)|;
      assert s[k..] == s[..n][k..] + [s[n]];
      AllWsConcat(s[..n][k..], [s[n]]);
    }
  }

  /** String.prototype.trim. */
  function Trim(s: string): (r: string)
    ensures |r| <= |s|
    ensures r == [] || (!IsWs(r[0]) && !IsWs(r[|r| - 1]))
  {
    TrimEnd(TrimStart(s))
  }

  predicate AllWs(s: string) {
    forall i :: 0 <= i < |s| ==> IsWs(s[i])
  }

  lemma AllWsConcat(p: string, q: string)
    requires AllWs(p) && AllWs(q)
    ensures AllWs(p + q)
  {
    forall i | 0 <= i < |p + q| ensures IsWs((p + q)[i]) {
      if i >= |p| { assert (p + q)[i] == q[i - |p|]; }
    }
  }

  /** Every character of an all-whitespace tail is whitespace. */
  lemma AllWsTail(s: string, k: nat)
    requires k <= |s| && AllWs(s[k..])
    ensures forall i :: k <= i < |s| ==> IsWs(s[i])
  {
    forall i | k <= i < |s| ensures IsWs(s[i]) {
      assert s[k..][i - k] == s[i];
    }
  }

  lemma ConcatAssoc(p: string, q: string, r: string)
    ensures p + (q + r) == p + q + r
  {
  }

  /** Whitespace before the suffix `t` of `s`, whose prefix `r` has only
      whitespace after it, puts `r` at offset `k` of `s`. */
  lemma SuffixPadded(s: string, k: nat, t: string, r: string)
    requires k <= |s| && s[k..] == t && AllWs(s[..k])
    requires |r| <= |t| && t[..|r|] == r && AllWs(t[|r|..])
    ensures PaddedAt(s, r, k)
  {
    assert s[k..][..|r|] == s[k..k + |r|];
    assert s[k..][|r|..] == s[k + |r|..];
  }

  /** `s` is `r` with the whitespace `s[..k]` before it and whitespace after it. */
  predicate PaddedAt(s: string, r: string, k: int) {
    0 <= k <= |s| - |r| && s[k..k + |r|] == r && AllWs(s[..k]) && AllWs(s[k + |r|..])
  }

  /** Trim removes whitespace only, from both ends: the result stands at
      offset `k` of the input with only whitespace around it. */
  lemma TrimShape(s: string) returns (k: nat)
    ensures PaddedAt(s, Trim(s), k)
  {
    var t := TrimStart(s);
    k := |s| - |t|;
    TrimStartDropsWs(s);
    assert s[k..] == t && AllWs(s[..k]);
    TrimEndShape(s, k, t);
  }

  /** TrimEnd applied to the suffix `t` of `s` that follows whitespace. */
  lemma TrimEndShape(s: string, k: nat, t: string)
    requires k <= |s| && s[k..] == t && AllWs(s[..k])
    ensures PaddedAt(s, TrimEnd(t), k)
  {
    TrimEndDropsWs(t);
    SuffixPadded(s, k, t, TrimEnd(t));
  }

  /** What trim keeps is a piece of its input. */
  lemma TrimIsSlice(s: string) returns (k: nat)
    ensures k + |Trim(s)| <= |s| && s[k..k + |Trim(s)|] == Trim(s)
  {
    k := TrimShape(s);
  }

  /** The converse: whitespace padding around a string with no whitespace at
      its ends is exactly what Trim removes. */
  lemma {:induction false} TrimOfPadded(p: string, r: string, q: string)
    requires AllWs(p) && AllWs(q)
    requires r == [] || (!IsWs(r[0]) && !IsWs(r[|r| - 1]))
    ensures Trim(p + r + q) == r
  {
    if r == [] {
      AllWsConcat(p, q);
      TrimStartOfPadded(p + q, []);
      assert p + r + q == (p + q) + [];
    } else {
      TrimStartOfPadded(p, r + q);
      ConcatAssoc(p, r, q);
      assert (r + q)[0] == r[0];
      TrimEndOfPadded(r, q);
    }
  }

  lemma {:induction false} TrimStartOfPadded(p: string, t: string)
    requires AllWs(p)
    requires t == [] || !IsWs(t[0])
    ensures TrimStart(p + t) == t
  {
    if p != [] {
      assert (p + t)[1..] == p[1..] + t;
      TrimStartOfPadded(p[1..], t);
    } else {
      assert p + t == t;
    }
  }

  lemma {:induction false} TrimEndOfPadded(r: string, q: string)
    requires AllWs(q)
    requires r != [] && !IsWs(r[|r| - 1])
    ensures TrimEnd(r + q) == r
  {
    if q != [] {
      var n := |q| - 1;
      assert (r + q)[..|r + q| - 1] == r + q[..n];
      TrimEndOfPadded(r, q[..n]);
    } else {
      assert r + q == r;
    }
  }

  /** Whitespace in front of a string makes no difference to trim. */
  lemma TrimWsPrefix(w: string, t: string)
    requires AllWs(w)
    ensures Trim(w + t) == Trim(t)
  {
    TrimStartWsPrefix(w, t);
  }

  lemma {:induction false} TrimStartWsPrefix(w: string, t: string)
    requires AllWs(w)
    ensures TrimStart(w + t) == TrimStart(t)
  {
    if w != [] {
      assert (w + t)[1..] == w[1..] + t;
      TrimStartWsPrefix(w[1..], t);
    } else {
      assert w + t == t;
    }
  }

  /** trim is idempotent. */
  lemma TrimIdempotent(s: string)
    ensures Trim(Trim(s)) == Trim(s)
  {
    var r := Trim(s);
    TrimOfPadded([], r, []);
    assert [] + r + [] == r;
  }

  /** String.prototype.split('\n'): the pieces between consecutive line
      feeds, always at least one (the empty string splits into [""]). */
  function SplitLines(s: string): (lines: seq<string>)
    ensures |lines| >= 1
    ensures forall line :: line in lines ==> '\n' !in line
  {
    if s == [] then [""]
    else
      var rest := SplitLines(s[1..]);
      if s[0] == '\n' then [""] + rest
      else [[s[0]] + rest[0]] + rest[1..]
  }

  /** Array.prototype.join('\n'), the inverse of SplitLines. */
  function JoinLines(lines: seq<string>): string
    requires |lines| >= 1
  {
    if |lines| == 1 then lines[0] else lines[0] + "\n" + JoinLines(lines[1..])
  }

  /** Splitting loses nothing: joining the lines back gives the input. */
  lemma {:induction false} JoinSplitLines(s: string)
    ensures JoinLines(SplitLines(s)) == s
  {
    if s != [] {
      var rest := SplitLines(s[1..]);
      JoinSplitLines(s[1..]);
      if s[0] != '\n' {
        if |rest| == 1 {
          assert SplitLines(s) == [[s[0]] + rest[0]];
        } else {
          var lines := SplitLines(s);
          assert lines[1..] == rest[1..];
          assert s == [s[0]] + s[1..];
        }
      }
    }
  }

  /** A first line without a line feed, then a line feed, splits off as the
      first line. */
  lemma {:induction false} SplitLinesCons(a: string, b: string)
    requires '\n' !in a
    ensures SplitLines(a + "\n" + b) == [a] + SplitLines(b)
  {
    if a == [] {
      assert a + "\n" + b == "\n" + b;
      assert ("\n" + b)[1..] == b;
    } else {
      assert (a + "\n" + b)[1..] == a[1..] + "\n" + b;
      assert a[0] in a;
      assert forall c :: c in a[1..] ==> c in a;
      SplitLinesCons(a[1..], b);
      assert [a[0]] + a[1..] == a;
    }
  }

  /** Lines without line feeds are recovered from their join. */
  lemma {:induction false} SplitJoinLines(lines: seq<string>)
    requires |lines| >= 1
    requires forall line :: line in lines ==> '\n' !in line
    ensures SplitLines(JoinLines(lines)) == lines
  {
    if |lines| == 1 {
      SplitLinesNoFeed(lines[0]);
    } else {
      assert lines[0] in lines;
      assert forall line :: line in lines[1..] ==> line in lines;
      SplitJoinLines(lines[1..]);
      SplitLinesCons(lines[0], JoinLines(lines[1..]));
    }
  }

  lemma {:induction false} SplitLinesNoFeed(s: string)
    requires '\n' !in s
    ensures SplitLines(s) == [s]
  {
    if s != [] {
      assert forall c :: c in s[1..] ==> c in s;
      SplitLinesNoFeed(s[1..]);
      assert s == [s[0]] + s[1..];
    }
  }

  /** `pat` occurs in `s` starting at index `i`. */
  predicate OccursAt(s: string, pat: string, i: int) {
    0 <= i && i + |pat| <= |s| && s[i..i + |pat|] == pat
  }

  /** An occurrence inside a slice is an occurrence in the whole string. */
  lemma OccursInSlice(s: string, pat: string, lo: int, hi: int, i: int)
    requires 0 <= lo <= hi <= |s| && OccursAt(s[lo..hi], pat, i)
    ensures OccursAt(s, pat, lo + i) && lo + i + |pat| <= hi
  {
    var window := s[lo..hi][i..i + |pat|];
    assert forall j :: 0 <= j < |pat| ==> window[j] == s[lo + i + j];
    assert window == s[lo + i..lo + i + |pat|];
  }

  /** String.prototype.indexOf: the first index at which `pat` occurs,
      or -1 when it occurs nowhere. */
  function IndexOf(s: string, pat: string): (r: int)
    ensures -1 <= r <= |s|
    ensures r == -1 <==> forall i :: 0 <= i <= |s| ==> !OccursAt(s, pat, i)
    ensures r != -1 ==> OccursAt(s, pat, r) && forall i :: 0 <= i < r ==> !OccursAt(s, pat, i)
  {
    IndexFrom(s, pat, 0)
  }

  function IndexFrom(s: string, pat: string, from: nat): (r: int)
    requires from <= |s|
    ensures r == -1 || from <= r <= |s|
    ensures r == -1 ==> forall i :: from <= i <= |s| ==> !OccursAt(s, pat, i)
    ensures r != -1 ==> OccursAt(s, pat, r) && forall i :: from <= i < r ==> !OccursAt(s, pat, i)
    decreases |s| - from
  {
    if OccursAt(s, pat, from) then from
    else if from == |s| then -1
    else IndexFrom(s, pat, from + 1)
  }
}
