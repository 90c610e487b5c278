/** Character classes used by the heading utilities of the guide viewer:
    the ECMAScript regular-expression classes `\s` and `\w`, the CJK range
    kept in slugs, the line terminators that `.` refuses, and the
    per-character effect of String.prototype.toLowerCase. */
module Chars {

  /** The LineTerminator characters, the only ones `.` does not match. */
  predicate IsLineTerminator(c: char) {
    c == '\n' || c == '\r' || c == '\U{2028}' || c == '\U{2029}'
  }

  /** `\s` of an ECMAScript regular expression: WhiteSpace (tab, vertical tab,
      form feed, the byte-order mark and every space separator of category Zs)
      and LineTerminator. String.prototype.trim strips exactly this set. */
  predicate IsWs(c: char): (ws: bool)
    ensures IsLineTerminator(c) ==> ws
    ensures c == ' ' || c == '\t' ==> ws
  {
    if c <= ' ' then c == ' ' || ('\t' <= c <= '\r')
    else if c <= '\U{A0}' then c == '\U{A0}'
    else if c < '\U{2000}' then c == '\U{1680}'
    else if c <= '\U{3000}' then
      ('\U{2000}' <= c <= '\U{200A}') || c == '\U{2028}' || c == '\U{2029}'
      || c == '\U{202F}' || c == '\U{205F}' || c == '\U{3000}'
    else c == '\U{FEFF}'
  }

  predicate IsAsciiUpper(c: char) {
    'A' <= c <= 'Z'
  }

  /** `\w` without the `u` flag: ASCII letters, digits and underscore. */
  predicate IsWord(c: char) {
    ('a' <= c <= 'z') || IsAsciiUpper(c) || ('0' <= c <= '9') || c == '_'
  }

  /** The range `一-鿿` (CJK Unified Ideographs). */
  predicate IsCjk(c: char) {
    '\U{4E00}' <= c <= '\U{9FFF}'
  }

  /** The characters step 5 of slugify keeps: `[\w一-鿿-]`. */
  predicate IsSlugChar(c: char) {
    IsWord(c) || IsCjk(c) || c == '-'
  }

  /** The characters a slug carries besides its hyphens. */
  predicate IsLetter(c: char) {
    IsWord(c) || IsCjk(c)
  }

  /** The characters whose lowercase mapping differs from themselves and
      matters to slugify: ASCII capitals, KELVIN SIGN (to `k`) and LATIN
      CAPITAL LETTER I WITH DOT ABOVE (to `i` followed by COMBINING DOT ABOVE). */
  predicate ChangesCase(c: char) {
    IsAsciiUpper(c) || c == '\U{212A}' || c == '\U{130}'
  }

  /** toLowerCase of one character. */
  function LowerChar(c: char): (r: string)
    ensures 1 <= |r| <= 2
    ensures forall i :: 0 <= i < |r| ==> !ChangesCase(r[i])
    ensures !ChangesCase(c) ==> r == [c]
  {
    if IsAsciiUpper(c) then [(c as int + 32) as char]
    else if c == '\U{212A}' then ['k']
    else if c == '\U{130}' then ['i', '\U{307}']
    else [c]
  }

  /** Whitespace, brackets, colons and hyphens are not letters. */
  lemma NotLetters(c: char)
    requires IsWs(c) || c == '-' || c == '(' || c == ')' || c == ':'
      || c == '\U{FF08}' || c == '\U{FF09}' || c == '\U{FF1A}'
    ensures !IsLetter(c)
  {
  }

  /** No slug character is whitespace. */
  lemma SlugCharNotWs(c: char)
    requires IsSlugChar(c)
    ensures !IsWs(c)
  {
  }
}
