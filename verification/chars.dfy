/**
 * The character classes the clause matcher depends on: Python's `str.lower()`,
 * the whitespace class shared by the regular-expression class `\s` and
 * `str.strip()`, and the sentence terminators of the split pattern `[.!?]+`.
 */
module Chars {

  /** Whitespace as Python's `str.isspace()` (and `\s` in a `str` pattern) sees it. */
  predicate IsSpace(c: char) {
    || c == ' '
    || ('\t' <= c <= '\r')
    || ('\U{1C}' <= c <= '\U{1F}')
    || c == '\U{85}' || c == '\U{A0}' || c == '\U{1680}'
    || ('\U{2000}' <= c <= '\U{200A}')
    || c == '\U{2028}' || c == '\U{2029}' || c == '\U{202F}' || c == '\U{205F}' || c == '\U{3000}'
  }

  /** A character of the class `[.!?]` that ends a sentence. */
  predicate IsTerminator(c: char) {
    c == '.' || c == '!' || c == '?'
  }

  /**
   * Python's `str.lower()` on one character, for the Basic Latin and Latin-1
   * letters that the catalogue's Portuguese and English keywords use: an
   * upper-case letter moves to its lower-case partner, every other character
   * stays. It changes no whitespace and no terminator.
   */
  function Lower(c: char): (r: char)
    ensures IsSpace(r) <==> IsSpace(c)
    ensures IsTerminator(r) <==> IsTerminator(c)
    ensures c == ' ' ==> r == ' '
  {
    if 'A' <= c <= 'Z' || ('\U{C0}' <= c <= '\U{DE}' && c != '\U{D7}') then (c as int + 32) as char
    else c
  }

  /** Lower-casing a character twice is lower-casing it once. */
  lemma LowerIdempotent(c: char)
    ensures Lower(Lower(c)) == Lower(c)
  {
  }

  /** Python's `s.lower()`, one character at a time. */
  function LowerStr(s: string): (r: string)
    ensures |r| == |s|
    ensures forall k :: 0 <= k < |s| ==> r[k] == Lower(s[k])
  {
    if s == [] then [] else [Lower(s[0])] + LowerStr(s[1..])
  }

  /** Lower-casing every string of a list. */
  function LowerAll(ss: seq<string>): (r: seq<string>)
    ensures |r| == |ss|
    ensures forall k :: 0 <= k < |ss| ==> r[k] == LowerStr(ss[k])
  {
    if ss == [] then [] else [LowerStr(ss[0])] + LowerAll(ss[1..])
  }

  /** `s.lower().lower() == s.lower()`. */
  lemma LowerStrIdempotent(s: string)
    ensures LowerStr(LowerStr(s)) == LowerStr(s)
  {
    forall k | 0 <= k < |s|
      ensures LowerStr(LowerStr(s))[k] == LowerStr(s)[k]
    {
      LowerIdempotent(s[k]);
    }
  }

  /** Lower-casing commutes with concatenation. */
  lemma LowerStrAppend(a: string, b: string)
    ensures LowerStr(a + b) == LowerStr(a) + LowerStr(b)
  {
  }

  lemma LowerAllAppend(a: seq<string>, b: seq<string>)
    ensures LowerAll(a + b) == LowerAll(a) + LowerAll(b)
  {
  }

  lemma LowerAllTail(ss: seq<string>)
    requires |ss| > 0
    ensures LowerAll(ss)[1..] == LowerAll(ss[1..])
  {
  }

  lemma LowerAllSingleton(s: string)
    ensures LowerAll([s]) == [LowerStr(s)]
  {
  }
}
