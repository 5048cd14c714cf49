/**
 * String operations of Python the matcher uses: the substring test `needle in
 * hay`, `str.strip()`, and the contiguous-slice relation between strings.
 */
module Strings {
  import opened Chars

  /** `needle` occurs in `hay` starting at position `i`. */
  ghost predicate OccursAt(hay: string, needle: string, i: int) {
    0 <= i && i + |needle| <= |hay| && hay[i..i + |needle|] == needle
  }

  /** Python's `needle in hay`, tried position by position from the left. */
  function Contains(hay: string, needle: string): (b: bool)
    ensures b ==> |needle| <= |hay|
    ensures needle == [] ==> b
    decreases |hay|
  {
    if |needle| > |hay| then false
    else if hay[..|needle|] == needle then true
    else Contains(hay[1..], needle)
  }

  /** The substring test holds exactly when the needle occurs at some position. */
  lemma {:induction false} ContainsIffOccurs(hay: string, needle: string)
    ensures Contains(hay, needle) <==> IsInfix(needle, hay)
    decreases |hay|
  {
    if |needle| > |hay| {
    } else if hay[..|needle|] == needle {
      assert OccursAt(hay, needle, 0);
    } else {
      ContainsIffOccurs(hay[1..], needle);
      if Contains(hay[1..], needle) {
        var i :| OccursAt(hay[1..], needle, i);
        OccursAtShift(hay, needle, i + 1);
      } else {
        forall i
          ensures !OccursAt(hay, needle, i)
        {
          if i > 0 {
            OccursAtShift(hay, needle, i);
          }
        }
      }
    }
  }

  /** Past the first position, an occurrence in `hay` is one in its tail, one position earlier. */
  lemma OccursAtShift(hay: string, needle: string, i: int)
    requires i > 0 && |hay| > 0
    ensures OccursAt(hay, needle, i) <==> OccursAt(hay[1..], needle, i - 1)
  {
    if i + |needle| <= |hay| {
      assert hay[1..][i - 1..i - 1 + |needle|] == hay[i..i + |needle|];
    }
  }

  /** Every character of `s` is whitespace. */
  ghost predicate AllSpace(s: string) {
    forall k :: 0 <= k < |s| ==> IsSpace(s[k])
  }

  /** `s` with its longest prefix of characters satisfying `p` removed. */
  function DropWhile(s: string, p: char -> bool): (r: string)
    ensures |r| <= |s| && r == s[|s| - |r|..]
    ensures forall k :: 0 <= k < |s| - |r| ==> p(s[k])
    ensures r == [] || !p(r[0])
  {
    if |s| > 0 && p(s[0]) then
      var r := DropWhile(s[1..], p);
      assert s[1..][|s| - 1 - |r|..] == s[|s| - |r|..];
      assert forall k :: 1 <= k < |s| - |r| ==> s[k] == s[1..][k - 1];
      r
    else s
  }

  /** Dropping stops inside `x` when `x` has a character failing `p`, and `y` is left whole. */
  lemma {:induction false} DropWhileStopsInside(x: string, y: string, p: char -> bool)
    requires DropWhile(x, p) != []
    ensures DropWhile(x + y, p) == DropWhile(x, p) + y
    decreases |x|
  {
    assert (x + y)[0] == x[0];
    if p(x[0]) {
      assert (x + y)[1..] == x[1..] + y;
      DropWhileStopsInside(x[1..], y, p);
    }
  }

  /** When all of `x` satisfies `p`, dropping goes on into `y`. */
  lemma {:induction false} DropWhilePassesOver(x: string, y: string, p: char -> bool)
    requires forall k :: 0 <= k < |x| ==> p(x[k])
    ensures DropWhile(x + y, p) == DropWhile(y, p)
    decreases |x|
  {
    if x == [] {
      assert x + y == y;
    } else {
      assert (x + y)[0] == x[0];
      assert (x + y)[1..] == x[1..] + y;
      assert forall k :: 0 <= k < |x[1..]| ==> x[1..][k] == x[k + 1];
      DropWhilePassesOver(x[1..], y, p);
    }
  }

  /** `s` with its trailing whitespace removed. */
  function TrimEnd(s: string): (r: string)
    ensures |r| <= |s| && r == s[..|r|]
    ensures forall k :: |r| <= k < |s| ==> IsSpace(s[k])
    ensures r == [] || !IsSpace(r[|r| - 1])
  {
    if |s| > 0 && IsSpace(s[|s| - 1]) then TrimEnd(s[..|s| - 1]) else s
  }

  /**
   * Python's `s.strip()`: the result is the slice of `s` left after removing
   * whitespace at both ends, and it neither starts nor ends with whitespace.
   */
  function Strip(s: string): (r: string)
    ensures |r| <= |s|
    ensures r == [] || (!IsSpace(r[0]) && !IsSpace(r[|r| - 1]))
  {
    TrimEnd(DropWhile(s, IsSpace))
  }

  /** How many whitespace characters `Strip` removes from the front of `s`. */
  function StripOffset(s: string): nat {
    |s| - |DropWhile(s, IsSpace)|
  }

  /** The characters before the offset are whitespace. */
  lemma StripOffsetSkipsSpace(s: string)
    ensures StripOffset(s) <= |s| && AllSpace(s[..StripOffset(s)])
  {
    var i := StripOffset(s);
    forall k | 0 <= k < i
      ensures IsSpace(s[..i][k])
    {
      assert s[..i][k] == s[k];
    }
  }

  /** The characters after the stripped text are whitespace. */
  lemma StripTailIsSpace(s: string)
    ensures var i, r := StripOffset(s), Strip(s);
      i + |r| <= |s| && AllSpace(s[i + |r|..])
  {
    var t := DropWhile(s, IsSpace);
    var r := TrimEnd(t);
    var i := |s| - |t|;
    var tail := s[i + |r|..];
    assert t == s[i..] && r == t[..|r|];
    assert tail == t[|r|..];
    forall k | 0 <= k < |tail|
      ensures IsSpace(tail[k])
    {
      assert tail[k] == t[|r| + k];
    }
  }

  /** What `Strip` removes is whitespace, at the two ends only. */
  lemma StripSlice(s: string)
    ensures var i, r := StripOffset(s), Strip(s);
      && i + |r| <= |s|
      && r == s[i..i + |r|]
      && AllSpace(s[..i])
      && AllSpace(s[i + |r|..])
  {
    var t := DropWhile(s, IsSpace);
    var r := TrimEnd(t);
    assert r == s[|s| - |t|..][..|r|];
    StripOffsetSkipsSpace(s);
    StripTailIsSpace(s);
  }

  /** `a` is a contiguous slice of `b`: it occurs in `b` at some position. */
  ghost predicate IsInfix(a: string, b: string) {
    exists i :: OccursAt(b, a, i)
  }

  lemma StripIsInfix(s: string)
    ensures IsInfix(Strip(s), s)
  {
    var r := Strip(s);
    StripSlice(s);
    assert OccursAt(s, r, StripOffset(s));
  }

  /** A slice of a slice is a slice. */
  lemma InfixTransitive(a: string, b: string, c: string)
    requires IsInfix(a, b) && IsInfix(b, c)
    ensures IsInfix(a, c)
  {
    var i :| OccursAt(b, a, i);
    var i' :| OccursAt(c, b, i');
    assert forall k :: 0 <= k < |a| ==> a[k] == b[i + k];
    assert forall m :: 0 <= m < |b| ==> b[m] == c[i' + m];
    assert OccursAt(c, a, i' + i);
  }

  /** Stripping a string that is already stripped changes nothing. */
  lemma StripIdempotent(s: string)
    ensures Strip(Strip(s)) == Strip(s)
  {
    var r := Strip(s);
    var r' := Strip(r);
    StripSlice(r);
  }

  /** Stripping a string made only of whitespace leaves nothing. */
  lemma StripAllSpace(s: string)
    requires AllSpace(s)
    ensures Strip(s) == []
  {
    var r := Strip(s);
    StripSlice(s);
  }

  /** Lower-casing commutes with dropping a prefix of a case-blind character class. */
  lemma {:induction false} DropWhileLower(s: string, p: char -> bool)
    requires forall c :: p(Lower(c)) == p(c)
    ensures DropWhile(LowerStr(s), p) == LowerStr(DropWhile(s, p))
  {
    if |s| > 0 && p(s[0]) {
      assert LowerStr(s)[1..] == LowerStr(s[1..]);
      DropWhileLower(s[1..], p);
    }
  }

  lemma {:induction false} TrimEndLower(s: string)
    ensures TrimEnd(LowerStr(s)) == LowerStr(TrimEnd(s))
  {
    if |s| > 0 && IsSpace(s[|s| - 1]) {
      assert LowerStr(s)[..|s| - 1] == LowerStr(s[..|s| - 1]);
      TrimEndLower(s[..|s| - 1]);
    }
  }

  /** `s.lower().strip() == s.strip().lower()`. */
  lemma StripLower(s: string)
    ensures Strip(LowerStr(s)) == LowerStr(Strip(s))
  {
    DropWhileLower(s, IsSpace);
    TrimEndLower(DropWhile(s, IsSpace));
  }
}
