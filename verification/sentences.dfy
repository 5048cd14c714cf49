/**
 * The sentence splitter `_split_sentences`: collapse every run of whitespace
 * to one space, split on runs of `.`, `!` and `?`, strip each fragment and
 * keep the fragments longer than ten characters.
 */
module Sentences {
  import opened Chars
  import opened Strings

  /** A stripped fragment must be longer than this to count as a sentence. */
  const MinSentenceExclusive: nat := 10

  /** No two adjacent characters of `s` are both whitespace. */
  ghost predicate NoDoubleSpace(s: string) {
    forall k :: 0 <= k < |s| - 1 ==> !(IsSpace(s[k]) && IsSpace(s[k + 1]))
  }

  /** The only whitespace character in `s` is the plain space. */
  ghost predicate OnlyPlainSpaces(s: string) {
    forall k :: 0 <= k < |s| && IsSpace(s[k]) ==> s[k] == ' '
  }

  /** `s` holds no sentence terminator. */
  ghost predicate NoTerminator(s: string) {
    forall k :: 0 <= k < |s| ==> !IsTerminator(s[k])
  }

  /** `s` without its whitespace characters. */
  function RemoveSpaces(s: string): string {
    if s == [] then [] else (if IsSpace(s[0]) then [] else [s[0]]) + RemoveSpaces(s[1..])
  }

  /** `s` without its terminator characters. */
  function RemoveTerminators(s: string): string {
    if s == [] then [] else (if IsTerminator(s[0]) then [] else [s[0]]) + RemoveTerminators(s[1..])
  }

  /**
   * `re.sub(r'\s+', ' ', s)`: each maximal run of whitespace becomes a single
   * space. The result starts with whitespace exactly when `s` does, and has
   * no whitespace other than isolated plain spaces.
   */
  function Collapse(s: string): (r: string)
    ensures |r| <= |s|
    ensures |s| > 0 ==> |r| > 0 && (IsSpace(r[0]) <==> IsSpace(s[0]))
    ensures OnlyPlainSpaces(r)
    ensures NoDoubleSpace(r)
    decreases |s|
  {
    if s == [] then []
    else if IsSpace(s[0]) then
      var rest := DropWhile(s, IsSpace);
      [' '] + Collapse(rest)
    else [s[0]] + Collapse(s[1..])
  }

  /** Only whitespace changes: the non-whitespace text is kept, in order. */
  lemma {:induction false} CollapseKeepsText(s: string)
    ensures RemoveSpaces(Collapse(s)) == RemoveSpaces(s)
    decreases |s|
  {
    if s == [] {
    } else if IsSpace(s[0]) {
      var rest := DropWhile(s, IsSpace);
      CollapseKeepsText(rest);
      assert RemoveSpaces(Collapse(s)) == RemoveSpaces(Collapse(rest));
      RemoveSpacesOfSpacePrefix(s, |s| - |rest|);
    } else {
      CollapseKeepsText(s[1..]);
    }
  }

  lemma {:induction false} RemoveSpacesOfSpacePrefix(s: string, n: nat)
    requires n <= |s|
    requires forall k :: 0 <= k < n ==> IsSpace(s[k])
    ensures RemoveSpaces(s) == RemoveSpaces(s[n..])
    decreases n
  {
    if n > 0 {
      RemoveSpacesOfSpacePrefix(s[1..], n - 1);
      assert s[1..][n - 1..] == s[n..];
    }
  }

  /** Collapsing whitespace twice is collapsing it once. */
  lemma {:induction false} CollapseIdempotent(s: string)
    ensures Collapse(Collapse(s)) == Collapse(s)
    decreases |s|
  {
    if s == [] {
    } else if IsSpace(s[0]) {
      var rest := DropWhile(s, IsSpace);
      CollapseIdempotent(rest);
      var c := Collapse(rest);
      assert Collapse(s) == [' '] + c;
      assert c == [] || !IsSpace(c[0]);
      assert DropWhile([' '] + c, IsSpace) == c;
    } else {
      CollapseIdempotent(s[1..]);
      assert Collapse(s)[1..] == Collapse(s[1..]);
    }
  }

  /**
   * A text that does not end in whitespace shares no whitespace run with
   * what follows it, so the two parts collapse independently.
   */
  lemma {:induction false} CollapseAppend(a: string, m: string)
    requires a == [] || !IsSpace(a[|a| - 1])
    ensures Collapse(a + m) == Collapse(a) + Collapse(m)
    decreases |a|
  {
    if a == [] {
      assert a + m == m;
    } else if IsSpace(a[0]) {
      var d := DropWhile(a, IsSpace);
      assert !IsSpace(a[|a| - 1]);
      assert d != [] && d[|d| - 1] == a[|a| - 1];
      CollapseAppend(d, m);
      CollapseAppendSpaceStep(a, m);
    } else {
      CollapseAppend(a[1..], m);
      CollapseAppendCharStep(a, m);
    }
  }

  lemma CollapseAppendSpaceStep(a: string, m: string)
    requires a != [] && IsSpace(a[0])
    requires DropWhile(a, IsSpace) != []
    requires var d := DropWhile(a, IsSpace); Collapse(d + m) == Collapse(d) + Collapse(m)
    ensures Collapse(a + m) == Collapse(a) + Collapse(m)
  {
    var d := DropWhile(a, IsSpace);
    var x := a + m;
    DropWhileStopsInside(a, m, IsSpace);
    assert x[0] == a[0];
    CollapseSpaceHead(x);
    CollapseSpaceHead(a);
    Associative([' '], Collapse(d), Collapse(m));
  }

  lemma CollapseAppendCharStep(a: string, m: string)
    requires a != [] && !IsSpace(a[0])
    requires Collapse(a[1..] + m) == Collapse(a[1..]) + Collapse(m)
    ensures Collapse(a + m) == Collapse(a) + Collapse(m)
  {
    var x := a + m;
    TailOfAppend(a, m);
    CollapseCharHead(x);
    CollapseCharHead(a);
    Associative([a[0]], Collapse(a[1..]), Collapse(m));
  }

  /**
   * `re.sub(r'\s+', ' ', s)` replaces each maximal whitespace run by one
   * space: a run `w` between a part `a` that does not end in whitespace and
   * a part `b` that does not start with it becomes exactly one space, and
   * `a` and `b` are collapsed on their own.
   */
  lemma CollapseRun(a: string, w: string, b: string)
    requires a == [] || !IsSpace(a[|a| - 1])
    requires w != [] && AllSpace(w)
    requires b == [] || !IsSpace(b[0])
    ensures Collapse(a + w + b) == Collapse(a) + [' '] + Collapse(b)
  {
    Associative(a, w, b);
    CollapseAppend(a, w + b);
    CollapseRunFirst(w, b);
    Associative(Collapse(a), [' '], Collapse(b));
  }

  /** A text opening with a whitespace run collapses it to one space. */
  lemma CollapseRunFirst(w: string, b: string)
    requires w != [] && AllSpace(w)
    requires b == [] || !IsSpace(b[0])
    ensures Collapse(w + b) == [' '] + Collapse(b)
  {
    var x := w + b;
    assert x[0] == w[0];
    DropWhilePassesOver(w, b, IsSpace);
    assert DropWhile(b, IsSpace) == b;
    CollapseSpaceHead(x);
  }

  lemma TailOfAppend(a: string, m: string)
    requires a != []
    ensures (a + m)[0] == a[0] && (a + m)[1..] == a[1..] + m
  {
  }

  /** Concatenation is associative. */
  lemma Associative<T>(p: seq<T>, q: seq<T>, r: seq<T>)
    ensures p + (q + r) == (p + q) + r
  {
  }

  lemma CollapseSpaceHead(x: string)
    requires x != [] && IsSpace(x[0])
    ensures Collapse(x) == [' '] + Collapse(DropWhile(x, IsSpace))
  {
  }

  lemma CollapseCharHead(x: string)
    requires x != [] && !IsSpace(x[0])
    ensures Collapse(x) == [x[0]] + Collapse(x[1..])
  {
  }

  /** Text without whitespace is left as it is. */
  lemma {:induction false} CollapseNoSpace(s: string)
    requires forall k :: 0 <= k < |s| ==> !IsSpace(s[k])
    ensures Collapse(s) == s
    decreases |s|
  {
    if s != [] {
      assert forall k :: 0 <= k < |s[1..]| ==> s[1..][k] == s[k + 1];
      CollapseNoSpace(s[1..]);
    }
  }

  /**
   * `re.split(r'[.!?]+', s)`: the fragments between maximal runs of
   * terminators. A run at the start or the end yields an empty fragment
   * there, and the empty string yields one empty fragment.
   */
  function SplitOnTerminators(s: string): (r: seq<string>)
    ensures |r| >= 1
    decreases |s|
  {
    if s == [] then [[]]
    else if IsTerminator(s[0]) then [[]] + SplitOnTerminators(DropWhile(s, IsTerminator))
    else
      var rest := SplitOnTerminators(s[1..]);
      [[s[0]] + rest[0]] + rest[1..]
  }

  /** The same split made on every single terminator character. */
  function SplitOnEachTerminator(s: string): (r: seq<string>)
    ensures |r| >= 1
  {
    if s == [] then [[]]
    else if IsTerminator(s[0]) then [[]] + SplitOnEachTerminator(s[1..])
    else
      var rest := SplitOnEachTerminator(s[1..]);
      [[s[0]] + rest[0]] + rest[1..]
  }

  /** The fragments laid end to end. */
  function Concat(fs: seq<string>): string {
    if fs == [] then [] else fs[0] + Concat(fs[1..])
  }

  /** One fragment's contribution to the list comprehension below. */
  function KeepOne(f: string): (r: seq<string>)
    ensures |r| <= 1
    ensures forall e :: e in r ==> |e| > MinSentenceExclusive
  {
    var t := Strip(f);
    if |t| > MinSentenceExclusive then [t] else []
  }

  /** `[f.strip() for f in fs if len(f.strip()) > 10]`. */
  function Keep(fs: seq<string>): (r: seq<string>)
    ensures |r| <= |fs|
    ensures forall e :: e in r ==> |e| > MinSentenceExclusive
  {
    if fs == [] then [] else KeepOne(fs[0]) + Keep(fs[1..])
  }

  /** `_split_sentences(text)`. */
  function SplitSentences(text: string): (r: seq<string>)
    ensures forall e :: e in r ==> |e| > MinSentenceExclusive
  {
    Keep(SplitOnTerminators(Collapse(text)))
  }

  // ----- the split -----

  /** A slice of a slice of `s` is a slice of `s`; a slice of a suffix too. */
  lemma InfixOfSuffix(f: string, s: string, d: nat)
    requires d <= |s| && IsInfix(f, s[d..])
    ensures IsInfix(f, s)
  {
    var i :| OccursAt(s[d..], f, i);
    assert f == s[d + i..d + i + |f|];
    assert OccursAt(s, f, d + i);
  }

  /** The first fragment of the split is a terminator-free prefix of its input. */
  lemma {:induction false} SplitHead(s: string)
    ensures var h := SplitOnTerminators(s)[0]; |h| <= |s| && h == s[..|h|] && NoTerminator(h)
    decreases |s|
  {
    if s != [] && !IsTerminator(s[0]) {
      SplitHead(s[1..]);
      var h' := SplitOnTerminators(s[1..])[0];
      assert [s[0]] + h' == s[..|h'| + 1];
    }
  }

  /** Each fragment of the split is a terminator-free slice of its input. */
  lemma {:induction false} SplitFragments(s: string)
    ensures forall f :: f in SplitOnTerminators(s) ==> NoTerminator(f) && IsInfix(f, s)
    decreases |s|
  {
    var r := SplitOnTerminators(s);
    SplitHead(s);
    assert OccursAt(s, r[0], 0);
    if s == [] {
    } else if IsTerminator(s[0]) {
      var u := DropWhile(s, IsTerminator);
      SplitFragments(u);
      forall f | f in r[1..]
        ensures NoTerminator(f) && IsInfix(f, s)
      {
        InfixOfSuffix(f, s, |s| - |u|);
      }
      assert forall f :: f in r ==> f == r[0] || f in r[1..];
    } else {
      var rest := SplitOnTerminators(s[1..]);
      SplitFragments(s[1..]);
      forall f | f in r[1..]
        ensures NoTerminator(f) && IsInfix(f, s)
      {
        assert f in rest;
        InfixOfSuffix(f, s, 1);
      }
      assert forall f :: f in r ==> f == r[0] || f in r[1..];
    }
  }

  lemma {:induction false} RemoveTerminatorsOfPrefix(s: string, n: nat)
    requires n <= |s|
    requires forall k :: 0 <= k < n ==> IsTerminator(s[k])
    ensures RemoveTerminators(s) == RemoveTerminators(s[n..])
    decreases n
  {
    if n > 0 {
      RemoveTerminatorsOfPrefix(s[1..], n - 1);
      assert s[1..][n - 1..] == s[n..];
    }
  }

  /** Laid end to end, the fragments give back the input minus its terminators. */
  lemma {:induction false} SplitConcat(s: string)
    ensures Concat(SplitOnTerminators(s)) == RemoveTerminators(s)
    decreases |s|
  {
    if s == [] {
    } else if IsTerminator(s[0]) {
      var u := DropWhile(s, IsTerminator);
      SplitConcat(u);
      RemoveTerminatorsOfPrefix(s, |s| - |u|);
      SplitTerminatorHead(s);
      ConcatHead([[]] + SplitOnTerminators(u));
      assert ([[]] + SplitOnTerminators(u))[1..] == SplitOnTerminators(u);
    } else {
      SplitConcat(s[1..]);
      SplitConcatCharStep(s);
    }
  }

  lemma SplitConcatCharStep(s: string)
    requires s != [] && !IsTerminator(s[0])
    requires Concat(SplitOnTerminators(s[1..])) == RemoveTerminators(s[1..])
    ensures Concat(SplitOnTerminators(s)) == RemoveTerminators(s)
  {
    var rest := SplitOnTerminators(s[1..]);
    var r := [[s[0]] + rest[0]] + rest[1..];
    SplitCharHead(s);
    ConcatHead(r);
    ConcatHead(rest);
    assert r[0] == [s[0]] + rest[0] && r[1..] == rest[1..];
    Associative([s[0]], rest[0], Concat(rest[1..]));
  }

  lemma SplitTerminatorHead(s: string)
    requires s != [] && IsTerminator(s[0])
    ensures SplitOnTerminators(s) == [[]] + SplitOnTerminators(DropWhile(s, IsTerminator))
  {
  }

  lemma SplitCharHead(s: string)
    requires s != [] && !IsTerminator(s[0])
    ensures var rest := SplitOnTerminators(s[1..]); SplitOnTerminators(s) == [[s[0]] + rest[0]] + rest[1..]
  {
  }

  lemma ConcatHead(fs: seq<string>)
    requires fs != []
    ensures Concat(fs) == fs[0] + Concat(fs[1..])
  {
  }

  /** A non-empty run of sentence terminators, as `[.!?]+` matches it. */
  ghost predicate TerminatorRun(t: string) {
    |t| > 0 && forall k :: 0 <= k < |t| ==> IsTerminator(t[k])
  }

  /** The fragments `fs` with the separators `seps` put back between them. */
  function Join(fs: seq<string>, seps: seq<string>): string
    requires |fs| == |seps| + 1
    decreases |seps|
  {
    if |seps| == 0 then fs[0] else fs[0] + seps[0] + Join(fs[1..], seps[1..])
  }

  /** The terminator runs `SplitOnTerminators` cuts at, from left to right. */
  function Separators(s: string): (r: seq<string>)
    ensures |r| == |SplitOnTerminators(s)| - 1
    ensures forall i :: 0 <= i < |r| ==> TerminatorRun(r[i])
    decreases |s|
  {
    if s == [] then []
    else if IsTerminator(s[0]) then
      var u := DropWhile(s, IsTerminator);
      [s[..|s| - |u|]] + Separators(u)
    else Separators(s[1..])
  }

  lemma JoinConsHead(c: char, fs: seq<string>, seps: seq<string>)
    requires |fs| == |seps| + 1
    ensures Join([[c] + fs[0]] + fs[1..], seps) == [c] + Join(fs, seps)
  {
    var gs := [[c] + fs[0]] + fs[1..];
    if |seps| > 0 {
      assert gs[1..] == fs[1..];
    }
  }

  /**
   * The split cuts exactly at the maximal terminator runs: putting the runs
   * back between the terminator-free fragments gives back the input, and
   * no two runs are adjacent, since every fragment between two of them is
   * non-empty.
   */
  lemma SplitRoundTrip(s: string)
    ensures var fs, seps := SplitOnTerminators(s), Separators(s);
      && |seps| == |fs| - 1
      && (forall i :: 0 <= i < |seps| ==> TerminatorRun(seps[i]))
      && (forall i :: 0 <= i < |fs| ==> NoTerminator(fs[i]))
      && (forall i :: 0 < i < |fs| - 1 ==> fs[i] != [])
      && Join(fs, seps) == s
  {
    var fs := SplitOnTerminators(s);
    SplitFragments(s);
    assert forall i :: 0 <= i < |fs| ==> fs[i] in fs;
    SplitInteriorNonEmpty(s);
    JoinSplit(s);
  }

  /** Between two terminator runs there is always some text. */
  lemma {:induction false} SplitInteriorNonEmpty(s: string)
    ensures var fs := SplitOnTerminators(s); forall i :: 0 < i < |fs| - 1 ==> fs[i] != []
    decreases |s|
  {
    if s == [] {
    } else if IsTerminator(s[0]) {
      var u := DropWhile(s, IsTerminator);
      SplitInteriorNonEmpty(u);
      SplitTerminatorHead(s);
      if u != [] {
        SplitCharHead(u);
      }
    } else {
      SplitInteriorNonEmpty(s[1..]);
      SplitCharHead(s);
    }
  }

  lemma {:induction false} JoinSplit(s: string)
    ensures Join(SplitOnTerminators(s), Separators(s)) == s
    decreases |s|
  {
    if s == [] {
    } else if IsTerminator(s[0]) {
      var u := DropWhile(s, IsTerminator);
      JoinSplit(u);
      JoinSplitTerminatorStep(s);
    } else {
      JoinSplit(s[1..]);
      JoinSplitCharStep(s);
    }
  }

  lemma JoinSplitTerminatorStep(s: string)
    requires s != [] && IsTerminator(s[0])
    requires var u := DropWhile(s, IsTerminator); Join(SplitOnTerminators(u), Separators(u)) == u
    ensures Join(SplitOnTerminators(s), Separators(s)) == s
  {
    var u := DropWhile(s, IsTerminator);
    var run := s[..|s| - |u|];
    SplitTerminatorHead(s);
    SeparatorsTerminatorHead(s);
    JoinEmptyCons(run, SplitOnTerminators(u), Separators(u));
    SliceApart(s, |s| - |u|);
  }

  lemma SeparatorsTerminatorHead(s: string)
    requires s != [] && IsTerminator(s[0])
    ensures var u := DropWhile(s, IsTerminator); Separators(s) == [s[..|s| - |u|]] + Separators(u)
  {
  }

  lemma JoinEmptyCons(run: string, fs: seq<string>, seps: seq<string>)
    requires |fs| == |seps| + 1
    ensures Join([[]] + fs, [run] + seps) == run + Join(fs, seps)
  {
    var gs, ts := [[]] + fs, [run] + seps;
    assert gs[0] == [] && gs[1..] == fs;
    assert ts[0] == run && ts[1..] == seps;
    assert Join(gs, ts) == gs[0] + ts[0] + Join(fs, seps);
    assert gs[0] + ts[0] == run;
  }

  lemma SliceApart(s: string, n: nat)
    requires n <= |s|
    ensures s == s[..n] + s[n..]
  {
  }

  lemma JoinSplitCharStep(s: string)
    requires s != [] && !IsTerminator(s[0])
    requires Join(SplitOnTerminators(s[1..]), Separators(s[1..])) == s[1..]
    ensures Join(SplitOnTerminators(s), Separators(s)) == s
  {
    SplitCharHead(s);
    assert Separators(s) == Separators(s[1..]);
    JoinConsHead(s[0], SplitOnTerminators(s[1..]), Separators(s[1..]));
    assert s == [s[0]] + s[1..];
  }

  /** Leading terminators only add empty fragments, which `Keep` drops. */
  lemma {:induction false} KeepEachSkipsTerminators(s: string, n: nat)
    requires n <= |s|
    requires forall k :: 0 <= k < n ==> IsTerminator(s[k])
    ensures Keep(SplitOnEachTerminator(s)) == Keep(SplitOnEachTerminator(s[n..]))
    decreases n
  {
    if n > 0 {
      assert Strip([]) == [];
      assert Keep(SplitOnEachTerminator(s)) == Keep(SplitOnEachTerminator(s[1..]));
      KeepEachSkipsTerminators(s[1..], n - 1);
      assert s[1..][n - 1..] == s[n..];
    }
  }

  /** The filter works fragment by fragment and keeps their order. */
  lemma {:induction false} KeepAppend(a: seq<string>, b: seq<string>)
    ensures Keep(a + b) == Keep(a) + Keep(b)
    decreases |a|
  {
    if a == [] {
      assert a + b == b;
    } else {
      assert (a + b)[0] == a[0];
      assert (a + b)[1..] == a[1..] + b;
      KeepAppend(a[1..], b);
      KeepHead(a + b);
      KeepHead(a);
      Associative(KeepOne(a[0]), Keep(a[1..]), Keep(b));
    }
  }

  lemma KeepHead(fs: seq<string>)
    requires fs != []
    ensures Keep(fs) == KeepOne(fs[0]) + Keep(fs[1..])
  {
  }

  lemma KeepCons(f: string, fs: seq<string>)
    ensures Keep([f] + fs) == Keep([f]) + Keep(fs)
  {
    assert ([f] + fs)[1..] == fs;
  }

  /**
   * Splitting on runs of terminators and splitting on each terminator keep
   * the same sentences: the extra fragments of the second are empty.
   */
  lemma {:induction false} SplitRunsAsEach(s: string)
    ensures SplitOnTerminators(s)[0] == SplitOnEachTerminator(s)[0]
    ensures Keep(SplitOnTerminators(s)[1..]) == Keep(SplitOnEachTerminator(s)[1..])
    ensures Keep(SplitOnTerminators(s)) == Keep(SplitOnEachTerminator(s))
    decreases |s|
  {
    var a := SplitOnTerminators(s);
    var b := SplitOnEachTerminator(s);
    if s == [] {
    } else if IsTerminator(s[0]) {
      var u := DropWhile(s, IsTerminator);
      SplitRunsAsEach(u);
      assert a[1..] == SplitOnTerminators(u);
      assert b[1..] == SplitOnEachTerminator(s[1..]);
      KeepEachSkipsTerminators(s, |s| - |u|);
      assert Strip([]) == [];
      KeepCons([], SplitOnEachTerminator(s[1..]));
      KeepCons(a[0], a[1..]);
      KeepCons(b[0], b[1..]);
      assert a == [a[0]] + a[1..] && b == [b[0]] + b[1..];
    } else {
      SplitRunsAsEach(s[1..]);
      var ra := SplitOnTerminators(s[1..]);
      var rb := SplitOnEachTerminator(s[1..]);
      assert a[1..] == ra[1..] && b[1..] == rb[1..];
      KeepCons(a[0], a[1..]);
      KeepCons(b[0], b[1..]);
      assert a == [a[0]] + a[1..] && b == [b[0]] + b[1..];
    }
  }

  // ----- the filter -----

  /**
   * `Keep` returns exactly the stripped fragments longer than ten
   * characters: each result comes from some fragment, and each long enough
   * fragment is kept.
   */
  lemma KeepExactly(fs: seq<string>)
    ensures forall e :: e in Keep(fs) ==> |e| > MinSentenceExclusive && exists f :: f in fs && e == Strip(f)
    ensures forall f :: f in fs && |Strip(f)| > MinSentenceExclusive ==> Strip(f) in Keep(fs)
  {
    forall e | e in Keep(fs)
      ensures |e| > MinSentenceExclusive && exists f :: f in fs && e == Strip(f)
    {
      var f := KeepWitness(fs, e);
    }
    forall f | f in fs && |Strip(f)| > MinSentenceExclusive
      ensures Strip(f) in Keep(fs)
    {
      KeepKeeps(fs, f);
    }
  }

  /** The fragment a kept sentence was stripped from. */
  lemma {:induction false} KeepWitness(fs: seq<string>, e: string) returns (f: string)
    requires e in Keep(fs)
    ensures f in fs && e == Strip(f) && |e| > MinSentenceExclusive
    decreases |fs|
  {
    KeepHead(fs);
    if e in KeepOne(fs[0]) {
      f := fs[0];
    } else {
      f := KeepWitness(fs[1..], e);
    }
  }

  /** A fragment long enough once stripped is kept. */
  lemma {:induction false} KeepKeeps(fs: seq<string>, f: string)
    requires f in fs && |Strip(f)| > MinSentenceExclusive
    ensures Strip(f) in Keep(fs)
    decreases |fs|
  {
    KeepHead(fs);
    if f != fs[0] {
      assert f in fs[1..];
      KeepKeeps(fs[1..], f);
    }
  }

  lemma InfixKeepsShape(a: string, b: string)
    requires IsInfix(a, b)
    ensures NoDoubleSpace(b) ==> NoDoubleSpace(a)
    ensures OnlyPlainSpaces(b) ==> OnlyPlainSpaces(a)
    ensures NoTerminator(b) ==> NoTerminator(a)
  {
    var i :| OccursAt(b, a, i);
    assert forall k :: 0 <= k < |a| ==> a[k] == b[i + k];
  }

  /**
   * Every sentence returned is longer than ten characters, has no
   * terminator, no whitespace at either end, no whitespace other than single
   * plain spaces, and is a slice of the whitespace-collapsed text.
   */
  lemma SentenceShape(text: string)
    ensures forall e :: e in SplitSentences(text) ==>
      && |e| > MinSentenceExclusive
      && NoTerminator(e)
      && !IsSpace(e[0]) && !IsSpace(e[|e| - 1])
      && NoDoubleSpace(e)
      && OnlyPlainSpaces(e)
      && IsInfix(e, Collapse(text))
      && Strip(e) == e
  {
    forall e | e in SplitSentences(text)
      ensures
        && |e| > MinSentenceExclusive
        && NoTerminator(e)
        && !IsSpace(e[0]) && !IsSpace(e[|e| - 1])
        && NoDoubleSpace(e)
        && OnlyPlainSpaces(e)
        && IsInfix(e, Collapse(text))
        && Strip(e) == e
    {
      SentenceEnds(text, e);
      SentenceCharacters(text, e);
      SentenceInfix(text, e);
      SentenceStripped(text, e);
    }
  }

  /** A sentence is longer than ten characters and has no whitespace at either end. */
  lemma SentenceEnds(text: string, e: string)
    requires e in SplitSentences(text)
    ensures |e| > MinSentenceExclusive && !IsSpace(e[0]) && !IsSpace(e[|e| - 1])
  {
    var f := KeptFragment(Collapse(text), e);
    StrippedEnds(f, e);
  }

  lemma StrippedEnds(f: string, e: string)
    requires e == Strip(f) && |e| > MinSentenceExclusive
    ensures !IsSpace(e[0]) && !IsSpace(e[|e| - 1])
  {
  }

  /** A sentence has no terminator, and its only whitespace is single plain spaces. */
  lemma SentenceCharacters(text: string, e: string)
    requires e in SplitSentences(text)
    ensures NoTerminator(e) && NoDoubleSpace(e) && OnlyPlainSpaces(e)
  {
    var c := Collapse(text);
    var f := KeptFragment(c, e);
    StrippedFragmentShape(f, c);
  }

  /** A sentence is a slice of the whitespace-collapsed text. */
  lemma SentenceInfix(text: string, e: string)
    requires e in SplitSentences(text)
    ensures IsInfix(e, Collapse(text))
  {
    var c := Collapse(text);
    var f := KeptFragment(c, e);
    StrippedFragmentShape(f, c);
  }

  /** A sentence kept from the split of `c` is a long enough stripped fragment of it. */
  lemma KeptFragment(c: string, e: string) returns (f: string)
    requires e in Keep(SplitOnTerminators(c))
    ensures NoTerminator(f) && IsInfix(f, c) && e == Strip(f) && |e| > MinSentenceExclusive
  {
    f := KeepWitness(SplitOnTerminators(c), e);
    FragmentShape(c, f);
  }

  /** A stripped terminator-free slice of collapsed text keeps the shape of both. */
  lemma StrippedFragmentShape(f: string, c: string)
    requires NoTerminator(f) && IsInfix(f, c)
    requires NoDoubleSpace(c) && OnlyPlainSpaces(c)
    ensures var e := Strip(f);
      NoTerminator(e) && NoDoubleSpace(e) && OnlyPlainSpaces(e) && IsInfix(e, c) && Strip(e) == e
  {
    var e := Strip(f);
    StripIsInfix(f);
    InfixTransitive(e, f, c);
    InfixKeepsShape(e, f);
    InfixKeepsShape(e, c);
    StripIdempotent(f);
  }

  lemma FragmentShape(c: string, f: string)
    requires f in SplitOnTerminators(c)
    ensures NoTerminator(f) && IsInfix(f, c)
  {
    SplitFragments(c);
  }

  /** Each sentence is already stripped. */
  lemma SentenceStripped(text: string, e: string)
    requires e in SplitSentences(text)
    ensures Strip(e) == e
  {
    var fs := SplitOnTerminators(Collapse(text));
    var f := KeepWitness(fs, e);
    StripIdempotent(f);
  }

  /** Empty or whitespace-only text has no sentences. */
  lemma BlankTextHasNoSentences(text: string)
    requires AllSpace(text)
    ensures SplitSentences(text) == []
  {
    var c := Collapse(text);
    assert AllSpace(c);
    var fs := SplitOnTerminators(c);
    SplitFragments(c);
    forall f | f in fs
      ensures |Strip(f)| <= MinSentenceExclusive
    {
      var i :| OccursAt(c, f, i);
      assert forall k :: 0 <= k < |f| ==> f[k] == c[i + k];
      assert AllSpace(f);
      StripAllSpace(f);
    }
    KeepNone(fs);
  }

  /** When no fragment is long enough once stripped, nothing is kept. */
  lemma {:induction false} KeepNone(fs: seq<string>)
    requires forall f :: f in fs ==> |Strip(f)| <= MinSentenceExclusive
    ensures Keep(fs) == []
  {
    if fs != [] {
      assert fs[0] in fs;
      KeepNone(fs[1..]);
    }
  }

  // ----- letter case -----

  lemma {:induction false} CollapseLower(s: string)
    ensures Collapse(LowerStr(s)) == LowerStr(Collapse(s))
    decreases |s|
  {
    if s == [] {
    } else if IsSpace(s[0]) {
      var rest := DropWhile(s, IsSpace);
      DropWhileLower(s, IsSpace);
      CollapseLower(rest);
      LowerStrAppend([' '], Collapse(rest));
    } else {
      assert LowerStr(s)[1..] == LowerStr(s[1..]);
      CollapseLower(s[1..]);
      LowerStrAppend([s[0]], Collapse(s[1..]));
    }
  }

  lemma {:induction false} SplitLower(s: string)
    ensures SplitOnTerminators(LowerStr(s)) == LowerAll(SplitOnTerminators(s))
    decreases |s|
  {
    if s == [] {
    } else if IsTerminator(s[0]) {
      var u := DropWhile(s, IsTerminator);
      DropWhileLower(s, IsTerminator);
      SplitLower(u);
    } else {
      var c := s[0];
      var rest := SplitOnTerminators(s[1..]);
      SplitLower(s[1..]);
      assert LowerStr(s)[1..] == LowerStr(s[1..]);
      var lowered := LowerAll(rest);
      assert SplitOnTerminators(LowerStr(s)) == [[Lower(c)] + lowered[0]] + lowered[1..];
      LowerAllTail(rest);
      var r := SplitOnTerminators(s);
      assert r[1..] == rest[1..];
      assert LowerAll(r) == [LowerStr([c] + rest[0])] + LowerAll(rest[1..]);
      assert ([c] + rest[0])[1..] == rest[0];
    }
  }

  lemma {:induction false} KeepLower(fs: seq<string>)
    ensures Keep(LowerAll(fs)) == LowerAll(Keep(fs))
  {
    if fs != [] {
      LowerAllTail(fs);
      KeepLower(fs[1..]);
      KeepOneLower(fs[0]);
      LowerAllAppend(KeepOne(fs[0]), Keep(fs[1..]));
    }
  }

  lemma KeepOneLower(f: string)
    ensures KeepOne(LowerStr(f)) == LowerAll(KeepOne(f))
  {
    var t := Strip(f);
    StripLower(f);
    if |t| > MinSentenceExclusive {
      LowerAllSingleton(t);
    } else {
      assert LowerAll([]) == [];
    }
  }

  /** `_split_sentences(text.lower())` is `_split_sentences(text)` lower-cased sentence by sentence. */
  lemma SplitSentencesLower(text: string)
    ensures SplitSentences(LowerStr(text)) == LowerAll(SplitSentences(text))
  {
    CollapseLower(text);
    SplitLower(Collapse(text));
    KeepLower(SplitOnTerminators(Collapse(text)));
  }
}
