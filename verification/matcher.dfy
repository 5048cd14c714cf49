/**
 * The clause matcher `_keyword_search`: for each category in catalogue
 * order, find the first keyword that occurs in the lower-cased text, then
 * the first sentence that contains it, and report one hit for the category;
 * the category is finished at that first occurring keyword whether or not a
 * sentence contained it.
 */
module Matcher {
  import opened Wrappers
  import opened Chars
  import opened Strings
  import opened Sentences
  import opened Catalogue

  /** One entry of `found_clauses`: `type`, `keyword`, `sentence`, `risk_level`, `description`. */
  datatype Hit = Hit(clauseType: string, keyword: string, sentence: string, risk: Risk, description: string)

  /** The position of the first element satisfying `p`, as an early-exit loop finds it. */
  function FirstIndex<T>(xs: seq<T>, p: T -> bool): (r: Option<nat>)
    ensures r.Some? ==> r.value < |xs| && p(xs[r.value]) && forall j :: 0 <= j < r.value ==> !p(xs[j])
    ensures r.None? ==> forall j :: 0 <= j < |xs| ==> !p(xs[j])
  {
    if xs == [] then None
    else if p(xs[0]) then Some(0)
    else match FirstIndex(xs[1..], p)
      case None => None
      case Some(i) => Some(i + 1)
  }

  /** Two searches whose tests agree position by position stop at the same place. */
  lemma FirstIndexAgree<T>(xs: seq<T>, p: T -> bool, ys: seq<T>, q: T -> bool)
    requires |xs| == |ys|
    requires forall k :: 0 <= k < |xs| ==> p(xs[k]) == q(ys[k])
    ensures FirstIndex(xs, p) == FirstIndex(ys, q)
  {
  }

  /** The test `keyword.lower() in text.lower()`. */
  function Mentions(text: string, keyword: string): (b: bool)
    ensures b ==> |keyword| <= |text|
    ensures keyword == [] ==> b
  {
    Contains(LowerStr(text), LowerStr(keyword))
  }

  /** The keyword occurs in the text at some position, ignoring letter case. */
  ghost predicate Occurs(text: string, keyword: string) {
    IsInfix(LowerStr(keyword), LowerStr(text))
  }

  lemma MentionsIffOccurs(text: string, keyword: string)
    ensures Mentions(text, keyword) <==> Occurs(text, keyword)
  {
    ContainsIffOccurs(LowerStr(text), LowerStr(keyword));
  }

  /**
   * The hit one category contributes, if any. A hit names its category and
   * one of its keywords, and copies the category's risk and description.
   */
  function CategoryHit(def: ClauseDef, text: string): (r: Option<Hit>)
    ensures r.Some? ==>
      && r.value.clauseType == def.id
      && r.value.risk == def.risk
      && r.value.description == def.description
      && r.value.keyword in def.keywords
  {
    match FirstIndex(def.keywords, (k: string) => Mentions(text, k))
    case None => None
    case Some(i) => SentenceHit(def, def.keywords[i], SplitSentences(text))
  }

  /**
   * The inner loop of one category, once its first occurring keyword is
   * known: the first sentence mentioning the keyword, stripped, if that is
   * non-empty.
   */
  function SentenceHit(def: ClauseDef, keyword: string, sentences: seq<string>): (r: Option<Hit>)
    ensures r.Some? ==>
      && r.value.clauseType == def.id
      && r.value.keyword == keyword
      && r.value.risk == def.risk
      && r.value.description == def.description
  {
    match FirstIndex(sentences, (s: string) => Mentions(s, keyword))
    case None => None
    case Some(j) =>
      var matching := Strip(sentences[j]);
      if |matching| > 0 then Some(Hit(def.id, keyword, matching, def.risk, def.description)) else None
  }

  /**
   * Where a hit comes from: the text mentions its keyword, and its sentence
   * is one of the text's sentences and mentions the keyword too.
   */
  lemma HitProvenance(def: ClauseDef, text: string)
    ensures var r := CategoryHit(def, text);
      r.Some? ==>
        && Mentions(text, r.value.keyword)
        && r.value.sentence in SplitSentences(text)
        && Mentions(r.value.sentence, r.value.keyword)
  {
    var r := CategoryHit(def, text);
    if r.Some? {
      var i := FirstIndex(def.keywords, (k: string) => Mentions(text, k)).value;
      var keyword := def.keywords[i];
      var sentences := SplitSentences(text);
      var j := FirstIndex(sentences, (s: string) => Mentions(s, keyword)).value;
      SentenceStripped(text, sentences[j]);
    }
  }

  /**
   * `_keyword_search(text)` over the catalogue `patterns` of a `LegalLens`:
   * the categories' hits, in catalogue order.
   */
  function KeywordSearch(patterns: seq<ClauseDef>, text: string): (r: seq<Hit>)
    ensures |r| <= |patterns|
  {
    if patterns == [] then []
    else ToSeq(CategoryHit(patterns[0], text)) + KeywordSearch(patterns[1..], text)
  }

  /** Each reported hit is the hit of one of the listed categories. */
  lemma {:induction false} SearchSound(cat: seq<ClauseDef>, text: string)
    ensures forall h :: h in KeywordSearch(cat, text) ==>
      exists k :: 0 <= k < |cat| && CategoryHit(cat[k], text) == Some(h)
  {
    if cat != [] {
      SearchSound(cat[1..], text);
      var head := ToSeq(CategoryHit(cat[0], text));
      var rest := KeywordSearch(cat[1..], text);
      assert KeywordSearch(cat, text) == head + rest;
      forall h | h in head + rest
        ensures exists k :: 0 <= k < |cat| && CategoryHit(cat[k], text) == Some(h)
      {
        if h in head {
          assert CategoryHit(cat[0], text) == Some(h);
        } else {
          var k :| 0 <= k < |cat[1..]| && CategoryHit(cat[1..][k], text) == Some(h);
          assert cat[k + 1] == cat[1..][k];
        }
      }
    }
  }

  /** Each listed category that has a hit has it reported. */
  lemma {:induction false} SearchComplete(cat: seq<ClauseDef>, text: string)
    ensures forall k :: 0 <= k < |cat| && CategoryHit(cat[k], text).Some? ==>
      CategoryHit(cat[k], text).value in KeywordSearch(cat, text)
  {
    if cat != [] {
      SearchComplete(cat[1..], text);
      var head := ToSeq(CategoryHit(cat[0], text));
      var rest := KeywordSearch(cat[1..], text);
      assert KeywordSearch(cat, text) == head + rest;
      forall k | 1 <= k < |cat|
        ensures CategoryHit(cat[k], text).Some? ==> CategoryHit(cat[k], text).value in head + rest
      {
        assert cat[k] == cat[1..][k - 1];
      }
    }
  }

  // ----- the first-match rule -----

  /** Keyword `i` is the first of the category's keywords that the text mentions. */
  ghost predicate IsFirstKeyword(def: ClauseDef, text: string, i: int) {
    && 0 <= i < |def.keywords|
    && Occurs(text, def.keywords[i])
    && forall i' :: 0 <= i' < i ==> !Occurs(text, def.keywords[i'])
  }

  /** Sentence `j` is the first of the sentences that mentions the keyword. */
  ghost predicate IsFirstSentence(sentences: seq<string>, keyword: string, j: int) {
    && 0 <= j < |sentences|
    && Occurs(sentences[j], keyword)
    && forall j' :: 0 <= j' < j ==> !Occurs(sentences[j'], keyword)
  }

  lemma FirstKeywordIndex(def: ClauseDef, text: string)
    ensures var r := FirstIndex(def.keywords, (k: string) => Mentions(text, k));
      && (r.Some? ==> IsFirstKeyword(def, text, r.value))
      && (r.None? ==> forall k :: k in def.keywords ==> !Occurs(text, k))
  {
    forall k | k in def.keywords {
      MentionsIffOccurs(text, k);
    }
  }

  lemma FirstSentenceIndex(sentences: seq<string>, keyword: string)
    ensures var r := FirstIndex(sentences, (s: string) => Mentions(s, keyword));
      && (r.Some? ==> IsFirstSentence(sentences, keyword, r.value))
      && (r.None? ==> forall s :: s in sentences ==> !Occurs(s, keyword))
  {
    forall s | s in sentences {
      MentionsIffOccurs(s, keyword);
    }
  }

  /** At most one index is the first. */
  lemma FirstKeywordUnique(def: ClauseDef, text: string, i: int, i': int)
    requires IsFirstKeyword(def, text, i) && IsFirstKeyword(def, text, i')
    ensures i == i'
  {
  }

  lemma FirstSentenceUnique(sentences: seq<string>, keyword: string, j: int, j': int)
    requires IsFirstSentence(sentences, keyword, j) && IsFirstSentence(sentences, keyword, j')
    ensures j == j'
  {
  }

  /**
   * The first-match rule. A category has a hit exactly when the first
   * keyword the text mentions is also mentioned by some sentence; the hit
   * then carries that keyword and the first such sentence.
   */
  lemma FirstMatchRule(def: ClauseDef, text: string, i: int, j: int)
    requires IsFirstKeyword(def, text, i)
    ensures IsFirstSentence(SplitSentences(text), def.keywords[i], j) ==>
      CategoryHit(def, text) == Some(Hit(def.id, def.keywords[i], SplitSentences(text)[j], def.risk, def.description))
    ensures CategoryHit(def, text).Some? <==> exists j' :: IsFirstSentence(SplitSentences(text), def.keywords[i], j')
  {
    var sentences := SplitSentences(text);
    var keyword := def.keywords[i];
    FirstKeywordIndex(def, text);
    var ki := FirstIndex(def.keywords, (k: string) => Mentions(text, k));
    assert ki.Some? by {
      assert keyword in def.keywords;
    }
    FirstKeywordUnique(def, text, i, ki.value);
    FirstSentenceIndex(sentences, keyword);
    var si := FirstIndex(sentences, (s: string) => Mentions(s, keyword));
    if si.Some? {
      SentenceStripped(text, sentences[si.value]);
      SentenceShape(text);
      assert sentences[si.value] in sentences;
      assert |sentences[si.value]| > 0;
      if IsFirstSentence(sentences, keyword, j) {
        FirstSentenceUnique(sentences, keyword, j, si.value);
      }
    } else {
      forall j' | 0 <= j' < |sentences|
        ensures !IsFirstSentence(sentences, keyword, j')
      {
        assert sentences[j'] in sentences;
      }
    }
  }

  /**
   * Only the first mentioned keyword is tried: when no sentence mentions it
   * the category has no hit, whatever the later keywords would have matched.
   */
  lemma FirstKeywordDecides(def: ClauseDef, text: string, i: int)
    requires IsFirstKeyword(def, text, i)
    requires forall s :: s in SplitSentences(text) ==> !Occurs(s, def.keywords[i])
    ensures CategoryHit(def, text) == None
  {
    FirstMatchRule(def, text, i, 0);
  }

  /** A category none of whose keywords the text mentions has no hit. */
  lemma NoKeywordNoHit(def: ClauseDef, text: string)
    requires forall k :: k in def.keywords ==> !Occurs(text, k)
    ensures CategoryHit(def, text) == None
  {
    FirstKeywordIndex(def, text);
  }

  // ----- the list of hits -----

  /** The position of the category with this id in the list (its length when absent). */
  function Position(cat: seq<ClauseDef>, id: string): (n: nat)
    ensures n <= |cat|
    ensures n < |cat| ==> cat[n].id == id && forall k :: 0 <= k < n ==> cat[k].id != id
    ensures n == |cat| ==> forall k :: 0 <= k < |cat| ==> cat[k].id != id
  {
    if cat == [] then 0
    else if cat[0].id == id then 0
    else 1 + Position(cat[1..], id)
  }

  /** Every hit's category is in the list. */
  lemma {:induction false} SearchTypesListed(cat: seq<ClauseDef>, text: string)
    ensures forall h :: h in KeywordSearch(cat, text) ==> Position(cat, h.clauseType) < |cat|
  {
    if cat != [] {
      SearchTypesListed(cat[1..], text);
      var head := ToSeq(CategoryHit(cat[0], text));
      assert KeywordSearch(cat, text) == head + KeywordSearch(cat[1..], text);
    }
  }

  /** Behind a first category with another id, positions shift by one. */
  lemma PositionTail(cat: seq<ClauseDef>, id: string)
    requires DistinctIds(cat)
    requires |cat| > 0 && Position(cat[1..], id) < |cat| - 1
    ensures Position(cat, id) == 1 + Position(cat[1..], id)
  {
    var p := Position(cat[1..], id);
    assert cat[p + 1] == cat[1..][p];
  }

  /** The hits' categories have strictly increasing positions in `cat`. */
  ghost predicate InCatalogueOrder(cat: seq<ClauseDef>, r: seq<Hit>) {
    forall i, j :: 0 <= i < j < |r| ==> Position(cat, r[i].clauseType) < Position(cat, r[j].clauseType) < |cat|
  }

  /** One search step keeps catalogue order: the head's hit comes from the first category. */
  lemma InCatalogueOrderCons(cat: seq<ClauseDef>, head: seq<Hit>, rest: seq<Hit>)
    requires DistinctIds(cat) && |cat| > 0
    requires |head| <= 1 && forall h :: h in head ==> h.clauseType == cat[0].id
    requires InCatalogueOrder(cat[1..], rest)
    requires forall h :: h in rest ==> Position(cat[1..], h.clauseType) < |cat| - 1
    ensures InCatalogueOrder(cat, head + rest)
  {
    var r := head + rest;
    forall i, j | 0 <= i < j < |r|
      ensures Position(cat, r[i].clauseType) < Position(cat, r[j].clauseType) < |cat|
    {
      var b := rest[j - |head|];
      assert r[j] == b && b in rest;
      PositionTail(cat, b.clauseType);
      if i < |head| {
        assert r[i] in head;
      } else {
        var a := rest[i - |head|];
        assert r[i] == a && a in rest;
        PositionTail(cat, a.clauseType);
      }
    }
  }

  /**
   * Hits come in catalogue order, so no category is reported twice: the
   * categories of the hits have strictly increasing catalogue positions.
   */
  lemma {:induction false} SearchInCatalogueOrder(cat: seq<ClauseDef>, text: string)
    requires DistinctIds(cat)
    ensures InCatalogueOrder(cat, KeywordSearch(cat, text))
  {
    if cat != [] {
      assert DistinctIds(cat[1..]);
      SearchInCatalogueOrder(cat[1..], text);
      SearchTypesListed(cat[1..], text);
      var head := ToSeq(CategoryHit(cat[0], text));
      assert KeywordSearch(cat, text) == head + KeywordSearch(cat[1..], text);
      InCatalogueOrderCons(cat, head, KeywordSearch(cat[1..], text));
    }
  }

  /** With distinct ids in the list, no two hits share a category. */
  lemma SearchDistinctTypes(cat: seq<ClauseDef>, text: string)
    requires DistinctIds(cat)
    ensures var r := KeywordSearch(cat, text);
      forall i, j :: 0 <= i < j < |r| ==> r[i].clauseType != r[j].clauseType
  {
    SearchInCatalogueOrder(cat, text);
  }

  /** `_keyword_search` reports at most six hits, of pairwise distinct categories. */
  lemma KeywordSearchDistinct(text: string)
    ensures |KeywordSearch(Patterns, text)| <= 6
    ensures var r := KeywordSearch(Patterns, text);
      forall i, j :: 0 <= i < j < |r| ==> r[i].clauseType != r[j].clauseType
  {
    PatternsShape();
    PatternsDistinctIds();
    SearchDistinctTypes(Patterns, text);
  }

  // ----- letter case -----

  /** Two hits that agree but for the letter case of their sentences. */
  ghost predicate SameHitUpToCase(x: Hit, y: Hit) {
    && x.clauseType == y.clauseType
    && x.keyword == y.keyword
    && x.risk == y.risk
    && x.description == y.description
    && LowerStr(x.sentence) == LowerStr(y.sentence)
  }

  /** Two hit lists that agree position by position but for the letter case of their sentences. */
  ghost predicate SameUpToCase(ra: seq<Hit>, rb: seq<Hit>) {
    |ra| == |rb| && forall i :: 0 <= i < |ra| ==> SameHitUpToCase(ra[i], rb[i])
  }

  lemma SameUpToCaseAppend(ha: seq<Hit>, hb: seq<Hit>, ra: seq<Hit>, rb: seq<Hit>)
    requires SameUpToCase(ha, hb) && SameUpToCase(ra, rb)
    ensures SameUpToCase(ha + ra, hb + rb)
  {
    forall i | 0 <= i < |ha + ra|
      ensures SameHitUpToCase((ha + ra)[i], (hb + rb)[i])
    {
      if i >= |ha| {
        assert (ha + ra)[i] == ra[i - |ha|] && (hb + rb)[i] == rb[i - |ha|];
      }
    }
  }

  lemma SameOutcomeUpToCase(x: Option<Hit>, y: Option<Hit>)
    requires x.Some? == y.Some?
    requires x.Some? ==> SameHitUpToCase(x.value, y.value)
    ensures SameUpToCase(ToSeq(x), ToSeq(y))
  {
  }

  /** The inner loop gives the same outcome on sentences that agree up to letter case. */
  lemma SentenceHitCaseBlind(def: ClauseDef, keyword: string, sa: seq<string>, sb: seq<string>)
    requires LowerAll(sa) == LowerAll(sb)
    ensures SameUpToCase(ToSeq(SentenceHit(def, keyword, sa)), ToSeq(SentenceHit(def, keyword, sb)))
  {
    assert |sa| == |sb|;
    forall k | 0 <= k < |sa|
      ensures Mentions(sa[k], keyword) == Mentions(sb[k], keyword)
    {
      assert LowerStr(sa[k]) == LowerAll(sa)[k] == LowerAll(sb)[k] == LowerStr(sb[k]);
    }
    FirstIndexAgree(sa, (s: string) => Mentions(s, keyword), sb, (s: string) => Mentions(s, keyword));
    var ja := FirstIndex(sa, (s: string) => Mentions(s, keyword));
    var x, y := SentenceHit(def, keyword, sa), SentenceHit(def, keyword, sb);
    if ja.Some? {
      var j := ja.value;
      assert LowerStr(sa[j]) == LowerAll(sa)[j] == LowerAll(sb)[j] == LowerStr(sb[j]);
      StripLower(sa[j]);
      StripLower(sb[j]);
      assert |Strip(sa[j])| == |LowerStr(Strip(sa[j]))| == |LowerStr(Strip(sb[j]))| == |Strip(sb[j])|;
      assert x.Some? ==> x.value.sentence == Strip(sa[j]) && y.value.sentence == Strip(sb[j]);
    } else {
      assert x == None && y == None;
    }
    SameOutcomeUpToCase(x, y);
  }

  /** A category's outcome depends on the text only up to letter case. */
  lemma CategoryHitCaseBlind(def: ClauseDef, a: string, b: string)
    requires LowerStr(a) == LowerStr(b)
    ensures SameUpToCase(ToSeq(CategoryHit(def, a)), ToSeq(CategoryHit(def, b)))
  {
    var ka := FirstIndex(def.keywords, (k: string) => Mentions(a, k));
    FirstIndexAgree(def.keywords, (k: string) => Mentions(a, k), def.keywords, (k: string) => Mentions(b, k));
    if ka.Some? {
      SplitSentencesLower(a);
      SplitSentencesLower(b);
      SentenceHitCaseBlind(def, def.keywords[ka.value], SplitSentences(a), SplitSentences(b));
    }
  }

  /**
   * Changing only the letter case of the text changes neither which
   * categories hit nor their keywords; the reported sentences differ only
   * in letter case.
   */
  lemma {:induction false} SearchCaseBlind(cat: seq<ClauseDef>, a: string, b: string)
    requires LowerStr(a) == LowerStr(b)
    ensures SameUpToCase(KeywordSearch(cat, a), KeywordSearch(cat, b))
  {
    if cat != [] {
      CategoryHitCaseBlind(cat[0], a, b);
      SearchCaseBlind(cat[1..], a, b);
      SameUpToCaseAppend(ToSeq(CategoryHit(cat[0], a)), ToSeq(CategoryHit(cat[0], b)),
        KeywordSearch(cat[1..], a), KeywordSearch(cat[1..], b));
    }
  }
}
