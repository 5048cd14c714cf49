/**
 * The ordering step of `analyze_document`: the hits are sorted by the risk
 * rank of their category, highest first. Python's `list.sort` is stable,
 * also with `reverse=True`, so hits of equal risk keep their search order.
 * The sort is modelled as an insertion sort and compared with a reference
 * definition: the high-risk hits, then the medium ones, then the low ones,
 * each group in its original order.
 */
module Ranking {
  import opened Wrappers
  import opened Catalogue
  import opened Matcher

  /** Risk ranks never increase along the list. */
  ghost predicate SortedByRank(s: seq<Hit>) {
    forall i, j :: 0 <= i < j < |s| ==> Rank(s[i].risk) >= Rank(s[j].risk)
  }

  /**
   * Inserts `h` in front of the first element whose rank is not above its
   * own, so `h` stays ahead of the equal-rank hits that followed it.
   */
  function Insert(h: Hit, l: seq<Hit>): (r: seq<Hit>)
    ensures |r| == |l| + 1
  {
    if l == [] || Rank(l[0].risk) <= Rank(h.risk) then [h] + l
    else [l[0]] + Insert(h, l[1..])
  }

  lemma {:induction false} InsertPermutes(h: Hit, l: seq<Hit>)
    ensures multiset(Insert(h, l)) == multiset{h} + multiset(l)
  {
    if l != [] && Rank(l[0].risk) > Rank(h.risk) {
      InsertPermutes(h, l[1..]);
      assert l == [l[0]] + l[1..];
    }
  }

  /** `clauses.sort(key=risk_order, reverse=True)`: the result is a sorted permutation. */
  function SortByRank(hits: seq<Hit>): (r: seq<Hit>)
    ensures multiset(r) == multiset(hits)
    ensures SortedByRank(r)
  {
    if hits == [] then []
    else
      assert hits == [hits[0]] + hits[1..];
      var rest := SortByRank(hits[1..]);
      InsertSorted(hits[0], rest);
      InsertPermutes(hits[0], rest);
      Insert(hits[0], rest)
  }

  lemma {:induction false} InsertMembers(h: Hit, l: seq<Hit>)
    ensures forall x :: x in Insert(h, l) ==> x == h || x in l
  {
    InsertPermutes(h, l);
    forall x | x in Insert(h, l) ensures x == h || x in l {
      assert x in multiset(Insert(h, l));
    }
  }

  lemma {:induction false} InsertSorted(h: Hit, l: seq<Hit>)
    requires SortedByRank(l)
    ensures SortedByRank(Insert(h, l))
  {
    if l == [] || Rank(l[0].risk) <= Rank(h.risk) {
      if l != [] {
        SortedBelow(l, Rank(h.risk));
      }
      SortedCons([h], l, Rank(h.risk));
    } else {
      var t := Insert(h, l[1..]);
      assert SortedByRank(l[1..]);
      InsertSorted(h, l[1..]);
      InsertMembers(h, l[1..]);
      SortedHead(l);
      SortedCons([l[0]], t, Rank(l[0].risk));
    }
  }

  /** A sorted list whose head ranks at most `n` ranks at most `n` throughout. */
  lemma SortedBelow(l: seq<Hit>, n: nat)
    requires SortedByRank(l) && l != [] && Rank(l[0].risk) <= n
    ensures RanksAtMost(l, n)
  {
    forall x | x in l ensures Rank(x.risk) <= n {
      var j :| 0 <= j < |l| && l[j] == x;
    }
  }

  /** In a sorted list nothing after the head ranks above it. */
  lemma SortedHead(l: seq<Hit>)
    requires SortedByRank(l) && l != []
    ensures RanksAtMost(l[1..], Rank(l[0].risk))
  {
    forall x | x in l[1..] ensures Rank(x.risk) <= Rank(l[0].risk) {
      var j :| 0 <= j < |l[1..]| && l[1..][j] == x;
      assert l[j + 1] == x;
    }
  }

  /** The hits of one risk level, in their original order. */
  function ByRisk(hits: seq<Hit>, k: Risk): (r: seq<Hit>)
    ensures |r| <= |hits|
  {
    if hits == [] then []
    else (if hits[0].risk == k then [hits[0]] else []) + ByRisk(hits[1..], k)
  }

  /** The reference order: high-risk hits, then medium, then low, each group stable. */
  function Buckets(hits: seq<Hit>): seq<Hit> {
    ByRisk(hits, High) + ByRisk(hits, Medium) + ByRisk(hits, Low)
  }

  lemma {:induction false} ByRiskAbsent(hits: seq<Hit>, k: Risk)
    requires forall x :: x in hits ==> x.risk != k
    ensures ByRisk(hits, k) == []
  {
    if hits != [] {
      assert hits[0] in hits;
      ByRiskAbsent(hits[1..], k);
    }
  }

  lemma {:induction false} InsertByRisk(h: Hit, l: seq<Hit>, k: Risk)
    ensures ByRisk(Insert(h, l), k) == (if h.risk == k then [h] else []) + ByRisk(l, k)
  {
    if l == [] || Rank(l[0].risk) <= Rank(h.risk) {
      ByRiskCons(h, l, k);
    } else {
      InsertByRisk(h, l[1..], k);
      ByRiskCons(l[0], Insert(h, l[1..]), k);
      ByRiskCons(l[0], l[1..], k);
      assert l == [l[0]] + l[1..];
    }
  }

  /** Sorting keeps each risk group in its original order. */
  lemma {:induction false} SortKeepsGroups(hits: seq<Hit>, k: Risk)
    ensures ByRisk(SortByRank(hits), k) == ByRisk(hits, k)
  {
    if hits != [] {
      SortKeepsGroups(hits[1..], k);
      InsertByRisk(hits[0], SortByRank(hits[1..]), k);
    }
  }

  lemma ByRiskCons(x: Hit, t: seq<Hit>, k: Risk)
    ensures ByRisk([x] + t, k) == (if x.risk == k then [x] else []) + ByRisk(t, k)
  {
    assert ([x] + t)[1..] == t;
  }

  /** A hit ranked at least as high as all that follow it leads the reference order. */
  lemma BucketsCons(x: Hit, t: seq<Hit>)
    requires RanksAtMost(t, Rank(x.risk))
    ensures Buckets([x] + t) == [x] + Buckets(t)
  {
    ByRiskCons(x, t, High);
    ByRiskCons(x, t, Medium);
    ByRiskCons(x, t, Low);
    var hi, med, lo := ByRisk(t, High), ByRisk(t, Medium), ByRisk(t, Low);
    match x.risk
    case High =>
      assert Buckets([x] + t) == ([x] + hi) + med + lo == [x] + (hi + med + lo);
    case Medium =>
      ByRiskAbsent(t, High);
      assert Buckets([x] + t) == [] + ([x] + med) + lo == [x] + (hi + med + lo);
    case Low =>
      ByRiskAbsent(t, High);
      ByRiskAbsent(t, Medium);
      assert Buckets([x] + t) == [] + [] + ([x] + lo) == [x] + (hi + med + lo);
  }

  /** A list sorted by rank already is its own reference order. */
  lemma {:induction false} SortedIsBuckets(s: seq<Hit>)
    requires SortedByRank(s)
    ensures Buckets(s) == s
  {
    if s != [] {
      var t := s[1..];
      assert SortedByRank(t);
      SortedIsBuckets(t);
      SortedHead(s);
      BucketsCons(s[0], t);
      assert s == [s[0]] + t;
    }
  }

  /**
   * The sort is stable: its result is exactly the high-risk hits, then the
   * medium ones, then the low ones, each group in search order.
   */
  lemma SortIsStable(hits: seq<Hit>)
    ensures SortByRank(hits) == Buckets(hits)
  {
    SortedIsBuckets(SortByRank(hits));
    SortKeepsGroups(hits, High);
    SortKeepsGroups(hits, Medium);
    SortKeepsGroups(hits, Low);
  }

  /** Sorting a list that is already in rank order changes nothing. */
  lemma SortedUnchanged(s: seq<Hit>)
    requires SortedByRank(s)
    ensures SortByRank(s) == s
  {
    SortIsStable(s);
    SortedIsBuckets(s);
  }

  /** A hit list whose risks are all ranked at most `n`. */
  ghost predicate RanksAtMost(r: seq<Hit>, n: nat) {
    forall h :: h in r ==> Rank(h.risk) <= n
  }

  lemma {:induction false} SearchRanksAtMost(cat: seq<ClauseDef>, text: string, n: nat)
    requires forall d :: d in cat ==> Rank(d.risk) <= n
    ensures RanksAtMost(KeywordSearch(cat, text), n)
  {
    if cat != [] {
      assert cat[0] in cat;
      SearchRanksAtMost(cat[1..], text, n);
      assert KeywordSearch(cat, text) == ToSeq(CategoryHit(cat[0], text)) + KeywordSearch(cat[1..], text);
    }
  }

  lemma SortedCons(head: seq<Hit>, rest: seq<Hit>, n: nat)
    requires |head| <= 1 && forall h :: h in head ==> Rank(h.risk) == n
    requires SortedByRank(rest) && RanksAtMost(rest, n)
    ensures SortedByRank(head + rest)
  {
    var r := head + rest;
    forall i, j | 0 <= i < j < |r|
      ensures Rank(r[i].risk) >= Rank(r[j].risk)
    {
      assert r[j] == rest[j - |head|] && rest[j - |head|] in rest;
      if i >= |head| {
        assert r[i] == rest[i - |head|];
      } else {
        assert r[i] in head;
      }
    }
  }

  /** In a rank-ordered catalogue no later category is riskier than the first. */
  lemma RankOrderedHead(cat: seq<ClauseDef>)
    requires RankOrdered(cat) && cat != []
    ensures forall d :: d in cat[1..] ==> Rank(d.risk) <= Rank(cat[0].risk)
  {
    forall d | d in cat[1..] ensures Rank(d.risk) <= Rank(cat[0].risk) {
      var j :| 0 <= j < |cat[1..]| && cat[1..][j] == d;
      assert cat[j + 1] == d;
    }
  }

  /** A catalogue listed in non-increasing risk yields hits already in rank order. */
  lemma {:induction false} SearchSortedWhenRankOrdered(cat: seq<ClauseDef>, text: string)
    requires RankOrdered(cat)
    ensures SortedByRank(KeywordSearch(cat, text))
  {
    if cat != [] {
      assert RankOrdered(cat[1..]);
      SearchSortedWhenRankOrdered(cat[1..], text);
      RankOrderedHead(cat);
      SearchRanksAtMost(cat[1..], text, Rank(cat[0].risk));
      var head := ToSeq(CategoryHit(cat[0], text));
      assert KeywordSearch(cat, text) == head + KeywordSearch(cat[1..], text);
      SortedCons(head, KeywordSearch(cat[1..], text), Rank(cat[0].risk));
    }
  }

  /** So for such a catalogue the sort returns the hits in search order. */
  lemma SortKeepsSearchOrder(cat: seq<ClauseDef>, text: string)
    requires RankOrdered(cat)
    ensures SortByRank(KeywordSearch(cat, text)) == KeywordSearch(cat, text)
  {
    SearchSortedWhenRankOrdered(cat, text);
    SortedUnchanged(KeywordSearch(cat, text));
  }
}
