/**
 * The clause catalogue built by `LegalLens.__init__`: six clause categories,
 * in declaration order, each with its keywords (Portuguese and English), a
 * description and a risk level.
 */
module Catalogue {

  datatype Risk = High | Medium | Low

  /** The sort key `risk_order` of `analyze_document`: high 3, medium 2, low 1. */
  function Rank(r: Risk): (n: nat)
    ensures 1 <= n <= 3
    ensures n == 3 <==> r == High
    ensures n == 1 <==> r == Low
  {
    match r
    case High => 3
    case Medium => 2
    case Low => 1
  }

  datatype ClauseDef = ClauseDef(id: string, keywords: seq<string>, description: string, risk: Risk)

  /** The categories of `critical_patterns`, in the dictionary's insertion order. */
  const Patterns: seq<ClauseDef> := [
    ClauseDef("indenizacao",
      ["indenização", "ressarcimento", "danos", "prejuízos", "responsabilidade civil",
       "indemnification", "damages", "liability", "compensation"],
      "Cláusulas de indenização e responsabilidade civil",
      High),
    ClauseDef("rescisao_unilateral",
      ["rescisão unilateral", "cancelamento unilateral", "extinção unilateral", "resilição",
       "unilateral termination", "unilateral cancellation", "termination rights"],
      "Direito de rescindir contrato sem consentimento da outra parte",
      High),
    ClauseDef("multa_contratual",
      ["multa contratual", "penalidade", "sanção contratual", "cláusula penal",
       "contractual penalty", "penalty clause", "liquidated damages"],
      "Multas e penalidades contratuais",
      Medium),
    ClauseDef("confidencialidade",
      ["confidencialidade", "sigilo", "informação confidencial", "não divulgação",
       "confidentiality", "non-disclosure", "proprietary information"],
      "Obrigações de confidencialidade e sigilo",
      Medium),
    ClauseDef("exclusividade",
      ["exclusividade", "exclusivo", "único fornecedor", "único prestador",
       "exclusivity", "exclusive", "sole provider"],
      "Cláusulas de exclusividade comercial",
      Medium),
    ClauseDef("foro_eleicao",
      ["foro de eleição", "foro competente", "jurisdição", "tribunal competente",
       "choice of forum", "jurisdiction", "competent court"],
      "Definição do foro/jurisdição para resolução de disputas",
      Low)
  ]

  /** No two categories share an id (they are the keys of a dictionary). */
  ghost predicate DistinctIds(cat: seq<ClauseDef>) {
    forall i, j :: 0 <= i < j < |cat| ==> cat[i].id != cat[j].id
  }

  /** Categories are declared from the highest risk to the lowest. */
  ghost predicate RankOrdered(cat: seq<ClauseDef>) {
    forall i, j :: 0 <= i < j < |cat| ==> Rank(cat[i].risk) >= Rank(cat[j].risk)
  }

  /** The catalogue has six categories, each with at least one keyword. */
  lemma PatternsShape()
    ensures |Patterns| == 6
    ensures forall d :: d in Patterns ==> |d.keywords| > 0
  {
  }

  /** The six ids are distinct: they already differ in length. */
  lemma PatternsDistinctIds()
    ensures DistinctIds(Patterns)
  {
    forall i, j | 0 <= i < j < |Patterns|
      ensures Patterns[i].id != Patterns[j].id
    {
      assert |Patterns[i].id| != |Patterns[j].id|;
    }
  }

  /** The catalogue is declared in risk order: two high, three medium, one low. */
  lemma PatternsRankOrdered()
    ensures RankOrdered(Patterns)
  {
  }
}
