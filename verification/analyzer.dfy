/**
 * `LegalLens.analyze_document` and the input-selection rule of
 * `analyze_contract`: a document whose stripped text is shorter than fifty
 * characters is refused; otherwise its hits are reported, riskiest first.
 * Before that, `analyze_contract` picks the text to analyse: an uploaded
 * PDF wins over typed text, and either is refused when too short.
 */
module Analyzer {
  import opened Wrappers
  import opened Strings
  import opened Catalogue
  import opened Matcher
  import opened Ranking

  /** The length a document needs, after stripping, to be analysed. */
  const MinDocumentLength: nat := 50

  const ShortTextError: string := "Texto muito curto. Envie pelo menos 50 caracteres."

  /** The dictionary `analyze_document` returns: an `error` entry, or the sorted hits and their count. */
  datatype Analysis =
    | Rejected(error: string)
    | Report(clausesFound: seq<Hit>, totalClauses: nat)

  /**
   * `analyze_document(text)` for a `LegalLens` whose catalogue is
   * `patterns`. The empty text (`not text`) is one of the short texts.
   */
  function AnalyzeDocument(patterns: seq<ClauseDef>, text: string): (r: Analysis)
    ensures r.Rejected? <==> |Strip(text)| < MinDocumentLength
    ensures r.Rejected? ==> r.error == ShortTextError
    ensures r.Report? ==>
      && r.totalClauses == |r.clausesFound|
      && SortedByRank(r.clausesFound)
      && multiset(r.clausesFound) == multiset(KeywordSearch(patterns, text))
  {
    if |text| == 0 || |Strip(text)| < MinDocumentLength then Rejected(ShortTextError)
    else
      var clauses := SortByRank(KeywordSearch(patterns, text));
      Report(clauses, |clauses|)
  }

  /**
   * The report lists the high-risk hits, then the medium ones, then the low
   * ones, each group in the order the search found them.
   */
  lemma ReportIsStable(patterns: seq<ClauseDef>, text: string)
    requires |Strip(text)| >= MinDocumentLength
    ensures AnalyzeDocument(patterns, text).clausesFound == Buckets(KeywordSearch(patterns, text))
  {
    SortIsStable(KeywordSearch(patterns, text));
  }

  /**
   * With the catalogue of `LegalLens`, listed from high to low risk, the
   * report is the search result itself: the sort moves nothing.
   */
  lemma ReportInSearchOrder(text: string)
    requires |Strip(text)| >= MinDocumentLength
    ensures AnalyzeDocument(Patterns, text) == Report(KeywordSearch(Patterns, text), |KeywordSearch(Patterns, text)|)
  {
    PatternsRankOrdered();
    SortKeepsSearchOrder(Patterns, text);
  }

  // ----- input selection in analyze_contract -----

  /** Python truthiness of an optional string: present and non-empty. */
  predicate Truthy(s: Option<string>) {
    s.Some? && |s.value| > 0
  }

  /** The pair `(text, error)` returned by `extract_text_from_pdf`. */
  datatype Extraction = Extraction(text: Option<string>, error: Option<string>)

  /** What `analyze_contract` goes on with: a text to analyse, or one of its three refusals. */
  datatype Choice =
    | UseText(text: string)
    | PdfFailed(error: string)
    | PdfTooShort
    | InvalidInput

  /**
   * The branch of `analyze_contract` that picks the text. `pdf` is `None`
   * when no file was uploaded and otherwise the extraction's result.
   */
  function SelectInput(textInput: Option<string>, pdf: Option<Extraction>): (r: Choice)
    ensures pdf.Some? ==> !r.InvalidInput?
    ensures pdf.None? ==> !r.PdfFailed? && !r.PdfTooShort?
    ensures r.PdfFailed? ==> pdf.Some? && Some(r.error) == pdf.value.error
    ensures r.UseText? ==> |r.text| >= MinDocumentLength
    ensures r.UseText? && pdf.Some? ==> Some(r.text) == pdf.value.text && !Truthy(pdf.value.error)
    ensures r.UseText? && pdf.None? ==> Some(r.text) == textInput && |Strip(r.text)| >= MinDocumentLength
    ensures pdf.Some? && Truthy(pdf.value.error) ==> r == PdfFailed(pdf.value.error.value)
    ensures pdf.Some? && !Truthy(pdf.value.error) && Truthy(pdf.value.text) && |pdf.value.text.value| >= MinDocumentLength ==>
      r == UseText(pdf.value.text.value)
  {
    if pdf.Some? then
      var extraction := pdf.value;
      if Truthy(extraction.error) then PdfFailed(extraction.error.value)
      else if !Truthy(extraction.text) || |extraction.text.value| < MinDocumentLength then PdfTooShort
      else UseText(extraction.text.value)
    else if Truthy(textInput) && |Strip(textInput.value)| >= MinDocumentLength then UseText(textInput.value)
    else InvalidInput
  }

  /**
   * With a PDF uploaded: an extraction error is reported first; otherwise
   * the extracted text is used when it has fifty characters, unstripped;
   * otherwise the PDF is refused as too short.
   */
  lemma PdfChoice(textInput: Option<string>, e: Extraction)
    ensures SelectInput(textInput, Some(e)) ==
      if Truthy(e.error) then PdfFailed(e.error.value)
      else if Truthy(e.text) && |e.text.value| >= MinDocumentLength then UseText(e.text.value)
      else PdfTooShort
  {
  }

  /** An uploaded PDF decides the choice whatever text was typed. */
  lemma PdfTakesPrecedence(a: Option<string>, b: Option<string>, e: Extraction)
    ensures SelectInput(a, Some(e)) == SelectInput(b, Some(e))
  {
  }

  /**
   * Without a PDF the typed text is used exactly when its stripped form has
   * fifty characters, and otherwise the input is refused.
   */
  lemma TypedTextChoice(textInput: Option<string>)
    ensures SelectInput(textInput, None) ==
      if textInput.Some? && |Strip(textInput.value)| >= MinDocumentLength then UseText(textInput.value) else InvalidInput
  {
    if textInput.Some? && |Strip(textInput.value)| >= MinDocumentLength {
      assert |textInput.value| >= |Strip(textInput.value)|;
    }
  }

  /** What `analyze_contract` reaches before rendering: a refusal, an analysis error, or the hits. */
  datatype Outcome =
    | Refused(choice: Choice)
    | AnalysisError(error: string)
    | Analysed(clauses: seq<Hit>)

  /** `analyze_contract` up to the rendering of its result, with the catalogue of `LegalLens`. */
  function AnalyzeContract(textInput: Option<string>, pdf: Option<Extraction>): (r: Outcome)
    ensures r.Refused? <==> !SelectInput(textInput, pdf).UseText?
    ensures r.Refused? ==> r.choice == SelectInput(textInput, pdf)
    ensures r.AnalysisError? ==> r.error == ShortTextError
    ensures SelectInput(textInput, pdf).UseText? ==>
      (r.AnalysisError? <==> |Strip(SelectInput(textInput, pdf).text)| < MinDocumentLength)
  {
    match SelectInput(textInput, pdf)
    case UseText(text) =>
      (match AnalyzeDocument(Patterns, text)
       case Rejected(error) => AnalysisError(error)
       case Report(clauses, _) => Analysed(clauses))
    case choice => Refused(choice)
  }

  /** Typed text that passes the selection always passes `analyze_document`'s own length test. */
  lemma TypedTextNeverAnalysisError(textInput: Option<string>)
    ensures !AnalyzeContract(textInput, None).AnalysisError?
  {
  }

  /**
   * A PDF text that is already stripped, as `extract_text_from_pdf`
   * returns it, never meets `analyze_document`'s length error either.
   */
  lemma StrippedPdfNeverAnalysisError(textInput: Option<string>, text: string)
    ensures Strip(text) == text ==> !AnalyzeContract(textInput, Some(Extraction(Some(text), None))).AnalysisError?
  {
  }

  /**
   * The PDF branch measures the raw extracted text, so an unstripped text
   * can pass it and still be refused by `analyze_document`: fifty spaces.
   * `extract_text_from_pdf` strips what it returns (app.py:147), so in the
   * program this path is never taken; only an `Extraction` that no real
   * extraction produces reaches it.
   */
  lemma UnstrippedPdfReachesAnalysisError()
    ensures AnalyzeContract(None, Some(Extraction(Some(seq(50, _ => ' ')), None))) == AnalysisError(ShortTextError)
  {
    var blank := seq(50, _ => ' ');
    assert AllSpace(blank);
    StripAllSpace(blank);
  }

  /** A successful analysis reports the catalogue's hits in search order. */
  lemma AnalysedIsSearch(textInput: Option<string>, pdf: Option<Extraction>)
    ensures AnalyzeContract(textInput, pdf).Analysed? ==>
      AnalyzeContract(textInput, pdf).clauses == KeywordSearch(Patterns, SelectInput(textInput, pdf).text)
  {
    if AnalyzeContract(textInput, pdf).Analysed? {
      ReportInSearchOrder(SelectInput(textInput, pdf).text);
    }
  }
}
