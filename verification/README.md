# LegalLens clause classifier, modelled in Dafny

LegalLens reads a contract (typed text or an uploaded PDF) and reports its
critical clauses. For each of six clause categories it looks for the first
keyword the text mentions. It then reports the first sentence that mentions
that keyword, together with the category's risk level and description. The
report is ordered from high to low risk. This project models that core as
pure functions and proves properties of it:

- `wrappers.dfy`, module `Wrappers`: `Option`, which stands for Python's `None`.
- `chars.dfy`, module `Chars`: the character classes and `str.lower()`.
  - `IsSpace` is the whitespace set that `\s` and `str.strip()` use.
  - `IsTerminator` is one of `.`, `!` and `?`.
  - `Lower` is the per-character lower-casing.
- `strings.dfy`, module `Strings`: substring search (`in`), `str.strip()`, and the infix relation.
- `sentences.dfy`, module `Sentences`: `_split_sentences`.
  - It collapses whitespace runs, splits on runs of terminators, strips each fragment, and keeps those longer than ten characters.
- `catalogue.dfy`, module `Catalogue`: the six categories of `critical_patterns`, with their exact keywords, descriptions and risk levels, and the `risk_order` ranks.
- `matcher.dfy`, module `Matcher`: `_keyword_search`.
  - For each category it takes the first keyword the text mentions, then the first sentence that mentions it.
  - The category is finished at that keyword (the unconditional `break`), whether or not a sentence was found.
- `ranking.dfy`, module `Ranking`: the stable descending sort by risk rank in `analyze_document`.
  - It is written as an insertion sort and proved equal to a reference order: high-risk hits, then medium, then low, each group in search order.
- `analyzer.dfy`, module `Analyzer`:
  - `analyze_document`, which refuses texts shorter than 50 characters after stripping;
  - the input-selection branch of `analyze_contract`: a PDF takes precedence, and a PDF error, a short PDF text or short typed text are refused;
  - the call that follows it.

Three details of the code are easy to misread; the model follows the code:

- **The `break` at app.py:111 is unconditional.** A category is finished at the first keyword the text mentions, even when no sentence mentions that keyword. It does not go on to the next keyword. `Matcher.FirstKeywordDecides` states this.
- **The sentence length test is `> 10`.** A stripped fragment of exactly ten characters is dropped too (app.py:85).
- **The 50-character threshold of `analyze_document` is measured after stripping** (app.py:117). The PDF branch of `analyze_contract` measures the raw extracted text (app.py:165), and the typed-text branch measures the stripped text (app.py:171).

A `LegalLens` object is its catalogue. The search and `analyze_document`
take that catalogue as a parameter (`patterns`). `AnalyzeContract` uses
`Catalogue.Patterns`, as `LegalLens()` does.

## Model

| member | source | states |
|---|---|---|
| Catalogue.Rank | app.py:123-124 | the sort key gives 3 to high risk only and 1 to low risk only, and every rank is between 1 and 3 |
| Catalogue.PatternsShape | app.py:42-79 | the catalogue has six categories, each with at least one keyword |
| Catalogue.PatternsDistinctIds | app.py:42-79 | no two categories share an id, as the keys of a dictionary |
| Catalogue.PatternsRankOrdered | app.py:42-79 | the categories are declared from high to low risk |
| Chars.Lower | app.py:90 | lower-casing a character never turns whitespace into non-whitespace or back, and the same holds for sentence terminators |
| Chars.LowerStr | app.py:90 | lower-casing a string maps each character in place and keeps the length |
| Chars.LowerStrIdempotent | app.py:90 | lower-casing twice is the same as lower-casing once |
| Strings.Contains | app.py:94 | Python's `needle in hay`: it can hold only when the needle is no longer than the haystack, and it always holds for the empty needle. `Strings.ContainsIffOccurs` pins it completely |
| Strings.ContainsIffOccurs | app.py:94 | the `in` test holds exactly when the needle occurs at some position of the haystack |
| Strings.Strip | app.py:85 | a stripped string is no longer than the original and has no whitespace at either end |
| Strings.StripSlice | app.py:85 | stripping removes only whitespace: the result is a contiguous slice, and everything before and after it is whitespace |
| Strings.StripIsInfix | app.py:85 | a stripped string is an infix of the original |
| Strings.StripIdempotent | app.py:85 | stripping twice is the same as stripping once |
| Strings.StripAllSpace | app.py:117 | a text made only of whitespace strips to the empty string |
| Strings.StripLower | app.py:99-100 | stripping and lower-casing commute |
| Sentences.Collapse | app.py:83 | after collapsing, only plain spaces remain, no two are adjacent, and a non-empty text stays non-empty and starts with whitespace exactly when the original did |
| Sentences.CollapseKeepsText | app.py:83 | collapsing whitespace leaves every non-whitespace character in place and in order |
| Sentences.CollapseIdempotent | app.py:83 | collapsing twice is the same as collapsing once |
| Sentences.CollapseRun | app.py:83 | a maximal whitespace run between two non-whitespace neighbours becomes exactly one space, and the text on either side collapses on its own |
| Sentences.CollapseNoSpace | app.py:83 | a text without whitespace is left unchanged |
| Sentences.SplitOnTerminators | app.py:84 | `re.split(r'[.!?]+', …)` returns at least one fragment, even for the empty text. `Sentences.SplitRoundTrip` and `Sentences.SplitConcat` pin where it cuts |
| Sentences.SplitFragments | app.py:84 | every fragment of the split is free of terminators and is an infix of the text |
| Sentences.SplitConcat | app.py:84 | the fragments joined back are the text with its terminators removed |
| Sentences.SplitRoundTrip | app.py:84 | the split cuts exactly at the maximal terminator runs: there is one run fewer than fragments, every fragment between two runs is non-empty, and putting the runs back between the fragments gives the text |
| Sentences.SplitRunsAsEach | app.py:84-85 | splitting on runs of terminators and splitting at every single terminator keep the same sentences once short fragments are dropped |
| Sentences.Keep | app.py:85 | the list comprehension keeps only sentences longer than ten characters, and no more of them than there are fragments. `Sentences.KeepExactly` and `Sentences.KeepAppend` pin which sentences it keeps and in what order |
| Sentences.KeepAppend | app.py:85 | filtering the fragments of two lists laid end to end gives the kept sentences of the first followed by those of the second, so the filter keeps the split's order |
| Sentences.KeepExactly | app.py:85 | the kept sentences are exactly the stripped fragments longer than ten characters |
| Sentences.SplitSentences | app.py:81-85 | `_split_sentences` returns only sentences longer than ten characters. `Sentences.SentenceShape`, `Sentences.BlankTextHasNoSentences` and `Sentences.SplitSentencesLower` state the rest of their shape |
| Sentences.SentenceShape | app.py:81-85 | every sentence is longer than ten characters, has no terminator, no whitespace at either end and no double space, and is an infix of the collapsed text |
| Sentences.SentenceStripped | app.py:85 | a sentence is unchanged by stripping, so stripping it again as line 100 does changes nothing |
| Sentences.BlankTextHasNoSentences | app.py:81-85 | a text made only of whitespace has no sentences |
| Sentences.SplitSentencesLower | app.py:81-85 | the sentences of the lower-cased text are the lower-cased sentences of the text |
| Matcher.FirstIndex | app.py:93-101 | an early-exit loop returns the first position whose test holds, or nothing when no position passes |
| Matcher.Mentions | app.py:94-99 | the case-blind test `keyword.lower() in text.lower()` can hold only when the keyword is no longer than the text, and always holds for the empty keyword. `Matcher.MentionsIffOccurs` pins it completely |
| Matcher.MentionsIffOccurs | app.py:94 | the keyword test holds exactly when the lower-cased keyword occurs in the lower-cased text |
| Matcher.CategoryHit | app.py:92-111 | a category's hit names the category, carries one of its keywords, and copies its risk and description |
| Matcher.SentenceHit | app.py:95-110 | the inner loop's hit carries the keyword it searched for and the category's id, risk and description |
| Matcher.HitProvenance | app.py:94-107 | the text mentions the hit's keyword, and the hit's sentence is one of the text's sentences and mentions it too |
| Matcher.FirstKeywordIndex | app.py:93-94 | the keyword loop stops at the first keyword the text mentions, and finds none only when no keyword occurs |
| Matcher.FirstSentenceIndex | app.py:98-101 | the sentence loop stops at the first sentence that mentions the keyword, and finds none only when no sentence does |
| Matcher.FirstMatchRule | app.py:93-111 | given the first mentioned keyword, the category hits exactly when some sentence mentions that keyword; the hit is that keyword with the first such sentence |
| Matcher.FirstKeywordDecides | app.py:94-111 | when no sentence mentions the first mentioned keyword, the category has no hit, whatever later keywords would match |
| Matcher.NoKeywordNoHit | app.py:93-94 | a category none of whose keywords the text mentions has no hit |
| Matcher.KeywordSearch | app.py:87-113 | the search reports no more hits than there are categories |
| Matcher.SearchSound | app.py:92-113 | every reported hit is the hit of one of the categories |
| Matcher.SearchComplete | app.py:92-113 | every category that has a hit has it reported |
| Matcher.SearchInCatalogueOrder | app.py:92-113 | with distinct ids, the hits' categories appear at strictly increasing catalogue positions |
| Matcher.SearchDistinctTypes | app.py:92-113 | with distinct ids, no two hits share a category |
| Matcher.KeywordSearchDistinct | app.py:42-113 | with the catalogue of `LegalLens` there are at most six hits, all of different categories |
| Matcher.SentenceHitCaseBlind | app.py:98-100 | sentence lists that agree up to letter case give the same hit, with the sentence differing only in case |
| Matcher.CategoryHitCaseBlind | app.py:90-100 | texts that agree up to letter case give a category the same hit, with the sentence differing only in case |
| Matcher.SearchCaseBlind | app.py:87-113 | texts that agree up to letter case give the same hits (category, keyword, risk, description), with sentences differing only in case |
| Ranking.InsertPermutes | app.py:124 | inserting adds exactly the inserted hit |
| Ranking.InsertSorted | app.py:124 | inserting into a list sorted by rank keeps it sorted |
| Ranking.SortByRank | app.py:124 | the sort returns a permutation of the hits, with ranks non-increasing |
| Ranking.SortKeepsGroups | app.py:124 | the sort keeps the hits of each risk level in their original order |
| Ranking.SortIsStable | app.py:123-124 | the sorted list is exactly the high-risk hits, then the medium ones, then the low ones, each group in search order |
| Ranking.SortedUnchanged | app.py:124 | sorting a list already in rank order changes nothing |
| Ranking.SearchSortedWhenRankOrdered | app.py:92-113 | a catalogue declared from high to low risk yields hits already in rank order |
| Ranking.SortKeepsSearchOrder | app.py:120-124 | for such a catalogue the sort returns the search result unchanged |
| Analyzer.AnalyzeDocument | app.py:115-129 | a document is refused, with the short-text message, exactly when its stripped text has fewer than 50 characters; otherwise the report counts its hits and holds the search's hits sorted by rank |
| Analyzer.ReportIsStable | app.py:120-128 | the report lists the high-risk hits, then the medium ones, then the low ones, each group in search order |
| Analyzer.ReportInSearchOrder | app.py:120-129 | with the catalogue of `LegalLens`, an accepted document's report is the search result and its length |
| Analyzer.SelectInput | app.py:158-177 | an uploaded PDF never yields the invalid-input refusal, and typed text never yields a PDF refusal. A PDF failure carries the extraction's error. A chosen text has at least 50 characters. A chosen PDF text comes from an extraction without an error. Chosen typed text has at least 50 characters after stripping. An extraction error always yields the PDF failure, and an error-free extraction of at least 50 characters is always used |
| Analyzer.PdfChoice | app.py:158-170 | with a PDF uploaded, an extraction error is reported first; otherwise the raw extracted text is used when it has at least 50 characters, and otherwise the PDF is refused as too short |
| Analyzer.PdfTakesPrecedence | app.py:158-172 | when a PDF is uploaded the typed text does not influence the choice |
| Analyzer.TypedTextChoice | app.py:171-177 | without a PDF the typed text is used exactly when it has at least 50 characters after stripping, and otherwise the input is refused |
| Analyzer.AnalyzeContract | app.py:158-189 | the call refuses exactly the inputs the selection refuses, and passes on the selection's refusal; a chosen text meets the analysis error exactly when it has fewer than 50 characters after stripping, and that error carries the short-text message |
| Analyzer.TypedTextNeverAnalysisError | app.py:171-187 | typed text that passes the selection never meets the analysis error |
| Analyzer.StrippedPdfNeverAnalysisError | app.py:165-187 | an already stripped PDF text that passes the selection never meets the analysis error |
| Analyzer.UnstrippedPdfReachesAnalysisError | app.py:165-187 | the PDF branch checks the raw length, so fifty spaces pass the selection and meet the analysis error; since `extract_text_from_pdf` strips its result (app.py:147), only an extraction result the program never produces takes this path |
| Analyzer.AnalysedIsSearch | app.py:179-189 | a successful analysis reports the catalogue's hits for the chosen text in search order |

## Left out

- PDF extraction (`extract_text_from_pdf`, app.py:131-151) reads a file through PyPDF2. The model takes its `(text, error)` result as the parameter `Extraction`. The extraction's whitespace collapsing and stripping are not modelled. `Analyzer.StrippedPdfNeverAnalysisError` states the stripped case as the hypothesis of its ensures.
- The HTML rendering of the result and its status lines (app.py:190-284) are presentation only. `Analyzer.AnalyzeContract` stops at the list of hits. The Gradio interface (app.py:290-395) is left out for the same reason.
- The `except` branch of `analyze_contract` (app.py:272-284) is left out: no operation of the model raises.
- The imports at app.py:6-35 are left out; the core does not use them.
- Chars.Lower: it lower-cases only ASCII and Latin-1 capitals (U+00C0 to U+00DE except U+00D7), character by character. Python's `str.lower()` covers all of Unicode and can change a string's length (U+0130 becomes two characters). The keywords and descriptions need only the Latin-1 range.
- Catalogue.Rank: the risk level is an enumeration, so the fallback 0 of `risk_order.get` (app.py:124) can never be reached and is not modelled.
- Analyzer.AnalyzeDocument: its text is a string, never `None`, so `not text` is modelled as the empty string. `analyze_contract` passes it only texts of at least 50 characters (app.py:165 and 171), so neither falsy value reaches it from there.
- Matcher.KeywordSearch: its own contract bounds only the number of hits. That no two hits share a category is stated separately, under distinct category ids, by `Matcher.SearchDistinctTypes` and `Matcher.SearchInCatalogueOrder`, and for the catalogue of `LegalLens` by `Matcher.KeywordSearchDistinct`.
- Analyzer.SelectInput: the typed text and the extracted text are `Option<string>`. That separates `None` from the empty string, and `Truthy` is Python's truth test on them.
- The `re` module is modelled only for the two patterns used: `\s+` in `Sentences.Collapse` and `[.!?]+` in `Sentences.SplitOnTerminators`.
