# Legal document analyzer: a Dafny model of the analysis core

This project models the deterministic logic of a small HTTP service. The
service accepts legal-document text, runs it through a language pipeline, and
stores and serves the results. The pipeline is named-entity extraction,
rule-based clause detection and document classification. The model covers:

- `NLPAnalyzer.preprocess_text`. It replaces `"\r\n"` with `"\n"`, then strips
  whitespace (module `Normalize`).
- `extract_obligations_and_clauses`. This is a keyword scan over the sentences
  (module `Clauses`), then a hand-written scanner for the regex
  `(?:Section|Clause|Article)\s+\d+[\w\.]*`, matched case-insensitively with
  `re.findall` semantics (module `Provisions`, examples in `ProvisionExamples`).
- `classify_document`. It returns one of three results: the model's output, a
  failure record, or the keyword heuristic's label (module `Classify`).
- `analyze`, the orchestrator (module `Analyzer`).
- The `/analyze` handler (modules `Routes`, `Labels`, `Records`). This covers
  text selection from an upload or a JSON body, the "No text provided" answer,
  candidate-label parsing, the title, `doc_type`, one entity row per
  recognised entity, and the write to the two tables.
- The read endpoints. `/documents` (module `Listing`) returns the fifty newest
  documents, newest first. `/documents/<id>` (module `Routes`) looks one up.

The pretrained models appear as fields of a `Pipeline`:

- the entity recogniser and the sentence splitter are functions of the text;
- the classifier is optional, and when present it either returns an output or
  raises.

The relational store is two sequences of records plus two id counters. Its
invariant is `Records.Valid`: ids are unique and increasing, and every entity
belongs to a stored document whose raw text contains its offsets. The clock is
a parameter (`now`).

Text is `seq<char>`, with one element per code point, as Python's `str` counts
them. Whitespace for `strip()` and `\s` is CPython's exact `str.isspace` set.
`\d`, `\w`, `lower()` and case-insensitive matching are restricted to ASCII
(see "Left out").

Two consequences of the code are easy to miss, and the model states both:

- Normalisation is not idempotent. `"a\r\r\nb"` normalises to
  `"a\r\nb"`, and a second pass gives `"a\nb"`.
  `Normalize.PreprocessIdempotentIff` states exactly when a second pass
  changes nothing: when the first result contains no `"\r\n"`.
- The handler stores the request text as given (app/routes.py:34), but the
  entity offsets index the normalised text.
  `Routes.OffsetsReferToNormalisedText` shows a stored entity whose offsets
  select a different substring of the stored raw text.

## Model

| member | source | states |
|---|---|---|
| `Text.Strip` | app/nlp.py:29 | `strip()`: the result never starts or ends with whitespace, is no longer than the input, sits inside the input with only whitespace around it, and is empty exactly when the input is all whitespace |
| `Text.StripUnchanged` | app/nlp.py:29 | stripping a string that has no whitespace at either end returns it unchanged |
| `Text.Contains` | app/nlp.py:73-75 | Python's `sub in s` is true exactly when `sub` occurs at some position of `s` |
| `Text.Lower` | app/nlp.py:72 | lower-casing keeps the length and maps every character on its own, capitals `A`–`Z` to their small letters and everything else to itself |
| `Normalize.ReplaceCrlf` | app/nlp.py:29 | `replace('\r\n', '\n')` never lengthens the text and keeps it all-whitespace exactly when it was |
| `Normalize.ReplaceFirstPair` | app/nlp.py:29 | the replacement is leftmost: when a pair-free prefix is followed by `"\r\n"`, the prefix is kept, the pair becomes one `"\n"`, and the rest is replaced in turn |
| `Normalize.Preprocess` | app/nlp.py:27-30 | the normalised text has no surrounding whitespace, is no longer than the input, and is empty exactly when the input is all whitespace |
| `Normalize.ReplaceShortens` | app/nlp.py:29 | the replacement strictly shortens any text that contains `"\r\n"` |
| `Normalize.ReplaceKeeps` | app/nlp.py:29 | the replacement leaves a text without `"\r\n"` unchanged |
| `Normalize.ReplaceFixpoint` | app/nlp.py:29 | the replacement is a no-op exactly when the text contains no `"\r\n"` |
| `Normalize.PreprocessIdempotentIff` | app/nlp.py:29 | normalising twice gives the same as once exactly when the first result has no `"\r\n"` left |
| `Normalize.PreprocessNotIdempotent` | app/nlp.py:29 | `"a\r\r\nb"` normalises to `"a\r\nb"`, which normalises again to `"a\nb"`: normalisation is not idempotent |
| `Clauses.AnyOccurs` | app/nlp.py:50 | `any(k in s for k in keys)` holds exactly when one of the keys occurs in `s` |
| `Clauses.HasObligationKeyword` | app/nlp.py:49-50 | the lower-cased sentence contains one of the six obligation keywords exactly when the sentence is an obligation |
| `Clauses.StripAll` | app/nlp.py:47 | one stripped sentence per sentence of the model, in the same order |
| `Clauses.KeywordScanFrom` | app/nlp.py:48-51 | each record from position `i` on is an obligation sentence at its own position, and positions strictly increase |
| `Clauses.ScanSentencesComplete` | app/nlp.py:48-51 | for any sentence test, every sentence at or after `i` that passes it yields a record carrying its position |
| `Clauses.KeywordScanComplete` | app/nlp.py:48-51 | no obligation sentence at or after `i` is missed |
| `Clauses.KeywordClauses` | app/nlp.py:47-51 | the keyword records are exactly the obligation sentences: each once, with its 0-based position, in increasing order |
| `Clauses.ConcatClauses` | app/nlp.py:51-55 | appending the provision records after the keyword records keeps every keyword property, ends the list with the references in order, and leaves them the only unpositioned records |
| `Clauses.ProvisionClauses` | app/nlp.py:53-55 | one record per reference `findall` reports, in its order, each without a position |
| `Clauses.ExtractClauses` | app/nlp.py:44-56 | the obligation sentences come first, each once with its position and in increasing order, and none is missed; then one unpositioned record per provision reference, in order; no other record is unpositioned, and nothing is deduplicated |
| `Clauses.ExtractedUnique` | app/nlp.py:44-56 | these facts fix the list: two lists that both meet them for the same sentences and references are equal |
| `Provisions.MatchAt` | app/nlp.py:53 | a match that starts at `p` ends after `p` and within the text |
| `Provisions.MatchSound` | app/nlp.py:53 | every match is a keyword in any case, one or more whitespace characters, one or more digits, then word characters and dots |
| `Provisions.MatchComplete` | app/nlp.py:53 | if any prefix of the text from `p` is a word of the pattern, the scanner matches at `p`, and at least as far: the match is the longest one, as greedy backtracking finds |
| `Provisions.ScanFrom` | app/nlp.py:53 | the reported spans are real matches, in order and non-overlapping |
| `Provisions.ScanComplete` | app/nlp.py:53 | every position where a match starts lies inside some reported span |
| `Provisions.Matches` | app/nlp.py:53 | `findall`'s spans on the text: matches, left to right, non-overlapping |
| `Provisions.MatchesComplete` | app/nlp.py:53 | no match start is skipped: each lies inside a reported span |
| `Provisions.FindAll` | app/nlp.py:53 | the reported strings are the text under the spans, in order, and each is a word of the pattern |
| `ProvisionExamples.TrailingDotKept` | app/nlp.py:53 | `"Section 3."` yields `"Section 3."`: the `[\w\.]*` tail is greedy and keeps the dot |
| `ProvisionExamples.NoWordBoundary` | app/nlp.py:53 | `"Subsection 4"` yields `"section 4"`: the pattern has no word boundary |
| `ProvisionExamples.TwoReferences` | app/nlp.py:52-53 | `"See Section 3.2 and Clause 5 for details."` yields `"Section 3.2"` then `"Clause 5"`: the text before, between and after the references is passed over |
| `Classify.HeuristicType` | app/nlp.py:70-79 | the label is Lease exactly when the lower-cased text contains "lease" or "tenant"; Purchase exactly when it does not but contains "purchase" or "seller"; General exactly when it contains none of the four |
| `Classify.TypeName` | app/nlp.py:74-78 | the stored `contract_type` is one of the three heuristic strings |
| `Classify.TypeNamesDistinct` | app/nlp.py:74-78 | different contract types are stored as different strings, so the stored label identifies the type |
| `Classify.ClassifyDocument` | app/nlp.py:58-79 | the heuristic runs exactly when there is no model or no non-empty label list; otherwise the model's output is returned as is, or "classification failed" when the model raises |
| `Classify.LabelsNotPassed` | app/nlp.py:60-64 | which non-empty label list is supplied makes no difference: the model sees only the text |
| `Classify.LeasePrecedence` | app/nlp.py:73-76 | text that mentions both a lease and a purchase keyword is a Lease Agreement |
| `Classify.ReleaseIsLease` | app/nlp.py:73 | matching is by substring: "Release of claims" is a Lease Agreement |
| `Classify.UpperCaseSeller` | app/nlp.py:72-75 | matching ignores case: "SELLER" is a Purchase Agreement |
| `Classify.NoKeywordIsGeneral` | app/nlp.py:77-78 | any text whose lower-cased form holds none of the four keywords is a General Contract |
| `Classify.LoanIsGeneral` | app/nlp.py:72-78 | `"Loan"`, which holds none of the four keywords, is a General Contract |
| `Analyzer.Analyze` | app/nlp.py:81-91 | the returned text is `preprocess_text` of the input; the entities are the recogniser's on that text; the clauses meet every clause fact for the stripped sentences and the references of that text; the classification is `classify_document` of that text; entity offsets fit the input when the recogniser's fit its text |
| `Analyzer.AnalyzeSeesNormalisedText` | app/nlp.py:82-85 | inputs with the same normalised text get the same analysis |
| `Analyzer.ReanalysisCanDiffer` | app/nlp.py:82 | analysing the returned text again can change it |
| `Routes.PickField` | app/routes.py:20-24 | a truthy `text` wins; otherwise `raw_text` is used; the answer is "no text" exactly when neither is truthy |
| `Routes.PickText` | app/routes.py:13-24 | an upload wins over the body, and an empty upload is "no text"; a missing, unparsable or falsy JSON body is "no text"; a truthy non-object body or a truthy non-string field raises |
| `Routes.TextFieldWins` | app/routes.py:21 | a non-empty `text` field is used whatever `raw_text` holds |
| `Routes.EmptyTextFallsBack` | app/routes.py:21 | an empty `text` field falls through to `raw_text` |
| `Labels.Split` | app/routes.py:29 | `split(',')` gives comma-free pieces that join back to the input |
| `Labels.SplitJoin` | app/routes.py:29 | splitting undoes joining separator-free pieces |
| `Labels.CleanPieces` | app/routes.py:29 | each kept piece is non-empty and stripped, comma-free pieces give comma-free labels, and nothing is kept exactly when every piece is blank |
| `Labels.CleanPiecesSelects` | app/routes.py:29 | the labels are exactly the pieces that do not strip to nothing, stripped, in their original order |
| `Labels.CleanPiecesKeepsClean` | app/routes.py:29 | clean labels pass through unchanged, in order |
| `Labels.ParseLabels` | app/routes.py:27-29 | an absent or empty field gives no labels; otherwise the labels are the pieces of `split(',')` that do not strip to nothing, stripped and in order, each non-empty and comma-free |
| `Labels.JoinBlank` | app/routes.py:29 | a joined field is only commas and blanks exactly when every piece is blank |
| `Labels.BlankFieldHasNoLabels` | app/routes.py:28-29 | a non-empty field parses to the empty list exactly when it holds only commas and whitespace |
| `Labels.LabelsRoundTrip` | app/routes.py:27-29 | joining clean labels with commas and parsing gives back the same labels, in order |
| `Records.Title` | app/routes.py:34 | the title is the text when at most 60 characters; otherwise the first 60 characters followed by "...", so never longer than 63 |
| `Records.TitleOfLongTextCanEqualText` | app/routes.py:34 | a 63-character text ending in "..." is its own title, so a title alone does not reveal truncation |
| `Records.DocType` | app/routes.py:35-37 | `doc_type` is set exactly when the heuristic ran, and is then one of its three labels |
| `Records.NewEntities` | app/routes.py:42-44 | one row per recognised entity, in order, owned by the new document, with fresh increasing ids |
| `Records.EntitiesRoundTrip` | app/routes.py:43 | the rows copy label, text and offsets verbatim: dropping the ids gives back the recogniser's spans |
| `Records.NewDocument` | app/routes.py:34-37 | the document row keeps the request text as given, its title, the heuristic label if any, no score, and the creation time |
| `Records.Store` | app/routes.py:38-45 | the write appends the document, then its entity rows in order, each owned by the new document |
| `Records.EmptyDbValid` | app/models.py:4-31 | the empty tables satisfy the store invariant |
| `Records.StorePreservesValid` | app/routes.py:38-45 | a write keeps the store invariant when the entity offsets fit the normalised text |
| `Routes.EntitiesOf` | app/models.py:13 | `doc.entities` holds exactly the stored entities of that document, each as often as it is stored |
| `Routes.HandleAnalyze` | app/routes.py:11-48 | 400 "No text provided" exactly when there is no text, 500 exactly when the handler raises, and in both cases the store is unchanged; otherwise one document is appended, then entity rows that copy the recogniser's spans in order and belong to that document, and the response carries the analysis of the request text |
| `Routes.ResponseEntitiesAreNew` | app/routes.py:47 | on a consistent store the response lists exactly the recogniser's entities for the new document, in order |
| `Routes.HandlePreservesValid` | app/routes.py:11-48 | the handler keeps the store consistent when the recogniser's offsets fit its text |
| `Routes.FindDocument` | app/routes.py:57 | the lookup finds a document with the id exactly when one is stored |
| `Routes.GetDocument` | app/routes.py:55-62 | 404 exactly for an unknown id; otherwise the document, exactly its stored entities each as often as stored, and its raw text |
| `Routes.ReadAfterWrite` | app/routes.py:47-61 | reading back a just-analysed document returns the response's document and entities and the request text |
| `Routes.OffsetsWithinRawText` | app/routes.py:58-61 | on a consistent store every served entity's offsets lie within the served raw text |
| `Routes.OffsetsReferToNormalisedText` | app/routes.py:43 | an upload `" ab"` gives an entity `"ab"` at offsets 0 to 2, which select `" a"` of the stored raw text |
| `Routes.BlankUploadIsStored` | app/routes.py:23-34 | for any store, pipeline and label field, a whitespace-only upload passes the emptiness test and is stored as given, while the analysis runs on the empty text: no entities when the store is consistent and the recogniser reports offsets within its text, the classification of the empty text, and General Contract whenever the heuristic runs |
| `Listing.Insert` | app/routes.py:52 | insertion keeps a list newest first and adds exactly the one document |
| `Listing.SortNewestFirst` | app/routes.py:52 | the result is newest first and a permutation of the input |
| `Listing.TakeNewest` | app/routes.py:52 | a prefix of a newest-first list is newest first, drawn from it, and no older than anything left out |
| `Listing.ListDocuments` | app/routes.py:52 | at most 50 documents (all of them when fewer), newest first, drawn from the store, and none left out is newer than any listed |
| `Listing.HeadIsNewest` | app/routes.py:52 | the first listed document is at least as new as every stored one |
| `Listing.NewestUploadListedFirst` | app/routes.py:52 | a document created after all others heads the listing |

## Left out

- Entity recognition and sentence segmentation (app/nlp.py:33-42, 47) are pretrained models. They are function fields of `Analyzer.Pipeline`. `Analyzer.RecogniserWellFormed` is the only assumption made about them: offsets lie within the text.
- Sentence strings: the source reads `s.string` from each sentence span. spaCy 3 no longer has that attribute, so the line may raise there. The model assumes the splitter returns each sentence's text.
- `Routes.EntitiesOf`: `doc.entities` has no `order_by` (app/models.py:13), so the database promises no order for a document's entities. The model returns them in insertion order. `Routes.ResponseEntitiesAreNew` and `Routes.ReadAfterWrite` rely on that choice for their "in order" claims; the contract of `Routes.EntitiesOf` itself states only which rows and how many times.
- The classifier (app/nlp.py:20-25, 64) is an optional function that returns an output or raises. Its output is carried through opaquely as label/score lists.
- Model loading and environment configuration (app/nlp.py:8-25) are start-up I/O. The `/ping` route is also left out: it has no logic.
- HTTP and Flask plumbing is left out: `secure_filename`, UTF-8 decoding of uploads with errors ignored, and JSON serialisation. An upload is modelled as its decoded text. A JSON value is modelled as a string or as a non-string known only by its truthiness.
- `Labels.ParseLabels`: an empty `candidate_labels` field stays the empty string in the source. The model maps it to "no labels". Both lead to the heuristic.
- The database engine, sessions and flush/commit atomicity are left out. A write is one pure function from store to store. `created_at` is a parameter, not a clock read.
- `Listing.ListDocuments` leaves open the order of documents with equal creation times, as `ORDER BY created_at DESC` does. The sort used to exhibit a result is stable, but the contract promises no tie order.
- The `classification_score` column is never set by the handler. The model stores "none".
- `Provisions.MatchAt`, `Clauses.HasObligationKeyword`, `Classify.HeuristicType`: `lower()`, `\w`, `\d` and IGNORECASE are ASCII-only. Python also lower-cases non-ASCII capitals and accepts Unicode digits and letters. Case-insensitive regex matching also lets "ſ" stand for "s", and "ı" or "İ" for "i". Python's `lower()` turns "İ" into two characters. The model gives these characters no special treatment, and its lower-casing never changes a text's length.
- The response's JSON field order, the ISO-8601 rendering of `created_at`, and the 404 page body are left out.
