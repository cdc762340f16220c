/**
 The orchestrator, `NLPAnalyzer.analyze`: normalise once, then run entity
 extraction, clause detection and classification on the normalised text.

 The pretrained models are fields of a `Pipeline`: the entity recogniser and
 the sentence splitter as functions of the text, the classifier as an optional
 function that may raise.
 */
module Analyzer {
  import opened Text
  import opened Normalize
  import opened Clauses
  import opened Classify
  import Provisions

  /** One `{'label', 'text', 'start_char', 'end_char'}` record of
      `extract_entities`. */
  datatype EntitySpan = EntitySpan(labelName: string, text: string, startChar: int, endChar: int)

  /** The loaded models. */
  datatype Pipeline = Pipeline(
    entities: string -> seq<EntitySpan>,
    sentences: string -> seq<string>,
    classifier: Classifier)

  /** Every span's offsets lie in `text`, start before end. */
  predicate SpansWithin(spans: seq<EntitySpan>, text: string) {
    forall k :: 0 <= k < |spans| ==> 0 <= spans[k].startChar < spans[k].endChar <= |text|
  }

  /** The recogniser reports offsets into the text it was given. */
  ghost predicate RecogniserWellFormed(p: Pipeline) {
    forall s :: SpansWithin(p.entities(s), s)
  }

  /** Offsets that fit a text fit any text at least as long. */
  lemma SpansWithinLonger(spans: seq<EntitySpan>, short: string, long: string)
    requires SpansWithin(spans, short) && |short| <= |long|
    ensures SpansWithin(spans, long)
  {
  }

  /** The dictionary `analyze` returns. */
  datatype Analysis = Analysis(
    text: string,
    entities: seq<EntitySpan>,
    clauses: seq<Clause>,
    classification: Classification)

  /** `analyze(text, candidate_labels)`. */
  function Analyze(input: string, labels: Option<seq<string>>, p: Pipeline): (r: Analysis)
    ensures r.text == Preprocess(input)
    ensures |r.text| <= |input|
    ensures r.text == "" || (!IsSpace(r.text[0]) && !IsSpace(r.text[|r.text| - 1]))
    ensures r.text == "" <==> AllSatisfy(input, IsSpace)
    ensures r.entities == p.entities(r.text)
    ensures RecogniserWellFormed(p) ==> SpansWithin(r.entities, input)
    ensures ExtractedFrom(r.clauses, StripAll(p.sentences(r.text)), Provisions.FindAll(r.text))
    ensures r.classification == ClassifyDocument(r.text, labels, p.classifier)
    ensures r.classification.Heuristic? <==> p.classifier.None? || !HasLabels(labels)
    ensures r.classification.Heuristic? ==> r.classification.contractType == HeuristicType(r.text)
  {
    var text := Preprocess(input);
    assert RecogniserWellFormed(p) ==> SpansWithin(p.entities(text), input) by {
      if RecogniserWellFormed(p) {
        SpansWithinLonger(p.entities(text), text, input);
      }
    }
    Analysis(
      text,
      p.entities(text),
      ExtractClauses(text, p.sentences(text)),
      ClassifyDocument(text, labels, p.classifier))
  }

  /** Every stage sees only the normalised text: inputs that normalise alike
      analyse alike. */
  lemma AnalyzeSeesNormalisedText(a: string, b: string, labels: Option<seq<string>>, p: Pipeline)
    requires Preprocess(a) == Preprocess(b)
    ensures Analyze(a, labels, p) == Analyze(b, labels, p)
  {
  }

  /** Analysing the returned text again need not reproduce it. */
  lemma ReanalysisCanDiffer(input: string, labels: Option<seq<string>>, p: Pipeline)
    requires input == "a\r\r\nb"
    ensures Analyze(Analyze(input, labels, p).text, labels, p).text
            != Analyze(input, labels, p).text
  {
    PreprocessNotIdempotent(input);
  }
}
