/**
 Document classification, `NLPAnalyzer.classify_document`.  The zero-shot
 model is an optional oracle that either returns an output or raises; without
 it, or without candidate labels, a fixed keyword cascade decides.
 */
module Classify {
  import opened Text

  /** The three labels of the keyword heuristic. */
  datatype ContractType = LeaseAgreement | PurchaseAgreement | GeneralContract

  /** The `contract_type` string stored for each label. */
  function TypeName(c: ContractType): (r: string)
    ensures r in {"Lease Agreement", "Purchase Agreement", "General Contract"}
  {
    match c
    case LeaseAgreement => "Lease Agreement"
    case PurchaseAgreement => "Purchase Agreement"
    case GeneralContract => "General Contract"
  }

  /** Different labels are stored as different strings: they begin with
      different letters. */
  lemma TypeNamesDistinct(c: ContractType, d: ContractType)
    requires c != d
    ensures TypeName(c) != TypeName(d)
  {
    assert TypeName(c)[0] != TypeName(d)[0];
  }

  /** One `{'label', 'score'}` entry of the model's output. */
  datatype LabelScore = LabelScore(labelName: string, score: real)

  /** What the text-classification pipeline returns: per input, a list of scores. */
  type ModelOutput = seq<seq<LabelScore>>

  /** A call into foreign code: it returns a value or raises. */
  datatype Outcome<+T> = Returned(value: T) | Threw

  /** The model, when it could be loaded at start-up. */
  type Classifier = Option<string -> Outcome<ModelOutput>>

  const FailureMessage: string := "classification failed"

  /** The three shapes of the result: `{'raw': out}`,
      `{'raw': None, 'error': ...}` and `{'heuristic': {'contract_type': ...}}`. */
  datatype Classification =
    | Raw(out: ModelOutput)
    | Failed(error: string)
    | Heuristic(contractType: ContractType)

  ghost predicate MentionsLease(lowered: string) {
    Occurs(lowered, "lease") || Occurs(lowered, "tenant")
  }

  ghost predicate MentionsPurchase(lowered: string) {
    Occurs(lowered, "purchase") || Occurs(lowered, "seller")
  }

  /** The keyword cascade: lease or tenant first, then purchase or seller,
      else the general label. */
  function HeuristicType(text: string): (c: ContractType)
    ensures c == LeaseAgreement <==> MentionsLease(Lower(text))
    ensures c == PurchaseAgreement <==> !MentionsLease(Lower(text)) && MentionsPurchase(Lower(text))
    ensures c == GeneralContract <==> !MentionsLease(Lower(text)) && !MentionsPurchase(Lower(text))
  {
    var lowered := Lower(text);
    if Contains(lowered, "lease") || Contains(lowered, "tenant") then LeaseAgreement
    else if Contains(lowered, "purchase") || Contains(lowered, "seller") then PurchaseAgreement
    else GeneralContract
  }

  /** Candidate labels are usable only when present and non-empty. */
  predicate HasLabels(labels: Option<seq<string>>) {
    labels.Some? && labels.value != []
  }

  /** `classify_document(text, candidate_labels)`.  The labels are only checked
      for emptiness: the model is called on the text alone. */
  function ClassifyDocument(text: string, labels: Option<seq<string>>, classifier: Classifier): (r: Classification)
    ensures r.Heuristic? <==> classifier.None? || !HasLabels(labels)
    ensures r.Heuristic? ==> r.contractType == HeuristicType(text)
    ensures r.Raw? <==> classifier.Some? && HasLabels(labels) && classifier.value(text).Returned?
    ensures r.Raw? ==> classifier.value(text) == Returned(r.out)
    ensures r.Failed? ==> r.error == FailureMessage
  {
    if classifier.Some? && HasLabels(labels) then
      match classifier.value(text)
      case Returned(out) => Raw(out)
      case Threw => Failed(FailureMessage)
    else Heuristic(HeuristicType(text))
  }

  /** Which non-empty label list is supplied makes no difference. */
  lemma LabelsNotPassed(text: string, a: seq<string>, b: seq<string>, classifier: Classifier)
    requires a != [] && b != []
    ensures ClassifyDocument(text, Some(a), classifier) == ClassifyDocument(text, Some(b), classifier)
  {
  }

  /** Lease takes precedence over purchase. */
  lemma LeasePrecedence(text: string)
    requires MentionsLease(Lower(text)) && MentionsPurchase(Lower(text))
    ensures HeuristicType(text) == LeaseAgreement
  {
  }

  /** Matching is by substring: "release" contains "lease". */
  lemma ReleaseIsLease()
    ensures HeuristicType("Release of claims") == LeaseAgreement
  {
    assert OccursAt(Lower("Release of claims"), "lease", 2);
  }

  /** Matching ignores case. */
  lemma UpperCaseSeller()
    ensures HeuristicType("SELLER") == PurchaseAgreement
  {
    var lowered := Lower("SELLER");
    assert lowered == "seller";
    MissingChar(lowered, "lease", 'a');
    MissingChar(lowered, "tenant", 't');
    assert OccursAt(lowered, "seller", 0);
  }

  /** Text with none of the four keywords gets the general label. */
  lemma NoKeywordIsGeneral(text: string)
    requires !MentionsLease(Lower(text)) && !MentionsPurchase(Lower(text))
    ensures HeuristicType(text) == GeneralContract
  {
  }

  /** "Loan" holds none of the four keywords, so it is a General Contract. */
  lemma LoanIsGeneral()
    ensures HeuristicType("Loan") == GeneralContract
  {
    var lowered := Lower("Loan");
    assert lowered == "loan";
    MissingChar(lowered, "lease", 'e');
    MissingChar(lowered, "tenant", 't');
    MissingChar(lowered, "purchase", 'p');
    MissingChar(lowered, "seller", 's');
    NoKeywordIsGeneral("Loan");
  }
}
