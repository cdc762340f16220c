/**
 The `/analyze` and `/documents/<id>` handlers without the web framework: a
 request is the decoded upload, the JSON body and the form field; a response
 is a status with its payload; the store is threaded through explicitly.

 The worked examples below take their input as a parameter pinned by
 `requires t == "..."` rather than writing the literal inline: with an inline
 literal the verifier unfolds the recursive definitions on it eagerly, and
 the proofs become slow and brittle.  Short examples keep the inline form.
 */
module Routes {
  import opened Text
  import opened Normalize
  import opened Clauses
  import opened Classify
  import opened Analyzer
  import opened Records
  import opened Labels

  /** A JSON value as far as the handler inspects it: a string, or any other
      value known only by its truthiness. */
  datatype JsonValue = JString(s: string) | JOther(truthy: bool)

  /** Python truthiness of an optional field (`None` is falsy). */
  predicate Truthy(v: Option<JsonValue>) {
    v.Some? && match v.value
               case JString(s) => s != ""
               case JOther(t) => t
  }

  /** What `request.get_json(silent=True)` yields: nothing (absent or
      unparsable), an object with its two fields of interest, or another value. */
  datatype Body =
    | NoJson
    | JsonObject(text: Option<JsonValue>, rawText: Option<JsonValue>)
    | JsonOther(truthy: bool)

  /** The parts of a request the handler reads: the decoded `file` upload, the
      JSON body and the `candidate_labels` form field. */
  datatype Request = Request(file: Option<string>, body: Body, form: Option<string>)

  /** No text (answered 400), a value the handler raises on before anything
      is stored (answered 500), or the text to analyse. */
  datatype Picked = Missing | Raises | Found(s: string)

  /** `v` is the non-empty string `s`. */
  predicate Supplies(v: Option<JsonValue>, s: string) {
    v == Some(JString(s)) && s != ""
  }

  /** `text = body.get('text') or body.get('raw_text')` and the `if not text`
      test, for an object body. */
  function PickField(text: Option<JsonValue>, rawText: Option<JsonValue>): (r: Picked)
    ensures forall s :: r == Found(s) <==> Supplies(text, s) || (!Truthy(text) && Supplies(rawText, s))
    ensures r == Missing <==> !Truthy(text) && !Truthy(rawText)
  {
    var v := if Truthy(text) then text else rawText;
    if !Truthy(v) then Missing
    else if v.value.JString? then Found(v.value.s)
    else Raises
  }

  /** The text-selection step of `/analyze`: an upload wins over any body. */
  function PickText(req: Request): (r: Picked)
    ensures r.Found? ==> r.s != ""
    ensures r == Missing <==>
              || (req.file.Some? && req.file.value == "")
              || (req.file.None? && (req.body.NoJson? || req.body == JsonOther(false)
                    || (req.body.JsonObject? && !Truthy(req.body.text) && !Truthy(req.body.rawText))))
    ensures req.file.Some? ==> r == (if req.file.value == "" then Missing else Found(req.file.value))
    ensures req.file.None? && req.body.JsonObject? ==> r == PickField(req.body.text, req.body.rawText)
    ensures req.file.None? && req.body.NoJson? ==> r == Missing
    ensures req.file.None? && req.body.JsonOther? ==> r == (if req.body.truthy then Raises else Missing)
  {
    if req.file.Some? then
      if req.file.value == "" then Missing else Found(req.file.value)
    else
      match req.body
      case NoJson => Missing
      case JsonOther(truthy) => if truthy then Raises else Missing
      case JsonObject(text, rawText) => PickField(text, rawText)
  }

  /** A non-empty `text` field hides `raw_text`, even an empty-looking one. */
  lemma TextFieldWins(t: string, raw: Option<JsonValue>, form: Option<string>)
    requires t != ""
    ensures PickText(Request(None, JsonObject(Some(JString(t)), raw), form)) == Found(t)
  {
  }

  /** An empty `text` field falls through to `raw_text`. */
  lemma EmptyTextFallsBack(raw: string, form: Option<string>)
    requires raw != ""
    ensures PickText(Request(None, JsonObject(Some(JString("")), Some(JString(raw))), form)) == Found(raw)
  {
  }

  const NoTextMessage: string := "No text provided"

  /** The response of a handler. */
  datatype Response =
    | BadRequest(error: string)
    | ServerError
    | Analyzed(document: Document, entities: seq<Entity>, clauses: seq<Clause>, classification: Classification)

  /** A response together with the store after the request. */
  datatype Handled = Handled(response: Response, db: Db)

  /** `doc.entities`: the stored entities of one document, in insertion order. */
  function EntitiesOf(es: seq<Entity>, documentId: nat): (r: seq<Entity>)
    ensures |r| <= |es|
    ensures forall e :: e in r <==> e in es && e.documentId == documentId
    ensures forall e :: multiset(r)[e] == if e.documentId == documentId then multiset(es)[e] else 0
  {
    if es == [] then []
    else
      assert es == [es[0]] + es[1..];
      assert multiset(es) == multiset([es[0]]) + multiset(es[1..]);
      var head := if es[0].documentId == documentId then [es[0]] else [];
      var rest := EntitiesOf(es[1..], documentId);
      assert multiset(head + rest) == multiset(head) + multiset(rest);
      head + rest
  }

  /** Entities of other documents contribute nothing. */
  lemma {:induction false} EntitiesOfSkip(es: seq<Entity>, tail: seq<Entity>, documentId: nat)
    requires forall k :: 0 <= k < |es| ==> es[k].documentId != documentId
    ensures EntitiesOf(es + tail, documentId) == EntitiesOf(tail, documentId)
    decreases |es|
  {
    if es != [] {
      assert (es + tail)[1..] == es[1..] + tail;
      assert (es + tail)[0] == es[0];
      EntitiesOfSkip(es[1..], tail, documentId);
    } else {
      assert es + tail == tail;
    }
  }

  /** Entities that all belong to the document are kept whole. */
  lemma {:induction false} EntitiesOfAll(es: seq<Entity>, documentId: nat)
    requires forall k :: 0 <= k < |es| ==> es[k].documentId == documentId
    ensures EntitiesOf(es, documentId) == es
    decreases |es|
  {
    if es != [] {
      EntitiesOfAll(es[1..], documentId);
      assert es == [es[0]] + es[1..];
    }
  }

  /** The `/analyze` handler. */
  function HandleAnalyze(db: Db, req: Request, p: Pipeline, now: int): (h: Handled)
    ensures h.response.BadRequest? <==> PickText(req) == Missing
    ensures h.response.BadRequest? ==> h.response.error == NoTextMessage
    ensures h.response.ServerError? <==> PickText(req) == Raises
    ensures !h.response.Analyzed? ==> h.db == db
    ensures h.response.Analyzed? ==>
              var s := PickText(req).s;
              var a := Analyze(s, ParseLabels(req.form), p);
              && h.response.document == NewDocument(db.nextDocumentId, s, a, now)
              && h.db.documents == db.documents + [h.response.document]
              && |h.db.entities| == |db.entities| + |a.entities|
              && h.db.entities[..|db.entities|] == db.entities
              && SpansOf(h.db.entities[|db.entities|..]) == a.entities
              && (forall k :: |db.entities| <= k < |h.db.entities| ==>
                    h.db.entities[k].documentId == h.response.document.id)
              && h.response.clauses == a.clauses
              && h.response.classification == a.classification
  {
    match PickText(req)
    case Missing => Handled(BadRequest(NoTextMessage), db)
    case Raises => Handled(ServerError, db)
    case Found(s) =>
      var a := Analyze(s, ParseLabels(req.form), p);
      var st := Store(db, s, a, now);
      assert st.db.entities[..|db.entities|] == db.entities;
      assert st.db.entities[|db.entities|..] == st.entities;
      assert forall k :: |db.entities| <= k < |st.db.entities| ==> st.db.entities[k] == st.entities[k - |db.entities|];
      Handled(Analyzed(st.document, EntitiesOf(st.db.entities, st.document.id), a.clauses, a.classification), st.db)
  }

  /** On a consistent store the response lists exactly the recogniser's
      entities for the new document, in order. */
  lemma ResponseEntitiesAreNew(db: Db, req: Request, p: Pipeline, now: int)
    requires Valid(db)
    ensures var h := HandleAnalyze(db, req, p, now);
            h.response.Analyzed? ==>
              SpansOf(h.response.entities) == Analyze(PickText(req).s, ParseLabels(req.form), p).entities
  {
    var h := HandleAnalyze(db, req, p, now);
    if h.response.Analyzed? {
      var s := PickText(req).s;
      var a := Analyze(s, ParseLabels(req.form), p);
      var st := Store(db, s, a, now);
      NoEntityOfNextDocument(db);
      EntitiesOfSkip(db.entities, st.entities, st.document.id);
      EntitiesOfAll(st.entities, st.document.id);
    }
  }

  /** No stored entity refers to the id the next document will get. */
  lemma NoEntityOfNextDocument(db: Db)
    requires Valid(db)
    ensures forall k :: 0 <= k < |db.entities| ==> db.entities[k].documentId != db.nextDocumentId
  {
    forall k | 0 <= k < |db.entities| ensures db.entities[k].documentId != db.nextDocumentId {
      assert Resolves(db.documents, db.entities[k]);
    }
  }

  /** The handler keeps the store consistent when the recogniser reports
      offsets into the text it is given. */
  lemma HandlePreservesValid(db: Db, req: Request, p: Pipeline, now: int)
    requires Valid(db) && RecogniserWellFormed(p)
    ensures Valid(HandleAnalyze(db, req, p, now).db)
  {
    if PickText(req).Found? {
      var s := PickText(req).s;
      var a := Analyze(s, ParseLabels(req.form), p);
      assert SpansWithin(p.entities(a.text), a.text);
      StorePreservesValid(db, s, a, now);
    }
  }

  /** The payload of `/documents/<id>`. */
  datatype DocumentView = DocumentView(document: Document, entities: seq<Entity>, rawText: string)

  /** `Document.query.get(id)`. */
  function FindDocument(docs: seq<Document>, id: nat): (r: Option<Document>)
    ensures r.None? <==> forall k :: 0 <= k < |docs| ==> docs[k].id != id
    ensures r.Some? ==> r.value in docs && r.value.id == id
  {
    if docs == [] then None
    else if docs[0].id == id then Some(docs[0])
    else
      var r := FindDocument(docs[1..], id);
      assert forall k :: 1 <= k < |docs| ==> docs[k] == docs[1..][k - 1];
      r
  }

  /** `get_document(doc_id)`; `None` is the 404 answer. */
  function GetDocument(db: Db, id: nat): (r: Option<DocumentView>)
    ensures r.None? <==> forall k :: 0 <= k < |db.documents| ==> db.documents[k].id != id
    ensures r.Some? ==> r.value.document in db.documents && r.value.document.id == id
    ensures r.Some? ==> r.value.rawText == r.value.document.rawText
    ensures r.Some? ==> forall e :: e in r.value.entities <==> e in db.entities && e.documentId == id
    ensures r.Some? ==> forall e ::
              multiset(r.value.entities)[e] == if e.documentId == id then multiset(db.entities)[e] else 0
  {
    match FindDocument(db.documents, id)
    case None => None
    case Some(d) => Some(DocumentView(d, EntitiesOf(db.entities, id), d.rawText))
  }

  /** The first document with a given id is the only one on a consistent
      store. */
  lemma {:induction false} FindLast(docs: seq<Document>, d: Document)
    requires forall k :: 0 <= k < |docs| ==> docs[k].id < d.id
    ensures FindDocument(docs + [d], d.id) == Some(d)
    decreases |docs|
  {
    if docs != [] {
      assert (docs + [d])[1..] == docs[1..] + [d];
      FindLast(docs[1..], d);
    }
  }

  /** Reading back a document just analysed returns what the handler
      answered, and the raw text as submitted. */
  lemma ReadAfterWrite(db: Db, req: Request, p: Pipeline, now: int)
    requires Valid(db)
    ensures var h := HandleAnalyze(db, req, p, now);
            h.response.Analyzed? ==>
              GetDocument(h.db, h.response.document.id)
                == Some(DocumentView(h.response.document, h.response.entities, PickText(req).s))
  {
    var h := HandleAnalyze(db, req, p, now);
    if h.response.Analyzed? {
      FindLast(db.documents, h.response.document);
    }
  }

  /** Stored offsets lie within the stored raw text. */
  lemma OffsetsWithinRawText(db: Db, id: nat)
    requires Valid(db)
    ensures var r := GetDocument(db, id);
            r.Some? ==> forall e :: e in r.value.entities ==> 0 <= e.startChar < e.endChar <= |r.value.rawText|
  {
    var r := GetDocument(db, id);
    if r.Some? {
      forall e | e in r.value.entities ensures 0 <= e.startChar < e.endChar <= |r.value.rawText| {
        var k :| 0 <= k < |db.entities| && db.entities[k] == e;
        assert Resolves(db.documents, e);
        var j :| 0 <= j < |db.documents| && db.documents[j].id == e.documentId
                 && 0 <= e.startChar < e.endChar <= |db.documents[j].rawText|;
        UniqueIds(db, j, r.value.document);
      }
    }
  }

  /** On a consistent store a document is determined by its id. */
  lemma UniqueIds(db: Db, j: nat, d: Document)
    requires Valid(db) && j < |db.documents| && d in db.documents && d.id == db.documents[j].id
    ensures d == db.documents[j]
  {
    var i :| 0 <= i < |db.documents| && db.documents[i] == d;
    assert !(i < j) && !(j < i);
  }

  /** A recogniser that tags the whole of any non-empty text. */
  const TagAll: Pipeline :=
    Pipeline(t => if t == "" then [] else [EntitySpan("ORG", t, 0, |t|)], t => [], None)

  lemma LeadingBlankDropped(raw: string)
    requires raw == " ab"
    ensures Preprocess(raw) == "ab"
  {
    MissingChar(raw, "\r\n", '\r');
    ReplaceKeeps(raw);
    assert IsSpace(raw[0]) && !IsSpace(raw[1]) && !IsSpace(raw[2]);
    RunEndIsUnique(raw, 0, 1, IsSpace);
    assert Strip(raw) == raw[1..3];
  }

  /** The handler's answer to the upload `" ab"` on an empty store. */
  lemma TagAllResponse(raw: string)
    requires raw == " ab"
    ensures var h := HandleAnalyze(EmptyDb, Request(Some(raw), NoJson, None), TagAll, 0);
            && h.response.Analyzed?
            && h.response.document.rawText == raw
            && SpansOf(h.response.entities) == [EntitySpan("ORG", "ab", 0, 2)]
  {
    var req := Request(Some(raw), NoJson, None);
    assert PickText(req) == Found(raw);
    LeadingBlankDropped(raw);
    var a := Analyze(raw, ParseLabels(None), TagAll);
    assert a.entities == [EntitySpan("ORG", "ab", 0, 2)];
    EmptyDbValid();
    ResponseEntitiesAreNew(EmptyDb, req, TagAll, 0);
  }

  /** Stored offsets index the normalised text, not the stored raw text: an
      upload with a leading blank keeps the blank in `raw_text`, and the
      stored offsets then select a different substring than the entity's. */
  lemma OffsetsReferToNormalisedText(raw: string)
    requires raw == " ab"
    ensures var h := HandleAnalyze(EmptyDb, Request(Some(raw), NoJson, None), TagAll, 0);
            && h.response.Analyzed?
            && |h.response.entities| == 1
            && h.response.entities[0].text == "ab"
            && h.response.entities[0].startChar == 0 && h.response.entities[0].endChar == 2
            && h.response.document.rawText[0..2] == " a"
            && h.response.document.rawText[h.response.entities[0].startChar..h.response.entities[0].endChar] != "ab"
  {
    TagAllResponse(raw);
    ResponseOffsets(HandleAnalyze(EmptyDb, Request(Some(raw), NoJson, None), TagAll, 0), raw);
  }

  /** The single entity row of that answer and what its offsets select. */
  lemma ResponseOffsets(h: Handled, raw: string)
    requires raw == " ab"
    requires h.response.Analyzed? && h.response.document.rawText == raw
    requires SpansOf(h.response.entities) == [EntitySpan("ORG", "ab", 0, 2)]
    ensures |h.response.entities| == 1
    ensures h.response.entities[0].text == "ab"
    ensures h.response.entities[0].startChar == 0 && h.response.entities[0].endChar == 2
    ensures raw[0..2] == " a" && raw[0..2] != "ab"
  {
    var es := h.response.entities;
    assert SpanOf(es[0]) == EntitySpan("ORG", "ab", 0, 2);
    assert raw[0..2] == [raw[0], raw[1]];
    assert raw[0..2] != "ab" by {
      assert raw[0..2][0] == ' ';
    }
  }

  /** A whitespace-only upload passes the emptiness test: it is stored with
      its blanks, whatever the pipeline and the labels, while everything is
      computed on the empty normalised text.  A recogniser that reports
      offsets within its text finds nothing there, and the heuristic, when it
      runs, gives the general label. */
  lemma BlankUploadIsStored(db: Db, blank: string, form: Option<string>, p: Pipeline, now: int)
    requires blank != "" && AllSatisfy(blank, IsSpace)
    ensures var h := HandleAnalyze(db, Request(Some(blank), NoJson, form), p, now);
            && h.response.Analyzed?
            && h.response.document.rawText == blank
            && Analyze(blank, ParseLabels(form), p).text == ""
            && (Valid(db) && RecogniserWellFormed(p) ==> h.response.entities == [])
            && h.response.classification == ClassifyDocument("", ParseLabels(form), p.classifier)
            && (h.response.classification.Heuristic? ==> h.response.classification.contractType == GeneralContract)
  {
    var a := Analyze(blank, ParseLabels(form), p);
    assert a.text == "";
    EmptyTextIsGeneral();
    if Valid(db) && RecogniserWellFormed(p) {
      BlankHasNoEntities(db, blank, form, p, now);
    }
  }

  /** The heuristic gives the empty text the general label. */
  lemma EmptyTextIsGeneral()
    ensures HeuristicType("") == GeneralContract
  {
    assert Lower("") == "";
    assert !Contains("", "lease") && !Contains("", "tenant");
    assert !Contains("", "purchase") && !Contains("", "seller");
  }

  /** A recogniser that reports offsets within its text finds nothing in the
      empty text, so a blank upload stores no entity rows. */
  lemma BlankHasNoEntities(db: Db, blank: string, form: Option<string>, p: Pipeline, now: int)
    requires blank != "" && AllSatisfy(blank, IsSpace)
    requires Valid(db) && RecogniserWellFormed(p)
    ensures HandleAnalyze(db, Request(Some(blank), NoJson, form), p, now).response.entities == []
  {
    var req := Request(Some(blank), NoJson, form);
    assert Analyze(blank, ParseLabels(form), p).text == "";
    ResponseEntitiesAreNew(db, req, p, now);
    assert SpansWithin(p.entities(""), "");
  }
}
