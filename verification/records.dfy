/**
 The stored records and how the `/analyze` handler shapes them: the document
 row (title, raw text, type), one entity row per recognised entity, and the
 store that holds both tables.  The relational engine is replaced by two
 sequences and two id counters.
 */
module Records {
  import opened Text
  import opened Classify
  import opened Analyzer

  /** A row of `documents`. */
  datatype Document = Document(
    id: nat,
    title: string,
    rawText: string,
    docType: Option<string>,
    classificationScore: Option<real>,
    createdAt: int)

  /** A row of `entities`. */
  datatype Entity = Entity(
    id: nat,
    documentId: nat,
    labelName: string,
    text: string,
    startChar: int,
    endChar: int)

  /** Both tables, with the next id each will hand out. */
  datatype Db = Db(
    documents: seq<Document>,
    entities: seq<Entity>,
    nextDocumentId: nat,
    nextEntityId: nat)

  const TitleLength: nat := 60
  const Ellipsis: string := "..."

  /** `(text[:60] + '...') if len(text) > 60 else text`. */
  function Title(text: string): (r: string)
    ensures |r| <= TitleLength + |Ellipsis|
    ensures |text| <= TitleLength ==> r == text
    ensures |text| > TitleLength ==> |r| == TitleLength + |Ellipsis| && r[TitleLength..] == Ellipsis
    ensures var n := if |text| < TitleLength then |text| else TitleLength;
            r[..n] == text[..n]
  {
    if |text| > TitleLength then text[..TitleLength] + Ellipsis else text
  }

  /** A title alone does not reveal truncation: a 63-character text ending in
      "..." is its own title. */
  lemma TitleOfLongTextCanEqualText(text: string)
    requires |text| == TitleLength + |Ellipsis| && text[TitleLength..] == Ellipsis
    ensures Title(text) == text
  {
    assert text[..TitleLength] + text[TitleLength..] == text;
  }

  /** `doc_type`: the heuristic's label when the heuristic ran, else null. */
  function DocType(c: Classification): (r: Option<string>)
    ensures r.Some? <==> c.Heuristic?
    ensures r.Some? ==> r.value in {"Lease Agreement", "Purchase Agreement", "General Contract"}
  {
    if c.Heuristic? then Some(TypeName(c.contractType)) else None
  }

  /** The entity's span record, without the row's own ids. */
  function SpanOf(e: Entity): EntitySpan {
    EntitySpan(e.labelName, e.text, e.startChar, e.endChar)
  }

  function SpansOf(es: seq<Entity>): (r: seq<EntitySpan>)
    ensures |r| == |es|
    ensures forall k :: 0 <= k < |es| ==> r[k] == SpanOf(es[k])
  {
    seq(|es|, k requires 0 <= k < |es| => SpanOf(es[k]))
  }

  /** One entity row per span, in order, owned by `documentId`, with ids
      handed out from `firstId`. */
  function NewEntities(documentId: nat, firstId: nat, spans: seq<EntitySpan>): (r: seq<Entity>)
    ensures |r| == |spans|
    ensures forall k :: 0 <= k < |r| ==> r[k].documentId == documentId && r[k].id == firstId + k
  {
    seq(|spans|, k requires 0 <= k < |spans| =>
      Entity(firstId + k, documentId, spans[k].labelName, spans[k].text, spans[k].startChar, spans[k].endChar))
  }

  /** The rows copy label, text and offsets verbatim: dropping the ids gives
      back the recogniser's spans. */
  lemma EntitiesRoundTrip(documentId: nat, firstId: nat, spans: seq<EntitySpan>)
    ensures SpansOf(NewEntities(documentId, firstId, spans)) == spans
  {
  }

  /** The document row for a request text and its analysis. */
  function NewDocument(id: nat, rawText: string, a: Analysis, now: int): (d: Document)
    ensures d.id == id && d.rawText == rawText && d.createdAt == now
    ensures d.title == Title(rawText)
    ensures d.docType.Some? <==> a.classification.Heuristic?
    ensures d.docType.Some? ==> d.docType.value == TypeName(a.classification.contractType)
    ensures d.classificationScore.None?
  {
    Document(id, Title(rawText), rawText, DocType(a.classification), None, now)
  }

  /** The outcome of one write: the new rows and the store holding them. */
  datatype Stored = Stored(document: Document, entities: seq<Entity>, db: Db)

  /** Add the document, then its entities, as one unit with fresh ids. */
  function Store(db: Db, rawText: string, a: Analysis, now: int): (s: Stored)
    ensures s.document == NewDocument(db.nextDocumentId, rawText, a, now)
    ensures SpansOf(s.entities) == a.entities
    ensures forall k :: 0 <= k < |s.entities| ==> s.entities[k].documentId == s.document.id
    ensures s.db.documents == db.documents + [s.document]
    ensures s.db.entities == db.entities + s.entities
  {
    var doc := NewDocument(db.nextDocumentId, rawText, a, now);
    var ents := NewEntities(doc.id, db.nextEntityId, a.entities);
    EntitiesRoundTrip(doc.id, db.nextEntityId, a.entities);
    Stored(doc, ents,
      Db(db.documents + [doc], db.entities + ents,
         db.nextDocumentId + 1, db.nextEntityId + |ents|))
  }

  /** Entity `e` belongs to a stored document whose raw text holds its offsets. */
  ghost predicate Resolves(docs: seq<Document>, e: Entity) {
    exists j :: 0 <= j < |docs| && docs[j].id == e.documentId
                && 0 <= e.startChar < e.endChar <= |docs[j].rawText|
  }

  /** The store's invariant: ids below the counters and increasing in
      insertion order (so unique), and no orphaned or out-of-range entity. */
  ghost predicate Valid(db: Db) {
    && (forall k :: 0 <= k < |db.documents| ==> db.documents[k].id < db.nextDocumentId)
    && (forall k, l :: 0 <= k < l < |db.documents| ==> db.documents[k].id < db.documents[l].id)
    && (forall k :: 0 <= k < |db.entities| ==> db.entities[k].id < db.nextEntityId)
    && (forall k, l :: 0 <= k < l < |db.entities| ==> db.entities[k].id < db.entities[l].id)
    && (forall k :: 0 <= k < |db.entities| ==> Resolves(db.documents, db.entities[k]))
  }

  /** The freshly created, empty tables. */
  const EmptyDb: Db := Db([], [], 1, 1)

  lemma EmptyDbValid()
    ensures Valid(EmptyDb)
  {
  }

  /** A write keeps the invariant, provided the recogniser's offsets fit the
      normalised text; they then fit the longer raw text too. */
  lemma StorePreservesValid(db: Db, rawText: string, a: Analysis, now: int)
    requires Valid(db)
    requires |a.text| <= |rawText| && SpansWithin(a.entities, a.text)
    ensures Valid(Store(db, rawText, a, now).db)
  {
    var s := Store(db, rawText, a, now);
    var docs := s.db.documents;
    var ents := s.db.entities;
    forall k | 0 <= k < |ents| ensures Resolves(docs, ents[k]) {
      if k < |db.entities| {
        assert ents[k] == db.entities[k];
        var j :| 0 <= j < |db.documents| && db.documents[j].id == ents[k].documentId
                 && 0 <= ents[k].startChar < ents[k].endChar <= |db.documents[j].rawText|;
        assert docs[j] == db.documents[j];
      } else {
        var n := k - |db.entities|;
        assert ents[k] == s.entities[n];
        assert SpanOf(s.entities[n]) == a.entities[n];
        assert docs[|db.documents|] == s.document;
      }
    }
  }
}
