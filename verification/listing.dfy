/**
 `GET /documents`: the stored documents, newest first, at most fifty.  The
 database's `ORDER BY created_at DESC LIMIT 50` becomes a stable insertion
 sort on the creation time followed by a prefix; the contract states only
 what the query promises, so any order of equal timestamps satisfies it.
 */
module Listing {
  import opened Records

  const PageSize: nat := 50

  /** Creation times never increase along `ds`. */
  predicate NewestFirst(ds: seq<Document>) {
    forall k, l :: 0 <= k < l < |ds| ==> ds[k].createdAt >= ds[l].createdAt
  }

  /** No document of `ds` is newer than `t`. */
  predicate NoneAfter(ds: seq<Document>, t: int) {
    forall k :: 0 <= k < |ds| ==> ds[k].createdAt <= t
  }

  lemma ConsNewestFirst(d: Document, ds: seq<Document>)
    requires NewestFirst(ds) && NoneAfter(ds, d.createdAt)
    ensures NewestFirst([d] + ds)
  {
    var r := [d] + ds;
    assert forall k :: 1 <= k < |r| ==> r[k] == ds[k - 1];
  }

  /** Put `d` before the first document that is not newer than it. */
  function Insert(d: Document, ds: seq<Document>): (r: seq<Document>)
    requires NewestFirst(ds)
    ensures NewestFirst(r)
    ensures multiset(r) == multiset(ds) + multiset{d}
    ensures forall t :: NoneAfter(ds, t) && d.createdAt <= t ==> NoneAfter(r, t)
  {
    if ds == [] || d.createdAt >= ds[0].createdAt then
      ConsNewestFirst(d, ds);
      [d] + ds
    else
      var rest := Insert(d, ds[1..]);
      InsertBehind(d, ds, rest);
      [ds[0]] + rest
  }

  /** `d` inserted into the tail of `ds`, behind a newer head. */
  lemma InsertBehind(d: Document, ds: seq<Document>, rest: seq<Document>)
    requires ds != [] && NewestFirst(ds) && d.createdAt < ds[0].createdAt
    requires NewestFirst(rest) && multiset(rest) == multiset(ds[1..]) + multiset{d}
    requires forall t :: NoneAfter(ds[1..], t) && d.createdAt <= t ==> NoneAfter(rest, t)
    ensures NewestFirst([ds[0]] + rest)
    ensures multiset([ds[0]] + rest) == multiset(ds) + multiset{d}
    ensures forall t :: NoneAfter(ds, t) && d.createdAt <= t ==> NoneAfter([ds[0]] + rest, t)
  {
    assert ds == [ds[0]] + ds[1..];
    assert NoneAfter(ds[1..], ds[0].createdAt);
    ConsNewestFirst(ds[0], rest);
    var r := [ds[0]] + rest;
    assert forall k :: 1 <= k < |r| ==> r[k] == rest[k - 1];
    forall t | NoneAfter(ds, t) && d.createdAt <= t ensures NoneAfter(r, t) {
      assert NoneAfter(ds[1..], t);
    }
  }

  /** The documents reordered newest first. */
  function SortNewestFirst(ds: seq<Document>): (r: seq<Document>)
    ensures NewestFirst(r)
    ensures multiset(r) == multiset(ds)
  {
    if ds == [] then []
    else
      assert ds == [ds[0]] + ds[1..];
      Insert(ds[0], SortNewestFirst(ds[1..]))
  }

  /** Every document kept in `sorted[..n]` is at least as new as every one
      dropped. */
  lemma TakeNewest(sorted: seq<Document>, n: nat)
    requires NewestFirst(sorted) && n <= |sorted|
    ensures NewestFirst(sorted[..n])
    ensures multiset(sorted[..n]) <= multiset(sorted)
    ensures forall d :: d in multiset(sorted) - multiset(sorted[..n]) ==>
              forall k :: 0 <= k < n ==> d.createdAt <= sorted[..n][k].createdAt
  {
    var kept := sorted[..n];
    assert forall k :: 0 <= k < n ==> kept[k] == sorted[k];
    DroppedLieBeyond(sorted, n);
    forall d | d in multiset(sorted) - multiset(kept)
      ensures forall k :: 0 <= k < n ==> d.createdAt <= kept[k].createdAt
    {
      var j :| n <= j < |sorted| && sorted[j] == d;
    }
  }

  /** What a prefix leaves out sits at or after its end. */
  lemma DroppedLieBeyond(s: seq<Document>, n: nat)
    requires n <= |s|
    ensures multiset(s[..n]) <= multiset(s)
    ensures forall d :: d in multiset(s) - multiset(s[..n]) ==> exists j :: n <= j < |s| && s[j] == d
  {
    assert s == s[..n] + s[n..];
    assert multiset(s) == multiset(s[..n]) + multiset(s[n..]);
    forall d | d in multiset(s) - multiset(s[..n]) ensures exists j :: n <= j < |s| && s[j] == d {
      assert d in s[n..];
      var i :| 0 <= i < |s[n..]| && s[n..][i] == d;
      assert s[n + i] == d;
    }
  }

  /** `list_documents`: the fifty newest documents, newest first; every
      document left out is no newer than every one listed. */
  function ListDocuments(db: Db): (r: seq<Document>)
    ensures |r| == if |db.documents| < PageSize then |db.documents| else PageSize
    ensures NewestFirst(r)
    ensures multiset(r) <= multiset(db.documents)
    ensures forall d :: d in multiset(db.documents) - multiset(r) ==>
              forall k :: 0 <= k < |r| ==> d.createdAt <= r[k].createdAt
  {
    var sorted := SortNewestFirst(db.documents);
    var n := if |sorted| < PageSize then |sorted| else PageSize;
    TakeNewest(sorted, n);
    sorted[..n]
  }

  /** The first listed document is at least as new as every stored one. */
  lemma HeadIsNewest(db: Db)
    requires db.documents != []
    ensures var r := ListDocuments(db);
            r != [] && forall x :: x in db.documents ==> x.createdAt <= r[0].createdAt
  {
    var r := ListDocuments(db);
    assert |r| >= 1;
    forall x | x in db.documents ensures x.createdAt <= r[0].createdAt {
      if x in r {
        var k :| 0 <= k < |r| && r[k] == x;
      } else {
        assert x in multiset(db.documents) && x !in multiset(r);
      }
    }
  }

  /** Every listed document is a stored one. */
  lemma ListedIsStored(db: Db, k: nat)
    requires k < |ListDocuments(db)|
    ensures ListDocuments(db)[k] in db.documents
  {
    var r := ListDocuments(db);
    assert r[k] in multiset(r);
  }

  /** A document created after every stored one heads the listing. */
  lemma NewestUploadListedFirst(db: Db, d: Document)
    requires forall k :: 0 <= k < |db.documents| ==> db.documents[k].createdAt < d.createdAt
    ensures var r := ListDocuments(Db(db.documents + [d], db.entities, db.nextDocumentId, db.nextEntityId));
            r != [] && r[0] == d
  {
    var grown := Db(db.documents + [d], db.entities, db.nextDocumentId, db.nextEntityId);
    AppendedIsStrictlyNewest(db.documents, d);
    HeadIsNewest(grown);
    ListedIsStored(grown, 0);
    StrictlyNewestHeads(grown.documents, d, ListDocuments(grown)[0]);
  }

  lemma AppendedIsStrictlyNewest(ds: seq<Document>, d: Document)
    requires forall k :: 0 <= k < |ds| ==> ds[k].createdAt < d.createdAt
    ensures d in ds + [d]
    ensures forall x :: x in ds + [d] && x != d ==> x.createdAt < d.createdAt
  {
    assert (ds + [d])[|ds|] == d;
    forall x | x in ds + [d] && x != d ensures x.createdAt < d.createdAt {
      var k :| 0 <= k < |ds + [d]| && (ds + [d])[k] == x;
      assert k < |ds| && ds[k] == x;
    }
  }

  lemma StrictlyNewestHeads(docs: seq<Document>, d: Document, head: Document)
    requires d in docs && head in docs
    requires forall x :: x in docs ==> x.createdAt <= head.createdAt
    requires forall x :: x in docs && x != d ==> x.createdAt < d.createdAt
    ensures head == d
  {
  }
}
