/**
 Clause detection, `NLPAnalyzer.extract_obligations_and_clauses`: a keyword
 scan over the sentences of the text, followed by the numbered-provision scan
 over the whole text.  Sentence segmentation belongs to the language model and
 arrives as a parameter: the raw sentence strings, which the scan strips.
 */
module Clauses {
  import opened Text
  import Provisions

  /** One detected clause: a keyword sentence with its 0-based position, or a
      numbered-provision reference with no position. */
  datatype Clause = Clause(sentence: string, index: Option<nat>)

  /** The obligation keywords, in the order the source lists them. */
  const ObligationKeywords: seq<string> :=
    ["shall", "must", "agree to", "is obligated", "obligated to", "required to"]

  /** The lower-cased sentence contains one of the keywords. */
  ghost predicate IsObligation(sentence: string) {
    exists n :: 0 <= n < |ObligationKeywords| && Occurs(Lower(sentence), ObligationKeywords[n])
  }

  /** `any(k in s for k in keys)`. */
  function AnyOccurs(s: string, keys: seq<string>): (b: bool)
    ensures b <==> exists n :: 0 <= n < |keys| && Occurs(s, keys[n])
  {
    if keys == [] then false
    else if Contains(s, keys[0]) then true
    else
      var b := AnyOccurs(s, keys[1..]);
      assert forall n :: 1 <= n < |keys| ==> keys[n] == keys[1..][n - 1];
      b
  }

  /** The keyword test of the scan, on one stripped sentence. */
  function HasObligationKeyword(sentence: string): (b: bool)
    ensures b <==> IsObligation(sentence)
  {
    AnyOccurs(Lower(sentence), ObligationKeywords)
  }

  /** `[s.string.strip() for s in doc.sents]`. */
  function StripAll(spans: seq<string>): (r: seq<string>)
    ensures |r| == |spans|
    ensures forall i :: 0 <= i < |r| ==> r[i] == Strip(spans[i])
  {
    seq(|spans|, i requires 0 <= i < |spans| => Strip(spans[i]))
  }

  /** A scan over the sentences from `i` on, recording each sentence `hit`
      accepts together with its position. */
  function ScanSentences(sentences: seq<string>, i: nat, hit: string -> bool): (r: seq<Clause>)
    requires i <= |sentences|
    ensures forall k :: 0 <= k < |r| ==>
              && r[k].index.Some?
              && i <= r[k].index.value < |sentences|
              && r[k].sentence == sentences[r[k].index.value]
              && hit(r[k].sentence)
    ensures forall k, l :: 0 <= k < l < |r| ==> r[k].index.value < r[l].index.value
    decreases |sentences| - i
  {
    if i == |sentences| then []
    else if hit(sentences[i]) then
      [Clause(sentences[i], Some(i))] + ScanSentences(sentences, i + 1, hit)
    else ScanSentences(sentences, i + 1, hit)
  }

  /** The scan records every accepted sentence from `i` on: `k` is where. */
  lemma {:induction false} ScanSentencesComplete(sentences: seq<string>, i: nat, j: nat, hit: string -> bool)
    returns (k: nat)
    requires i <= j < |sentences| && hit(sentences[j])
    ensures k < |ScanSentences(sentences, i, hit)| && ScanSentences(sentences, i, hit)[k].index == Some(j)
    decreases |sentences| - i
  {
    var r := ScanSentences(sentences, i, hit);
    if i == j {
      assert r == [Clause(sentences[i], Some(i))] + ScanSentences(sentences, i + 1, hit);
      k := 0;
    } else {
      var rest := ScanSentences(sentences, i + 1, hit);
      var m := ScanSentencesComplete(sentences, i + 1, j, hit);
      if hit(sentences[i]) {
        assert r == [Clause(sentences[i], Some(i))] + rest;
        k := m + 1;
      } else {
        assert r == rest;
        k := m;
      }
    }
  }

  /** The keyword scan from sentence `i` onwards. */
  function KeywordScanFrom(sentences: seq<string>, i: nat): (r: seq<Clause>)
    requires i <= |sentences|
    ensures forall k :: 0 <= k < |r| ==>
              && r[k].index.Some?
              && i <= r[k].index.value < |sentences|
              && r[k].sentence == sentences[r[k].index.value]
              && IsObligation(r[k].sentence)
    ensures forall k, l :: 0 <= k < l < |r| ==> r[k].index.value < r[l].index.value
  {
    ScanSentences(sentences, i, HasObligationKeyword)
  }

  /** No obligation sentence is missed by the keyword scan. */
  lemma KeywordScanComplete(sentences: seq<string>, i: nat, j: nat)
    requires i <= j < |sentences| && IsObligation(sentences[j])
    ensures exists k :: 0 <= k < |KeywordScanFrom(sentences, i)| && KeywordScanFrom(sentences, i)[k].index == Some(j)
  {
    assert HasObligationKeyword(sentences[j]);
    var k := ScanSentencesComplete(sentences, i, j, HasObligationKeyword);
    assert KeywordScanFrom(sentences, i)[k].index == Some(j);
  }

  /** Each positioned record is the obligation sentence at its position. */
  ghost predicate PositionedAreObligations(r: seq<Clause>, sentences: seq<string>) {
    forall k :: 0 <= k < |r| && r[k].index.Some? ==>
      && r[k].index.value < |sentences|
      && r[k].sentence == sentences[r[k].index.value]
      && IsObligation(r[k].sentence)
  }

  /** Every obligation sentence has a record at its position. */
  ghost predicate NoObligationMissed(r: seq<Clause>, sentences: seq<string>) {
    forall j :: 0 <= j < |sentences| && IsObligation(sentences[j]) ==>
      exists k :: 0 <= k < |r| && r[k].index == Some(j)
  }

  /** Positioned records appear in increasing position, so each at most once. */
  predicate PositionsIncrease(r: seq<Clause>) {
    forall k, l :: 0 <= k < l < |r| && r[k].index.Some? && r[l].index.Some? ==>
      r[k].index.value < r[l].index.value
  }

  /** No positioned record follows an unpositioned one. */
  predicate UnpositionedLast(r: seq<Clause>) {
    forall k, l :: 0 <= k < l < |r| && r[k].index.None? ==> r[l].index.None?
  }

  /** Every unpositioned record is a word of the provision pattern. */
  ghost predicate UnpositionedAreProvisions(r: seq<Clause>) {
    forall k :: 0 <= k < |r| && r[k].index.None? ==> Provisions.IsProvision(r[k].sentence)
  }

  /** `r` ends with one unpositioned record per string of `found`, in order. */
  predicate EndsWithProvisions(r: seq<Clause>, found: seq<string>) {
    |found| <= |r| && forall k :: 0 <= k < |found| ==> r[|r| - |found| + k] == Clause(found[k], None)
  }

  /** Every record in front of the last `|found|` carries a position, so the
      provision records are the only unpositioned ones. */
  predicate PositionedBeforeProvisions(r: seq<Clause>, found: seq<string>) {
    forall k :: 0 <= k < |r| - |found| ==> r[k].index.Some?
  }

  /** What `extract_obligations_and_clauses` promises of its list `r`, for the
      stripped sentences `sentences` and the provision references `found`:
      the obligation sentences, each once with its position and in order,
      followed by one unpositioned record per reference. */
  ghost predicate ExtractedFrom(r: seq<Clause>, sentences: seq<string>, found: seq<string>) {
    && PositionedAreObligations(r, sentences)
    && NoObligationMissed(r, sentences)
    && PositionsIncrease(r)
    && UnpositionedLast(r)
    && UnpositionedAreProvisions(r)
    && EndsWithProvisions(r, found)
    && PositionedBeforeProvisions(r, found)
  }

  /** The keyword records: exactly the obligation sentences, each once, in
      order, with their position. */
  function KeywordClauses(sentences: seq<string>): (r: seq<Clause>)
    ensures forall k :: 0 <= k < |r| ==> r[k].index.Some?
    ensures PositionedAreObligations(r, sentences)
    ensures PositionsIncrease(r)
    ensures NoObligationMissed(r, sentences)
  {
    var r := KeywordScanFrom(sentences, 0);
    forall j | 0 <= j < |sentences| && IsObligation(sentences[j])
      ensures exists k :: 0 <= k < |r| && r[k].index == Some(j)
    {
      KeywordScanComplete(sentences, 0, j);
    }
    r
  }

  /** One record per provision reference, with no sentence position. */
  function ProvisionClauses(text: string): (r: seq<Clause>)
    ensures |r| == |Provisions.FindAll(text)|
    ensures forall k :: 0 <= k < |r| ==> r[k] == Clause(Provisions.FindAll(text)[k], None)
  {
    var found := Provisions.FindAll(text);
    seq(|found|, k requires 0 <= k < |found| => Clause(found[k], None))
  }

  /** The keyword records followed by the provision records: positioned
      records first, each group in its own order, nothing merged. */
  lemma ConcatClauses(sentences: seq<string>, keyword: seq<Clause>, found: seq<string>, numbered: seq<Clause>)
    requires forall k :: 0 <= k < |keyword| ==> keyword[k].index.Some?
    requires PositionedAreObligations(keyword, sentences)
    requires PositionsIncrease(keyword)
    requires NoObligationMissed(keyword, sentences)
    requires |numbered| == |found|
    requires forall k :: 0 <= k < |numbered| ==> numbered[k] == Clause(found[k], None)
    requires forall k :: 0 <= k < |found| ==> Provisions.IsProvision(found[k])
    ensures PositionedAreObligations(keyword + numbered, sentences)
    ensures NoObligationMissed(keyword + numbered, sentences)
    ensures PositionsIncrease(keyword + numbered)
    ensures UnpositionedLast(keyword + numbered)
    ensures UnpositionedAreProvisions(keyword + numbered)
    ensures EndsWithProvisions(keyword + numbered, found)
    ensures PositionedBeforeProvisions(keyword + numbered, found)
  {
    ConcatKeeps(sentences, keyword, numbered);
    ConcatOrders(keyword, numbered);
    ConcatEnds(keyword, found, numbered);
  }

  /** Appending unpositioned records keeps the keyword facts. */
  lemma ConcatKeeps(sentences: seq<string>, keyword: seq<Clause>, numbered: seq<Clause>)
    requires forall k :: 0 <= k < |numbered| ==> numbered[k].index.None?
    requires PositionedAreObligations(keyword, sentences)
    requires NoObligationMissed(keyword, sentences)
    ensures PositionedAreObligations(keyword + numbered, sentences)
    ensures NoObligationMissed(keyword + numbered, sentences)
  {
    var r := keyword + numbered;
    assert forall k :: 0 <= k < |keyword| ==> r[k] == keyword[k];
    assert forall k :: |keyword| <= k < |r| ==> r[k] == numbered[k - |keyword|];
    forall j | 0 <= j < |sentences| && IsObligation(sentences[j])
      ensures exists k :: 0 <= k < |r| && r[k].index == Some(j)
    {
      var k :| 0 <= k < |keyword| && keyword[k].index == Some(j);
      assert r[k] == keyword[k];
    }
  }

  /** Positioned records before unpositioned ones, in increasing position. */
  lemma ConcatOrders(keyword: seq<Clause>, numbered: seq<Clause>)
    requires forall k :: 0 <= k < |keyword| ==> keyword[k].index.Some?
    requires PositionsIncrease(keyword)
    requires forall k :: 0 <= k < |numbered| ==> numbered[k].index.None?
    ensures PositionsIncrease(keyword + numbered)
    ensures UnpositionedLast(keyword + numbered)
  {
    var r := keyword + numbered;
    assert forall k :: 0 <= k < |keyword| ==> r[k] == keyword[k];
    assert forall k :: |keyword| <= k < |r| ==> r[k] == numbered[k - |keyword|];
  }

  /** The provision records close the list, in order. */
  lemma ConcatEnds(keyword: seq<Clause>, found: seq<string>, numbered: seq<Clause>)
    requires |numbered| == |found|
    requires forall k :: 0 <= k < |numbered| ==> numbered[k] == Clause(found[k], None)
    requires forall k :: 0 <= k < |found| ==> Provisions.IsProvision(found[k])
    requires forall k :: 0 <= k < |keyword| ==> keyword[k].index.Some?
    ensures EndsWithProvisions(keyword + numbered, found)
    ensures UnpositionedAreProvisions(keyword + numbered)
    ensures PositionedBeforeProvisions(keyword + numbered, found)
  {
    var r := keyword + numbered;
    assert forall k :: 0 <= k < |keyword| ==> r[k] == keyword[k];
    assert forall k :: |keyword| <= k < |r| ==> r[k] == numbered[k - |keyword|];
  }

  /** `extract_obligations_and_clauses(text)`, given the model's sentence
      strings for `text`: the keyword records on the stripped sentences, then
      the provision records of the text. */
  function ExtractClauses(text: string, spans: seq<string>): (r: seq<Clause>)
    ensures ExtractedFrom(r, StripAll(spans), Provisions.FindAll(text))
  {
    var sentences := StripAll(spans);
    var keyword := KeywordClauses(sentences);
    var found := Provisions.FindAll(text);
    var numbered := ProvisionClauses(text);
    ConcatClauses(sentences, keyword, found, numbered);
    keyword + numbered
  }

  /** The positions a list of records carries. */
  function Positions(a: seq<Clause>): set<nat> {
    set k | 0 <= k < |a| && a[k].index.Some? :: a[k].index.value
  }

  /** Every record is the sentence at its position, positions increasing. */
  ghost predicate Positioned(a: seq<Clause>, sentences: seq<string>) {
    && (forall k :: 0 <= k < |a| ==>
          a[k].index.Some? && a[k].index.value < |sentences| && a[k].sentence == sentences[a[k].index.value])
    && (forall k, l :: 0 <= k < l < |a| ==> a[k].index.value < a[l].index.value)
  }

  /** Dropping the first record drops its position, the smallest. */
  lemma PositionsTail(a: seq<Clause>, sentences: seq<string>)
    requires a != [] && Positioned(a, sentences)
    ensures Positioned(a[1..], sentences)
    ensures Positions(a[1..]) == Positions(a) - {a[0].index.value}
    ensures forall x :: x in Positions(a) ==> a[0].index.value <= x
  {
    var t := a[1..];
    assert forall k :: 0 <= k < |t| ==> t[k] == a[k + 1];
    forall x | x in Positions(a) ensures a[0].index.value <= x {
      var k :| 0 <= k < |a| && a[k].index.Some? && a[k].index.value == x;
    }
    forall x | x in Positions(a) - {a[0].index.value} ensures x in Positions(t) {
      var k :| 0 <= k < |a| && a[k].index.Some? && a[k].index.value == x;
      assert t[k - 1] == a[k];
    }
    forall x | x in Positions(t) ensures x in Positions(a) - {a[0].index.value} {
      var k :| 0 <= k < |t| && t[k].index.Some? && t[k].index.value == x;
      assert a[k + 1] == t[k];
    }
  }

  /** Only the empty list of positioned records carries no position. */
  lemma NoPositions(a: seq<Clause>, sentences: seq<string>)
    requires Positioned(a, sentences)
    ensures Positions(a) == {} <==> a == []
  {
    if a != [] {
      assert a[0].index.value in Positions(a);
    }
  }

  /** Records at increasing positions are fixed by the set of positions. */
  lemma {:induction false} SamePositions(a: seq<Clause>, b: seq<Clause>, sentences: seq<string>)
    requires Positioned(a, sentences) && Positioned(b, sentences)
    requires Positions(a) == Positions(b)
    ensures a == b
    decreases |a|
  {
    NoPositions(a, sentences);
    NoPositions(b, sentences);
    if a != [] && b != [] {
        assert a[0].index.value in Positions(a);
        assert b[0].index.value in Positions(b);
        PositionsTail(a, sentences);
        PositionsTail(b, sentences);
        assert a[0] == b[0];
        SamePositions(a[1..], b[1..], sentences);
        assert a == [a[0]] + a[1..] && b == [b[0]] + b[1..];
    }
  }

  /** The last `|found|` records carry no position. */
  lemma BackUnpositioned(r: seq<Clause>, found: seq<string>)
    requires EndsWithProvisions(r, found)
    ensures forall k :: |r| - |found| <= k < |r| ==> r[k].index.None?
  {
    forall k | |r| - |found| <= k < |r| ensures r[k].index.None? {
      assert r[|r| - |found| + (k - (|r| - |found|))] == Clause(found[k - (|r| - |found|)], None);
    }
  }

  /** The positioned front of a clause list holds exactly the obligation
      sentences. */
  lemma FrontIsObligations(r: seq<Clause>, sentences: seq<string>, found: seq<string>)
    requires ExtractedFrom(r, sentences, found)
    ensures Positioned(r[..|r| - |found|], sentences)
    ensures forall j :: j in Positions(r[..|r| - |found|]) <==> 0 <= j < |sentences| && IsObligation(sentences[j])
  {
    var n := |r| - |found|;
    var front := r[..n];
    assert forall k :: 0 <= k < n ==> front[k] == r[k];
    BackUnpositioned(r, found);
    forall j | 0 <= j < |sentences| && IsObligation(sentences[j]) ensures j in Positions(front) {
      var k :| 0 <= k < |r| && r[k].index == Some(j);
      assert front[k].index.value == j;
    }
    forall j | j in Positions(front) ensures 0 <= j < |sentences| && IsObligation(sentences[j]) {
      var k :| 0 <= k < n && front[k].index.Some? && front[k].index.value == j;
      assert r[k] == front[k];
    }
  }

  /** The promised facts determine the clause list: there is exactly one list
      meeting them, the one `ExtractClauses` builds. */
  lemma ExtractedUnique(r1: seq<Clause>, r2: seq<Clause>, sentences: seq<string>, found: seq<string>)
    requires ExtractedFrom(r1, sentences, found) && ExtractedFrom(r2, sentences, found)
    ensures r1 == r2
  {
    var n1 := |r1| - |found|;
    var n2 := |r2| - |found|;
    FrontIsObligations(r1, sentences, found);
    FrontIsObligations(r2, sentences, found);
    SamePositions(r1[..n1], r2[..n2], sentences);
    assert r1[n1..] == r2[n2..] by {
      forall k | 0 <= k < |found| ensures r1[n1..][k] == r2[n2..][k] {
        assert r1[n1 + k] == Clause(found[k], None) == r2[n2 + k];
      }
    }
    assert r1 == r1[..n1] + r1[n1..] && r2 == r2[..n2] + r2[n2..];
  }
}
