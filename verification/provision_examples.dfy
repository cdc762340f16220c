/**
 Worked inputs of the numbered-provision scan: the scan has no word boundary,
 its tail is greedy, and several references are reported left to right.

 The worked examples below take their input as a parameter pinned by
 `requires t == "..."` rather than writing the literal inline: with an inline
 literal the verifier unfolds the recursive definitions on it eagerly, and
 the proofs become slow and brittle.  Short examples keep the inline form.
 */
module ProvisionExamples {
  import opened Text
  import opened Provisions

  /** One differing letter rules an alternative out. */
  lemma Mismatch(t: string, p: nat, w: string, m: nat)
    requires m < |w| && p + m < |t| && ToLower(t[p + m]) != w[m]
    ensures !WordAt(t, p, w)
  {
    if p + |w| <= |t| {
      assert Lower(t[p..p + |w|])[m] == ToLower(t[p + m]);
    }
  }

  /** Every alternative begins with 's', 'c' or 'a'. */
  lemma NoKeywordHere(t: string, p: nat)
    requires p < |t|
    requires ToLower(t[p]) != 's' && ToLower(t[p]) != 'c' && ToLower(t[p]) != 'a'
    ensures MatchAt(t, p).None?
  {
    Mismatch(t, p, Words[0], 0);
    Mismatch(t, p, Words[1], 0);
    Mismatch(t, p, Words[2], 0);
  }

  /** Positions without a match are passed over. */
  lemma {:induction false} ScanSkips(ms: seq<Option<nat>>, p: nat, q: nat)
    requires TableWellFormed(ms) && p <= q <= |ms|
    requires forall x :: p <= x < q ==> ms[x].None?
    ensures ScanFrom(ms, p) == ScanFrom(ms, q)
    decreases q - p
  {
    if p < q {
      ScanSkips(ms, p + 1, q);
    }
  }

  /** The scan of a text ending in `Section 3.`: the whitespace run, the digit
      and then the greedy tail, dot included. */
  lemma MatchSectionThreeDot(t: string, p: nat)
    requires p + 10 <= |t| && t[p..p + 10] == "Section 3."
    requires p + 10 == |t| || !IsWordOrDot(t[p + 10])
    ensures MatchAt(t, p) == Some(p + 10)
  {
    var w := t[p..p + 10];
    assert t[p..p + 7] == w[..7] == "Section";
    assert Lower("Section") == "section";
    KeywordIs(t, p, 0);
    assert t[p + 7] == w[7] == ' ' && t[p + 8] == w[8] == '3' && t[p + 9] == w[9] == '.';
    MatchAtDigit(t, p, 7, p + 8);
    RunEndIsUnique(t, p + 8, p + 10, IsWordOrDot);
  }

  /** `[\w\.]*` is greedy: the trailing dot of "Section 3." is kept. */
  lemma TrailingDotKept()
    ensures FindAll("Section 3.") == ["Section 3."]
  {
    var t := "Section 3.";
    MatchSectionThreeDot(t, 0);
    assert MatchTable(t)[0] == Some(10);
    OnlyMatchAtEnd(t, 0);
  }

  /** In "Subsection 4" no reference starts before the "section" inside
      the word. */
  lemma SubsectionPrefix(t: string)
    requires t == "Subsection 4"
    ensures MatchAt(t, 0).None? && MatchAt(t, 1).None? && MatchAt(t, 2).None?
  {
    SubsectionFirst(t);
    NoKeywordHere(t, 1);
    SubsectionThird(t);
  }

  lemma SubsectionFirst(t: string)
    requires t == "Subsection 4"
    ensures MatchAt(t, 0).None?
  {
    Mismatch(t, 0, Words[0], 1);
    Mismatch(t, 0, Words[1], 0);
    Mismatch(t, 0, Words[2], 0);
  }

  lemma SubsectionThird(t: string)
    requires t == "Subsection 4"
    ensures MatchAt(t, 2).None?
  {
    Mismatch(t, 2, Words[0], 0);
    Mismatch(t, 2, Words[1], 1);
    Mismatch(t, 2, Words[2], 0);
  }

  /** The reference inside "Subsection 4". */
  lemma SubsectionMatch(t: string)
    requires t == "Subsection 4"
    ensures MatchAt(t, 3) == Some(12)
  {
    assert t[3..10] == "section";
    assert Lower("section") == "section";
    KeywordIs(t, 3, 0);
    assert t[10] == ' ' && t[11] == '4';
    MatchAtDigit(t, 3, 7, 11);
    RunEndIsUnique(t, 11, 12, IsWordOrDot);
  }

  /** The match table of "Subsection 4". */
  lemma SubsectionTable(t: string)
    requires t == "Subsection 4"
    ensures MatchTable(t)[3] == Some(|t|)
    ensures forall x :: 0 <= x < 3 ==> MatchTable(t)[x].None?
  {
    SubsectionPrefix(t);
    SubsectionMatch(t);
    var ms := MatchTable(t);
    assert ms[0].None? && ms[1].None? && ms[2].None?;
    forall x | 0 <= x < 3 ensures ms[x].None? {
      assert x == 0 || x == 1 || x == 2;
    }
  }

  /** A table whose only entry runs from `q` to the end scans to one span. */
  lemma OnlyEntry(ms: seq<Option<nat>>, q: nat)
    requires TableWellFormed(ms) && q < |ms| && ms[q] == Some(|ms|)
    requires forall x :: 0 <= x < q ==> ms[x].None?
    ensures ScanFrom(ms, 0) == [Span(q, |ms|)]
  {
    ScanSkips(ms, 0, q);
    assert ScanFrom(ms, |ms|) == [];
  }

  /** A text whose only reference runs from `q` to its end. */
  lemma OnlyMatchAtEnd(t: string, q: nat)
    requires q < |t| && MatchTable(t)[q] == Some(|t|)
    requires forall x :: 0 <= x < q ==> MatchTable(t)[x].None?
    ensures FindAll(t) == [t[q..]]
  {
    MatchesOnlyEntry(t, q);
    var r := FindAll(t);
    assert |r| == 1 && r[0] == t[q..|t|] == t[q..];
    assert r == [r[0]];
  }

  lemma MatchesOnlyEntry(t: string, q: nat)
    requires q < |t| && MatchTable(t)[q] == Some(|t|)
    requires forall x :: 0 <= x < q ==> MatchTable(t)[x].None?
    ensures Matches(t) == [Span(q, |t|)]
  {
    OnlyEntry(MatchTable(t), q);
  }

  /** There is no word boundary before the keyword: "Subsection 4" holds the
      reference "section 4". */
  lemma NoWordBoundary(t: string)
    requires t == "Subsection 4"
    ensures FindAll(t) == ["section 4"]
  {
    SubsectionTable(t);
    OnlyMatchAtEnd(t, 3);
    assert t[3..] == "section 4";
  }

  /** A table with two entries scans to their two spans, in order. */
  lemma TwoEntries(ms: seq<Option<nat>>, q1: nat, e1: nat, q2: nat)
    requires TableWellFormed(ms) && q1 < e1 <= q2 < |ms|
    requires ms[q1] == Some(e1) && ms[q2].Some?
    requires forall x :: 0 <= x < q1 ==> ms[x].None?
    requires forall x :: e1 <= x < q2 ==> ms[x].None?
    requires forall x :: ms[q2].value <= x < |ms| ==> ms[x].None?
    ensures ScanFrom(ms, 0) == [Span(q1, e1), Span(q2, ms[q2].value)]
  {
    var e2 := ms[q2].value;
    ScanSkips(ms, 0, q1);
    ScanSkips(ms, e1, q2);
    ScanSkips(ms, e2, |ms|);
    assert ScanFrom(ms, q2) == [Span(q2, e2)] + ScanFrom(ms, e2);
    assert ScanFrom(ms, q1) == [Span(q1, e1)] + ScanFrom(ms, e1);
  }

  /** "See Section 3.2 and Clause 5 for details.", written in pieces. */
  const Sample: string := "See " + "Section 3.2" + " and " + "Clause 5" + " for details."

  lemma SampleSection(t: string)
    requires t == Sample
    ensures MatchAt(t, 4) == Some(15)
  {
    SampleSectionKeyword(t);
    assert t[11] == ' ' && t[12] == '3';
    MatchAtDigit(t, 4, 7, 12);
    SampleSectionTail(t);
  }

  lemma SampleSectionKeyword(t: string)
    requires t == Sample
    ensures KeywordAt(t, 4) == Some(7)
  {
    assert t[4..11] == "Section";
    assert Lower("Section") == "section";
    KeywordIs(t, 4, 0);
  }

  lemma SampleSectionTail(t: string)
    requires t == Sample
    ensures RunEnd(t, 12, IsWordOrDot) == 15
  {
    assert t[12] == '3' && t[13] == '.' && t[14] == '2' && t[15] == ' ';
    RunEndIsUnique(t, 12, 15, IsWordOrDot);
  }

  lemma SampleClause(t: string)
    requires t == Sample
    ensures MatchAt(t, 20) == Some(28)
  {
    assert t[20..26] == "Clause";
    assert Lower("Clause") == "clause";
    KeywordIs(t, 20, 1);
    assert t[26] == ' ' && t[27] == '5';
    MatchAtDigit(t, 20, 6, 27);
    assert t[28] == ' ';
    RunEndIsUnique(t, 27, 28, IsWordOrDot);
  }

  /** Positions of the sample that hold neither 's', 'c' nor 'a'. */
  lemma SampleNoKeyword(t: string, p: nat)
    requires t == Sample
    requires p in {1, 2, 3, 15, 17, 18, 19, 28, 29, 30, 31, 32, 33, 34, 35, 37, 38, 40}
    ensures MatchAt(t, p).None?
  {
    assert t[p] in {' ', 'e', 'n', 'd', 'f', 'o', 'r', 't', 'i', 'l', '.'};
    NoKeywordHere(t, p);
  }

  /** "See" is not "section": the third letters differ. */
  lemma SampleSee(t: string)
    requires t == Sample
    ensures MatchAt(t, 0).None?
  {
    Mismatch(t, 0, Words[0], 2);
    Mismatch(t, 0, Words[1], 0);
    Mismatch(t, 0, Words[2], 0);
  }

  /** "and" is not "article". */
  lemma SampleAnd(t: string)
    requires t == Sample
    ensures MatchAt(t, 16).None?
  {
    Mismatch(t, 16, Words[0], 0);
    Mismatch(t, 16, Words[1], 0);
    Mismatch(t, 16, Words[2], 1);
  }

  /** The "a" and the "s." of "details." start no reference. */
  lemma SampleDetails(t: string)
    requires t == Sample
    ensures MatchAt(t, 36).None? && MatchAt(t, 39).None?
  {
    Mismatch(t, 36, Words[0], 0);
    Mismatch(t, 36, Words[1], 0);
    Mismatch(t, 36, Words[2], 1);
    Mismatch(t, 39, Words[0], 1);
    Mismatch(t, 39, Words[1], 0);
    Mismatch(t, 39, Words[2], 0);
  }

  /** No reference starts in "See ". */
  lemma SampleLead(t: string)
    requires t == Sample
    ensures forall x :: 0 <= x < 4 ==> MatchTable(t)[x].None?
  {
    SampleSee(t);
    var ms := MatchTable(t);
    forall x | 0 <= x < 4 ensures ms[x].None? {
      if x != 0 {
        SampleNoKeyword(t, x);
      }
    }
  }

  /** No reference starts in " and ". */
  lemma SampleMiddle(t: string)
    requires t == Sample
    ensures forall x :: 15 <= x < 20 ==> MatchTable(t)[x].None?
  {
    SampleAnd(t);
    var ms := MatchTable(t);
    forall x | 15 <= x < 20 ensures ms[x].None? {
      if x != 16 {
        SampleNoKeyword(t, x);
      }
    }
  }

  /** No reference starts in " for details.". */
  lemma SampleTrail(t: string)
    requires t == Sample
    ensures forall x :: 28 <= x < 41 ==> MatchTable(t)[x].None?
  {
    SampleDetails(t);
    var ms := MatchTable(t);
    forall x | 28 <= x < 41 ensures ms[x].None? {
      if x != 36 && x != 39 {
        SampleNoKeyword(t, x);
      }
    }
  }

  /** The match table of the sample: matches at 4 and 20, none before, between
      or after them. */
  lemma SampleTable(t: string)
    requires t == Sample
    ensures |MatchTable(t)| == 41
    ensures MatchTable(t)[4] == Some(15) && MatchTable(t)[20] == Some(28)
    ensures forall x :: 0 <= x < 4 ==> MatchTable(t)[x].None?
    ensures forall x :: 15 <= x < 20 ==> MatchTable(t)[x].None?
    ensures forall x :: 28 <= x < 41 ==> MatchTable(t)[x].None?
  {
    SampleSection(t);
    SampleClause(t);
    SampleLead(t);
    SampleMiddle(t);
    SampleTrail(t);
  }

  lemma SampleMatches(t: string)
    requires t == Sample
    ensures Matches(t) == [Span(4, 15), Span(20, 28)]
  {
    SampleTable(t);
    TwoEntries(MatchTable(t), 4, 15, 20);
  }

  /** Several references are reported left to right; the text around them is
      passed over. */
  lemma TwoReferences(t: string)
    requires t == Sample
    ensures FindAll(t) == ["Section 3.2", "Clause 5"]
  {
    SampleMatches(t);
    FindAllOfTwo(t, Span(4, 15), Span(20, 28));
    SampleSlices(t);
  }

  lemma SampleSlices(t: string)
    requires t == Sample
    ensures t[4..15] == "Section 3.2" && t[20..28] == "Clause 5"
  {
  }

  /** The substrings of two reported spans. */
  lemma FindAllOfTwo(t: string, a: Span, b: Span)
    requires Matches(t) == [a, b]
    ensures a.start <= a.end <= |t| && b.start <= b.end <= |t|
    ensures FindAll(t) == [t[a.start..a.end], t[b.start..b.end]]
  {
    var ms := Matches(t);
    assert ms[0] == a && ms[1] == b;
    var r := FindAll(t);
    assert |r| == 2 && r[0] == t[a.start..a.end] && r[1] == t[b.start..b.end];
    assert r == [r[0], r[1]];
  }
}
