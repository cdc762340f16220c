/**
 The numbered-provision scan of `extract_obligations_and_clauses`:
 `re.findall(r'((?:Section|Clause|Article)\s+\d+[\w\.]*)', text, flags=re.IGNORECASE)`,
 written out as a scanner.

 At a fixed start the pattern is deterministic: the three alternatives begin
 with different letters, `\s+` and `\d` share no character, and every digit is
 a word character, so the backtracking matcher's first success is the longest
 match.  `findall` then reports matches leftmost first and resumes where the
 previous match ended.
 */
module Provisions {
  import opened Text

  /** The alternatives of `(?:Section|Clause|Article)`, lower-cased, in the
      order the regex tries them. */
  const Words: seq<string> := ["section", "clause", "article"]

  /** The character class `[\w\.]`. */
  predicate IsWordOrDot(c: char) {
    IsWordChar(c) || c == '.'
  }

  /** Lower-case `word` matches `t` at `p`, ignoring case. */
  predicate WordAt(t: string, p: nat, word: string) {
    p + |word| <= |t| && Lower(t[p..p + |word|]) == word
  }

  /** Length of the alternative that matches at `p`, trying them in order. */
  function KeywordAt(t: string, p: nat): Option<nat> {
    if WordAt(t, p, Words[0]) then Some(|Words[0]|)
    else if WordAt(t, p, Words[1]) then Some(|Words[1]|)
    else if WordAt(t, p, Words[2]) then Some(|Words[2]|)
    else None
  }

  /** End of the match that starts exactly at `p`, if the pattern matches there. */
  function MatchAt(t: string, p: nat): (m: Option<nat>)
    requires p <= |t|
    ensures m.Some? ==> p < m.value <= |t|
  {
    match KeywordAt(t, p)
    case None => None
    case Some(k) =>
      var digit := RunEnd(t, p + k, IsSpace);
      if digit == p + k || digit == |t| || !IsDigit(t[digit]) then None
      else Some(RunEnd(t, digit, IsWordOrDot))
  }

  /** `w` splits as `word` (any case), whitespace up to `i`, digits up to `j`,
      and word characters or dots to the end. */
  predicate Parses(w: string, word: string, i: int, j: int) {
    && |word| < i < j <= |w|
    && Lower(w[..|word|]) == word
    && AllSatisfy(w[|word|..i], IsSpace)
    && AllSatisfy(w[i..j], IsDigit)
    && AllSatisfy(w[j..], IsWordOrDot)
  }

  /** `w` as a whole belongs to the language of the pattern. */
  ghost predicate IsProvision(w: string) {
    exists n, i, j :: 0 <= n < |Words| && Parses(w, Words[n], i, j)
  }

  /** Every match the scanner reports is a word of the pattern. */
  lemma MatchSound(t: string, p: nat)
    requires p <= |t| && MatchAt(t, p).Some?
    ensures IsProvision(t[p..MatchAt(t, p).value])
  {
    var e := MatchAt(t, p).value;
    var n, digit := MatchShape(t, p);
    TextParses(t, p, e, n, digit - p, digit - p + 1);
  }

  /** What a match at `p` consists of: an alternative, a whitespace run up to
      `digit`, and word characters or dots from the digit to the end. */
  lemma MatchShape(t: string, p: nat) returns (n: nat, digit: nat)
    requires p <= |t| && MatchAt(t, p).Some?
    ensures n < |Words| && WordAt(t, p, Words[n])
    ensures p + |Words[n]| < digit < MatchAt(t, p).value && IsDigit(t[digit])
    ensures forall m :: p + |Words[n]| <= m < digit ==> IsSpace(t[m])
    ensures forall m :: digit <= m < MatchAt(t, p).value ==> IsWordOrDot(t[m])
  {
    n := if WordAt(t, p, Words[0]) then 0 else if WordAt(t, p, Words[1]) then 1 else 2;
    digit := RunEnd(t, p + |Words[n]|, IsSpace);
  }

  /** Character facts about `t` that make `t[p..e]` a word of the pattern. */
  lemma TextParses(t: string, p: nat, e: nat, n: nat, i: int, j: int)
    requires n < |Words| && |Words[n]| < i < j && p + j <= e <= |t|
    requires WordAt(t, p, Words[n])
    requires forall m :: p + |Words[n]| <= m < p + i ==> IsSpace(t[m])
    requires forall m :: p + i <= m < p + j ==> IsDigit(t[m])
    requires forall m :: p + j <= m < e ==> IsWordOrDot(t[m])
    ensures IsProvision(t[p..e])
  {
    var w := t[p..e];
    var word := Words[n];
    assert w[..|word|] == t[p..p + |word|];
    assert forall m :: 0 <= m < |w[|word|..i]| ==> w[|word|..i][m] == t[p + |word| + m];
    assert forall m :: 0 <= m < |w[i..j]| ==> w[i..j][m] == t[p + i + m];
    assert forall m :: 0 <= m < |w[j..]| ==> w[j..][m] == t[p + j + m];
    assert Parses(w, word, i, j);
  }

  /** Two alternatives with different first letters cannot both match at `p`. */
  lemma WordsExclusive(t: string, p: nat, a: string, b: string)
    requires |a| > 0 && |b| > 0 && a[0] != b[0]
    requires WordAt(t, p, a)
    ensures !WordAt(t, p, b)
  {
    assert Lower(t[p..p + |a|])[0] == ToLower(t[p]);
    if p + |b| <= |t| {
      assert Lower(t[p..p + |b|])[0] == ToLower(t[p]);
    }
  }

  /** Whichever alternative matches at `p` is the one the regex takes. */
  lemma KeywordIs(t: string, p: nat, n: nat)
    requires n < |Words| && WordAt(t, p, Words[n])
    ensures KeywordAt(t, p) == Some(|Words[n]|)
  {
    if n == 1 {
      WordsExclusive(t, p, Words[1], Words[0]);
    } else if n == 2 {
      WordsExclusive(t, p, Words[2], Words[0]);
      WordsExclusive(t, p, Words[2], Words[1]);
    }
  }

  /** Once the keyword and the whitespace run are known, the match ends where
      the run of word characters and dots starting at the first digit ends. */
  lemma MatchAtDigit(t: string, p: nat, k: nat, d: nat)
    requires KeywordAt(t, p) == Some(k)
    requires p + k < d < |t| && IsDigit(t[d])
    requires forall m :: p + k <= m < d ==> IsSpace(t[m])
    ensures MatchAt(t, p) == Some(RunEnd(t, d, IsWordOrDot))
  {
    DigitIsNotSpace(t[d]);
    RunEndIsUnique(t, p + k, d, IsSpace);
    var digit := RunEnd(t, p + k, IsSpace);
    assert digit == d;
  }

  lemma DigitIsNotSpace(c: char)
    requires IsDigit(c)
    ensures !IsSpace(c)
  {
  }

  /** What a parse of `t[p..e]` says about the characters of `t`. */
  lemma ParseInText(t: string, p: nat, e: nat, word: string, i: int, j: int)
    requires p <= e <= |t| && Parses(t[p..e], word, i, j)
    ensures WordAt(t, p, word)
    ensures forall m :: p + |word| <= m < p + i ==> IsSpace(t[m])
    ensures IsDigit(t[p + i])
    ensures forall m :: p + i <= m < e ==> IsWordOrDot(t[m])
  {
    var w := t[p..e];
    var k := |word|;
    assert w[..k] == t[p..p + k];
    forall m | p + k <= m < p + i ensures IsSpace(t[m]) {
      assert t[m] == w[k..i][m - p - k];
    }
    assert t[p + i] == w[i..j][0];
    forall m | p + i <= m < e ensures IsWordOrDot(t[m]) {
      if m < p + j {
        assert t[m] == w[i..j][m - p - i];
      } else {
        assert t[m] == w[j..][m - p - j];
      }
    }
  }

  /** The scanner finds a match at `p` whenever some prefix of `t[p..]` is a
      word of the pattern, and its match is at least as long: it is the
      longest such prefix. */
  lemma MatchComplete(t: string, p: nat, e: nat)
    requires p <= e <= |t|
    requires IsProvision(t[p..e])
    ensures MatchAt(t, p).Some? && e <= MatchAt(t, p).value
  {
    var n, i, j :| 0 <= n < |Words| && Parses(t[p..e], Words[n], i, j);
    ParseInText(t, p, e, Words[n], i, j);
    KeywordIs(t, p, n);
    MatchAtDigit(t, p, |Words[n]|, p + i);
    RunEndBound(t, p + i, e, IsWordOrDot);
  }

  /** A reported match: `text[start..end]`. */
  datatype Span = Span(start: nat, end: nat)

  /** Entry `q` is where a match starting at `q` ends, if there is one. */
  function MatchTable(t: string): (ms: seq<Option<nat>>)
    ensures |ms| == |t|
    ensures forall q :: 0 <= q < |t| ==> ms[q] == MatchAt(t, q)
  {
    seq(|t|, q requires 0 <= q < |t| => MatchAt(t, q))
  }

  /** Every match in the table ends after it starts and within the text. */
  predicate TableWellFormed(ms: seq<Option<nat>>) {
    forall q :: 0 <= q < |ms| && ms[q].Some? ==> q < ms[q].value <= |ms|
  }

  /** `findall` from position `p` over a match table: take the match at `p`
      and resume where it ends, or move one position on. */
  function ScanFrom(ms: seq<Option<nat>>, p: nat): (r: seq<Span>)
    requires TableWellFormed(ms) && p <= |ms|
    ensures forall k :: 0 <= k < |r| ==>
              p <= r[k].start < r[k].end <= |ms| && ms[r[k].start] == Some(r[k].end)
    ensures forall k, l :: 0 <= k < l < |r| ==> r[k].end <= r[l].start
    decreases |ms| - p
  {
    if p == |ms| then []
    else match ms[p]
      case None => ScanFrom(ms, p + 1)
      case Some(e) => [Span(p, e)] + ScanFrom(ms, e)
  }

  /** Nothing is skipped: every position where the pattern matches lies inside
      a reported match, so the scan is leftmost and drops only matches that
      overlap an earlier one. */
  lemma {:induction false} ScanComplete(ms: seq<Option<nat>>, p: nat, q: nat)
    requires TableWellFormed(ms) && p <= q < |ms| && ms[q].Some?
    ensures exists k :: 0 <= k < |ScanFrom(ms, p)| && ScanFrom(ms, p)[k].start <= q < ScanFrom(ms, p)[k].end
    decreases |ms| - p
  {
    var r := ScanFrom(ms, p);
    match ms[p]
    case None =>
      ScanComplete(ms, p + 1, q);
    case Some(e) =>
      if q < e {
        assert r[0].start <= q < r[0].end;
      } else {
        ScanComplete(ms, e, q);
        var rest := ScanFrom(ms, e);
        var k :| 0 <= k < |rest| && rest[k].start <= q < rest[k].end;
        assert r[k + 1] == rest[k];
      }
  }

  /** The spans `re.findall` reports on `t`, left to right. */
  function Matches(t: string): (r: seq<Span>)
    ensures forall k :: 0 <= k < |r| ==>
              r[k].start < r[k].end <= |t| && MatchAt(t, r[k].start) == Some(r[k].end)
    ensures forall k, l :: 0 <= k < l < |r| ==> r[k].end <= r[l].start
  {
    ScanFrom(MatchTable(t), 0)
  }

  /** Every start of a match of the pattern in `t` is covered by a reported span. */
  lemma MatchesComplete(t: string, q: nat)
    requires q < |t| && MatchAt(t, q).Some?
    ensures exists k :: 0 <= k < |Matches(t)| && Matches(t)[k].start <= q < Matches(t)[k].end
  {
    var ms := MatchTable(t);
    assert ms[q].Some?;
    ScanComplete(ms, 0, q);
    var spans := ScanFrom(ms, 0);
    var k :| 0 <= k < |spans| && spans[k].start <= q < spans[k].end;
    assert Matches(t)[k] == spans[k];
  }

  /** `re.findall` with one group: the matched substrings, in order. */
  function FindAll(t: string): (r: seq<string>)
    ensures |r| == |Matches(t)|
    ensures forall k :: 0 <= k < |r| ==> r[k] == t[Matches(t)[k].start..Matches(t)[k].end]
    ensures forall k :: 0 <= k < |r| ==> IsProvision(r[k])
  {
    var spans := Matches(t);
    forall k | 0 <= k < |spans| ensures IsProvision(t[spans[k].start..spans[k].end]) {
      MatchSound(t, spans[k].start);
    }
    seq(|spans|, k requires 0 <= k < |spans| => t[spans[k].start..spans[k].end])
  }
}
