/**
 Character classes and string operations shared by the analyzer model.

 Strings are `seq<char>`, one element per Unicode scalar value, which is also
 what Python's `len` and slicing count.  Whitespace is modelled exactly (the
 code-point set of CPython's `str.isspace`, which is also what `\s` matches in a
 `str` pattern); digits, word characters and lower-casing are ASCII
 approximations of Python's Unicode behaviour.
 */
module Text {

  datatype Option<+T> = None | Some(value: T)

  /** CPython's `str.isspace`: tab through carriage return, the four
      information separators, space, and the Unicode separators. */
  predicate IsSpace(c: char) {
    || ('\t' <= c <= '\r')
    || ('\U{1C}' <= c <= ' ')
    || c == '\U{85}' || c == '\U{A0}' || c == '\U{1680}'
    || ('\U{2000}' <= c <= '\U{200A}')
    || c == '\U{2028}' || c == '\U{2029}' || c == '\U{202F}'
    || c == '\U{205F}' || c == '\U{3000}'
  }

  /** Regex `\d`, restricted to ASCII digits. */
  predicate IsDigit(c: char) {
    '0' <= c <= '9'
  }

  /** Regex `\w`, restricted to ASCII letters, digits and underscore. */
  predicate IsWordChar(c: char) {
    ('a' <= c <= 'z') || ('A' <= c <= 'Z') || IsDigit(c) || c == '_'
  }

  /** `str.lower` on one character, restricted to ASCII capitals. */
  function ToLower(c: char): char {
    if 'A' <= c <= 'Z' then (c as int + 32) as char else c
  }

  function Lower(s: string): (r: string)
    ensures |r| == |s|
    ensures forall i :: 0 <= i < |s| ==> r[i] == ToLower(s[i])
  {
    seq(|s|, i requires 0 <= i < |s| => ToLower(s[i]))
  }

  predicate AllSatisfy(s: string, p: char -> bool) {
    forall k :: 0 <= k < |s| ==> p(s[k])
  }

  lemma AllSatisfyConcat(a: string, b: string, p: char -> bool)
    ensures AllSatisfy(a + b, p) <==> AllSatisfy(a, p) && AllSatisfy(b, p)
  {
    if AllSatisfy(a + b, p) {
      forall k | 0 <= k < |b| ensures p(b[k]) {
        assert b[k] == (a + b)[|a| + k];
      }
      forall k | 0 <= k < |a| ensures p(a[k]) {
        assert a[k] == (a + b)[k];
      }
    }
  }

  /** `sub` occurs in `s` at position `i`. */
  predicate OccursAt(s: string, sub: string, i: int) {
    0 <= i && i + |sub| <= |s| && s[i..i + |sub|] == sub
  }

  /** Python's `sub in s`, stated declaratively: some position where `sub` occurs. */
  ghost predicate Occurs(s: string, sub: string) {
    exists i :: OccursAt(s, sub, i)
  }

  /** Substring search from position `i` onwards. */
  function ContainsFrom(s: string, sub: string, i: nat): (b: bool)
    requires i <= |s|
    ensures b <==> exists j :: i <= j && OccursAt(s, sub, j)
    decreases |s| - i
  {
    if i + |sub| > |s| then false
    else if s[i..i + |sub|] == sub then assert OccursAt(s, sub, i); true
    else ContainsFrom(s, sub, i + 1)
  }

  /** Python's `sub in s`. */
  function Contains(s: string, sub: string): (b: bool)
    ensures b <==> Occurs(s, sub)
  {
    ContainsFrom(s, sub, 0)
  }

  /** End of the longest run of characters satisfying `p` that starts at `from`. */
  function RunEnd(s: string, from: nat, p: char -> bool): (e: nat)
    requires from <= |s|
    ensures from <= e <= |s|
    ensures forall k :: from <= k < e ==> p(s[k])
    ensures e == |s| || !p(s[e])
    decreases |s| - from
  {
    if from == |s| || !p(s[from]) then from else RunEnd(s, from + 1, p)
  }

  /** Start of the longest run of characters satisfying `p` that ends at `upto`. */
  function RunStart(s: string, upto: nat, p: char -> bool): (b: nat)
    requires upto <= |s|
    ensures b <= upto
    ensures forall k :: b <= k < upto ==> p(s[k])
    ensures b == 0 || !p(s[b - 1])
    decreases upto
  {
    if upto == 0 || !p(s[upto - 1]) then upto else RunStart(s, upto - 1, p)
  }

  /** A maximal run is determined by where it starts. */
  lemma RunEndIsUnique(s: string, from: nat, x: nat, p: char -> bool)
    requires from <= x <= |s|
    requires forall k :: from <= k < x ==> p(s[k])
    requires x == |s| || !p(s[x])
    ensures RunEnd(s, from, p) == x
  {
  }

  /** A run of `p` characters ends no earlier than any stretch of them. */
  lemma RunEndBound(s: string, from: nat, x: nat, p: char -> bool)
    requires from <= x <= |s|
    requires forall k :: from <= k < x ==> p(s[k])
    ensures x <= RunEnd(s, from, p)
  {
  }

  /** Python's `str.strip()` with no argument. */
  function Strip(s: string): (r: string)
    ensures |r| <= |s|
    ensures r == "" || (!IsSpace(r[0]) && !IsSpace(r[|r| - 1]))
    ensures r == "" <==> AllSatisfy(s, IsSpace)
    ensures exists i :: StrippedAt(s, r, i)
  {
    var lead := RunEnd(s, 0, IsSpace);
    if lead == |s| then
      assert AllSatisfy(s, IsSpace);
      assert StrippedAt(s, "", 0) by { assert s[..0] == "" && s[0..] == s; }
      ""
    else
      var tail := RunStart(s, |s|, IsSpace);
      StripBounds(s, lead, tail);
      s[lead..tail]
  }

  /** `r` sits in `s` at position `i` with only whitespace around it. */
  predicate StrippedAt(s: string, r: string, i: int) {
    0 <= i && i + |r| <= |s| && s[i..i + |r|] == r
    && AllSatisfy(s[..i], IsSpace) && AllSatisfy(s[i + |r|..], IsSpace)
  }

  lemma StripBounds(s: string, lead: nat, tail: nat)
    requires lead < |s| && tail <= |s|
    requires forall k :: 0 <= k < lead ==> IsSpace(s[k])
    requires !IsSpace(s[lead])
    requires forall k :: tail <= k < |s| ==> IsSpace(s[k])
    requires tail == 0 || !IsSpace(s[tail - 1])
    ensures lead < tail
    ensures !AllSatisfy(s, IsSpace)
    ensures StrippedAt(s, s[lead..tail], lead)
    ensures !IsSpace(s[lead..tail][0]) && !IsSpace(s[lead..tail][tail - lead - 1])
  {
    assert !IsSpace(s[lead]);
  }

  /** Stripping a string with no whitespace at either end changes nothing. */
  lemma StripUnchanged(s: string)
    requires s == "" || (!IsSpace(s[0]) && !IsSpace(s[|s| - 1]))
    ensures Strip(s) == s
  {
    if s != "" {
      RunEndIsUnique(s, 0, 0, IsSpace);
    }
  }

  /** A text lacking one of the characters of `sub` does not contain `sub`. */
  lemma MissingChar(s: string, sub: string, c: char)
    requires c in sub && c !in s
    ensures !Occurs(s, sub)
  {
    var m :| 0 <= m < |sub| && sub[m] == c;
    forall i | 0 <= i ensures !OccursAt(s, sub, i) {
      if i + |sub| <= |s| {
        assert s[i..i + |sub|][m] == s[i + m];
      }
    }
  }

  /** `sub` occurring in a suffix of `s` also occurs in `s`. */
  lemma OccursInSuffix(s: string, sub: string, n: nat)
    requires n <= |s|
    requires Occurs(s[n..], sub)
    ensures Occurs(s, sub)
  {
    var i :| OccursAt(s[n..], sub, i);
    assert s[n + i..n + i + |sub|] == s[n..][i..i + |sub|];
    assert OccursAt(s, sub, n + i);
  }
}
