/**
 Text normalisation, `NLPAnalyzer.preprocess_text`: every CR LF pair becomes a
 single LF, then surrounding whitespace is stripped.

 The worked examples below take their input as a parameter pinned by
 `requires t == "..."` rather than writing the literal inline: with an inline
 literal the verifier unfolds the recursive definitions on it eagerly, and
 the proofs become slow and brittle.  Short examples keep the inline form.
 */
module Normalize {
  import opened Text

  /** Python's `s.replace('\r\n', '\n')`: pairs are replaced left to right,
      without overlap. */
  function ReplaceCrlf(s: string): (r: string)
    ensures |r| <= |s|
    ensures AllSatisfy(r, IsSpace) <==> AllSatisfy(s, IsSpace)
  {
    if |s| < 2 then s
    else if s[0] == '\r' && s[1] == '\n' then
      var rest := ReplaceCrlf(s[2..]);
      AllSatisfyConcat(s[..2], s[2..], IsSpace);
      AllSatisfyConcat("\n", rest, IsSpace);
      assert s[..2] + s[2..] == s;
      "\n" + rest
    else
      var rest := ReplaceCrlf(s[1..]);
      AllSatisfyConcat([s[0]], s[1..], IsSpace);
      AllSatisfyConcat([s[0]], rest, IsSpace);
      assert [s[0]] + s[1..] == s;
      [s[0]] + rest
  }

  /** `preprocess_text`: CR LF to LF, then `strip()`. */
  function Preprocess(s: string): (r: string)
    ensures |r| <= |s|
    ensures r == "" || (!IsSpace(r[0]) && !IsSpace(r[|r| - 1]))
    ensures r == "" <==> AllSatisfy(s, IsSpace)
  {
    Strip(ReplaceCrlf(s))
  }

  /** One replacement pass shortens the text exactly when a CR LF pair is present. */
  lemma {:induction false} ReplaceShortens(s: string)
    requires Occurs(s, "\r\n")
    ensures |ReplaceCrlf(s)| < |s|
    decreases |s|
  {
    var i :| OccursAt(s, "\r\n", i);
    if s[0] == '\r' && s[1] == '\n' {
      ReplaceStepPair(s);
    } else {
      assert i != 0;
      assert s[1..][i - 1..i + 1] == s[i..i + 2];
      assert OccursAt(s[1..], "\r\n", i - 1);
      ReplaceShortens(s[1..]);
      ReplaceStepKeep(s);
    }
  }

  /** Text without CR LF pairs passes through the replacement unchanged. */
  lemma {:induction false} ReplaceKeeps(s: string)
    requires !Occurs(s, "\r\n")
    ensures ReplaceCrlf(s) == s
    decreases |s|
  {
    if |s| >= 2 {
      assert !OccursAt(s, "\r\n", 0);
      assert s[..2] == [s[0], s[1]];
      if Occurs(s[1..], "\r\n") {
        OccursInSuffix(s, "\r\n", 1);
      }
      ReplaceKeeps(s[1..]);
      assert [s[0]] + s[1..] == s;
    }
  }

  /** The replacement changes a text if and only if the text holds a CR LF pair. */
  lemma ReplaceFixpoint(s: string)
    ensures ReplaceCrlf(s) == s <==> !Occurs(s, "\r\n")
  {
    if Occurs(s, "\r\n") {
      ReplaceShortens(s);
    } else {
      ReplaceKeeps(s);
    }
  }

  /** A last character other than LF survives the replacement in last place. */
  lemma {:induction false} ReplaceKeepsLast(s: string)
    requires |s| >= 1 && s[|s| - 1] != '\n'
    ensures |ReplaceCrlf(s)| >= 1 && ReplaceCrlf(s)[|ReplaceCrlf(s)| - 1] == s[|s| - 1]
    decreases |s|
  {
    if |s| >= 2 {
      if s[0] == '\r' && s[1] == '\n' {
        assert |s| > 2;
        ReplaceKeepsLast(s[2..]);
      } else {
        ReplaceKeepsLast(s[1..]);
      }
    }
  }

  /** Normalising twice gives the result of normalising once exactly when the
      once-normalised text holds no CR LF pair; a CR CR LF run in the input
      leaves one behind. */
  lemma PreprocessIdempotentIff(s: string)
    ensures Preprocess(Preprocess(s)) == Preprocess(s) <==> !Occurs(Preprocess(s), "\r\n")
  {
    var once := Preprocess(s);
    if once != "" {
      ReplaceKeepsLast(once);
      var again := ReplaceCrlf(once);
      assert again[0] == once[0];
      StripUnchanged(again);
    }
    ReplaceFixpoint(once);
  }

  /** One step of the replacement away from a CR LF pair. */
  lemma ReplaceStepKeep(s: string)
    requires |s| >= 1 && !(|s| >= 2 && s[0] == '\r' && s[1] == '\n')
    ensures ReplaceCrlf(s) == [s[0]] + ReplaceCrlf(s[1..])
  {
    if |s| == 1 {
      assert s[1..] == [] && [s[0]] == s;
    }
  }

  /** One step of the replacement at a CR LF pair. */
  lemma ReplaceStepPair(s: string)
    requires |s| >= 2 && s[0] == '\r' && s[1] == '\n'
    ensures ReplaceCrlf(s) == "\n" + ReplaceCrlf(s[2..])
  {
  }

  /** The replacement is leftmost: the first CR LF pair of a text becomes one
      LF, the text before it is kept, and the rest is replaced in turn. */
  lemma {:induction false} ReplaceFirstPair(a: string, b: string)
    requires !Occurs(a, "\r\n")
    ensures ReplaceCrlf(a + "\r\n" + b) == a + "\n" + ReplaceCrlf(b)
    decreases |a|
  {
    var s := a + "\r\n" + b;
    if a == [] {
      assert s == "\r\n" + b && s[2..] == b;
      ReplaceStepPair(s);
    } else {
      HeadNotPair(a, b);
      ReplaceStepKeep(s);
      TailNoPair(a);
      assert s[1..] == a[1..] + "\r\n" + b;
      ReplaceFirstPair(a[1..], b);
      assert [a[0]] + a[1..] == a;
    }
  }

  /** A text without CR LF pairs cannot begin one when a pair follows it. */
  lemma HeadNotPair(a: string, b: string)
    requires a != [] && !Occurs(a, "\r\n")
    ensures var s := a + "\r\n" + b; s[0] == a[0] && !(s[0] == '\r' && s[1] == '\n')
  {
    assert !OccursAt(a, "\r\n", 0);
    if |a| >= 2 {
      assert a[..2] == [a[0], a[1]];
    }
  }

  /** The tail of a text without CR LF pairs has none either. */
  lemma TailNoPair(a: string)
    requires a != [] && !Occurs(a, "\r\n")
    ensures !Occurs(a[1..], "\r\n")
  {
    if Occurs(a[1..], "\r\n") {
      OccursInSuffix(a, "\r\n", 1);
    }
  }

  /** The first pass over "a\r\r\nb" leaves "a\r\nb". */
  lemma FirstPass(s: string)
    requires s == "a\r\r\nb"
    ensures Preprocess(s) == "a\r\nb"
  {
    ReplaceStepKeep(s);
    ReplaceStepKeep(s[1..]);
    ReplaceStepPair(s[2..]);
    assert s[4..] == "b";
    assert ReplaceCrlf(s) == "a\r\nb";
    StripUnchanged("a\r\nb");
  }

  /** The second pass turns "a\r\nb" into "a\nb". */
  lemma SecondPass(s: string)
    requires s == "a\r\nb"
    ensures Preprocess(s) == "a\nb"
  {
    ReplaceStepKeep(s);
    ReplaceStepPair(s[1..]);
    assert s[3..] == "b";
    assert ReplaceCrlf(s) == "a\nb";
    StripUnchanged("a\nb");
  }

  /** `preprocess_text` is not idempotent: "a\r\r\nb" needs two passes. */
  lemma PreprocessNotIdempotent(s: string)
    requires s == "a\r\r\nb"
    ensures Preprocess(s) == "a\r\nb"
    ensures Preprocess(Preprocess(s)) == "a\nb"
    ensures Preprocess(Preprocess(s)) != Preprocess(s)
  {
    FirstPass(s);
    SecondPass(Preprocess(s));
    assert "a\nb"[1] != "a\r\nb"[1];
  }
}
