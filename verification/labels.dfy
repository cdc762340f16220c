/**
 Candidate-label parsing in the `/analyze` handler:
 `[c.strip() for c in candidate_labels.split(',') if c.strip()]`.
 */
module Labels {
  import opened Text

  /** Position of the first `c` in `s`. */
  function IndexOf(s: string, c: char): (i: nat)
    requires c in s
    ensures i < |s| && s[i] == c
    ensures forall m :: 0 <= m < i ==> s[m] != c
  {
    if s[0] == c then 0
    else 1 + IndexOf(s[1..], c)
  }

  /** Pieces glued back with the separator between them. */
  function Join(parts: seq<string>, sep: char): string
    requires |parts| >= 1
  {
    if |parts| == 1 then parts[0] else parts[0] + [sep] + Join(parts[1..], sep)
  }

  /** Python's `s.split(sep)` for a one-character separator. */
  function Split(s: string, sep: char): (parts: seq<string>)
    ensures |parts| >= 1
    ensures forall k :: 0 <= k < |parts| ==> sep !in parts[k]
    ensures Join(parts, sep) == s
    decreases |s|
  {
    if sep !in s then [s]
    else
      var i := IndexOf(s, sep);
      var rest := Split(s[i + 1..], sep);
      var parts := [s[..i]] + rest;
      assert parts[1..] == rest;
      assert s[..i] + [sep] + s[i + 1..] == s;
      parts
  }

  /** Splitting undoes joining pieces that do not contain the separator. */
  lemma {:induction false} SplitJoin(parts: seq<string>, sep: char)
    requires |parts| >= 1
    requires forall k :: 0 <= k < |parts| ==> sep !in parts[k]
    ensures Split(Join(parts, sep), sep) == parts
    decreases |parts|
  {
    if |parts| > 1 {
      SplitAtFirst(parts[0], sep, Join(parts[1..], sep));
      SplitJoin(parts[1..], sep);
      assert parts == [parts[0]] + parts[1..];
    }
  }

  /** Splitting at the first separator. */
  lemma SplitAtFirst(head: string, sep: char, rest: string)
    requires sep !in head
    ensures Split(head + [sep] + rest, sep) == [head] + Split(rest, sep)
  {
    var s := head + [sep] + rest;
    assert s[|head|] == sep;
    var i := IndexOf(s, sep);
    assert i == |head|;
    assert s[..i] == head;
    assert s[i + 1..] == rest;
  }

  /** Non-empty, with no surrounding whitespace. */
  predicate Trimmed(l: string) {
    l != "" && !IsSpace(l[0]) && !IsSpace(l[|l| - 1])
  }

  /** A label as the parser hands them on: trimmed and free of commas. */
  predicate CleanLabel(l: string) {
    Trimmed(l) && ',' !in l
  }

  /** Stripping keeps only characters of the original. */
  lemma StripHasNoNewChars(s: string, c: char)
    ensures c in Strip(s) ==> c in s
  {
    var r := Strip(s);
    var i :| StrippedAt(s, r, i);
    assert forall k :: 0 <= k < |r| ==> r[k] == s[i + k];
  }

  /** `r` lists the pieces `f(parts[js[k]])` for increasing `js`, and every
      piece `f` does not map to nothing is among them: the comprehension
      `[f(c) for c in parts if f(c)]`. */
  predicate Selects(r: seq<string>, parts: seq<string>, js: seq<nat>, f: string -> string) {
    && |js| == |r|
    && (forall k :: 0 <= k < |js| ==> js[k] < |parts| && r[k] == f(parts[js[k]]))
    && (forall k, l :: 0 <= k < l < |js| ==> js[k] < js[l])
    && (forall j :: 0 <= j < |parts| && f(parts[j]) != "" ==> j in js)
  }

  /** `[c.strip() for c in parts if c.strip()]`. */
  function CleanPieces(parts: seq<string>): (r: seq<string>)
    ensures |r| <= |parts|
    ensures forall k :: 0 <= k < |r| ==> Trimmed(r[k])
    ensures (forall k :: 0 <= k < |parts| ==> ',' !in parts[k]) ==> forall k :: 0 <= k < |r| ==> ',' !in r[k]
    ensures r == [] <==> forall k :: 0 <= k < |parts| ==> AllSatisfy(parts[k], IsSpace)
  {
    if parts == [] then []
    else
      var rest := CleanPieces(parts[1..]);
      var piece := Strip(parts[0]);
      StripHasNoNewChars(parts[0], ',');
      PiecesTail(parts);
      if piece != "" then
        ConsPiece(piece, rest);
        [piece] + rest
      else rest
  }

  /** The selection for the tail of `parts`, as positions in `parts`. */
  lemma ShiftSelection(parts: seq<string>, rest: seq<string>, js': seq<nat>, f: string -> string)
    returns (sh: seq<nat>)
    requires parts != [] && Selects(rest, parts[1..], js', f)
    ensures |sh| == |rest|
    ensures forall k :: 0 <= k < |sh| ==> 1 <= sh[k] < |parts| && rest[k] == f(parts[sh[k]])
    ensures forall k, l :: 0 <= k < l < |sh| ==> sh[k] < sh[l]
    ensures forall j :: 1 <= j < |parts| && f(parts[j]) != "" ==> j in sh
  {
    sh := seq(|js'|, k requires 0 <= k < |js'| => js'[k] + 1);
    forall k | 0 <= k < |sh| ensures 1 <= sh[k] < |parts| && rest[k] == f(parts[sh[k]]) {
      assert parts[sh[k]] == parts[1..][js'[k]];
    }
    forall j | 1 <= j < |parts| && f(parts[j]) != "" ensures j in sh {
      assert parts[1..][j - 1] == parts[j];
      var k :| 0 <= k < |js'| && js'[k] == j - 1;
      assert sh[k] == j;
    }
  }

  /** The selection for `parts` from the selection for its tail. */
  lemma SelectCons(parts: seq<string>, rest: seq<string>, js': seq<nat>, f: string -> string)
    returns (js: seq<nat>)
    requires parts != [] && Selects(rest, parts[1..], js', f)
    ensures Selects(if f(parts[0]) != "" then [f(parts[0])] + rest else rest, parts, js, f)
  {
    var sh := ShiftSelection(parts, rest, js', f);
    if f(parts[0]) != "" {
      js := [0] + sh;
      KeepHead(parts, rest, sh, f);
    } else {
      js := sh;
    }
  }

  /** A kept head piece goes in front, at position 0. */
  lemma KeepHead(parts: seq<string>, rest: seq<string>, sh: seq<nat>, f: string -> string)
    requires parts != [] && f(parts[0]) != ""
    requires |sh| == |rest|
    requires forall k :: 0 <= k < |sh| ==> 1 <= sh[k] < |parts| && rest[k] == f(parts[sh[k]])
    requires forall k, l :: 0 <= k < l < |sh| ==> sh[k] < sh[l]
    requires forall j :: 1 <= j < |parts| && f(parts[j]) != "" ==> j in sh
    ensures Selects([f(parts[0])] + rest, parts, [0] + sh, f)
  {
    var js := [0] + sh;
    var r := [f(parts[0])] + rest;
    forall k | 0 <= k < |js| ensures js[k] < |parts| && r[k] == f(parts[js[k]]) {
      if k > 0 {
        assert js[k] == sh[k - 1] && r[k] == rest[k - 1];
      }
    }
    forall k, l | 0 <= k < l < |js| ensures js[k] < js[l] {
      assert js[l] == sh[l - 1];
      if k > 0 {
        assert js[k] == sh[k - 1];
      }
    }
  }

  /** The facts about `parts` in terms of its head and its tail. */
  lemma PiecesTail(parts: seq<string>)
    requires parts != []
    ensures (forall k :: 0 <= k < |parts| ==> AllSatisfy(parts[k], IsSpace))
            <==> AllSatisfy(parts[0], IsSpace) && forall k :: 0 <= k < |parts[1..]| ==> AllSatisfy(parts[1..][k], IsSpace)
    ensures (forall k :: 0 <= k < |parts| ==> ',' !in parts[k])
            <==> ',' !in parts[0] && forall k :: 0 <= k < |parts[1..]| ==> ',' !in parts[1..][k]
  {
    assert forall k :: 1 <= k < |parts| ==> parts[k] == parts[1..][k - 1];
  }

  /** A kept piece in front of the cleaned tail. */
  lemma ConsPiece(piece: string, rest: seq<string>)
    requires Trimmed(piece)
    requires forall k :: 0 <= k < |rest| ==> Trimmed(rest[k])
    ensures forall k :: 0 <= k < |[piece] + rest| ==> Trimmed(([piece] + rest)[k])
    ensures (',' !in piece && forall k :: 0 <= k < |rest| ==> ',' !in rest[k]) ==>
              forall k :: 0 <= k < |[piece] + rest| ==> ',' !in ([piece] + rest)[k]
  {
    var r := [piece] + rest;
    assert forall k :: 1 <= k < |r| ==> r[k] == rest[k - 1];
  }

  /** One step of the comprehension: the head piece, stripped, if anything is
      left of it. */
  lemma CleanPiecesStep(parts: seq<string>)
    requires parts != []
    ensures CleanPieces(parts) == (if Strip(parts[0]) != "" then [Strip(parts[0])] else []) + CleanPieces(parts[1..])
  {
  }

  /** The comprehension keeps exactly the pieces that do not strip to
      nothing, stripped and in order; `js` are their positions. */
  lemma {:induction false} CleanPiecesSelects(parts: seq<string>) returns (js: seq<nat>)
    ensures Selects(CleanPieces(parts), parts, js, Strip)
    decreases |parts|
  {
    if parts == [] {
      js := [];
    } else {
      var js' := CleanPiecesSelects(parts[1..]);
      CleanPiecesStep(parts);
      js := SelectCons(parts, CleanPieces(parts[1..]), js', Strip);
    }
  }

  /** Stripping leaves clean labels as they are. */
  lemma {:induction false} CleanPiecesKeepsClean(ls: seq<string>)
    requires forall k :: 0 <= k < |ls| ==> CleanLabel(ls[k])
    ensures CleanPieces(ls) == ls
    decreases |ls|
  {
    if ls != [] {
      assert CleanLabel(ls[0]);
      StripUnchanged(ls[0]);
      assert forall k :: 0 <= k < |ls[1..]| ==> ls[1..][k] == ls[k + 1];
      CleanPiecesKeepsClean(ls[1..]);
      CleanPiecesStep(ls);
      assert ls == [ls[0]] + ls[1..];
    }
  }

  /** The form field after the handler's `if candidate_labels:` test: absent
      and empty values are passed on untouched, both of which the classifier
      treats as no labels. */
  function ParseLabels(form: Option<string>): (r: Option<seq<string>>)
    ensures r.None? <==> form.None? || form.value == ""
    ensures r.Some? ==> forall k :: 0 <= k < |r.value| ==> CleanLabel(r.value[k])
    ensures r.Some? ==> |r.value| <= |Split(form.value, ',')|
    ensures r.Some? ==> exists js :: Selects(r.value, Split(form.value, ','), js, Strip)
  {
    if form.None? || form.value == "" then None
    else
      var parts := Split(form.value, ',');
      assert exists js :: Selects(CleanPieces(parts), parts, js, Strip) by {
        var js := CleanPiecesSelects(parts);
      }
      Some(CleanPieces(parts))
  }

  /** A character of a field that names no label. */
  predicate IsBlankOrComma(c: char) {
    c == ',' || IsSpace(c)
  }

  /** A joined text is all blanks and commas exactly when every piece is
      all blanks. */
  lemma {:induction false} JoinBlank(parts: seq<string>)
    requires |parts| >= 1
    requires forall k :: 0 <= k < |parts| ==> ',' !in parts[k]
    ensures AllSatisfy(Join(parts, ','), IsBlankOrComma)
            <==> forall k :: 0 <= k < |parts| ==> AllSatisfy(parts[k], IsSpace)
    decreases |parts|
  {
    var p0 := parts[0];
    assert AllSatisfy(p0, IsBlankOrComma) ==> (AllSatisfy(p0, IsSpace) <==> ',' !in p0) by {
      if AllSatisfy(p0, IsBlankOrComma) && ',' !in p0 {
        assert forall m :: 0 <= m < |p0| ==> p0[m] != ',';
      }
    }
    if |parts| == 1 {
    } else {
      JoinBlank(parts[1..]);
      AllSatisfyConcat(p0 + [','], Join(parts[1..], ','), IsBlankOrComma);
      AllSatisfyConcat(p0, [','], IsBlankOrComma);
      assert forall k :: 1 <= k < |parts| ==> parts[k] == parts[1..][k - 1];
    }
  }

  /** A field of only commas and blanks yields an empty label list, which sends
      classification to the heuristic; any other non-empty field yields at
      least one label. */
  lemma BlankFieldHasNoLabels(s: string)
    requires s != ""
    ensures ParseLabels(Some(s)) == Some([]) <==> AllSatisfy(s, IsBlankOrComma)
  {
    var parts := Split(s, ',');
    JoinBlank(parts);
  }

  /** Joining clean labels with commas and parsing the field gives them back,
      in order. */
  lemma LabelsRoundTrip(ls: seq<string>)
    requires |ls| >= 1
    requires forall k :: 0 <= k < |ls| ==> CleanLabel(ls[k])
    ensures ParseLabels(Some(Join(ls, ','))) == Some(ls)
  {
    SplitJoin(ls, ',');
    CleanPiecesKeepsClean(ls);
    assert Join(ls, ',') != "" by {
      JoinLength(ls, ',');
    }
  }

  lemma {:induction false} JoinLength(parts: seq<string>, sep: char)
    requires |parts| >= 1
    ensures |Join(parts, sep)| >= |parts[0]|
  {
    if |parts| > 1 {
      JoinLength(parts[1..], sep);
    }
  }
}
