/** Whether the provider gets the text that was selected: internal/audit/review.go
    639-646 and 707-717 with ValidUTF8OrReplacement of internal/safe/safe.go 163-171.

    Files are cut at byte offsets and each piece is made valid by itself, so a
    character across a cut arrives as replacement characters. */
module ReviewText {
  import opened Text
  import opened Utf8
  import opened ReviewBatches

  function ContentsOf(pieces: seq<Piece>): (contents: seq<string>)
    ensures |contents| == |pieces| && forall i :: 0 <= i < |pieces| ==> contents[i] == pieces[i].content
  {
    seq(|pieces|, i requires 0 <= i < |pieces| => pieces[i].content)
  }

  /** What the pieces of a file from `offset` on show of it. */
  function Shown(f: File, offset: nat, chunk: nat): string
    requires chunk > 0 && offset <= |f.text|
  {
    Concat(ContentsOf(RestPieces(f, offset, chunk)))
  }

  function CutEnd(f: File, offset: nat, chunk: nat): nat {
    if offset + chunk < |f.text| then offset + chunk else |f.text|
  }

  lemma ShownStep(f: File, offset: nat, chunk: nat)
    requires chunk > 0 && offset < |f.text|
    ensures var end := CutEnd(f, offset, chunk);
            Shown(f, offset, chunk) == ToValid(f.text[offset..end]) + Shown(f, end, chunk)
  {
    hide RestPieces, ToValid;
    var end := CutEnd(f, offset, chunk);
    RestStep(f, offset, chunk);
    var pieces, rest := RestPieces(f, offset, chunk), RestPieces(f, end, chunk);
    assert ContentsOf(pieces) == [ToValid(f.text[offset..end])] + ContentsOf(rest);
    assert ContentsOf(pieces)[1..] == ContentsOf(rest);
  }

  lemma ShownEnd(f: File, chunk: nat)
    requires chunk > 0
    ensures Shown(f, |f.text|, chunk) == ""
  {
  }

  /** No cut from `offset` on falls inside a character. */
  predicate CleanCuts(f: File, offset: nat, chunk: nat)
    requires chunk > 0 && offset <= |f.text|
  {
    forall s :: s in Spans(|f.text|, offset, chunk) ==> Boundary(f.text, s.end)
  }

  lemma CleanStep(f: File, offset: nat, chunk: nat)
    requires chunk > 0 && offset < |f.text|
    ensures var end := CutEnd(f, offset, chunk);
            CleanCuts(f, offset, chunk) <==> Boundary(f.text, end) && CleanCuts(f, end, chunk)
  {
    hide Boundary;
    var end := CutEnd(f, offset, chunk);
    var spans, rest := Spans(|f.text|, offset, chunk), Spans(|f.text|, end, chunk);
    assert spans == [Span(offset, end)] + rest;
    assert Span(offset, end) in spans;
    assert forall s :: s in rest ==> s in spans;
  }

  lemma {:induction false} ShownIsValid(f: File, offset: nat, chunk: nat)
    requires chunk > 0 && offset <= |f.text|
    ensures Valid(Shown(f, offset, chunk))
    decreases |f.text| - offset
  {
    hide Shown, ToValid, Valid;
    if offset < |f.text| {
      var end := CutEnd(f, offset, chunk);
      ShownStep(f, offset, chunk);
      ShownIsValid(f, end, chunk);
      ToValidExactly(f.text[offset..end]);
      ValidAppend(ToValid(f.text[offset..end]), Shown(f, end, chunk));
    } else {
      ShownEnd(f, chunk);
      EmptyIsValid();
    }
  }

  lemma EmptyIsValid()
    ensures Valid("")
  {
  }

  lemma {:induction false} CleanCutsShowAll(f: File, offset: nat, chunk: nat)
    requires chunk > 0 && offset <= |f.text| && Valid(f.text) && Boundary(f.text, offset) && CleanCuts(f, offset, chunk)
    ensures Shown(f, offset, chunk) == f.text[offset..]
    decreases |f.text| - offset
  {
    hide Shown, ToValid, Valid, CleanCuts, Boundary;
    if offset < |f.text| {
      var end := CutEnd(f, offset, chunk);
      ShownStep(f, offset, chunk);
      CleanStep(f, offset, chunk);
      CleanCutsShowAll(f, end, chunk);
      SliceIsValidExactly(f.text, offset, end);
      ToValidExactly(f.text[offset..end]);
      assert f.text[offset..] == f.text[offset..end] + f.text[end..];
    } else {
      ShownEnd(f, chunk);
    }
  }

  /** Cutting characters makes more of them: one at least where the pieces begin
      inside a character, and one at least where any cut does. */
  lemma {:induction false} CutsAddCharacters(f: File, offset: nat, chunk: nat)
    requires chunk > 0 && offset <= |f.text| && Valid(f.text)
    ensures Starts(Shown(f, offset, chunk)) >= Starts(f.text[offset..])
    ensures !Boundary(f.text, offset) || !CleanCuts(f, offset, chunk) ==>
              Starts(Shown(f, offset, chunk)) > Starts(f.text[offset..])
    decreases |f.text| - offset
  {
    hide Shown, ToValid, Valid, CleanCuts, Starts;
    if offset < |f.text| {
      var end := CutEnd(f, offset, chunk);
      ShownStep(f, offset, chunk);
      CleanStep(f, offset, chunk);
      CutsAddCharacters(f, end, chunk);
      CountedSlice(f.text, offset, end);
      StartsAppend(ToValid(f.text[offset..end]), Shown(f, end, chunk));
      StartsAppend(f.text[offset..end], f.text[end..]);
      assert f.text[offset..] == f.text[offset..end] + f.text[end..];
    } else {
      ShownEnd(f, chunk);
      assert f.text[offset..] == "";
      NothingToCut(f, chunk);
    }
  }

  lemma NothingToCut(f: File, chunk: nat)
    requires chunk > 0
    ensures CleanCuts(f, |f.text|, chunk)
  {
  }

  /** The pieces of a file show its text exactly when that is valid and no cut falls
      inside a character. */
  lemma TextSurvivesExactly(f: File, chunk: nat)
    requires chunk > 0
    ensures Concat(ContentsOf(FilePieces(f, chunk))) == f.text <==>
            Valid(f.text) && forall s :: s in Spans(|f.text|, 0, chunk) ==> Boundary(f.text, s.end)
  {
    hide Valid, Starts, Concat, RestPieces;
    WholeFile(f, chunk);
    assert f.text[0..] == f.text;
    ShownIsValid(f, 0, chunk);
    if Valid(f.text) {
      FirstIsBoundary(f.text);
      CutsAddCharacters(f, 0, chunk);
      if CleanCuts(f, 0, chunk) {
        CleanCutsShowAll(f, 0, chunk);
      }
    }
  }

  lemma FirstIsBoundary(text: string)
    requires Valid(text)
    ensures Boundary(text, 0)
  {
    if text != "" {
      CharShape(text);
    }
  }

  /** One piece of a valid text is what lies there exactly when neither of its ends
      falls inside a character. */
  lemma PieceSurvivesExactly(path: string, text: string, s: Span)
    requires s.start < s.end <= |text| && Valid(text)
    ensures PieceOf(path, text, s).content == text[s.start..s.end] <==> Boundary(text, s.start) && Boundary(text, s.end)
  {
    hide Valid, Boundary, ToValid;
    ToValidExactly(text[s.start..s.end]);
    SliceIsValidExactly(text, s.start, s.end);
  }

  // ---------------------------------------------------------------- a character across a cut

  const E_ACUTE: string := [0xC3 as char, 0xA9 as char]

  lemma {:induction false} ReplacedBehindValid(a: string, b: string)
    requires Valid(a)
    ensures Replaced(a + b, false) == a + Replaced(b, false)
    decreases |a|
  {
    hide CharLength;
    if a == "" {
      assert a + b == b;
    } else {
      var n := CharLength(a);
      assert (a + b)[..n] == a[..n] && (a + b)[n..] == a[n..] + b;
      CharLengthIsLocal(a, a + b);
      ReplacedBehindValid(a[n..], b);
      assert a == a[..n] + a[n..];
    }
  }

  lemma {:induction false} AsciiIsValid(fill: string)
    requires forall c :: c in fill ==> c as int < 0x80
    ensures Valid(fill)
  {
    if fill != "" {
      assert fill[0] in fill;
      assert forall c :: c in fill[1..] ==> c in fill;
      AsciiIsValid(fill[1..]);
    }
  }

  /** With the chunk filled up to its last byte, a two-byte character is cut: the
      text is valid and two replacement characters are shown in its place. */
  lemma CutCharacterIsLost(path: string, key: string, fill: string)
    requires forall c :: c in fill ==> c as int < 0x80
    ensures var f := File(path, key, fill + E_ACUTE);
            && Valid(f.text)
            && Concat(ContentsOf(FilePieces(f, |fill| + 1))) == fill + REPLACEMENT + REPLACEMENT
  {
    hide Concat, RestPieces, Valid, Replaced, CharLength;
    var f, chunk := File(path, key, fill + E_ACUTE), |fill| + 1;
    AsciiIsValid(fill);
    HalvesAreInvalid();
    ValidAppend(fill, E_ACUTE);
    WholeFile(f, chunk);
    ShownStep(f, 0, chunk);
    ShownStep(f, chunk, chunk);
    ShownEnd(f, chunk);
    assert f.text[0..chunk] == fill + E_ACUTE[..1] && f.text[chunk..chunk + 1] == E_ACUTE[1..];
    ToValidExactly(f.text[0..chunk]);
    ToValidExactly(E_ACUTE[1..]);
    ReplacedBehindValid(fill, E_ACUTE[..1]);
    assert REPLACEMENT + "" == REPLACEMENT;
    assert fill + REPLACEMENT + REPLACEMENT == (fill + REPLACEMENT) + (REPLACEMENT + "");
  }

  lemma HalvesAreInvalid()
    ensures Valid(E_ACUTE) && Replaced(E_ACUTE[..1], false) == REPLACEMENT == Replaced(E_ACUTE[1..], false)
  {
    assert CharLength(E_ACUTE) == 2 && E_ACUTE[2..] == "";
    assert E_ACUTE[..1][1..] == "" && E_ACUTE[1..][1..] == "";
    assert REPLACEMENT + "" == REPLACEMENT;
  }
}
