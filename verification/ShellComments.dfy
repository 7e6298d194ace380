/** The shell comment masker of internal/brief/rules.go. */
module ShellComments {
  import opened Text

  datatype MaskState = MaskState(linePrefix: bool, comment: bool)

  const START := MaskState(true, false)

  predicate Blank(c: char) {
    c == ' ' || c == '\t' || c == '\r'
  }

  function NextState(st: MaskState, c: char): MaskState {
    if st.comment then
      if c == '\n' then MaskState(true, false) else st
    else if c == '\n' then MaskState(true, false)
    else if st.linePrefix && Blank(c) then st
    else if st.linePrefix && c == '#' then MaskState(st.linePrefix, true)
    else MaskState(false, false)
  }

  function MaskChar(st: MaskState, c: char): char {
    if c != '\n' && NextState(st, c).comment then ' ' else c
  }

  /** The masker's state after `text`. */
  function After(st: MaskState, text: string): MaskState {
    if text == "" then st else NextState(After(st, text[..|text| - 1]), text[|text| - 1])
  }

  function Masked(st: MaskState, text: string): (masked: string)
    ensures |masked| == |text|
  {
    if text == "" then ""
    else Masked(st, text[..|text| - 1]) + [MaskChar(After(st, text[..|text| - 1]), text[|text| - 1])]
  }

  class ShellCommentMasker {
    var linePrefix: bool
    var comment: bool

    function Now(): MaskState
      reads this
    {
      MaskState(linePrefix, comment)
    }

    constructor ()
      ensures Now() == START
    {
      linePrefix, comment := true, false;
    }

    /** Masks one chunk; the state carries over to the next. */
    method Mask(text: string) returns (view: string)
      modifies this
      ensures view == Masked(old(Now()), text)
      ensures Now() == After(old(Now()), text)
    {
      var masked := CopyBytes(text);
      assert text[..0] == "";
      for index := 0 to masked.Length
        invariant masked[..index] == Masked(old(Now()), text[..index])
        invariant forall i :: index <= i < masked.Length ==> masked[i] == text[i]
        invariant Now() == After(old(Now()), text[..index])
      {
        var current := masked[index];
        ghost var before := masked[..index];
        assert text[..index + 1][..index] == text[..index];
        if comment {
          if current == '\n' {
            comment := false;
            linePrefix := true;
          } else {
            masked[index] := ' ';
          }
        } else if current == '\n' {
          linePrefix := true;
        } else if linePrefix && Blank(current) {
          // still before the first ink of the line
        } else if linePrefix && current == '#' {
          masked[index] := ' ';
          comment := true;
        } else {
          linePrefix := false;
        }
        assert masked[..index + 1] == before + [masked[index]];
      }
      assert text[..|text|] == text;
      view := masked[..];
      assert view == masked[..masked.Length];
    }
  }

  /** Masking chunk by chunk is masking the whole. */
  lemma {:induction false} MaskAppend(st: MaskState, a: string, b: string)
    ensures After(st, a + b) == After(After(st, a), b)
    ensures Masked(st, a + b) == Masked(st, a) + Masked(After(st, a), b)
  {
    if b == "" {
      assert a + b == a;
    } else {
      assert (a + b)[..|a + b| - 1] == a + b[..|b| - 1];
      MaskAppend(st, a, b[..|b| - 1]);
    }
  }

  lemma {:induction false} MaskKeepsNewlines(st: MaskState, text: string)
    ensures Count(Masked(st, text), '\n') == Count(text, '\n')
    ensures forall i :: 0 <= i < |text| ==> (Masked(st, text)[i] == '\n' <==> text[i] == '\n')
  {
    if text != "" {
      MaskKeepsNewlines(st, text[..|text| - 1]);
      assert Masked(st, text)[..|text| - 1] == Masked(st, text[..|text| - 1]);
    }
  }

  // ---------------------------------------------------------------- what masking means

  /** What follows the last newline of `text`. */
  function LastLine(text: string): string {
    if text == "" || text[|text| - 1] == '\n' then ""
    else LastLine(text[..|text| - 1]) + [text[|text| - 1]]
  }

  predicate AllBlank(s: string) {
    forall i :: 0 <= i < |s| ==> s[i] == ' ' || s[i] == '\t' || s[i] == '\r'
  }

  /** The first ink of the line is a `#`. */
  predicate IsComment(line: string) {
    exists i :: 0 <= i < |line| && line[i] == '#' && AllBlank(line[..i])
  }

  lemma CommentGrows(line: string, c: char)
    ensures IsComment(line + [c]) <==> IsComment(line) || (AllBlank(line) && c == '#')
    ensures AllBlank(line + [c]) <==> AllBlank(line) && Blank(c)
  {
    var longer := line + [c];
    assert forall i :: 0 <= i <= |line| ==> longer[..i] == line[..i];
    assert line[..|line|] == line;
    if IsComment(line) {
      var i :| 0 <= i < |line| && line[i] == '#' && AllBlank(line[..i]);
      assert longer[i] == '#' && AllBlank(longer[..i]);
    }
    if AllBlank(line) && c == '#' {
      assert longer[|line|] == '#' && AllBlank(longer[..|line|]);
    }
  }

  lemma {:induction false} StateMeansLine(text: string)
    ensures After(START, text).comment <==> IsComment(LastLine(text))
    ensures After(START, text).linePrefix <==> IsComment(LastLine(text)) || AllBlank(LastLine(text))
  {
    if text != "" {
      StateMeansLine(text[..|text| - 1]);
      CommentGrows(LastLine(text[..|text| - 1]), text[|text| - 1]);
      CommentHasInk(LastLine(text[..|text| - 1]));
    }
  }

  lemma CommentHasInk(line: string)
    ensures IsComment(line) ==> !AllBlank(line)
  {
  }

  /** A byte is blanked exactly when it stands in a comment line, at or after
      the `#`; newlines and everything else stay. */
  lemma {:induction false} MasksExactlyTheComments(text: string, i: nat)
    requires i < |text|
    ensures Masked(START, text)[i] ==
            if text[i] != '\n' && IsComment(LastLine(text[..i + 1])) then ' ' else text[i]
  {
    if i == |text| - 1 {
      StateMeansLine(text);
      assert text[..i + 1] == text;
    } else {
      assert text[..|text| - 1][..i + 1] == text[..i + 1];
      MasksExactlyTheComments(text[..|text| - 1], i);
    }
  }
}
