/** The unified-diff masker of internal/brief/diff.go.

    The loop reads a patch line by line, keeps five flags and two counters, and
    blanks the lines that a patch removes.  Anything ambiguous makes it refuse
    the whole text.  `Step` and `Flags` specify the loop; UnifiedDiffGrammar
    relates them to the documents a reader would call unified diffs. */
module UnifiedDiff {
  import opened Text

  const NO_NEWLINE := "\\ No newline at end of file"
  const UINT64_LIMIT: nat := 0x1_0000_0000_0000_0000

  // ---------------------------------------------------------------- hunk headers

  predicate IsDigit(c: char) {
    '0' <= c <= '9'
  }

  /** The length of the longest run of digits that `s` begins with. */
  function DigitRun(s: string): (n: nat)
    ensures n <= |s|
    ensures forall i :: 0 <= i < n ==> IsDigit(s[i])
    ensures n < |s| ==> !IsDigit(s[n])
  {
    if s == "" || !IsDigit(s[0]) then 0 else 1 + DigitRun(s[1..])
  }

  function Decimal(digits: string): nat
    requires forall i :: 0 <= i < |digits| ==> IsDigit(digits[i])
  {
    if digits == "" then 0
    else
      assert IsDigit(digits[|digits| - 1]);
      10 * Decimal(digits[..|digits| - 1]) + (digits[|digits| - 1] as int - '0' as int)
  }

  /** strconv.ParseUint(digits, 10, 64): overflow is an error. */
  function ParseUint64(digits: string): Option<nat>
    requires digits != "" && forall i :: 0 <= i < |digits| ==> IsDigit(digits[i])
  {
    if Decimal(digits) < UINT64_LIMIT then Some(Decimal(digits)) else None
  }

  datatype Range = Range(start: nat, count: nat, rest: string)

  /** One `start[,count]` of a hunk header, at the front of `s`.  An absent
      count is 1; an overflowing coordinate is no range at all. */
  function ParseRange(s: string): Option<Range>
  {
    var n := DigitRun(s);
    if n == 0 || ParseUint64(s[..n]).None? then None
    else
      var rest := s[n..];
      if rest == "" || rest[0] != ',' then Some(Range(Decimal(s[..n]), 1, rest))
      else
        var m := DigitRun(rest[1..]);
        if m == 0 || ParseUint64(rest[1..][..m]).None? then None
        else Some(Range(Decimal(s[..n]), Decimal(rest[1..][..m]), rest[1..][m..]))
  }

  /** The two counts of `@@ -a[,b] +c[,d] @@[ section]`. */
  function HunkCounts(line: string): Option<(nat, nat)>
  {
    if !HasPrefix(line, "@@ -") then None else
      match ParseRange(line[4..])
      case None => None
      case Some(left) =>
        if !HasPrefix(left.rest, " +") then None else
          match ParseRange(left.rest[2..])
          case None => None
          case Some(right) =>
            if HasPrefix(right.rest, " @@") && (|right.rest| == 3 || right.rest[3] == ' ')
            then Some((left.count, right.count)) else None
  }

  // ---------------------------------------------------------------- one line

  /** A line as the loop compares it: its newline gone, then one carriage return. */
  function Content(raw: string): string
  {
    var line := if raw != "" && raw[|raw| - 1] == '\n' then raw[..|raw| - 1] else raw;
    if line != "" && line[|line| - 1] == '\r' then line[..|line| - 1] else line
  }

  function Contents(lines: seq<string>): (r: seq<string>)
    ensures |r| == |lines|
    ensures forall i :: 0 <= i < |r| ==> r[i] == Content(lines[i])
  {
    if lines == [] then [] else [Content(lines[0])] + Contents(lines[1..])
  }

  datatype State = State(
    oldRemaining: nat, newRemaining: nat, inHunk: bool, lastHunkData: bool,
    oldHeader: bool, headerPair: bool, pendingHunk: bool, sawHunk: bool)

  const INITIAL := State(0, 0, false, false, false, false, false, false)

  datatype Outcome = Refuse | Next(state: State, removed: bool)

  /** A line of a hunk that still owes lines to its header's counts. */
  function HunkLine(st: State, line: string): Outcome
  {
    if line == "" then Refuse
    else if line[0] == ' ' then
      if st.oldRemaining == 0 || st.newRemaining == 0 then Refuse
      else Next(st.(oldRemaining := st.oldRemaining - 1, newRemaining := st.newRemaining - 1, lastHunkData := true),
        false)
    else if line[0] == '-' then
      if st.oldRemaining == 0 then Refuse
      else Next(st.(oldRemaining := st.oldRemaining - 1, lastHunkData := true), true)
    else if line[0] == '+' then
      if st.newRemaining == 0 then Refuse
      else Next(st.(newRemaining := st.newRemaining - 1, lastHunkData := true), false)
    else Refuse
  }

  /** Lines that make a document ambiguous wherever no hunk is open. */
  predicate Ambiguous(line: string) {
    line == NO_NEWLINE || line == "GIT binary patch" || HasPrefix(line, "Binary files ") ||
    (line != "" && (line[0] == '-' || line[0] == '+' || line[0] == ' '))
  }

  /** What a line is outside the hunks; the first test that holds decides. */
  datatype LineKind = Combined | HunkHeader | OldName | NewName | Doubtful | Noise

  function Kind(line: string): LineKind {
    if HasPrefix(line, "@@@") || HasPrefix(line, "diff --combined ") || HasPrefix(line, "diff --cc ") then Combined
    else if HasPrefix(line, "@@") then HunkHeader
    else if HasPrefix(line, "--- ") then OldName
    else if HasPrefix(line, "+++ ") then NewName
    else if Ambiguous(line) then Doubtful
    else Noise
  }

  /** A line outside the hunks. */
  function OuterLine(st: State, line: string): Outcome
  {
    match Kind(line)
    case Combined => Refuse
    case HunkHeader =>
      var counts := HunkCounts(line);
      if !st.headerPair || counts.None? || (counts.value.0 == 0 && counts.value.1 == 0) then Refuse
      else Next(st.(oldRemaining := counts.value.0, newRemaining := counts.value.1, inHunk := true,
                    lastHunkData := false, pendingHunk := false, sawHunk := true), false)
    case OldName =>
      if st.oldHeader || st.pendingHunk then Refuse
      else Next(st.(oldHeader := true, headerPair := false), false)
    case NewName =>
      if !st.oldHeader then Refuse
      else Next(st.(oldHeader := false, headerPair := true, pendingHunk := true), false)
    case Doubtful => Refuse
    case Noise => if st.oldHeader then Refuse else Next(st, false)
  }

  function LeaveHunk(st: State): State {
    if st.inHunk then st.(inHunk := false, lastHunkData := false) else st
  }

  function Step(st: State, line: string): Outcome
  {
    if st.inHunk && line == NO_NEWLINE then
      if st.lastHunkData then Next(st.(lastHunkData := false), false) else Refuse
    else if st.inHunk && (st.oldRemaining != 0 || st.newRemaining != 0) then HunkLine(st, line)
    else OuterLine(LeaveHunk(st), line)
  }

  predicate Accepting(st: State) {
    !st.oldHeader && !st.pendingHunk && st.sawHunk && !(st.inHunk && (st.oldRemaining != 0 || st.newRemaining != 0))
  }

  // ---------------------------------------------------------------- a whole text

  /** Which of the lines are removed, or None when the lines are refused. */
  function Flags(st: State, lines: seq<string>): (r: Option<seq<bool>>)
    ensures r.Some? ==> |r.value| == |lines|
    decreases |lines|
  {
    if lines == [] then
      if Accepting(st) then Some([]) else None
    else
      match Step(st, lines[0])
      case Refuse => None
      case Next(st', removed) =>
        match Flags(st', lines[1..])
        case None => None
        case Some(rest) => Some([removed] + rest)
  }

  function Spaces(n: nat): (s: string)
    ensures |s| == n && forall i :: 0 <= i < n ==> s[i] == ' '
  {
    seq(n, _ => ' ')
  }

  /** A removed line: everything but the newline becomes a space. */
  function Blanked(raw: string): (s: string)
    ensures |s| == |raw|
    ensures forall i :: 0 <= i < |s| ==> s[i] == if i == |raw| - 1 && raw[i] == '\n' then '\n' else ' '
  {
    if raw != "" && raw[|raw| - 1] == '\n' then Spaces(|raw| - 1) + "\n" else Spaces(|raw|)
  }

  function MaskLines(lines: seq<string>, flags: seq<bool>): string
    requires |lines| == |flags|
  {
    if lines == [] then ""
    else (if flags[0] then Blanked(lines[0]) else lines[0]) + MaskLines(lines[1..], flags[1..])
  }

  function TextFlags(text: string): (r: Option<seq<bool>>)
    ensures r.Some? ==> |r.value| == |RawLines(text)|
  {
    Flags(INITIAL, Contents(RawLines(text)))
  }

  /** What `unifiedDiffBehaviorText` returns. */
  function BehaviorText(patchName: bool, text: string): (r: (string, bool))
  {
    if !patchName || text == "" then (text, false) else
      match TextFlags(text)
      case None => (text, false)
      case Some(flags) => (MaskLines(RawLines(text), flags), true)
  }

  lemma MaskOne(text: string, flags: seq<bool>)
    requires text != "" && |flags| == |RawLines(text)|
    ensures MaskLines(RawLines(text), flags) ==
            (if flags[0] then Blanked(text[..FirstLine(text)]) else text[..FirstLine(text)]) +
            MaskLines(RawLines(text[FirstLine(text)..]), flags[1..])
  {
    assert RawLines(text)[1..] == RawLines(text[FirstLine(text)..]);
  }

  lemma FlagsNone(st: State)
    ensures RawLines("") == [] && MaskLines([], []) == ""
    ensures Flags(st, Contents([])) == if Accepting(st) then Some([]) else None
  {
  }

  lemma FlagsOne(st: State, text: string)
    requires text != ""
    ensures Flags(st, Contents(RawLines(text))) ==
            match Step(st, Content(text[..FirstLine(text)])) {
              case Refuse => None
              case Next(st', removed) =>
                match Flags(st', Contents(RawLines(text[FirstLine(text)..]))) {
                  case None => None
                  case Some(rest) => Some([removed] + rest)
                }
            }
  {
    var lines := RawLines(text);
    assert lines[1..] == RawLines(text[FirstLine(text)..]);
    assert Contents(lines)[1..] == Contents(lines[1..]);
  }

  /** The raw line at `offset`. */
  function LineAt(text: string, offset: nat): (raw: string)
    requires offset < |text|
    ensures 1 <= |raw| <= |text| - offset
  {
    text[offset..][..FirstLine(text[offset..])]
  }

  /** The end of the line at `offset`, its newline not included. */
  function LineEnd(text: string, offset: nat): (end: nat)
    requires offset < |text|
    ensures offset <= end <= offset + |LineAt(text, offset)|
  {
    var raw := LineAt(text, offset);
    if raw[|raw| - 1] == '\n' then offset + |raw| - 1 else offset + |raw|
  }

  function BlankBytes(bytes: string, from: nat, to: nat): (r: string)
    ensures |r| == |bytes|
    ensures forall i :: 0 <= i < |r| ==> r[i] == if from <= i < to then ' ' else bytes[i]
  {
    seq(|bytes|, i requires 0 <= i < |bytes| => if from <= i < to then ' ' else bytes[i])
  }

  /** The loop as a recursion: the buffer when the loop ends in acceptance. */
  function Finish(bytes: string, text: string, st: State, offset: nat): Option<string>
    decreases |text| - offset
  {
    if offset >= |text| then
      if Accepting(st) then Some(bytes) else None
    else
      match Step(st, Content(LineAt(text, offset)))
      case Refuse => None
      case Next(st', removed) =>
        Finish(if removed then BlankBytes(bytes, offset, LineEnd(text, offset)) else bytes,
               text, st', offset + |LineAt(text, offset)|)
  }

  lemma FinishStep(bytes: string, text: string, st: State, offset: nat)
    requires offset < |text|
    ensures LineAt(text, offset) == text[offset..][..FirstLine(text[offset..])]
    ensures var outcome := Step(st, Content(LineAt(text, offset)));
            Finish(bytes, text, st, offset) ==
            if outcome.Refuse? then None
            else Finish(if outcome.removed then BlankBytes(bytes, offset, LineEnd(text, offset)) else bytes,
                        text, outcome.state, offset + |LineAt(text, offset)|)
  {
  }

  lemma FinishEnd(bytes: string, text: string, st: State)
    ensures Finish(bytes, text, st, |text|) == if Accepting(st) then Some(bytes) else None
  {
  }

  lemma BlankedAt(bytes: string, text: string, offset: nat)
    requires offset < |text| == |bytes| && bytes[offset..] == text[offset..]
    ensures var raw := LineAt(text, offset);
            var r := BlankBytes(bytes, offset, LineEnd(text, offset));
            r[..offset + |raw|] == bytes[..offset] + Blanked(raw) && r[offset + |raw|..] == text[offset + |raw|..]
  {
    var raw := LineAt(text, offset);
    var r := BlankBytes(bytes, offset, LineEnd(text, offset));
    assert forall i :: offset <= i < |bytes| ==> bytes[i] == bytes[offset..][i - offset] == text[i];
    assert r[offset..offset + |raw|] == Blanked(raw);
    assert r[..offset] == bytes[..offset];
    assert r[..offset + |raw|] == r[..offset] + r[offset..offset + |raw|];
  }

  lemma KeptAt(bytes: string, text: string, offset: nat)
    requires offset < |text| == |bytes| && bytes[offset..] == text[offset..]
    ensures var raw := LineAt(text, offset);
            bytes[..offset + |raw|] == bytes[..offset] + raw && bytes[offset + |raw|..] == text[offset + |raw|..]
  {
    var raw := LineAt(text, offset);
    assert bytes[offset..offset + |raw|] == bytes[offset..][..|raw|];
    assert bytes[..offset + |raw|] == bytes[..offset] + bytes[offset..offset + |raw|];
    assert bytes[offset + |raw|..] == bytes[offset..][|raw|..];
  }

  lemma {:induction false} FinishMasks(bytes: string, text: string, st: State, offset: nat)
    requires offset <= |text| == |bytes| && bytes[offset..] == text[offset..]
    ensures var flags := Flags(st, Contents(RawLines(text[offset..])));
            Finish(bytes, text, st, offset) ==
            if flags.None? then None else Some(bytes[..offset] + MaskLines(RawLines(text[offset..]), flags.value))
    decreases |text| - offset
  {
    hide *;
    var rest := text[offset..];
    if offset == |text| {
      FinishEnd(bytes, text, st);
      FlagsNone(st);
      assert rest == "" && bytes[..offset] + "" == bytes;
    } else {
      FinishStep(bytes, text, st, offset);
      var raw := LineAt(text, offset);
      FlagsOne(st, rest);
      assert rest[|raw|..] == text[offset + |raw|..];
      match Step(st, Content(raw))
      case Refuse =>
      case Next(st', removed) =>
        var piece := if removed then Blanked(raw) else raw;
        var bytes' := if removed then BlankBytes(bytes, offset, LineEnd(text, offset)) else bytes;
        if removed { BlankedAt(bytes, text, offset); } else { KeptAt(bytes, text, offset); }
        FinishMasks(bytes', text, st', offset + |raw|);
        var tail := Flags(st', Contents(RawLines(rest[|raw|..])));
        if tail.Some? {
          var masked := MaskLines(RawLines(rest[|raw|..]), tail.value);
          MaskOne(rest, [removed] + tail.value);
          assert ([removed] + tail.value)[1..] == tail.value;
          assert bytes[..offset] + (piece + masked) == (bytes[..offset] + piece) + masked;
        }
    }
  }

  lemma BehaviorIsFinish(patchName: bool, text: string)
    ensures BehaviorText(patchName, text) ==
            if !patchName || text == "" then (text, false) else
              match Finish(text, text, INITIAL, 0) { case None => (text, false) case Some(masked) => (masked, true) }
  {
    FinishMasks(text, text, INITIAL, 0);
    assert text[0..] == text;
    var flags := TextFlags(text);
    if flags.Some? {
      assert text[..0] + MaskLines(RawLines(text), flags.value) == MaskLines(RawLines(text), flags.value);
    }
  }

  /** The slice the loop compares is the content of the raw line. */
  lemma LineBytes(raw: string, lineEnd: nat, contentEnd: nat)
    requires raw != "" && lineEnd == if raw[|raw| - 1] == '\n' then |raw| - 1 else |raw|
    requires contentEnd == if lineEnd > 0 && raw[lineEnd - 1] == '\r' then lineEnd - 1 else lineEnd
    ensures raw[..contentEnd] == Content(raw)
  {
    if lineEnd > 0 {
      assert raw[..lineEnd][lineEnd - 1] == raw[lineEnd - 1];
    }
    assert lineEnd == |raw| ==> raw[..lineEnd] == raw;
    if contentEnd < lineEnd {
      assert raw[..lineEnd][..contentEnd] == raw[..contentEnd];
    }
  }

  /** The line at `offset` without its line ending, the end of its bytes, and
      the offset of the next line. */
  method NextLine(text: string, offset: nat) returns (line: string, lineEnd: nat, next: nat)
    requires offset < |text|
    ensures line == Content(LineAt(text, offset))
    ensures lineEnd == LineEnd(text, offset)
    ensures next == offset + |LineAt(text, offset)|
  {
    next := offset + FirstLine(text[offset..]);
    lineEnd := if text[next - 1] == '\n' then next - 1 else next;
    var contentEnd := if lineEnd > offset && text[lineEnd - 1] == '\r' then lineEnd - 1 else lineEnd;
    line := text[offset..contentEnd];
    ghost var raw := LineAt(text, offset);
    assert raw[|raw| - 1] == text[next - 1];
    assert text[offset..][..contentEnd - offset] == line;
    LineBytes(raw, lineEnd - offset, contentEnd - offset);
    assert line == raw[..contentEnd - offset];
  }

  method BlankRange(bytes: array<char>, from: nat, to: nat)
    requires from <= to <= bytes.Length
    modifies bytes
    ensures bytes[..] == BlankBytes(old(bytes[..]), from, to)
  {
    for index := from to to
      invariant forall i :: 0 <= i < bytes.Length ==> bytes[i] == if from <= i < index then ' ' else old(bytes[i])
    {
      bytes[index] := ' ';
    }
  }

  /** The flags and counters the loop keeps between lines. */
  class LineMachine {
    var oldRemaining: nat
    var newRemaining: nat
    var inHunk: bool
    var lastHunkData: bool
    var oldHeader: bool
    var headerPair: bool
    var pendingHunk: bool
    var sawHunk: bool

    function Now(): State
      reads this
    {
      State(oldRemaining, newRemaining, inHunk, lastHunkData, oldHeader, headerPair, pendingHunk, sawHunk)
    }

    constructor ()
      ensures Now() == INITIAL
    {
      oldRemaining, newRemaining := 0, 0;
      inHunk, lastHunkData, oldHeader, headerPair, pendingHunk, sawHunk := false, false, false, false, false, false;
    }

    /** One line: false refuses the document. */
    method Read(line: string) returns (ok: bool, removed: bool)
      modifies this
      ensures ok == old(Step(Now(), line)).Next?
      ensures ok ==> old(Step(Now(), line)) == Next(Now(), removed)
    {
      removed := false;
      if inHunk {
        if line == NO_NEWLINE {
          ok := lastHunkData;
          lastHunkData := false;
          return;
        }
        if oldRemaining == 0 && newRemaining == 0 {
          inHunk := false;
          lastHunkData := false;
        } else {
          ok, removed := ReadHunkLine(line);
          return;
        }
      }
      ok := ReadOuterLine(line);
    }

    method ReadHunkLine(line: string) returns (ok: bool, removed: bool)
      modifies this
      ensures ok == old(HunkLine(Now(), line)).Next?
      ensures ok ==> old(HunkLine(Now(), line)) == Next(Now(), removed)
    {
      ok, removed := false, false;
      if line == "" {
        return;
      }
      match line[0] {
        case ' ' =>
          if oldRemaining == 0 || newRemaining == 0 {
            return;
          }
          oldRemaining := oldRemaining - 1;
          newRemaining := newRemaining - 1;
        case '-' =>
          if oldRemaining == 0 {
            return;
          }
          oldRemaining := oldRemaining - 1;
          removed := true;
        case '+' =>
          if newRemaining == 0 {
            return;
          }
          newRemaining := newRemaining - 1;
        case _ =>
          return;
      }
      lastHunkData := true;
      ok := true;
    }

    method ReadOuterLine(line: string) returns (ok: bool)
      modifies this
      ensures ok == old(OuterLine(Now(), line)).Next?
      ensures ok ==> old(OuterLine(Now(), line)) == Next(Now(), false)
    {
      hide HunkCounts;
      ghost var st := Now();
      ok := false;
      match Kind(line) {
        case Combined =>
          return;
        case HunkHeader =>
          if !headerPair {
            return;
          }
          var counts := HunkCounts(line);
          if counts.None? || (counts.value.0 == 0 && counts.value.1 == 0) {
            return;
          }
          oldRemaining, newRemaining := counts.value.0, counts.value.1;
          inHunk := true;
          lastHunkData := false;
          pendingHunk := false;
          sawHunk := true;
          assert OuterLine(st, line) == Next(Now(), false);
        case OldName =>
          if oldHeader || pendingHunk {
            return;
          }
          oldHeader := true;
          headerPair := false;
          assert OuterLine(st, line) == Next(Now(), false);
        case NewName =>
          if !oldHeader {
            return;
          }
          oldHeader := false;
          headerPair := true;
          pendingHunk := true;
          assert OuterLine(st, line) == Next(Now(), false);
        case Doubtful =>
          return;
        case Noise =>
          if oldHeader {
            return;
          }
          assert OuterLine(st, line) == Next(Now(), false);
      }
      ok := true;
    }
  }

  method UnifiedDiffBehaviorText(patchName: bool, text: string) returns (view: string, ok: bool)
    ensures (view, ok) == BehaviorText(patchName, text)
  {
    hide *;
    BehaviorIsFinish(patchName, text);
    if !patchName || text == "" {
      return text, false;
    }
    var masked := CopyBytes(text);
    var machine := new LineMachine();
    var offset := 0;
    ghost var goal := Finish(text, text, INITIAL, 0);
    while offset < |text|
      invariant offset <= |text| == masked.Length
      invariant goal == Finish(masked[..], text, machine.Now(), offset)
    {
      FinishStep(masked[..], text, machine.Now(), offset);
      var line, lineEnd, next := NextLine(text, offset);
      var accepted, removed := machine.Read(line);
      if !accepted {
        return text, false;
      }
      if removed {
        BlankRange(masked, offset, lineEnd);
      }
      offset := next;
    }
    FinishEnd(masked[..], text, machine.Now());
    if Accepting(machine.Now()) {
      return masked[..], true;
    }
    return text, false;
  }
}
