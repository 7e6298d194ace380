/** The documents the masker of UnifiedDiff accepts, as a grammar.

    A diff is some noise, then one or more files.  A file is a header pair, some
    noise, and one or more hunks.  A hunk is a header that states two counts, as
    many lines as it states, and some noise.  Any line of a hunk may be followed
    by one marker that says it lacks its newline.  The layout is that of the
    "Diff -u Output Format" section of the POSIX.1-2017 `diff` utility; the
    marker and the noise are what common tools add to it. */
module UnifiedDiffGrammar {
  import opened Text
  import opened UnifiedDiff
  import H = UnifiedDiffHeaders

  datatype Sigil = Context | Removed | Added

  datatype Entry = Entry(sigil: Sigil, text: string, marked: bool)
  datatype Hunk = Hunk(header: string, body: seq<Entry>, trailer: seq<string>)
  datatype FileDiff = FileDiff(oldName: string, newName: string, lead: seq<string>, hunks: seq<Hunk>)
  datatype Diff = Diff(preamble: seq<string>, files: seq<FileDiff>)

  const MARKER := "\\ No newline at end of file"

  /** A line between the parts of a diff: it looks neither like a part, nor like the
      header of a merge or binary diff, nor like a line of a hunk. */
  predicate NoiseLine(line: string) {
    && (line == "" || (line[0] != '-' && line[0] != '+' && line[0] != ' '))
    && !("@@" <= line) && !("diff --combined " <= line) && !("diff --cc " <= line)
    && !("Binary files " <= line) && line != "GIT binary patch" && line != MARKER
  }

  predicate AllNoise(lines: seq<string>) {
    forall i :: 0 <= i < |lines| ==> NoiseLine(lines[i])
  }

  /** The lines of `body` that the old file has. */
  function OldLines(body: seq<Entry>): nat {
    if body == [] then 0 else (if body[0].sigil.Added? then 0 else 1) + OldLines(body[1..])
  }

  function NewLines(body: seq<Entry>): nat {
    if body == [] then 0 else (if body[0].sigil.Removed? then 0 else 1) + NewLines(body[1..])
  }

  ghost predicate WellFormedHunk(h: Hunk) {
    && H.IsHeader(h.header, OldLines(h.body), NewLines(h.body))
    && h.body != []
    && AllNoise(h.trailer)
  }

  ghost predicate WellFormedFile(f: FileDiff) {
    && AllNoise(f.lead)
    && f.hunks != []
    && forall i :: 0 <= i < |f.hunks| ==> WellFormedHunk(f.hunks[i])
  }

  ghost predicate WellFormed(d: Diff) {
    && AllNoise(d.preamble)
    && d.files != []
    && forall i :: 0 <= i < |d.files| ==> WellFormedFile(d.files[i])
  }

  // ---------------------------------------------------------------- printing

  /** A printed line, and whether the diff removes it. */
  datatype Line = Line(text: string, removed: bool)

  function Plain(lines: seq<string>): seq<Line> {
    if lines == [] then [] else [Line(lines[0], false)] + Plain(lines[1..])
  }

  function SigilChar(s: Sigil): char {
    match s case Context => ' ' case Removed => '-' case Added => '+'
  }

  function MarkerLine(marked: bool): seq<Line> {
    if marked then [Line(MARKER, false)] else []
  }

  /** The lines one entry prints as. */
  function PrintEntry(e: Entry): seq<Line> {
    [Line([SigilChar(e.sigil)] + e.text, e.sigil.Removed?)] + MarkerLine(e.marked)
  }

  function PrintBody(body: seq<Entry>): seq<Line> {
    if body == [] then []
    else PrintEntry(body[0]) + PrintBody(body[1..])
  }

  function PrintHunks(hunks: seq<Hunk>): seq<Line> {
    if hunks == [] then []
    else [Line(hunks[0].header, false)] + PrintBody(hunks[0].body) + Plain(hunks[0].trailer) + PrintHunks(hunks[1..])
  }

  function PrintFiles(files: seq<FileDiff>): seq<Line> {
    if files == [] then []
    else [Line("--- " + files[0].oldName, false), Line("+++ " + files[0].newName, false)] +
         Plain(files[0].lead) + PrintHunks(files[0].hunks) + PrintFiles(files[1..])
  }

  function PrintDiff(d: Diff): seq<Line> {
    Plain(d.preamble) + PrintFiles(d.files)
  }

  function Texts(lines: seq<Line>): (r: seq<string>)
    ensures |r| == |lines|
    ensures forall i :: 0 <= i < |r| ==> r[i] == lines[i].text
  {
    if lines == [] then [] else [lines[0].text] + Texts(lines[1..])
  }

  function Removals(lines: seq<Line>): (r: seq<bool>)
    ensures |r| == |lines|
    ensures forall i :: 0 <= i < |r| ==> r[i] == lines[i].removed
  {
    if lines == [] then [] else [lines[0].removed] + Removals(lines[1..])
  }

  // ---------------------------------------------------------------- runs

  /** The state after `lines`, when the machine marks exactly the lines marked there. */
  function RunTo(st: State, lines: seq<Line>): Option<State>
    decreases |lines|
  {
    if lines == [] then Some(st) else
      var outcome := Step(st, lines[0].text);
      if outcome.Refuse? || outcome.removed != lines[0].removed then None else RunTo(outcome.state, lines[1..])
  }

  predicate Accepted(st: State, lines: seq<Line>) {
    RunTo(st, lines).Some? && Accepting(RunTo(st, lines).value)
  }

  lemma {:induction false} FlagsAreRuns(st: State, lines: seq<Line>)
    ensures Flags(st, Texts(lines)) == Some(Removals(lines)) <==> Accepted(st, lines)
    decreases |lines|
  {
    hide Step, Accepting;
    if lines != [] {
      var outcome := Step(st, lines[0].text);
      assert Texts(lines)[1..] == Texts(lines[1..]);
      assert Removals(lines)[1..] == Removals(lines[1..]);
      if outcome.Next? {
        FlagsAreRuns(outcome.state, lines[1..]);
        var rest := Flags(outcome.state, Texts(lines[1..]));
        if rest.Some? {
          assert ([outcome.removed] + rest.value)[1..] == rest.value;
        }
      }
    }
  }

  lemma {:induction false} RunAppend(st: State, a: seq<Line>, b: seq<Line>)
    ensures RunTo(st, a + b) ==
            match RunTo(st, a) { case None => None case Some(mid) => RunTo(mid, b) }
    decreases |a|
  {
    hide Step;
    if a == [] {
      assert a + b == b;
    } else {
      assert (a + b)[1..] == a[1..] + b;
      var outcome := Step(st, a[0].text);
      if outcome.Next? {
        RunAppend(outcome.state, a[1..], b);
      }
    }
  }

  lemma RunOne(st: State, line: Line)
    ensures RunTo(st, [line]) ==
            if Step(st, line.text).Refuse? || Step(st, line.text).removed != line.removed then None
            else Some(Step(st, line.text).state)
  {
    hide Step;
    assert [line][1..] == [];
  }

  lemma RunTwo(st: State, a: Line, b: Line)
    requires Step(st, a.text).Next? && Step(st, a.text).removed == a.removed
    ensures RunTo(st, [a, b]) == RunTo(Step(st, a.text).state, [b])
  {
    hide Step;
    assert [a, b][1..] == [b];
  }

  /** No line is owed to an open hunk. */
  predicate Idle(st: State) {
    st.inHunk ==> st.oldRemaining == 0 && st.newRemaining == 0
  }

  lemma KindOfHunkHeader(line: string)
    requires HunkCounts(line).Some?
    ensures Kind(line) == HunkHeader && line != NO_NEWLINE
  {
    hide ParseRange, HasPrefix, Ambiguous, DigitRun;
    HasPrefixMeansPrefix(line, "@@ -");
    HasPrefixMeansPrefix(line, "@@");
    HasPrefixMeansPrefix(line, "@@@");
    HasPrefixMeansPrefix(line, "diff --combined ");
    HasPrefixMeansPrefix(line, "diff --cc ");
    StartsWithAts(line);
  }

  lemma StartsWithAts(line: string)
    requires "@@ -" <= line
    ensures "@@" <= line && !("@@@" <= line) && !("diff --combined " <= line) && !("diff --cc " <= line)
              && line != NO_NEWLINE
  {
    assert line[..2] == line[..4][..2];
    assert line[0] == '@' && line[2] == ' ';
  }

  lemma KindOfNames(name: string)
    ensures Kind("--- " + name) == OldName && "--- " + name != NO_NEWLINE
    ensures Kind("+++ " + name) == NewName && "+++ " + name != NO_NEWLINE
  {
    HasPrefixMeansPrefix("--- " + name, "--- ");
    HasPrefixMeansPrefix("+++ " + name, "+++ ");
    assert ("--- " + name)[0] == '-' && ("+++ " + name)[0] == '+';
  }

  /** What the machine takes for noise is noise in the grammar, and conversely. */
  lemma NoiseExactly(line: string)
    ensures Kind(line) == Noise <==> NoiseLine(line)
    ensures NoiseLine(line) ==> line != NO_NEWLINE
  {
    hide HasPrefix;
    HasPrefixMeansPrefix(line, "@@@");
    HasPrefixMeansPrefix(line, "@@");
    HasPrefixMeansPrefix(line, "diff --combined ");
    HasPrefixMeansPrefix(line, "diff --cc ");
    HasPrefixMeansPrefix(line, "--- ");
    HasPrefixMeansPrefix(line, "+++ ");
    HasPrefixMeansPrefix(line, "Binary files ");
    FirstBytes(line);
  }

  lemma FirstBytes(line: string)
    ensures "@@@" <= line ==> "@@" <= line
    ensures "--- " <= line ==> line[0] == '-'
    ensures "+++ " <= line ==> line[0] == '+'
  {
    if "@@@" <= line {
      assert line[..2] == line[..3][..2];
    }
  }

  /** A line that no open hunk claims is read outside the hunks. */
  lemma StepOutside(st: State, line: string)
    requires Idle(st) && line != NO_NEWLINE
    ensures Step(st, line) == OuterLine(LeaveHunk(st), line)
  {
  }

  // ---------------------------------------------------------------- every printed diff is accepted

  lemma {:induction false} RunNoise(st: State, noise: seq<string>)
    requires Idle(st) && !st.oldHeader && AllNoise(noise)
    ensures RunTo(st, Plain(noise)) == Some(if noise == [] then st else LeaveHunk(st))
    decreases |noise|
  {
    hide Kind, HunkCounts, NoiseLine;
    if noise != [] {
      NoiseExactly(noise[0]);
      StepOutside(st, noise[0]);
      RunNoise(LeaveHunk(st), noise[1..]);
      assert Plain(noise)[1..] == Plain(noise[1..]);
    }
  }

  /** The state that the lines of `body` lead to. */
  function AfterBody(st: State, body: seq<Entry>): State
    requires OldLines(body) <= st.oldRemaining && NewLines(body) <= st.newRemaining
  {
    if body == [] then st
    else st.(oldRemaining := st.oldRemaining - OldLines(body), newRemaining := st.newRemaining - NewLines(body),
             lastHunkData := !body[|body| - 1].marked)
  }

  function AfterEntry(st: State, e: Entry): State
    requires e.sigil.Added? || st.oldRemaining > 0
    requires e.sigil.Removed? || st.newRemaining > 0
  {
    st.(oldRemaining := if e.sigil.Added? then st.oldRemaining else st.oldRemaining - 1,
        newRemaining := if e.sigil.Removed? then st.newRemaining else st.newRemaining - 1,
        lastHunkData := !e.marked)
  }

  lemma StepEntry(st: State, e: Entry)
    requires st.inHunk
    requires e.sigil.Added? || st.oldRemaining > 0
    requires e.sigil.Removed? || st.newRemaining > 0
    ensures Step(st, [SigilChar(e.sigil)] + e.text) == Next(AfterEntry(st, e.(marked := false)), e.sigil.Removed?)
  {
    hide OuterLine;
    var line := [SigilChar(e.sigil)] + e.text;
    assert line[0] == SigilChar(e.sigil) && NO_NEWLINE[0] == '\\';
  }

  lemma RunEntry(st: State, e: Entry)
    requires st.inHunk
    requires e.sigil.Added? || st.oldRemaining > 0
    requires e.sigil.Removed? || st.newRemaining > 0
    ensures RunTo(st, PrintEntry(e)) == Some(AfterEntry(st, e))
  {
    hide OuterLine, HunkLine;
    StepEntry(st, e);
    var a, b := Line([SigilChar(e.sigil)] + e.text, e.sigil.Removed?), Line(MARKER, false);
    RunOne(st, a);
    if e.marked {
      RunTwo(st, a, b);
      RunOne(AfterEntry(st, e.(marked := false)), b);
      assert PrintEntry(e) == [a, b];
    } else {
      assert PrintEntry(e) == [a];
    }
  }

  lemma {:induction false} RunBody(st: State, body: seq<Entry>)
    requires st.inHunk && OldLines(body) <= st.oldRemaining && NewLines(body) <= st.newRemaining
    ensures RunTo(st, PrintBody(body)) == Some(AfterBody(st, body))
    decreases |body|
  {
    hide Step;
    if body != [] {
      RunEntry(st, body[0]);
      RunBody(AfterEntry(st, body[0]), body[1..]);
      RunAppend(st, PrintEntry(body[0]), PrintBody(body[1..]));
    }
  }

  /** Between the hunks of a file. */
  predicate InFile(st: State) {
    Idle(st) && st.headerPair && !st.oldHeader && !st.pendingHunk && st.sawHunk
  }

  lemma {:induction false} RunHunks(st: State, hunks: seq<Hunk>)
    requires Idle(st) && st.headerPair && !st.oldHeader
    requires forall i :: 0 <= i < |hunks| ==> WellFormedHunk(hunks[i])
    ensures RunTo(st, PrintHunks(hunks)).Some?
    ensures hunks == [] ==> RunTo(st, PrintHunks(hunks)).value == st
    ensures hunks != [] ==> InFile(RunTo(st, PrintHunks(hunks)).value)
    decreases |hunks|
  {
    hide Kind, HunkCounts, NoiseLine, H.IsHeader;
    if hunks != [] {
      var h := hunks[0];
      H.CountsExactly(h.header, OldLines(h.body), NewLines(h.body));
      KindOfHunkHeader(h.header);
      StepOutside(st, h.header);
      CountsAreNotZero(h.body);
      var st1 := Step(st, h.header).state;
      assert Step(st, h.header) == Next(st1, false) && st1.inHunk;
      RunBody(st1, h.body);
      var st2 := AfterBody(st1, h.body);
      RunNoise(st2, h.trailer);
      var st3 := if h.trailer == [] then st2 else LeaveHunk(st2);
      RunHunks(st3, hunks[1..]);
      var a, b, c, d := [Line(h.header, false)], PrintBody(h.body), Plain(h.trailer), PrintHunks(hunks[1..]);
      assert RunTo(st, a) == Some(st1) by { assert a[1..] == []; }
      RunAppend(st, a, b);
      RunAppend(st, a + b, c);
      RunAppend(st, a + b + c, d);
    }
  }

  lemma CountsAreNotZero(body: seq<Entry>)
    requires body != []
    ensures OldLines(body) != 0 || NewLines(body) != 0
  {
  }

  lemma {:induction false} RunFiles(st: State, files: seq<FileDiff>)
    requires Idle(st) && !st.oldHeader && !st.pendingHunk
    requires forall i :: 0 <= i < |files| ==> WellFormedFile(files[i])
    ensures RunTo(st, PrintFiles(files)).Some?
    ensures files == [] ==> RunTo(st, PrintFiles(files)).value == st
    ensures files != [] ==> InFile(RunTo(st, PrintFiles(files)).value)
    decreases |files|
  {
    hide Kind, HunkCounts, WellFormedHunk;
    if files != [] {
      var f := files[0];
      var minus, plus := "--- " + f.oldName, "+++ " + f.newName;
      KindOfNames(f.oldName);
      KindOfNames(f.newName);
      StepOutside(st, minus);
      var st1 := Step(st, minus).state;
      StepOutside(st1, plus);
      var st2 := Step(st1, plus).state;
      RunNoise(st2, f.lead);
      var st3 := if f.lead == [] then st2 else LeaveHunk(st2);
      RunHunks(st3, f.hunks);
      var a, b, c, d := [Line(minus, false), Line(plus, false)], Plain(f.lead), PrintHunks(f.hunks),
        PrintFiles(files[1..]);
      RunTwo(st, Line(minus, false), Line(plus, false));
      RunOne(st1, Line(plus, false));
      RunAppend(st, a, b);
      RunAppend(st, a + b, c);
      RunAppend(st, a + b + c, d);
      RunFiles(RunTo(st3, c).value, files[1..]);
    }
  }

  lemma PrintedDiffAccepted(d: Diff)
    requires WellFormed(d)
    ensures Accepted(INITIAL, PrintDiff(d))
  {
    hide Kind, HunkCounts, WellFormedFile;
    RunNoise(INITIAL, d.preamble);
    RunFiles(INITIAL, d.files);
    RunAppend(INITIAL, Plain(d.preamble), PrintFiles(d.files));
  }

  // ---------------------------------------------------------------- every accepted text is a diff

  lemma AcceptedStep(st: State, lines: seq<Line>)
    requires Accepted(st, lines) && lines != []
    ensures Step(st, lines[0].text).Next? && Step(st, lines[0].text).removed == lines[0].removed
    ensures Accepted(Step(st, lines[0].text).state, lines[1..])
  {
    hide Step, Accepting;
  }

  ghost predicate HunksWellFormed(hunks: seq<Hunk>) {
    forall i :: 0 <= i < |hunks| ==> WellFormedHunk(hunks[i])
  }

  ghost predicate FilesWellFormed(files: seq<FileDiff>) {
    forall i :: 0 <= i < |files| ==> WellFormedFile(files[i])
  }

  /** What is printed after the lines of a hunk: its noise, the other hunks of
      its file, the other files. */
  function Outside(noise: seq<string>, hunks: seq<Hunk>, files: seq<FileDiff>): seq<Line> {
    Plain(noise) + (PrintHunks(hunks) + PrintFiles(files))
  }

  /** The rest of a hunk and what follows it. */
  function Inside(marked: bool, body: seq<Entry>, noise: seq<string>, hunks: seq<Hunk>,
                  files: seq<FileDiff>): seq<Line> {
    MarkerLine(marked) + (PrintBody(body) + Outside(noise, hunks, files))
  }

  lemma OutsideNoise(line: string, noise: seq<string>, hunks: seq<Hunk>, files: seq<FileDiff>)
    ensures Outside([line] + noise, hunks, files) == [Line(line, false)] + Outside(noise, hunks, files)
  {
    assert ([line] + noise)[1..] == noise;
  }

  lemma OutsideHunk(h: Hunk, hunks: seq<Hunk>, files: seq<FileDiff>)
    ensures Outside([], [h] + hunks, files) == [Line(h.header, false)] + Inside(false, h.body, h.trailer, hunks, files)
  {
    assert ([h] + hunks)[1..] == hunks;
  }

  lemma OutsideFile(f: FileDiff, files: seq<FileDiff>)
    ensures Outside([], [], [f] + files) ==
            [Line("--- " + f.oldName, false)] + ([Line("+++ " + f.newName, false)] + Outside(f.lead, f.hunks, files))
  {
    assert ([f] + files)[1..] == files;
  }

  lemma InsideEntry(e: Entry, body: seq<Entry>, noise: seq<string>, hunks: seq<Hunk>, files: seq<FileDiff>)
    ensures Inside(false, [e] + body, noise, hunks, files) ==
            [Line([SigilChar(e.sigil)] + e.text, e.sigil.Removed?)] + Inside(e.marked, body, noise, hunks, files)
  {
    hide Outside;
    var line := Line([SigilChar(e.sigil)] + e.text, e.sigil.Removed?);
    assert ([e] + body)[1..] == body && PrintBody([e] + body) == PrintEntry(e) + PrintBody(body);
    assert PrintEntry(e) == [line] + MarkerLine(e.marked) && MarkerLine(false) == [];
  }

  lemma InsideEnds(noise: seq<string>, hunks: seq<Hunk>, files: seq<FileDiff>)
    ensures Inside(false, [], noise, hunks, files) == Outside(noise, hunks, files)
    ensures Outside([], [], []) == []
  {
  }

  lemma InsideMarker(body: seq<Entry>, noise: seq<string>, hunks: seq<Hunk>, files: seq<FileDiff>)
    ensures Inside(true, body, noise, hunks, files) ==
              [Line(MARKER, false)] + Inside(false, body, noise, hunks, files)
  {
  }

  /** What an accepting run outside the hunks reads: noise, then more hunks of
      the file that is open, then more files. */
  lemma {:induction false} ReadOutside(st: State, lines: seq<Line>)
    returns (noise: seq<string>, hunks: seq<Hunk>, files: seq<FileDiff>)
    requires !st.inHunk && !st.oldHeader && Accepted(st, lines)
    ensures lines == Outside(noise, hunks, files)
    ensures AllNoise(noise) && HunksWellFormed(hunks) && FilesWellFormed(files)
    ensures hunks != [] ==> st.headerPair
    ensures st.pendingHunk ==> hunks != []
    ensures !st.sawHunk ==> hunks != [] || files != []
    decreases |lines|, 0
  {
    hide Kind, HunkCounts, Outside, Inside, HunkLine, WellFormedHunk, WellFormedFile, Accepted, NoiseLine;
    noise, hunks, files := [], [], [];
    if lines == [] {
      AcceptedEnd(st);
      InsideEnds([], [], []);
    } else {
      AcceptedStep(st, lines);
      var line := lines[0].text;
      assert lines == [lines[0]] + lines[1..];
      match Kind(line) {
        case HunkHeader =>
          hunks, files := ReadHunk(st, lines);
        case OldName =>
          files := ReadFile(st, lines);
        case Noise =>
          var rest;
          NoiseExactly(line);
          rest, hunks, files := ReadOutside(st, lines[1..]);
          OutsideNoise(line, rest, hunks, files);
          noise := [line] + rest;
        case _ =>
      }
    }
  }

  lemma AcceptedEnd(st: State)
    ensures Accepted(st, []) == Accepting(st)
  {
  }

  lemma {:induction false} ReadHunk(st: State, lines: seq<Line>) returns (hunks: seq<Hunk>, files: seq<FileDiff>)
    requires !st.inHunk && !st.oldHeader && Accepted(st, lines)
    requires lines != [] && Kind(lines[0].text) == HunkHeader
    ensures lines == Outside([], hunks, files)
    ensures HunksWellFormed(hunks) && hunks != [] && FilesWellFormed(files)
    ensures st.headerPair
    decreases |lines|, 0, 0
  {
    hide Kind, HunkCounts, Outside, Inside, HunkLine, WellFormedFile, Accepted;
    AcceptedStep(st, lines);
    var st1 := Step(st, lines[0].text).state;
    var marked, body, trailer, rest;
    marked, body, trailer, rest, files := ReadInside(st1, lines[1..]);
    var first := Hunk(lines[0].text, body, trailer);
    CountsOfNothing(body);
    H.CountsExactly(lines[0].text, OldLines(body), NewLines(body));
    OutsideHunk(first, rest, files);
    hunks := [first] + rest;
    assert lines == [lines[0]] + lines[1..];
  }

  lemma CountsOfNothing(body: seq<Entry>)
    ensures OldLines(body) != 0 || NewLines(body) != 0 ==> body != []
  {
  }

  lemma {:induction false} ReadFile(st: State, lines: seq<Line>) returns (files: seq<FileDiff>)
    requires !st.inHunk && !st.oldHeader && Accepted(st, lines)
    requires lines != [] && Kind(lines[0].text) == OldName
    ensures !st.pendingHunk
    ensures lines == Outside([], [], files) && FilesWellFormed(files) && files != []
    decreases |lines|, 0, 0
  {
    hide Kind, HunkCounts, Outside, Inside, HunkLine, WellFormedHunk, Accepted;
    AcceptedStep(st, lines);
    var minus, st1, tail := lines[0].text, Step(st, lines[0].text).state, lines[1..];
    if tail == [] {
      AcceptedEnd(st1);
    }
    AcceptedStep(st1, tail);
    var plus := tail[0].text;
    var lead, hunks, rest := ReadOutside(Step(st1, plus).state, tail[1..]);
    NamesOfKind(minus, plus);
    var first := FileDiff(minus[4..], plus[4..], lead, hunks);
    files := [first] + rest;
    OutsideFile(first, rest);
    assert lines == [lines[0]] + ([tail[0]] + tail[1..]);
  }

  lemma NamesOfKind(minus: string, plus: string)
    requires Kind(minus) == OldName && Kind(plus) == NewName
    ensures |minus| >= 4 && minus == "--- " + minus[4..]
    ensures |plus| >= 4 && plus == "+++ " + plus[4..]
  {
    HasPrefixMeansPrefix(minus, "--- ");
    HasPrefixMeansPrefix(plus, "+++ ");
  }

  /** What an accepting run inside a hunk reads: a marker for the line before,
      the lines the hunk is owed, and then what follows a hunk. */
  lemma {:induction false} ReadInside(st: State, lines: seq<Line>)
    returns (marked: bool, body: seq<Entry>, noise: seq<string>, hunks: seq<Hunk>, files: seq<FileDiff>)
    requires st.inHunk && !st.oldHeader && st.headerPair && !st.pendingHunk && Accepted(st, lines)
    ensures lines == Inside(marked, body, noise, hunks, files)
    ensures marked ==> st.lastHunkData
    ensures OldLines(body) == st.oldRemaining && NewLines(body) == st.newRemaining
    ensures AllNoise(noise) && HunksWellFormed(hunks) && FilesWellFormed(files)
    decreases |lines|, 1
  {
    hide Kind, HunkCounts, Outside, Inside, HunkLine, OuterLine, WellFormedHunk, WellFormedFile, Accepted;
    marked, body, noise, hunks, files := false, [], [], [], [];
    if lines == [] {
      AcceptedEnd(st);
      InsideEnds([], [], []);
    } else {
      AcceptedStep(st, lines);
      var line := lines[0].text;
      assert lines == [lines[0]] + lines[1..];
      if line == NO_NEWLINE {
        marked, body, noise, hunks, files := ReadInside(Step(st, line).state, lines[1..]);
        InsideMarker(body, noise, hunks, files);
        marked := true;
      } else if st.oldRemaining != 0 || st.newRemaining != 0 {
        body, noise, hunks, files := ReadEntry(st, lines);
      } else {
        LeavingAccepted(st, lines);
        noise, hunks, files := ReadOutside(LeaveHunk(st), lines);
        InsideEnds(noise, hunks, files);
      }
    }
  }

  lemma LeavingAccepted(st: State, lines: seq<Line>)
    requires Idle(st) && lines != [] && lines[0].text != NO_NEWLINE && Accepted(st, lines)
    ensures Accepted(LeaveHunk(st), lines)
  {
    hide Kind, HunkCounts;
    StepOutside(st, lines[0].text);
    StepOutside(LeaveHunk(st), lines[0].text);
  }

  lemma {:induction false} ReadEntry(st: State, lines: seq<Line>)
    returns (body: seq<Entry>, noise: seq<string>, hunks: seq<Hunk>, files: seq<FileDiff>)
    requires st.inHunk && !st.oldHeader && st.headerPair && !st.pendingHunk && Accepted(st, lines)
    requires lines != [] && lines[0].text != NO_NEWLINE && (st.oldRemaining != 0 || st.newRemaining != 0)
    ensures lines == Inside(false, body, noise, hunks, files)
    ensures OldLines(body) == st.oldRemaining && NewLines(body) == st.newRemaining
    ensures AllNoise(noise) && HunksWellFormed(hunks) && FilesWellFormed(files)
    decreases |lines|, 0
  {
    hide Kind, HunkCounts, Outside, Inside, OuterLine, WellFormedHunk, WellFormedFile, Accepted;
    AcceptedStep(st, lines);
    var line := lines[0].text;
    var marked, rest;
    marked, rest, noise, hunks, files := ReadInside(Step(st, line).state, lines[1..]);
    var e := Entry(if line[0] == ' ' then Context else if line[0] == '-' then Removed else Added, line[1..], marked);
    assert line == [SigilChar(e.sigil)] + e.text;
    InsideEntry(e, rest, noise, hunks, files);
    body := [e] + rest;
    assert body[1..] == rest;
    assert lines == [lines[0]] + lines[1..];
  }

  // ---------------------------------------------------------------- main results

  /** The document that `text` spells, line by line. */
  ghost predicate Spells(text: string, d: Diff) {
    WellFormed(d) && Contents(RawLines(text)) == Texts(PrintDiff(d))
  }

  lemma FlagsOfSpelling(text: string, d: Diff)
    requires Spells(text, d)
    ensures TextFlags(text) == Some(Removals(PrintDiff(d)))
  {
    hide WellFormed, RawLines, PrintDiff;
    PrintedDiffAccepted(d);
    FlagsAreRuns(INITIAL, PrintDiff(d));
  }

  function Zip(texts: seq<string>, flags: seq<bool>): (lines: seq<Line>)
    requires |texts| == |flags|
    ensures Texts(lines) == texts && Removals(lines) == flags
  {
    seq(|texts|, i requires 0 <= i < |texts| => Line(texts[i], flags[i]))
  }

  lemma OutsideOfDiff(d: Diff)
    ensures Outside(d.preamble, [], d.files) == PrintDiff(d)
  {
    assert [] + PrintFiles(d.files) == PrintFiles(d.files);
  }

  lemma SpellingOfFlags(text: string) returns (d: Diff)
    requires TextFlags(text).Some?
    ensures Spells(text, d)
  {
    hide RawLines, Contents, Flags, PrintFiles, PrintHunks, WellFormedFile, WellFormedHunk, Plain, Outside, Accepted;
    var texts := Contents(RawLines(text));
    var lines := Zip(texts, TextFlags(text).value);
    FlagsAreRuns(INITIAL, lines);
    var noise, hunks, files := ReadOutside(INITIAL, lines);
    d := Diff(noise, files);
    OutsideOfDiff(d);
  }

  /** The masker accepts exactly the texts that spell a unified diff. */
  lemma AcceptsExactlyTheGrammar(patchName: bool, text: string)
    ensures BehaviorText(patchName, text).1 <==> patchName && exists d :: Spells(text, d)
    ensures !BehaviorText(patchName, text).1 ==> BehaviorText(patchName, text).0 == text
  {
    hide Spells;
    if patchName && TextFlags(text).Some? {
      var d := SpellingOfFlags(text);
    }
    if patchName && exists d :: Spells(text, d) {
      var d :| Spells(text, d);
      FlagsOfSpelling(text, d);
      SpellingIsNotEmpty(text, d);
    }
  }

  lemma SpellingIsNotEmpty(text: string, d: Diff)
    requires Spells(text, d)
    ensures text != ""
  {
    assert PrintFiles(d.files) != [];
    assert Texts(PrintDiff(d)) != [];
    assert Contents(RawLines("")) == [];
  }

  /** The masked text is the text with exactly the removed lines blanked, in
      whichever way the text is read as a diff. */
  lemma MasksExactlyTheRemovals(text: string, d: Diff)
    requires Spells(text, d)
    ensures BehaviorText(true, text) == (MaskLines(RawLines(text), Removals(PrintDiff(d))), true)
  {
    hide Spells, RawLines, PrintDiff, MaskLines;
    FlagsOfSpelling(text, d);
    SpellingIsNotEmpty(text, d);
  }
}
