/** Printing a structured diff and masking the print; what masking keeps. */
module UnifiedDiffPrinting {
  import opened Text
  import opened UnifiedDiff
  import opened UnifiedDiffGrammar
  import H = UnifiedDiffHeaders

  // ---------------------------------------------------------------- what masking keeps

  /** The lines of a masked text, one for one. */
  function MaskedLines(lines: seq<string>, flags: seq<bool>): (r: seq<string>)
    requires |lines| == |flags|
    ensures |r| == |lines|
    ensures forall i :: 0 <= i < |r| ==> r[i] == if flags[i] then Blanked(lines[i]) else lines[i]
  {
    if lines == [] then []
    else [if flags[0] then Blanked(lines[0]) else lines[0]] + MaskedLines(lines[1..], flags[1..])
  }

  lemma {:induction false} MaskLinesConcat(lines: seq<string>, flags: seq<bool>)
    requires |lines| == |flags|
    ensures MaskLines(lines, flags) == Concat(MaskedLines(lines, flags))
  {
    if lines != [] {
      MaskLinesConcat(lines[1..], flags[1..]);
      assert MaskedLines(lines, flags)[1..] == MaskedLines(lines[1..], flags[1..]);
    }
  }

  lemma BlankedIsOneLine(line: string)
    requires OneLine(line)
    ensures OneLine(Blanked(line)) && Blanked(line)[|line| - 1] == '\n' <==> line[|line| - 1] == '\n'
  {
    assert forall i :: 0 <= i < |line| - 1 ==> line[i] in line[..|line| - 1];
    assert '\n' !in Blanked(line)[..|line| - 1];
  }

  /** Line by line, an accepted view is the text with its removed lines blanked:
      no line moves, appears or disappears. */
  lemma ViewLineByLine(text: string, flags: seq<bool>)
    requires TextFlags(text) == Some(flags) && text != ""
    ensures RawLines(BehaviorText(true, text).0) == MaskedLines(RawLines(text), flags)
  {
    hide TextFlags, MaskLines, MaskedLines, RawLines, Blanked, Concat;
    RawLinesAreLined(text);
    var lines := RawLines(text);
    var masked := MaskedLines(lines, flags);
    forall i | 0 <= i < |lines| ensures OneLine(masked[i]) && masked[i][|masked[i]| - 1] == '\n' <==>
      lines[i][|lines[i]| - 1] == '\n' {
      BlankedIsOneLine(lines[i]);
    }
    MaskLinesConcat(lines, flags);
    RawLinesOfLined(masked);
  }

  /** `b` is `a` but for spaces written over bytes that are no newlines. */
  predicate OnlyBlanks(a: string, b: string) {
    |a| == |b| && forall i :: 0 <= i < |a| ==> b[i] == a[i] || (b[i] == ' ' && a[i] != '\n')
  }

  lemma {:induction false} MaskingOnlyBlanks(lines: seq<string>, flags: seq<bool>)
    requires |lines| == |flags| && forall i :: 0 <= i < |lines| ==> OneLine(lines[i])
    ensures OnlyBlanks(Concat(lines), MaskLines(lines, flags))
  {
    if lines != [] {
      var line, blank := lines[0], Blanked(lines[0]);
      assert forall i :: 0 <= i < |line| - 1 ==> line[i] in line[..|line| - 1];
      MaskingOnlyBlanks(lines[1..], flags[1..]);
    }
  }

  /** Accepted or not, the view has the length and the newlines of the text. */
  lemma ViewKeepsShape(patchName: bool, text: string)
    ensures OnlyBlanks(text, BehaviorText(patchName, text).0)
  {
    hide RawLines, MaskLines, Concat, Flags, Contents;
    if BehaviorText(patchName, text).1 {
      RawLinesAreLined(text);
      ConcatRawLines(text);
      MaskingOnlyBlanks(RawLines(text), TextFlags(text).value);
    }
  }

  // ---------------------------------------------------------------- printed text

  function Ended(lines: seq<string>): (r: seq<string>)
    ensures |r| == |lines| && forall i :: 0 <= i < |r| ==> r[i] == lines[i] + "\n"
  {
    if lines == [] then [] else [lines[0] + "\n"] + Ended(lines[1..])
  }

  /** A line that survives being written with a newline and read again. */
  predicate Printable(line: string) {
    '\n' !in line && (line != "" ==> line[|line| - 1] != '\r')
  }

  predicate PrintableDiff(d: Diff) {
    forall i :: 0 <= i < |PrintDiff(d)| ==> Printable(PrintDiff(d)[i].text)
  }

  function PrintText(d: Diff): string {
    Concat(Ended(Texts(PrintDiff(d))))
  }

  /** A line is read without its newline and without one carriage return, whichever
      of the four endings it has. */
  lemma EndingsDoNotMatter(line: string)
    requires Printable(line)
    ensures Content(line) == line && Content(line + "\n") == line
    ensures Content(line + "\r\n") == line && Content(line + "\r") == line
    ensures Content(line + "\r\r\n") == line + "\r"
  {
    ContentOfEnded(line);
    assert line != "" ==> line[|line| - 1] != '\n';
    var crlf, cr := line + "\r\n", line + "\r\r\n";
    assert crlf[..|crlf| - 1] == line + "\r" && (line + "\r")[..|line|] == line;
    assert cr[..|cr| - 1] == line + "\r\r" && (line + "\r\r")[..|line| + 1] == line + "\r";
  }

  lemma ContentOfEnded(line: string)
    requires Printable(line)
    ensures Content(line + "\n") == line && OneLine(line + "\n")
  {
    var raw := line + "\n";
    assert raw[..|raw| - 1] == line;
  }

  /** Printing any structured diff and masking the print accepts it and blanks
      exactly the lines the diff removes. */
  lemma PrintedDiffIsMasked(d: Diff)
    requires WellFormed(d) && PrintableDiff(d)
    ensures BehaviorText(true, PrintText(d)) ==
            (Concat(MaskedLines(Ended(Texts(PrintDiff(d))), Removals(PrintDiff(d)))), true)
  {
    hide WellFormed, PrintDiff, RawLines, Concat, MaskLines, MaskedLines, Content, BehaviorText, Printable, OneLine;
    var texts := Texts(PrintDiff(d));
    var lines := Ended(texts);
    forall i | 0 <= i < |lines| ensures Content(lines[i]) == texts[i] && OneLine(lines[i])
      && lines[i][|lines[i]| - 1] == '\n' {
      ContentOfEnded(texts[i]);
    }
    RawLinesOfLined(lines);
    assert Contents(lines) == texts;
    MasksExactlyTheRemovals(PrintText(d), d);
    MaskLinesConcat(lines, Removals(PrintDiff(d)));
  }

  // ---------------------------------------------------------------- hunk headers

  function Digits(n: nat): (s: string)
    ensures s != "" && forall i :: 0 <= i < |s| ==> IsDigit(s[i])
    decreases n
  {
    var last := ['0' + (n % 10) as char];
    if n < 10 then last else Digits(n / 10) + last
  }

  lemma {:induction false} DecimalOfDigits(n: nat)
    ensures Decimal(Digits(n)) == n
    decreases n
  {
    var s := Digits(n);
    if n < 10 {
      assert s[..0] == "";
    } else {
      assert s[..|s| - 1] == Digits(n / 10);
      DecimalOfDigits(n / 10);
    }
  }

  /** A range; tools leave a count of one out. */
  function RangeText(start: nat, count: nat, short: bool): string {
    Digits(start) + if short then "" else "," + Digits(count)
  }

  /** The header a diff tool writes for a hunk. */
  function HeaderText(left: Range, leftShort: bool, right: Range, rightShort: bool, section: string): string {
    "@@ -" + (RangeText(left.start, left.count, leftShort) +
              (" +" + (RangeText(right.start, right.count, rightShort) + (" @@" + section))))
  }

  /** The counts of a written header are read back, whatever section follows,
      as long as no coordinate overflows 64 bits. */
  lemma HeaderCountsRoundTrip(left: Range, leftShort: bool, right: Range, rightShort: bool, section: string)
    requires left.start < UINT64_LIMIT && left.count < UINT64_LIMIT && (leftShort ==> left.count == 1)
    requires right.start < UINT64_LIMIT && right.count < UINT64_LIMIT && (rightShort ==> right.count == 1)
    requires section == "" || section[0] == ' '
    ensures HunkCounts(HeaderText(left, leftShort, right, rightShort, section)) == Some((left.count, right.count))
  {
    hide Digits, Decimal, HunkCounts;
    var l := CoordinatesOf(left.start, left.count, leftShort);
    var r := CoordinatesOf(right.start, right.count, rightShort);
    var h := H.Header(l, r, if section == "" then None else Some(section[1..]));
    assert section == if h.section.None? then "" else " " + h.section.value;
    var line := HeaderText(left, leftShort, right, rightShort, section);
    assert H.Spells(h, line, left.count, right.count);
    H.CountsExactly(line, left.count, right.count);
  }

  lemma CoordinatesOf(start: nat, count: nat, short: bool) returns (c: H.Coordinates)
    requires start < UINT64_LIMIT && count < UINT64_LIMIT && (short ==> count == 1)
    ensures H.WellSpelled(c) && H.Spell(c) == RangeText(start, count, short) && H.CountOf(c) == count
  {
    hide Digits, Decimal;
    DecimalOfDigits(start);
    DecimalOfDigits(count);
    c := H.Coordinates(Digits(start), if short then None else Some(Digits(count)));
  }
}
