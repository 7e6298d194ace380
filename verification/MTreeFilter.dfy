/** The filtered .MTREE text parses to exactly the records that stay. */
module MTreeFilter {
  import opened Text
  import opened MTree

  // ---------------------------------------------------------------- the filtered text

  lemma LinedCons(line: string, rest: seq<string>)
    requires OneLine(line) && Lined(rest) && (rest == [] || line[|line| - 1] == '\n')
    ensures Lined([line] + rest)
  {
    hide OneLine;
    var all := [line] + rest;
    assert forall i :: 1 <= i < |all| ==> all[i] == rest[i - 1];
  }

  lemma LinedTail(lines: seq<string>)
    requires Lined(lines) && lines != []
    ensures OneLine(lines[0]) && Lined(lines[1..])
    ensures |lines| > 1 ==> lines[0][|lines[0]| - 1] == '\n'
  {
    hide OneLine;
  }

  lemma {:induction false} KeptAreLines(lines: seq<string>, drop: set<string>, normalize: string -> string)
    requires Lined(lines)
    ensures Lined(KeptLines(lines, drop, normalize))
    ensures |KeptLines(lines, drop, normalize)| <= |lines|
    decreases |lines|
  {
    hide Stays, Lined, OneLine;
    if lines == [] {
      assert KeptLines(lines, drop, normalize) == lines;
    } else {
      var rest := KeptLines(lines[1..], drop, normalize);
      LinedTail(lines);
      KeptAreLines(lines[1..], drop, normalize);
      if Stays(lines[0], drop, normalize) {
        assert |lines| == 1 ==> lines[1..] == [];
        LinedCons(lines[0], rest);
      } else {
        assert KeptLines(lines, drop, normalize) == [] + rest == rest;
      }
    }
  }

  lemma LinesOfFilteredText(text: string, drop: set<string>, normalize: string -> string)
    ensures RawLines(FilteredText(text, drop, normalize)) == KeptLines(RawLines(text), drop, normalize)
  {
    hide Lined, RawLines, KeptLines, Concat;
    RawLinesAreLined(text);
    KeptAreLines(RawLines(text), drop, normalize);
    RawLinesOfLined(KeptLines(RawLines(text), drop, normalize));
  }

  // ---------------------------------------------------------------- two readings of a line

  function PathOf(line: string): string {
    ParseRecord(TrimSpace(line), NO_DEFAULTS).path
  }

  lemma PathIsFixed(line: string, d: Defaults)
    ensures ParseRecord(TrimSpace(line), d).path == PathOf(line)
  {
    var fields := Fields(TrimSpace(line));
    if fields != [] {
      var start := Record("", -1, false, false).(path := DecodePath(fields[0]));
      FieldsKeepPath(start, fields[1..]);
      FieldsKeepPath(start.(mode := if d.hasMode then d.mode else -1), fields[1..]);
    }
  }

  lemma {:induction false} FieldsKeepPath(r: Record, fields: seq<string>)
    ensures WithFields(r, fields).path == r.path
  {
    hide Contains, ParseOctal, Cut;
    if fields != [] {
      FieldsKeepPath(r, fields[..|fields| - 1]);
    }
  }

  /** A directive the reader sees is kept whatever the drop set is. */
  predicate DirectiveKept(line: string) {
    KindOf(line).Directive? ==> KeptAnyway(WithoutNewline(line))
  }

  /** The filter looks a record up by the path the reader gives it. */
  predicate RecordAligned(line: string, normalize: string -> string) {
    KindOf(line).Path? ==> !KeptAnyway(WithoutNewline(line)) && FilterName(line, normalize) == normalize(PathOf(line))
  }

  predicate AllDirectivesKept(lines: seq<string>) {
    forall i :: 0 <= i < |lines| ==> DirectiveKept(lines[i])
  }

  predicate AllRecordsAligned(lines: seq<string>, normalize: string -> string) {
    forall i :: 0 <= i < |lines| ==> RecordAligned(lines[i], normalize)
  }

  /** The records whose path is not dropped, in their order. */
  function Surviving(records: seq<Record>, drop: set<string>, normalize: string -> string): seq<Record> {
    if records == [] then []
    else (if normalize(records[0].path) in drop then [] else [records[0]]) + Surviving(records[1..], drop, normalize)
  }

  lemma {:induction false} AlignedLinesFilter(lines: seq<string>, d: Defaults, drop: set<string>,
                                              normalize: string -> string)
    requires AllDirectivesKept(lines) && AllRecordsAligned(lines, normalize)
    ensures Records(KeptLines(lines, drop, normalize), d) == Surviving(Records(lines, d), drop, normalize)
    decreases |lines|
  {
    hide KindOf, KeptAnyway, FilterName, AfterFields, ParseRecord, WithoutNewline, TrimSpace;
    if lines != [] {
      var line, rest := lines[0], lines[1..];
      var kept := KeptLines(rest, drop, normalize);
      assert DirectiveKept(line) && RecordAligned(line, normalize);
      assert forall i :: 0 <= i < |rest| ==> rest[i] == lines[i + 1];
      AlignedLinesFilter(rest, AfterLine(d, line), drop, normalize);
      assert ([line] + kept)[1..] == kept && [] + kept == kept;
      if KindOf(line).Path? {
        PathIsFixed(line, d);
        SurvivingStep(ParseRecord(TrimSpace(line), d), Records(rest, d), drop, normalize);
      }
    }
  }

  lemma SurvivingStep(r: Record, records: seq<Record>, drop: set<string>, normalize: string -> string)
    ensures Surviving([r] + records, drop, normalize) ==
            (if normalize(r.path) in drop then [] else [r]) + Surviving(records, drop, normalize)
  {
    assert ([r] + records)[1..] == records;
  }

  // ---------------------------------------------------------------- why alignment is needed

  predicate HasPath(records: seq<Record>, key: string, normalize: string -> string) {
    exists i :: 0 <= i < |records| && normalize(records[i].path) == key
  }

  lemma {:induction false} SurvivingHasNoDropped(records: seq<Record>, drop: set<string>, normalize: string -> string,
                                                 key: string)
    requires key in drop
    ensures !HasPath(Surviving(records, drop, normalize), key, normalize)
  {
    if records != [] {
      SurvivingHasNoDropped(records[1..], drop, normalize, key);
    }
  }

  /** A record line that the filter keeps is a record of the filtered text. */
  lemma {:induction false} KeptRecordStays(lines: seq<string>, d: Defaults, drop: set<string>,
                                           normalize: string -> string, i: nat)
    requires i < |lines| && KindOf(lines[i]).Path? && Stays(lines[i], drop, normalize)
    ensures HasPath(Records(KeptLines(lines, drop, normalize), d), normalize(PathOf(lines[i])), normalize)
    decreases |lines|
  {
    hide KindOf, Stays, AfterFields, ParseRecord, TrimSpace;
    var line, rest := lines[0], lines[1..];
    var kept := KeptLines(rest, drop, normalize);
    assert ([line] + kept)[1..] == kept && [] + kept == kept;
    if i == 0 {
      PathIsFixed(line, d);
      assert Records(KeptLines(lines, drop, normalize), d)[0] == ParseRecord(TrimSpace(line), d);
    } else {
      var d' := if Stays(line, drop, normalize) then AfterLine(d, line) else d;
      KeptRecordStays(rest, d', drop, normalize, i - 1);
      var records := Records(kept, d');
      var j :| 0 <= j < |records| && normalize(records[j].path) == normalize(PathOf(lines[i]));
      var all := Records(KeptLines(lines, drop, normalize), d);
      assert all == records || all[j + 1] == records[j];
    }
  }

  ghost predicate FiltersRecords(text: string, drop: set<string>, normalize: string -> string) {
    ParsedText(FilteredText(text, drop, normalize)) == Surviving(ParsedText(text), drop, normalize)
  }

  /** When no directive can be dropped, the filtered text parses to exactly the
      surviving records, for every drop set, if and only if reader and filter
      agree on the path of every record line. */
  lemma FilterIsExactIff(text: string, normalize: string -> string)
    requires AllDirectivesKept(RawLines(text))
    ensures (forall drop: set<string> :: FiltersRecords(text, drop, normalize)) <==>
              AllRecordsAligned(RawLines(text), normalize)
  {
    hide RawLines, FilteredText, KindOf, KeptAnyway, FilterName, PathOf, Surviving, KeptLines, Records;
    var lines := RawLines(text);
    if AllRecordsAligned(lines, normalize) {
      forall drop: set<string> ensures FiltersRecords(text, drop, normalize) {
        LinesOfFilteredText(text, drop, normalize);
        AlignedLinesFilter(lines, NO_DEFAULTS, drop, normalize);
      }
    } else {
      var i :| 0 <= i < |lines| && !RecordAligned(lines[i], normalize);
      var key := normalize(PathOf(lines[i]));
      LinesOfFilteredText(text, {key}, normalize);
      KeptRecordStays(lines, NO_DEFAULTS, {key}, normalize, i);
      SurvivingHasNoDropped(ParsedText(text), {key}, normalize, key);
      assert !FiltersRecords(text, {key}, normalize);
    }
  }

  // ---------------------------------------------------------------- the lines libarchive writes

  /** One token without white space, then nothing or a space and more. */
  predicate TokenFirst(line: string, n: int) {
    && 0 < n <= |line|
    && (forall i :: 0 <= i < n ==> !IsSpace(line[i]))
    && (n < |line| ==> line[n] == ' ')
  }

  /** A line of libarchive's mtree output, its newline not counted: a comment,
      a directive, or a path that starts with "./". */
  ghost predicate LibarchiveLine(line: string) {
    || line == ""
    || line[0] == '#'
    || (exists n :: TokenFirst(line, n) && (line[..n] == "/set" || line[..n] == "/unset"))
    || (exists n :: TokenFirst(line, n) && "./" <= line)
  }

  lemma {:induction false} TrimRightKeepsToken(s: string, n: nat)
    requires TokenFirst(s, n)
    ensures n <= |TrimRight(s)| && TokenFirst(TrimRight(s), n) && TrimRight(s)[..n] == s[..n]
    decreases |s|
  {
    if IsSpace(s[|s| - 1]) {
      assert n < |s|;
      assert s[..|s| - 1][..n] == s[..n];
      TrimRightKeepsToken(s[..|s| - 1], n);
    }
  }

  lemma UntilIs(s: string, p: char -> bool, n: nat)
    requires n <= |s| && (forall i :: 0 <= i < n ==> !p(s[i])) && (n < |s| ==> p(s[n]))
    ensures Until(s, p) == n
  {
  }

  /** Reader and filter find the same token at the front of such a line. */
  lemma TokenOfLine(line: string, n: nat)
    requires TokenFirst(line, n)
    ensures Cut(line, ' ').0 == line[..n] && Cut(TrimSpace(line), ' ').0 == line[..n]
    ensures Fields(TrimSpace(line)) != [] && Fields(TrimSpace(line))[0] == line[..n]
    ensures TrimSpace(line) != "" && TrimSpace(line)[0] == line[0]
  {
    hide TrimRight, Until;
    assert TrimLeft(line) == line;
    TrimRightKeepsToken(line, n);
    var trimmed := TrimSpace(line);
    assert trimmed[0] == trimmed[..n][0];
    UntilIs(line, c => c == ' ', n);
    UntilIs(trimmed, c => c == ' ', n);
    UntilIs(trimmed, c => IsSpace(c), n);
  }

  /** The newline of a raw line is trimmed with the rest of its white space. */
  lemma {:induction false} TrimNewline(raw: string)
    ensures TrimSpace(raw) == TrimSpace(WithoutNewline(raw))
  {
    var line := WithoutNewline(raw);
    if line != raw {
      assert raw == line + "\n";
      TrimLeftAppend(line);
    }
  }

  lemma {:induction false} TrimLeftAppend(line: string)
    ensures TrimRight(TrimLeft(line + "\n")) == TrimRight(TrimLeft(line))
  {
    var raw := line + "\n";
    if line == "" {
      assert raw[1..] == "" && TrimLeft(raw) == "";
    } else if IsSpace(line[0]) {
      assert raw[1..] == line[1..] + "\n";
      TrimLeftAppend(line[1..]);
    } else {
      assert TrimLeft(raw) == raw && raw[..|raw| - 1] == line;
    }
  }

  lemma LibarchiveLinesAreAligned(raw: string, normalize: string -> string)
    requires LibarchiveLine(WithoutNewline(raw))
    ensures DirectiveKept(raw) && RecordAligned(raw, normalize)
  {
    hide TrimSpace, Cut, Fields, WithFields;
    var line := WithoutNewline(raw);
    TrimNewline(raw);
    if line == "" {
      assert TrimSpace("") == "" by { EmptyTrims(); }
    } else if line[0] == '#' {
      CommentTrims(line);
    } else if exists n :: TokenFirst(line, n) && (line[..n] == "/set" || line[..n] == "/unset") {
      var n :| TokenFirst(line, n) && (line[..n] == "/set" || line[..n] == "/unset");
      TokenOfLine(line, n);
      HasPrefixMeansPrefix(line, "/set");
      HasPrefixMeansPrefix(line, "/unset");
      DirectiveLine(line, n);
    } else {
      var n :| TokenFirst(line, n) && "./" <= line;
      TokenOfLine(line, n);
      PathLine(line, n);
      PathOfFirstField(raw);
    }
  }

  lemma EmptyTrims()
    ensures TrimSpace("") == ""
  {
  }

  lemma CommentTrims(line: string)
    requires line != "" && line[0] == '#'
    ensures KindOf(line) == Nothing && TrimSpace(line) != "" && TrimSpace(line)[0] == '#'
  {
    CommentTrimsRight(line);
  }

  lemma {:induction false} CommentTrimsRight(line: string)
    requires line != "" && line[0] == '#'
    ensures TrimRight(line) != "" && TrimRight(line)[0] == '#'
  {
    if IsSpace(line[|line| - 1]) {
      CommentTrimsRight(line[..|line| - 1]);
    }
  }

  lemma DirectiveLine(line: string, n: nat)
    requires TokenFirst(line, n) && (line[..n] == "/set" || line[..n] == "/unset")
    ensures "/set" <= line || "/unset" <= line
  {
    assert |line[..n]| == n;
    assert line[..n] <= line;
  }

  lemma PathLine(line: string, n: nat)
    requires TokenFirst(line, n) && "./" <= line
    ensures n >= 1 && line[0] == '.' && line[..n][0] == '.'
    ensures !KeptAnyway(line)
  {
    assert line[0] == "./"[0];
    HasPrefixMeansPrefix(line, "/set");
    HasPrefixMeansPrefix(line, "/unset");
  }

  lemma PathOfFirstField(raw: string)
    requires Fields(TrimSpace(raw)) != []
    ensures PathOf(raw) == DecodePath(Fields(TrimSpace(raw))[0])
  {
    var fields := Fields(TrimSpace(raw));
    FieldsKeepPath(Record("", -1, false, false).(path := DecodePath(fields[0]), mode := -1), fields[1..]);
  }

  /** For libarchive's own output the filtered .MTREE has exactly the records
      that stay, each with the mode it had, inherited or explicit. */
  lemma LibarchiveTextFilters(text: string, drop: set<string>, normalize: string -> string)
    requires forall i :: 0 <= i < |RawLines(text)| ==> LibarchiveLine(WithoutNewline(RawLines(text)[i]))
    ensures ParsedText(FilteredText(text, drop, normalize)) == Surviving(ParsedText(text), drop, normalize)
  {
    hide RawLines, KeptLines, FilteredText, Records, Surviving, RecordAligned, DirectiveKept, LibarchiveLine,
         WithoutNewline;
    var lines := RawLines(text);
    forall i | 0 <= i < |lines| ensures DirectiveKept(lines[i]) && RecordAligned(lines[i], normalize) {
      LibarchiveLinesAreAligned(lines[i], normalize);
    }
    LinesOfFilteredText(text, drop, normalize);
    AlignedLinesFilter(lines, NO_DEFAULTS, drop, normalize);
  }
}
