/** The mtree reader of internal/brief/mtree.go and the line filter that
    internal/brief/filter.go applies to the same text. */
module MTree {
  import opened Text

  // ---------------------------------------------------------------- splitting a line

  /** The length of `s` up to the first character that satisfies `p`. */
  function Until(s: string, p: char -> bool): (n: nat)
    ensures n <= |s|
    ensures forall i :: 0 <= i < n ==> !p(s[i])
    ensures n < |s| ==> p(s[n])
  {
    if s == "" || p(s[0]) then 0 else 1 + Until(s[1..], p)
  }

  /** strings.Cut: what stands before and after the first `sep`. */
  function Cut(s: string, sep: char): (r: (string, string, bool)) {
    var n := Until(s, c => c == sep);
    if n == |s| then (s, "", false) else (s[..n], s[n + 1..], true)
  }

  /** strings.Fields: the maximal runs without white space. */
  function Fields(s: string): (fields: seq<string>)
    ensures forall i :: 0 <= i < |fields| ==> fields[i] != ""
    decreases |s|
  {
    if s == "" then []
    else if IsSpace(s[0]) then Fields(s[1..])
    else
      var n := Until(s, c => IsSpace(c));
      [s[..n]] + Fields(s[n..])
  }

  // ---------------------------------------------------------------- octal

  predicate IsOctal(c: char) {
    '0' <= c <= '7'
  }

  predicate AllOctal(s: string) {
    forall i :: 0 <= i < |s| ==> IsOctal(s[i])
  }

  function OctalValue(digits: string): nat
    requires AllOctal(digits)
  {
    if digits == "" then 0
    else
      assert IsOctal(digits[|digits| - 1]);
      8 * OctalValue(digits[..|digits| - 1]) + (digits[|digits| - 1] as int - '0' as int)
  }

  /** strconv.ParseInt(value, 8, 64) */
  function ParseOctal(value: string): Option<int> {
    var negative := value != "" && value[0] == '-';
    var digits := if value != "" && (value[0] == '-' || value[0] == '+') then value[1..] else value;
    if digits == "" || !AllOctal(digits) then None
    else
      var n: int := OctalValue(digits);
      if negative then
        if n <= 0x8000_0000_0000_0000 then Some(-n) else None
      else if n < 0x8000_0000_0000_0000 then Some(n) else None
  }

  // ---------------------------------------------------------------- path names

  /** The byte an escape `\ooo` at the front of `s` stands for. */
  function EscapedByte(s: string): (r: Option<char>)
  {
    if |s| < 4 || s[0] != '\\' || !IsOctal(s[1]) || !IsOctal(s[2]) || !IsOctal(s[3]) then None
    else
      var n := 64 * (s[1] as int - '0' as int) + 8 * (s[2] as int - '0' as int) + (s[3] as int - '0' as int);
      if n < 256 then Some(n as char) else None
  }

  function DecodePath(token: string): string
    decreases |token|
  {
    if token == "" then ""
    else
      match EscapedByte(token)
      case Some(b) => [b] + DecodePath(token[4..])
      case None => [token[0]] + DecodePath(token[1..])
  }

  lemma DecodeStep(token: string, index: nat)
    requires index < |token|
    ensures token[index] != '\\' || index + 3 >= |token| ==> EscapedByte(token[index..]).None?
    ensures EscapedByte(token[index..]).Some? ==> index + 4 <= |token|
    ensures DecodePath(token[index..]) ==
            if EscapedByte(token[index..]).Some? then
              [EscapedByte(token[index..]).value] + DecodePath(token[index + 4..])
            else [token[index]] + DecodePath(token[index + 1..])
  {
    var rest := token[index..];
    assert rest[1..] == token[index + 1..];
    if |rest| >= 4 {
      assert rest[4..] == token[index + 4..];
    }
  }

  lemma DecodeEnds(token: string)
    ensures DecodePath(token[|token|..]) == "" && token[0..] == token
  {
    assert token[|token|..] == "";
  }

  method DecodeMTreePath(token: string) returns (path: string)
    ensures path == DecodePath(token)
  {
    hide DecodePath, EscapedByte;
    if '\\' !in token {
      NothingToDecode(token);
      return token;
    }
    path := "";
    var index := 0;
    DecodeEnds(token);
    while index < |token|
      invariant index <= |token|
      invariant path + DecodePath(token[index..]) == DecodePath(token)
    {
      DecodeStep(token, index);
      if token[index] != '\\' || index + 3 >= |token| {
        path := path + [token[index]];
        index := index + 1;
        continue;
      }
      var value := EscapedByte(token[index..]);
      if value.None? {
        path := path + [token[index]];
        index := index + 1;
        continue;
      }
      path := path + [value.value];
      index := index + 4;
    }
  }

  lemma {:induction false} NothingToDecode(token: string)
    requires '\\' !in token
    ensures DecodePath(token) == token
  {
    if token != "" {
      NothingToDecode(token[1..]);
      assert token == [token[0]] + token[1..];
    }
  }

  /** The escape of one byte. */
  function OctalEscape(b: char): string
    requires b < 256 as char
  {
    var n := b as int;
    ['\\', '0' + (n / 64) as char, '0' + (n / 8 % 8) as char, '0' + (n % 8) as char]
  }

  predicate IsByteString(s: string) {
    forall i :: 0 <= i < |s| ==> s[i] < 256 as char
  }

  /** Escaping the bytes that `escaped` selects. */
  function EncodePath(path: string, escaped: char -> bool): string
    requires IsByteString(path)
  {
    if path == "" then ""
    else (if escaped(path[0]) then OctalEscape(path[0]) else [path[0]]) + EncodePath(path[1..], escaped)
  }

  lemma EscapeOfByte(b: char)
    requires b < 256 as char
    ensures EscapedByte(OctalEscape(b)) == Some(b)
  {
    var n := b as int;
    assert n == 64 * (n / 64) + 8 * (n / 8 % 8) + n % 8;
  }

  lemma EscapeInFront(b: char, rest: string)
    requires b < 256 as char
    ensures var token := OctalEscape(b) + rest;
            |token| >= 4 && token[4..] == rest && token[0] == '\\' && EscapedByte(token) == Some(b)
  {
    EscapeOfByte(b);
    var token := OctalEscape(b) + rest;
    assert token[..4] == OctalEscape(b) && token[4..] == rest;
    assert token[1] == OctalEscape(b)[1] && token[2] == OctalEscape(b)[2] && token[3] == OctalEscape(b)[3];
  }

  lemma NothingEscaped(b: char, rest: string)
    requires b != '\\'
    ensures ([b] + rest)[1..] == rest && EscapedByte([b] + rest) == None
  {
  }

  /** Decoding undoes every escaping that escapes at least the backslash. */
  lemma {:induction false} DecodeInvertsEncode(path: string, escaped: char -> bool)
    requires IsByteString(path) && escaped('\\')
    ensures DecodePath(EncodePath(path, escaped)) == path
  {
    hide OctalEscape, EscapedByte;
    if path != "" {
      var b, rest := path[0], EncodePath(path[1..], escaped);
      DecodeInvertsEncode(path[1..], escaped);
      if escaped(b) {
        EscapeInFront(b, rest);
      } else {
        NothingEscaped(b, rest);
      }
      assert path == [b] + path[1..];
    }
  }

  // ---------------------------------------------------------------- records

  datatype Record = Record(path: string, mode: int, explicit: bool, capability: bool)

  datatype Defaults = Defaults(mode: int, hasMode: bool)

  const NO_DEFAULTS := Defaults(0, false)

  function AfterField(d: Defaults, unset: bool, field: string): Defaults {
    var (key, value, ok) := Cut(field, '=');
    if unset then
      if field == "mode" then NO_DEFAULTS else d
    else if !ok || key != "mode" then d
    else
      match ParseOctal(value)
      case Some(mode) => Defaults(mode, true)
      case None => d
  }

  function AfterFields(d: Defaults, unset: bool, fields: seq<string>): Defaults {
    if fields == [] then d
    else AfterField(AfterFields(d, unset, fields[..|fields| - 1]), unset, fields[|fields| - 1])
  }

  const CAPABILITY := "security.capability"

  predicate Contains(s: string, part: string) {
    part <= s || (s != "" && Contains(s[1..], part))
  }

  function WithField(r: Record, field: string): Record {
    var (key, value, ok) := Cut(field, '=');
    if !ok then r
    else if key == "mode" then
      match ParseOctal(value)
      case Some(mode) => r.(mode := mode, explicit := true)
      case None => r.(mode := -1, explicit := true)
    else if (HasPrefix(key, "xattr") && Contains(value, CAPABILITY)) || key == CAPABILITY then r.(capability := true)
    else r
  }

  function WithFields(r: Record, fields: seq<string>): Record {
    if fields == [] then r else WithField(WithFields(r, fields[..|fields| - 1]), fields[|fields| - 1])
  }

  function ParseRecord(line: string, d: Defaults): Record {
    var fields := Fields(line);
    var start := Record("", -1, false, false);
    if fields == [] then start
    else
      var named := start.(path := DecodePath(fields[0]), mode := if d.hasMode then d.mode else -1);
      var r := WithFields(named, fields[1..]);
      if Contains(line, CAPABILITY) then r.(capability := true) else r
  }

  method ParseMTreeRecord(line: string, defaults: Defaults) returns (record: Record)
    ensures record == ParseRecord(line, defaults)
  {
    var fields := Fields(line);
    record := Record("", -1, false, false);
    if fields == [] {
      return;
    }
    var path := DecodeMTreePath(fields[0]);
    record := record.(path := path);
    if defaults.hasMode {
      record := record.(mode := defaults.mode);
    }
    ghost var named := record;
    fields := fields[1..];
    for i := 0 to |fields|
      invariant record == WithFields(named, fields[..i])
    {
      assert fields[..i + 1][..i] == fields[..i];
      var (key, value, ok) := Cut(fields[i], '=');
      if !ok {
        continue;
      }
      if key == "mode" {
        var parsed := ParseOctal(value);
        record := record.(mode := if parsed.Some? then parsed.value else -1, explicit := true);
      } else if (HasPrefix(key, "xattr") && Contains(value, CAPABILITY)) || key == CAPABILITY {
        record := record.(capability := true);
      }
    }
    assert fields[..|fields|] == fields;
    if Contains(line, CAPABILITY) {
      record := record.(capability := true);
    }
  }

  // ---------------------------------------------------------------- a whole text

  datatype LineKind = Nothing | Directive(unset: bool, rest: string) | Path

  /** How the reader takes a line. */
  function KindOf(line: string): LineKind {
    var trimmed := TrimSpace(line);
    if trimmed == "" || trimmed[0] == '#' then Nothing
    else
      var (directive, rest, _) := Cut(trimmed, ' ');
      if directive == "/set" then Directive(false, rest)
      else if directive == "/unset" then Directive(true, rest)
      else Path
  }

  function AfterLine(d: Defaults, line: string): Defaults {
    match KindOf(line)
    case Directive(unset, rest) => AfterFields(d, unset, Fields(rest))
    case _ => d
  }

  /** The records of the lines, each with the defaults in force at its line. */
  function Records(lines: seq<string>, d: Defaults): seq<Record> {
    if lines == [] then []
    else if KindOf(lines[0]).Path? then [ParseRecord(TrimSpace(lines[0]), d)] + Records(lines[1..], d)
    else Records(lines[1..], AfterLine(d, lines[0]))
  }

  function ParsedText(text: string): seq<Record> {
    Records(RawLines(text), NO_DEFAULTS)
  }

  class MTreeDefaults {
    var mode: int
    var hasMode: bool

    function Now(): Defaults
      reads this
    {
      Defaults(mode, hasMode)
    }

    constructor ()
      ensures Now() == NO_DEFAULTS
    {
      mode, hasMode := 0, false;
    }

    method Apply(unset: bool, rest: string)
      modifies this
      ensures Now() == AfterFields(old(Now()), unset, Fields(rest))
    {
      var fields := Fields(rest);
      for i := 0 to |fields|
        invariant Now() == AfterFields(old(Now()), unset, fields[..i])
      {
        assert fields[..i + 1][..i] == fields[..i];
        var (key, value, ok) := Cut(fields[i], '=');
        if unset {
          key := fields[i];
          ok := true;
        }
        if !ok || key != "mode" {
          continue;
        }
        if unset {
          mode, hasMode := 0, false;
          continue;
        }
        var parsed := ParseOctal(value);
        if parsed.Some? {
          mode, hasMode := parsed.value, true;
        }
      }
      assert fields[..|fields|] == fields;
    }
  }

  lemma RecordsStep(lines: seq<string>, index: nat, d: Defaults)
    requires index < |lines|
    ensures Records(lines[index..], d) ==
            if KindOf(lines[index]).Path? then
              [ParseRecord(TrimSpace(lines[index]), d)] + Records(lines[index + 1..], d)
            else Records(lines[index + 1..], AfterLine(d, lines[index]))
  {
    hide KindOf, ParseRecord, AfterLine;
    assert lines[index..][1..] == lines[index + 1..];
  }

  lemma RecordsEnd(lines: seq<string>, d: Defaults)
    ensures Records(lines[|lines|..], d) == [] && lines[0..] == lines
  {
    assert lines[|lines|..] == [];
  }

  method ParseMTree(text: string) returns (visited: seq<Record>)
    ensures visited == ParsedText(text)
  {
    hide KindOf, ParseRecord, RawLines, AfterFields, Fields, TrimSpace, Records;
    visited := [];
    var defaults := new MTreeDefaults();
    var lines := RawLines(text);
    var index := 0;
    RecordsEnd(lines, NO_DEFAULTS);
    while index < |lines|
      invariant index <= |lines|
      invariant visited + Records(lines[index..], defaults.Now()) == ParsedText(text)
    {
      RecordsStep(lines, index, defaults.Now());
      var line := lines[index];
      index := index + 1;
      match KindOf(line) {
        case Nothing =>
        case Directive(unset, rest) =>
          defaults.Apply(unset, rest);
        case Path =>
          var record := ParseMTreeRecord(TrimSpace(line), Defaults(defaults.mode, defaults.hasMode));
          visited := visited + [record];
      }
    }
    RecordsEnd(lines, defaults.Now());
  }

  // ---------------------------------------------------------------- the filter

  /** Lines the filter always keeps. */
  predicate KeptAnyway(line: string) {
    line == "" || line[0] == '#' || HasPrefix(line, "/set") || HasPrefix(line, "/unset")
  }

  function WithoutNewline(raw: string): string {
    if raw != "" && raw[|raw| - 1] == '\n' then raw[..|raw| - 1] else raw
  }

  /** The name by which the filter looks a line up in the drop set. */
  function FilterName(raw: string, normalize: string -> string): string {
    normalize(DecodePath(Cut(WithoutNewline(raw), ' ').0))
  }

  predicate Stays(raw: string, drop: set<string>, normalize: string -> string) {
    KeptAnyway(WithoutNewline(raw)) || FilterName(raw, normalize) !in drop
  }

  function KeptLines(lines: seq<string>, drop: set<string>, normalize: string -> string): (kept: seq<string>) {
    if lines == [] then []
    else (if Stays(lines[0], drop, normalize) then [lines[0]] else []) + KeptLines(lines[1..], drop, normalize)
  }

  function FilteredText(text: string, drop: set<string>, normalize: string -> string): string {
    Concat(KeptLines(RawLines(text), drop, normalize))
  }

  lemma FilterStep(lines: seq<string>, i: nat, drop: set<string>, normalize: string -> string)
    requires i < |lines|
    ensures Concat(KeptLines(lines[i..], drop, normalize)) ==
            (if Stays(lines[i], drop, normalize) then lines[i] else "") +
              Concat(KeptLines(lines[i + 1..], drop, normalize))
  {
    hide Stays;
    assert lines[i..][1..] == lines[i + 1..];
    assert Concat([lines[i]]) == lines[i];
    var first := if Stays(lines[i], drop, normalize) then [lines[i]] else [];
    ConcatAppend(first, KeptLines(lines[i + 1..], drop, normalize));
  }

  lemma FilterEnds(lines: seq<string>, drop: set<string>, normalize: string -> string)
    ensures Concat(KeptLines(lines[|lines|..], drop, normalize)) == "" && lines[0..] == lines
  {
    assert lines[|lines|..] == [];
  }

  method FilterMTreeText(text: string, drop: set<string>, normalize: string -> string) returns (kept: string)
    ensures kept == FilteredText(text, drop, normalize)
  {
    hide KeptLines, RawLines, Concat, DecodePath, Cut, KeptAnyway, WithoutNewline;
    kept := "";
    var lines := RawLines(text);
    FilterEnds(lines, drop, normalize);
    var i := 0;
    while i < |lines|
      invariant i <= |lines|
      invariant kept + Concat(KeptLines(lines[i..], drop, normalize)) == FilteredText(text, drop, normalize)
    {
      var line := lines[i];
      FilterStep(lines, i, drop, normalize);
      ghost var rest := Concat(KeptLines(lines[i + 1..], drop, normalize));
      assert kept + (line + rest) == (kept + line) + rest;
      assert kept + ("" + rest) == kept + rest;
      i := i + 1;
      var trimmed := WithoutNewline(line);
      if KeptAnyway(trimmed) {
        kept := kept + line;
        continue;
      }
      var (name, _, _) := Cut(trimmed, ' ');
      var decoded := DecodeMTreePath(name);
      if normalize(decoded) in drop {
        continue;
      }
      kept := kept + line;
    }
  }
}
