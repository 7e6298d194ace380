/** What the records of an .MTREE text say: their modes and capabilities, and the
    defaults they inherit (internal/brief/mtree.go 40-112). */
module MTreeRecords {
  import opened Text
  import opened MTree

  // ---------------------------------------------------------------- words

  /** A word: not empty and without white space. */
  predicate IsWord(s: string) {
    s != "" && forall i :: 0 <= i < |s| ==> s[i] as int !in {9, 10, 11, 12, 13, 32}
  }

  function Spaced(words: seq<string>): string {
    if words == [] then "" else " " + words[0] + Spaced(words[1..])
  }

  /** A word behind a blank is the first field. */
  lemma WordInFront(w: string, rest: string)
    requires IsWord(w) && (rest != "" ==> rest[0] == ' ')
    ensures Fields(" " + (w + rest)) == [w] + Fields(rest)
  {
    hide Until;
    var t := w + rest;
    assert (" " + t)[1..] == t;
    assert forall i :: 0 <= i < |w| ==> t[i] == w[i];
    UntilExactly(t, c => IsSpace(c), |w|);
    assert t[..|w|] == w && t[|w|..] == rest;
  }

  lemma SpacedStep(words: seq<string>)
    requires words != []
    ensures Spaced(words) == " " + (words[0] + Spaced(words[1..]))
    ensures Spaced(words[1..]) != "" ==> Spaced(words[1..])[0] == ' '
  {
    assert " " + words[0] + Spaced(words[1..]) == " " + (words[0] + Spaced(words[1..]));
  }

  /** Splitting gives back the words that were written with blanks in front. */
  lemma {:induction false} FieldsOfSpaced(words: seq<string>)
    requires forall i :: 0 <= i < |words| ==> IsWord(words[i])
    ensures Fields(Spaced(words)) == words
  {
    hide Fields, IsWord, Spaced;
    if words == [] {
      NothingSpaced();
    } else {
      SpacedStep(words);
      FieldsOfSpaced(words[1..]);
      WordInFront(words[0], Spaced(words[1..]));
      assert words == [words[0]] + words[1..];
    }
  }

  lemma NothingSpaced()
    ensures Fields(Spaced([])) == []
  {
  }

  lemma UntilExactly(s: string, p: char -> bool, n: nat)
    requires n <= |s| && (forall i :: 0 <= i < n ==> !p(s[i])) && (n < |s| ==> p(s[n]))
    ensures Until(s, p) == n
  {
  }

  /** A field is cut at its first separator. */
  lemma CutExactly(key: string, sep: char, value: string)
    requires sep !in key
    ensures Cut(key + [sep] + value, sep) == (key, value, true)
    ensures Cut(key, sep) == (key, "", false)
  {
    hide Until;
    var field := key + [sep] + value;
    assert forall i :: 0 <= i < |key| ==> field[i] == key[i] && key[i] in key;
    UntilExactly(field, c => c == sep, |key|);
    UntilExactly(key, c => c == sep, |key|);
    assert field[..|key|] == key && field[|key| + 1..] == value;
  }

  /** `mode=` and a value. */
  predicate IsMode(field: string) {
    "mode=" <= field
  }

  lemma ModeFieldExactly(field: string)
    ensures var (key, value, ok) := Cut(field, '=');
            && (IsMode(field) <==> ok && key == "mode")
            && (IsMode(field) ==> value == field[5..])
  {
    hide Until;
    var n := Until(field, c => c == '=');
    if IsMode(field) {
      assert field == "mode" + ['='] + field[5..];
      CutExactly("mode", '=', field[5..]);
    }
  }

  // ---------------------------------------------------------------- octal

  function OctalDigits(n: nat): (s: string)
    ensures s != "" && forall i :: 0 <= i < |s| ==> '0' <= s[i] <= '7'
    decreases n
  {
    var last := ['0' + (n % 8) as char];
    if n < 8 then last else OctalDigits(n / 8) + last
  }

  lemma {:induction false} ValueOfDigits(n: nat)
    ensures OctalValue(OctalDigits(n)) == n
    decreases n
  {
    var s := OctalDigits(n);
    if n < 8 {
      assert s[..0] == "";
    } else {
      assert s[..|s| - 1] == OctalDigits(n / 8);
      ValueOfDigits(n / 8);
    }
  }

  function Zeros(n: nat): (s: string)
    ensures |s| == n && forall i :: 0 <= i < n ==> s[i] == '0'
  {
    seq(n, _ => '0')
  }

  lemma {:induction false} ZerosCountNothing(zeros: nat, digits: string)
    requires AllOctal(digits)
    ensures AllOctal(Zeros(zeros) + digits)
    ensures OctalValue(Zeros(zeros) + digits) == OctalValue(digits)
    decreases zeros + |digits|
  {
    var s := Zeros(zeros) + digits;
    if digits != "" {
      assert s[..|s| - 1] == Zeros(zeros) + digits[..|digits| - 1];
      ZerosCountNothing(zeros, digits[..|digits| - 1]);
    } else if zeros > 0 {
      assert s[..|s| - 1] == Zeros(zeros - 1) + digits;
      ZerosCountNothing(zeros - 1, digits);
    }
  }

  /** A number below 2^63 in octal, with zeros in front or not, is read back. */
  lemma OctalRoundTrip(n: nat, zeros: nat)
    requires n < 0x8000_0000_0000_0000
    ensures ParseOctal(Zeros(zeros) + OctalDigits(n)) == Some(n)
    ensures ParseOctal("-" + (Zeros(zeros) + OctalDigits(n))) == Some(-(n as int))
  {
    hide OctalValue, OctalDigits;
    var digits := Zeros(zeros) + OctalDigits(n);
    ZerosCountNothing(zeros, OctalDigits(n));
    ValueOfDigits(n);
    assert ("-" + digits)[1..] == digits;
    assert digits[0] != '-' && digits[0] != '+';
  }

  /** Anything with another character is not read. */
  lemma NotOctal(value: string, i: nat)
    requires i < |value| && !('0' <= value[i] <= '7') && (i > 0 || (value[0] != '-' && value[0] != '+'))
    ensures ParseOctal(value) == None
  {
    if value[0] == '-' || value[0] == '+' {
      assert value[1..][i - 1] == value[i];
    }
  }

  // ---------------------------------------------------------------- the mode of a record

  /** No field behind the first `n` states a mode. */
  predicate NoModeFrom(fields: seq<string>, n: nat) {
    forall i :: n <= i < |fields| ==> !IsMode(fields[i])
  }

  lemma {:induction false} ModeOfFields(r: Record, fields: seq<string>, n: nat)
    requires n <= |fields| && NoModeFrom(fields, n) && (n > 0 ==> IsMode(fields[n - 1]))
    ensures n == 0 ==> WithFields(r, fields).mode == r.mode && WithFields(r, fields).explicit == r.explicit
    ensures n > 0 ==>
              && WithFields(r, fields).explicit
              && WithFields(r, fields).mode ==
                 match ParseOctal(fields[n - 1][5..]) { case Some(mode) => mode case None => -1 }
    decreases |fields|
  {
    hide ParseOctal, Cut, Contains, HasPrefix;
    if fields != [] {
      var init, last := fields[..|fields| - 1], fields[|fields| - 1];
      ModeFieldExactly(last);
      if n == |fields| {
        assert IsMode(last);
      } else {
        ModeOfFields(r, init, n);
      }
    }
  }

  /** The mode of a record is the value of its last `mode=` field, -1 if that is no
      octal number; without such a field it is the default in force, or -1. */
  lemma ModeOfRecordExactly(line: string, d: Defaults, n: nat)
    requires Fields(line) != [] && n < |Fields(line)|
    requires NoModeFrom(Fields(line), n + 1) && (n > 0 ==> IsMode(Fields(line)[n]))
    ensures var r := ParseRecord(line, d);
            && r.path == DecodePath(Fields(line)[0])
            && r.explicit == (n > 0)
            && r.mode == if n > 0 then
                 match ParseOctal(Fields(line)[n][5..]) { case Some(mode) => mode case None => -1 }
               else if d.hasMode then d.mode else -1
  {
    hide ParseOctal, Cut, Contains, HasPrefix, Fields, DecodePath;
    var fields := Fields(line)[1..];
    assert forall i :: 0 <= i < |fields| ==> fields[i] == Fields(line)[i + 1];
    var named := Record(DecodePath(Fields(line)[0]), if d.hasMode then d.mode else -1, false, false);
    ModeOfFields(named, fields, n);
    PathStays(named, fields);
  }

  lemma {:induction false} PathStays(r: Record, fields: seq<string>)
    ensures WithFields(r, fields).path == r.path
  {
    hide Contains, ParseOctal, Cut, HasPrefix;
    if fields != [] {
      PathStays(r, fields[..|fields| - 1]);
    }
  }

  // ---------------------------------------------------------------- the defaults

  predicate GoodMode(field: string) {
    IsMode(field) && ParseOctal(field[5..]).Some?
  }

  /** `/set` leaves the value of its last good `mode=` field, if it has one, and
      `/unset` forgets the mode exactly when it names it. */
  lemma {:induction false} DefaultsExactly(d: Defaults, fields: seq<string>, n: nat)
    requires n <= |fields| && (n > 0 ==> GoodMode(fields[n - 1]))
    requires forall i :: n <= i < |fields| ==> !GoodMode(fields[i])
    ensures AfterFields(d, false, fields) ==
            if n > 0 then Defaults(ParseOctal(fields[n - 1][5..]).value, true) else d
    ensures AfterFields(d, true, fields) == if "mode" in fields then NO_DEFAULTS else d
    decreases |fields|
  {
    hide ParseOctal, Cut;
    if fields != [] {
      var init, last := fields[..|fields| - 1], fields[|fields| - 1];
      ModeFieldExactly(last);
      assert fields == init + [last];
      if n < |fields| {
        DefaultsExactly(d, init, n);
      } else {
        UnsetExactly(d, init);
      }
    }
  }

  lemma {:induction false} UnsetExactly(d: Defaults, fields: seq<string>)
    ensures AfterFields(d, true, fields) == if "mode" in fields then NO_DEFAULTS else d
  {
    hide ParseOctal, Cut;
    if fields != [] {
      UnsetExactly(d, fields[..|fields| - 1]);
      assert fields == fields[..|fields| - 1] + [fields[|fields| - 1]];
    }
  }

  // ---------------------------------------------------------------- capabilities

  predicate OccursAt(s: string, part: string, i: nat) {
    i <= |s| && part <= s[i..]
  }

  lemma {:induction false} ContainsExactly(s: string, part: string)
    ensures Contains(s, part) <==> exists i: nat :: OccursAt(s, part, i)
  {
    if Contains(s, part) {
      if part <= s {
        assert s[0..] == s && OccursAt(s, part, 0);
      } else {
        ContainsExactly(s[1..], part);
        var i: nat :| OccursAt(s[1..], part, i);
        assert s[1..][i..] == s[i + 1..] && OccursAt(s, part, i + 1);
      }
    }
    if i: nat :| OccursAt(s, part, i) {
      if i == 0 {
        assert s[0..] == s;
      } else {
        assert s[1..][i - 1..] == s[i..] && OccursAt(s[1..], part, i - 1);
        ContainsExactly(s[1..], part);
      }
    }
  }

  lemma OccursWithin(s: string, a: nat, b: nat, part: string)
    requires a <= b <= |s| && Contains(s[a..b], part)
    ensures Contains(s, part)
  {
    ContainsExactly(s[a..b], part);
    var i: nat :| OccursAt(s[a..b], part, i);
    assert part <= s[a + i..] by {
      assert s[a..b][i..] == s[a + i..b];
      assert s[a + i..b] <= s[a + i..];
    }
    assert OccursAt(s, part, a + i);
    ContainsExactly(s, part);
  }

  lemma FieldsStep(line: string)
    requires line != ""
    ensures var n := Until(line, c => IsSpace(c));
            if n == 0 then Fields(line) == Fields(line[1..]) else Fields(line) == [line[..n]] + Fields(line[n..])
  {
    hide Until;
  }

  lemma NoFieldsOfNothing()
    ensures Fields("") == []
  {
  }

  lemma SliceOfRest(line: string, n: nat, a: nat, b: nat)
    requires n <= |line| && a <= b <= |line| - n
    ensures line[n..][a..b] == line[n + a..n + b]
  {
  }

  lemma {:induction false} FieldLies(line: string, k: nat) returns (a: nat)
    requires k < |Fields(line)|
    ensures a + |Fields(line)[k]| <= |line| && line[a..a + |Fields(line)[k]|] == Fields(line)[k]
    decreases |line|
  {
    hide Fields, Until;
    NoFieldsOfNothing();
    FieldsStep(line);
    var n := Until(line, c => IsSpace(c));
    if n == 0 {
      a := FieldLies(line[1..], k);
      SliceOfRest(line, 1, a, a + |Fields(line)[k]|);
      a := a + 1;
    } else if k == 0 {
      a := 0;
      assert line[0..n] == line[..n];
    } else {
      a := FieldLies(line[n..], k - 1);
      SliceOfRest(line, n, a, a + |Fields(line)[k]|);
      a := a + n;
    }
  }

  lemma {:induction false} CapabilityOfFields(r: Record, fields: seq<string>, line: string)
    requires forall i :: 0 <= i < |fields| && Contains(fields[i], CAPABILITY) ==> Contains(line, CAPABILITY)
    ensures WithFields(r, fields).capability ==> r.capability || Contains(line, CAPABILITY)
  {
    hide Contains, ParseOctal, Cut, HasPrefix;
    if fields != [] {
      var init, last := fields[..|fields| - 1], fields[|fields| - 1];
      CapabilityOfFields(r, init, line);
      PartsOfField(last);
    }
  }

  lemma PartsOfField(field: string)
    ensures var (key, value, ok) := Cut(field, '=');
            Contains(value, CAPABILITY) || key == CAPABILITY ==> Contains(field, CAPABILITY)
  {
    hide Contains, Until;
    var n := Until(field, c => c == '=');
    var (key, value, ok) := Cut(field, '=');
    if Contains(value, CAPABILITY) {
      if ok {
        assert field[n + 1..] == field[n + 1..|field|];
        OccursWithin(field, n + 1, |field|, CAPABILITY);
      } else {
        assert field[|field|..|field|] == "";
        OccursWithin(field, |field|, |field|, CAPABILITY);
      }
    } else if key == CAPABILITY {
      assert field[0..|key|] == key;
      ContainsExactly(key, CAPABILITY);
      assert key[0..] == key && OccursAt(key, CAPABILITY, 0);
      OccursWithin(field, 0, |key|, CAPABILITY);
    }
  }

  /** A record grants capabilities exactly when its line mentions them anywhere. */
  lemma CapabilityExactly(line: string, d: Defaults)
    requires Fields(line) != []
    ensures ParseRecord(line, d).capability <==> exists i: nat :: OccursAt(line, "security.capability", i)
  {
    hide Contains, ParseOctal, Cut, HasPrefix, Fields, WithFields, DecodePath;
    ContainsExactly(line, CAPABILITY);
    var all := Fields(line);
    forall i | 0 <= i < |all| && Contains(all[i], CAPABILITY) ensures Contains(line, CAPABILITY) {
      var a := FieldLies(line, i);
      OccursWithin(line, a, a + |all[i]|, CAPABILITY);
    }
    assert forall i :: 0 <= i < |all[1..]| ==> all[1..][i] == all[i + 1];
    CapabilityOfFields(Record(DecodePath(all[0]), if d.hasMode then d.mode else -1, false, false), all[1..], line);
  }

  // ---------------------------------------------------------------- privilege

  /** MTreePrivileged: a record that grants privilege on extraction. */
  predicate Privileged(r: Record) {
    r.capability || (r.mode >= 0 && r.mode / 1024 % 4 != 0)
  }

  /** The octal digits in front of the last three decide. */
  lemma FourthDigit(s: string)
    requires AllOctal(s)
    ensures OctalValue(s) / 1024 % 4 != 0 <==> |s| >= 4 && s[|s| - 4] >= '2'
  {
    var a := DropDigit(s);
    var b := DropDigit(a);
    var c := DropDigit(b);
    var e := DropDigit(c);
    var v := OctalValue(s);
    assert OctalValue(a) == v / 8 && OctalValue(b) == v / 64 && OctalValue(c) == v / 512;
    Bits(v);
    if |s| >= 4 {
      assert c[|c| - 1] == s[|s| - 4];
      assert v / 512 % 8 == s[|s| - 4] as int - '0' as int;
    } else {
      assert c == "" && v / 512 == 0;
    }
  }

  lemma Bits(v: nat)
    ensures v / 1024 % 4 == v / 512 % 8 / 2
  {
    HalfOf(v);
    HalfDigit(v / 512);
  }

  lemma HalfOf(v: nat)
    ensures v / 1024 == v / 512 / 2
  {
  }

  lemma HalfDigit(q: nat)
    ensures q / 2 % 4 == q % 8 / 2
  {
    var r := q % 8;
    assert q == 8 * (q / 8) + r;
    assert q / 2 == 4 * (q / 8) + r / 2;
  }

  function DropDigit(s: string): (r: string)
    requires AllOctal(s)
    ensures AllOctal(r) && |r| == (if |s| > 0 then |s| - 1 else 0) && r <= s
    ensures OctalValue(r) == OctalValue(s) / 8
    ensures s != "" ==> OctalValue(s) % 8 == s[|s| - 1] as int - '0' as int
  {
    if s == "" then "" else
      assert IsOctal(s[|s| - 1]);
      s[..|s| - 1]
  }

  /** A record whose last mode is written in octal digits is privileged exactly when
      its line mentions capabilities or the set-ID digit of the mode is two or more. */
  lemma PrivilegedExactly(line: string, d: Defaults, n: nat)
    requires Fields(line) != [] && 0 < n < |Fields(line)|
    requires NoModeFrom(Fields(line), n + 1) && IsMode(Fields(line)[n])
    requires var value := Fields(line)[n][5..];
             value != "" && AllOctal(value) && OctalValue(value) < 0x8000_0000_0000_0000
    ensures var value := Fields(line)[n][5..];
            Privileged(ParseRecord(line, d)) <==>
            (exists i: nat :: OccursAt(line, "security.capability", i)) || (|value| >= 4 && value[|value| - 4] >= '2')
  {
    hide Contains, Cut, HasPrefix, Fields, WithFields, DecodePath, OctalValue, ParseRecord;
    var value := Fields(line)[n][5..];
    ModeOfRecordExactly(line, d, n);
    CapabilityExactly(line, d);
    FourthDigit(value);
    assert IsOctal(value[0]);
  }

  // ---------------------------------------------------------------- which lines are what

  /** `t` is the line without the white space at its ends. */
  lemma KindExactly(line: string, t: string, rest: string)
    requires t == TrimSpace(line)
    ensures KindOf(line) == Nothing <==> t == "" || "#" <= t
    ensures KindOf(line) == Directive(false, rest) <==> t == "/set " + rest || (rest == "" && t == "/set")
    ensures KindOf(line) == Directive(true, rest) <==> t == "/unset " + rest || (rest == "" && t == "/unset")
    ensures KindOf(line) == Path <==>
            t != "" && !("#" <= t) && t != "/set" && t != "/unset" && !("/set " <= t) && !("/unset " <= t)
  {
    hide Until, TrimSpace;
    FirstTokenIs(t, "/set");
    FirstTokenIs(t, "/unset");
    assert "/set " + rest == "/set" + [' '] + rest && "/unset " + rest == "/unset" + [' '] + rest;
    CutExactly("/set", ' ', rest);
    CutExactly("/unset", ' ', rest);
  }

  /** What the first token of a line is, and what follows it. */
  lemma FirstTokenIs(t: string, token: string)
    requires ' ' !in token
    ensures Cut(t, ' ').0 == token <==> t == token || token + " " <= t
    ensures token + " " <= t ==> Cut(t, ' ').1 == t[|token| + 1..] && t == token + [' '] + t[|token| + 1..]
    ensures t == token ==> Cut(t, ' ').1 == ""
    ensures Cut(t, ' ').0 == token && t != token ==> t == token + [' '] + Cut(t, ' ').1
  {
    hide Until;
    CutExactly(token, ' ', "");
    if token + " " <= t {
      assert t == token + [' '] + t[|token| + 1..];
      CutExactly(token, ' ', t[|token| + 1..]);
    }
    var n := Until(t, c => c == ' ');
    if Cut(t, ' ').0 == token && n < |t| {
      assert t == t[..n] + [t[n]] + t[n + 1..];
    }
  }

  /** A line is dropped exactly when it begins with the encoding of a dropped name
      and is neither empty, nor a comment, nor a directive. */
  lemma StaysExactly(token: string, rest: string, newline: string, drop: set<string>, normalize: string -> string)
    requires ' ' !in token && (rest == "" || rest[0] == ' ') && newline in {"", "\n"}
    requires newline == "" ==> token + rest == "" || (token + rest)[|token + rest| - 1] != '\n'
    ensures Stays(token + rest + newline, drop, normalize) <==>
            || token + rest == "" || "#" <= token + rest || "/set" <= token + rest || "/unset" <= token + rest
            || normalize(DecodePath(token)) !in drop
  {
    hide Until, DecodePath, HasPrefix, Cut;
    var line := token + rest;
    NewlineOff(line, newline);
    HasPrefixMeansPrefix(line, "/set");
    HasPrefixMeansPrefix(line, "/unset");
    TokenInFront(token, rest);
  }

  lemma NewlineOff(line: string, newline: string)
    requires newline == "\n" || (newline == "" && (line == "" || line[|line| - 1] != '\n'))
    ensures WithoutNewline(line + newline) == line
  {
    assert line + "" == line && (line + "\n")[..|line|] == line;
  }

  lemma TokenInFront(token: string, rest: string)
    requires ' ' !in token && (rest == "" || rest[0] == ' ')
    ensures Cut(token + rest, ' ').0 == token
  {
    hide Cut;
    var line := token + rest;
    if rest == "" {
      assert line == token;
    } else {
      assert line[..|token| + 1] == token + " ";
    }
    FirstTokenIs(line, token);
  }

  // ---------------------------------------------------------------- defaults over lines

  function DefaultsBefore(lines: seq<string>, i: nat, d: Defaults): Defaults
    requires i <= |lines|
  {
    if i == 0 then d else AfterLine(DefaultsBefore(lines, i - 1, d), lines[i - 1])
  }

  function PathsBefore(lines: seq<string>, i: nat): nat
    requires i <= |lines|
  {
    if i == 0 then 0 else PathsBefore(lines, i - 1) + if KindOf(lines[i - 1]) == Path then 1 else 0
  }

  lemma {:induction false} DefaultsShift(lines: seq<string>, i: nat, d: Defaults)
    requires 0 < i <= |lines|
    ensures DefaultsBefore(lines, i, d) == DefaultsBefore(lines[1..], i - 1, AfterLine(d, lines[0]))
    ensures PathsBefore(lines, i) == PathsBefore(lines[1..], i - 1) + if KindOf(lines[0]) == Path then 1 else 0
  {
    hide AfterLine, KindOf;
    if i > 1 {
      DefaultsShift(lines, i - 1, d);
    } else {
      assert DefaultsBefore(lines, 0, d) == d && PathsBefore(lines, 0) == 0;
    }
  }

  /** The record of a path line stands where its line does among the path lines and
      has the defaults that the lines before it leave. */
  lemma {:induction false} RecordAt(lines: seq<string>, i: nat, d: Defaults)
    requires i < |lines|
    ensures |Records(lines, d)| == PathsBefore(lines, |lines|)
    ensures KindOf(lines[i]) == Path ==>
              && PathsBefore(lines, i) < |Records(lines, d)|
              && Records(lines, d)[PathsBefore(lines, i)] ==
                   ParseRecord(TrimSpace(lines[i]), DefaultsBefore(lines, i, d))
    decreases |lines|
  {
    hide ParseRecord, KindOf, AfterFields, TrimSpace;
    var rest, next := lines[1..], AfterLine(d, lines[0]);
    DefaultsShift(lines, |lines|, d);
    assert KindOf(lines[0]) == Path ==> next == d;
    if i > 0 {
      DefaultsShift(lines, i, d);
      RecordAt(rest, i - 1, next);
    } else if rest != [] {
      RecordAt(rest, 0, next);
    } else {
      assert Records(rest, next) == [];
    }
  }

  /** A directive that says something about the mode. */
  ghost predicate Touches(line: string) {
    match KindOf(line)
    case Directive(true, rest) => "mode" in Fields(rest)
    case Directive(false, rest) => exists f :: f in Fields(rest) && GoodMode(f)
    case _ => false
  }

  /** The last directive about the mode decides: `/unset` leaves none, `/set` the
      value of its last good field (the `n`-th). */
  lemma {:induction false} LastDirectiveDecides(lines: seq<string>, i: nat, d: Defaults, k: nat, n: nat)
    requires k <= i <= |lines| && forall j :: k <= j < i ==> !Touches(lines[j])
    requires k > 0 ==>
               && Touches(lines[k - 1])
               && var kind := KindOf(lines[k - 1]);
                  !kind.unset ==>
                    n < |Fields(kind.rest)| && GoodMode(Fields(kind.rest)[n])
                    && forall j :: n < j < |Fields(kind.rest)| ==> !GoodMode(Fields(kind.rest)[j])
    ensures DefaultsBefore(lines, i, d) ==
            if k == 0 then d
            else
              var kind := KindOf(lines[k - 1]);
              if kind.unset then NO_DEFAULTS
              else Defaults(ParseOctal(Fields(kind.rest)[n][5..]).value, true)
  {
    hide KindOf, ParseOctal, Fields, AfterFields;
    if k < i {
      LastDirectiveDecides(lines, i - 1, d, k, n);
      Untouched(DefaultsBefore(lines, i - 1, d), lines[i - 1]);
    } else if k > 0 {
      var kind, before := KindOf(lines[k - 1]), DefaultsBefore(lines, k - 1, d);
      if kind.unset {
        UnsetExactly(before, Fields(kind.rest));
      } else {
        DefaultsExactly(before, Fields(kind.rest), n + 1);
      }
    }
  }

  lemma Untouched(d: Defaults, line: string)
    requires !Touches(line)
    ensures AfterLine(d, line) == d
  {
    hide KindOf, ParseOctal, Fields, AfterFields;
    var kind := KindOf(line);
    if kind.Directive? {
      if kind.unset {
        UnsetExactly(d, Fields(kind.rest));
      } else {
        DefaultsExactly(d, Fields(kind.rest), 0);
      }
    }
  }
}
