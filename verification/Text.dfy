/** Byte-string helpers shared by the other modules.

    The program works on Go byte strings.  A `string` here is a sequence of
    `char`, each standing for one byte; what is proved of every sequence of
    characters holds in particular of every sequence of bytes. */
module Text {
  datatype Option<+T> = None | Some(value: T)

  /** How often `c` occurs in `s`. */
  function Count(s: string, c: char): (n: nat)
    ensures n <= |s|
  {
    if s == "" then 0 else Count(s[..|s| - 1], c) + if s[|s| - 1] == c then 1 else 0
  }

  lemma {:induction false} CountAppend(a: string, b: string, c: char)
    ensures Count(a + b, c) == Count(a, c) + Count(b, c)
  {
    if b == "" {
      assert a + b == a;
    } else {
      assert (a + b)[..|a + b| - 1] == a + b[..|b| - 1];
      CountAppend(a, b[..|b| - 1], c);
    }
  }

  /** It is the number of places where `c` stands. */
  lemma {:induction false} CountIsNumber(s: string, c: char)
    ensures Count(s, c) == |set i | 0 <= i < |s| && s[i] == c|
  {
    var all := set i | 0 <= i < |s| && s[i] == c;
    if s != "" {
      var init := s[..|s| - 1];
      CountIsNumber(init, c);
      var some := set i | 0 <= i < |init| && init[i] == c;
      assert all == if s[|s| - 1] == c then some + {|s| - 1} else some;
    } else {
      assert all == {};
    }
  }

  /** The length of the first line of `s`, its newline included. */
  function FirstLine(s: string): (n: nat)
    requires s != ""
    ensures 1 <= n <= |s|
    ensures '\n' !in s[..n - 1]
    ensures s[n - 1] == '\n' || n == |s|
  {
    if s[0] == '\n' || |s| == 1 then 1 else
      var n := FirstLine(s[1..]) + 1;
      assert s[..n - 1] == [s[0]] + s[1..][..n - 2];
      n
  }

  /** The lines of `s`, each with its newline; the last may lack one. */
  function RawLines(s: string): (lines: seq<string>)
    decreases |s|
  {
    if s == "" then [] else [s[..FirstLine(s)]] + RawLines(s[FirstLine(s)..])
  }

  function Concat(parts: seq<string>): string
  {
    if parts == [] then "" else parts[0] + Concat(parts[1..])
  }

  lemma {:induction false} ConcatRawLines(s: string)
    ensures Concat(RawLines(s)) == s
    decreases |s|
  {
    if s != "" {
      hide FirstLine, RawLines;
      var n := FirstLine(s);
      ConcatRawLines(s[n..]);
      RawLinesStep(s);
      assert ([s[..n]] + RawLines(s[n..]))[1..] == RawLines(s[n..]);
      assert s == s[..n] + s[n..];
    }
  }

  lemma RawLinesStep(s: string)
    requires s != ""
    ensures RawLines(s) == [s[..FirstLine(s)]] + RawLines(s[FirstLine(s)..])
  {
  }

  lemma {:induction false} ConcatAppend(a: seq<string>, b: seq<string>)
    ensures Concat(a + b) == Concat(a) + Concat(b)
  {
    if a == [] {
      assert a + b == b;
    } else {
      assert (a + b)[1..] == a[1..] + b;
      ConcatAppend(a[1..], b);
    }
  }

  /** A line, its newline included: no newline before the last character. */
  predicate OneLine(line: string) {
    line != "" && '\n' !in line[..|line| - 1]
  }

  /** The lines of some text: only the last one may lack its newline. */
  predicate Lined(lines: seq<string>) {
    && (forall i :: 0 <= i < |lines| ==> OneLine(lines[i]))
    && (forall i :: 0 <= i < |lines| - 1 ==> lines[i][|lines[i]| - 1] == '\n')
  }

  lemma FirstLineUnique(s: string, n: nat)
    requires 1 <= n <= |s| && '\n' !in s[..n - 1]
    requires s[n - 1] == '\n' || n == |s|
    ensures FirstLine(s) == n
  {
    var m := FirstLine(s);
    assert forall i :: 0 <= i < n - 1 ==> s[i] in s[..n - 1];
    assert forall i :: 0 <= i < m - 1 ==> s[i] in s[..m - 1];
  }

  /** Splitting into lines undoes the concatenation of lines. */
  lemma {:induction false} RawLinesOfLined(lines: seq<string>)
    requires Lined(lines)
    ensures RawLines(Concat(lines)) == lines
  {
    if lines != [] {
      var s, n := Concat(lines), |lines[0]|;
      assert s[..n] == lines[0] && s[n..] == Concat(lines[1..]);
      assert s[..n - 1] == lines[0][..n - 1];
      assert |lines| == 1 ==> n == |s| by { assert |lines| == 1 ==> lines[1..] == []; }
      FirstLineUnique(s, n);
      RawLinesOfLined(lines[1..]);
    }
  }

  lemma {:induction false} RawLinesAreLined(s: string)
    ensures Lined(RawLines(s))
    decreases |s|
  {
    hide FirstLine;
    if s != "" {
      var n := FirstLine(s);
      var line, rest := s[..n], RawLines(s[n..]);
      assert line[..n - 1] == s[..n - 1] && line[n - 1] == s[n - 1];
      assert RawLines(s) == [line] + rest;
      RawLinesAreLined(s[n..]);
      assert forall i :: 1 <= i < |rest| + 1 ==> ([line] + rest)[i] == rest[i - 1];
      assert n == |s| ==> rest == [];
    }
  }

  /** `s` begins with `prefix`. */
  predicate HasPrefix(s: string, prefix: string): (b: bool)
    ensures b ==> |prefix| <= |s|
    decreases |prefix|
  {
    prefix == "" || (s != "" && s[0] == prefix[0] && HasPrefix(s[1..], prefix[1..]))
  }

  lemma {:induction false} HasPrefixMeansPrefix(s: string, prefix: string)
    ensures HasPrefix(s, prefix) <==> prefix <= s
  {
    if prefix != "" && s != "" {
      HasPrefixMeansPrefix(s[1..], prefix[1..]);
      assert prefix[1..] <= s[1..] && s[0] == prefix[0] ==> prefix <= s by {
        assert prefix == [prefix[0]] + prefix[1..];
        assert s == [s[0]] + s[1..];
      }
      assert prefix <= s ==> prefix[1..] <= s[1..] by {
        if prefix <= s {
          assert s[1..][..|prefix[1..]|] == prefix[1..];
        }
      }
    }
  }

  /** White space is the six ASCII characters. */
  predicate IsSpace(c: char) {
    c == ' ' || ('\t' <= c <= '\r')
  }

  function TrimLeft(s: string): (r: string)
    ensures |r| <= |s|
  {
    if s != "" && IsSpace(s[0]) then TrimLeft(s[1..]) else s
  }

  function TrimRight(s: string): (r: string)
    ensures r <= s
    ensures r != "" ==> !IsSpace(r[|r| - 1])
  {
    if s != "" && IsSpace(s[|s| - 1]) then TrimRight(s[..|s| - 1]) else s
  }

  function TrimSpace(s: string): string {
    TrimRight(TrimLeft(s))
  }

  /** Nothing but tabs, newlines, vertical tabs, form feeds, carriage returns and
      blanks. */
  predicate White(s: string) {
    forall i :: 0 <= i < |s| ==> s[i] as int in {9, 10, 11, 12, 13, 32}
  }

  lemma {:induction false} LeftTrimmed(s: string) returns (a: string)
    ensures White(a) && s == a + TrimLeft(s) && (TrimLeft(s) != "" ==> !White(TrimLeft(s)[..1]))
  {
    a := "";
    if s != "" && IsSpace(s[0]) {
      a := LeftTrimmed(s[1..]);
      a := [s[0]] + a;
    }
  }

  lemma {:induction false} RightTrimmed(s: string) returns (b: string)
    ensures White(b) && s == TrimRight(s) + b && (TrimRight(s) != "" ==> !White(TrimRight(s)[|TrimRight(s)| - 1..]))
  {
    b := "";
    if s != "" && IsSpace(s[|s| - 1]) {
      b := RightTrimmed(s[..|s| - 1]);
      b := b + [s[|s| - 1]];
    } else {
      assert s + "" == s;
    }
  }

  /** Trimming takes the white space off both ends, all of it and nothing else. */
  lemma TrimSpaceExactly(s: string) returns (a: string, b: string)
    ensures s == a + TrimSpace(s) + b && White(a) && White(b)
    ensures var t := TrimSpace(s); t != "" ==> !White(t[..1]) && !White(t[|t| - 1..])
  {
    a := LeftTrimmed(s);
    b := RightTrimmed(TrimLeft(s));
    assert s == a + (TrimSpace(s) + b);
    var t := TrimSpace(s);
    if t != "" {
      assert t[..1] == TrimLeft(s)[..1];
    }
  }

  /** `[]byte(text)`: a fresh, writable copy. */
  method CopyBytes(text: string) returns (bytes: array<char>)
    ensures fresh(bytes) && bytes[..] == text
  {
    bytes := new char[|text|](i requires 0 <= i < |text| => text[i]);
  }
}
