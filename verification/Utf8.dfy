/** UTF-8 and the replacement of invalid bytes: ValidUTF8OrReplacement of
    internal/safe/safe.go 163-171.

    `CharLength` is table 3-7 of the Unicode standard (section 3.9), which Go's
    decoder follows; a character outside it counts as one invalid byte. */
module Utf8 {
  import opened Text

  predicate Within(s: string, k: nat, low: int, high: int) {
    k < |s| && low <= s[k] as int <= high
  }

  /** A byte that can only stand inside a character. */
  predicate Continues(c: char) {
    0x80 <= c as int <= 0xBF
  }

  /** The number of bytes of the character that `s` begins with; 0 if there is none. */
  function CharLength(s: string): (n: nat)
    requires s != ""
    ensures n <= 4 && n <= |s|
  {
    var c := s[0] as int;
    if c < 0x80 then 1
    else if 0xC2 <= c <= 0xDF && Within(s, 1, 0x80, 0xBF) then 2
    else if 0xE0 <= c <= 0xEF && Within(s, 1, if c == 0xE0 then 0xA0 else 0x80, if c == 0xED then 0x9F else 0xBF)
            && Within(s, 2, 0x80, 0xBF) then 3
    else if 0xF0 <= c <= 0xF4 && Within(s, 1, if c == 0xF0 then 0x90 else 0x80, if c == 0xF4 then 0x8F else 0xBF)
            && Within(s, 2, 0x80, 0xBF) && Within(s, 3, 0x80, 0xBF) then 4
    else 0
  }

  predicate Valid(s: string)
    decreases |s|
  {
    s == "" || (CharLength(s) > 0 && Valid(s[CharLength(s)..]))
  }

  /** U+FFFD in UTF-8. */
  const REPLACEMENT: string := [0xEF as char, 0xBF as char, 0xBD as char]

  /** Every run of invalid bytes becomes one replacement; `inRun`: the byte before
      `s` was invalid. */
  function Replaced(s: string, inRun: bool): string
    decreases |s|
  {
    if s == "" then "" else
      var n := CharLength(s);
      if n > 0 then s[..n] + Replaced(s[n..], false)
      else (if inRun then "" else REPLACEMENT) + Replaced(s[1..], true)
  }

  function ToValid(s: string): string {
    if Valid(s) then s else Replaced(s, false)
  }

  // ---------------------------------------------------------------- what is valid

  /** A character is decided by its own bytes. */
  lemma CharLengthIsLocal(s: string, t: string)
    requires s != "" && t != "" && CharLength(s) > 0
    requires CharLength(s) <= |t| && t[..CharLength(s)] == s[..CharLength(s)]
    ensures CharLength(t) == CharLength(s)
  {
    var n := CharLength(s);
    assert forall k :: 0 <= k < n ==> t[k] == t[..n][k] == s[..n][k] == s[k];
  }

  /** Its first byte continues nothing and all others do. */
  lemma CharShape(s: string)
    requires s != "" && CharLength(s) > 0
    ensures !Continues(s[0]) && forall k :: 0 < k < CharLength(s) ==> Continues(s[k])
  {
  }

  lemma {:induction false} ValidAppend(a: string, b: string)
    requires Valid(a) && Valid(b)
    ensures Valid(a + b)
    decreases |a|
  {
    hide CharLength;
    if a == "" {
      assert a + b == b;
    } else {
      var n := CharLength(a);
      assert (a + b)[..n] == a[..n] && (a + b)[n..] == a[n..] + b;
      CharLengthIsLocal(a, a + b);
      ValidAppend(a[n..], b);
    }
  }

  lemma {:induction false} ValidRest(a: string, b: string)
    requires Valid(a) && Valid(a + b)
    ensures Valid(b)
    decreases |a|
  {
    hide CharLength;
    if a == "" {
      assert a + b == b;
    } else {
      var n := CharLength(a);
      assert (a + b)[..n] == a[..n] && (a + b)[n..] == a[n..] + b;
      CharLengthIsLocal(a, a + b);
      ValidRest(a[n..], b);
    }
  }

  /** `text` can be cut before position `i` without cutting a character. */
  predicate Boundary(text: string, i: nat) {
    i < |text| ==> !Continues(text[i])
  }

  /** Cut at a boundary, both parts of a valid text are valid. */
  lemma {:induction false} BoundarySplits(text: string, i: nat)
    requires Valid(text) && i <= |text| && Boundary(text, i)
    ensures Valid(text[..i]) && Valid(text[i..])
    decreases |text|
  {
    hide CharLength;
    if i == 0 {
      assert text[i..] == text;
    } else {
      var n := CharLength(text);
      CharShape(text);
      assert n <= i;
      assert text[n..][i - n..] == text[i..] && text[i..] != "" ==> text[n..][i - n] == text[i];
      BoundarySplits(text[n..], i - n);
      assert text[..i][..n] == text[..n] && text[..i][n..] == text[n..][..i - n];
      CharLengthIsLocal(text, text[..i]);
    }
  }

  /** In front of a byte that continues a character no valid text ends. */
  lemma EndsAtBoundary(s: string, rest: string)
    requires Valid(s + rest) && Valid(s)
    ensures Boundary(rest, 0)
  {
    hide CharLength;
    ValidRest(s, rest);
    if rest != "" {
      CharShape(rest);
    }
  }

  lemma BeginsAtBoundary(s: string)
    requires Valid(s)
    ensures Boundary(s, 0)
  {
    hide CharLength;
    if s != "" {
      CharShape(s);
    }
  }

  /** A part of a valid text is valid exactly when neither end cuts a character. */
  lemma SliceIsValidExactly(text: string, i: nat, j: nat)
    requires Valid(text) && i < j <= |text|
    ensures Valid(text[i..j]) <==> Boundary(text, i) && Boundary(text, j)
  {
    hide Valid, Continues;
    var s, rest := text[i..j], text[j..];
    assert s[0] == text[i] && (rest != "" ==> rest[0] == text[j]);
    if Boundary(text, i) {
      BoundarySplits(text, i);
      assert text[i..] == s + rest;
      if Boundary(text, j) {
        assert Boundary(text[i..], j - i);
        BoundarySplits(text[i..], j - i);
        assert text[i..][..j - i] == s;
      } else if Valid(s) {
        EndsAtBoundary(s, rest);
      }
    } else if Valid(s) {
      BeginsAtBoundary(s);
    }
  }

  // ---------------------------------------------------------------- what replacing does

  lemma {:induction false} ValidStays(s: string, inRun: bool)
    requires Valid(s)
    ensures Replaced(s, inRun) == s
    decreases |s|
  {
    hide CharLength;
    if s != "" {
      var n := CharLength(s);
      ValidStays(s[n..], false);
      assert s == s[..n] + s[n..];
    }
  }

  lemma {:induction false} ReplacedIsValid(s: string, inRun: bool)
    ensures Valid(Replaced(s, inRun))
    decreases |s|
  {
    hide CharLength;
    if s != "" {
      var n := CharLength(s);
      if n > 0 {
        ReplacedIsValid(s[n..], false);
        OneCharacter(s);
        ValidAppend(s[..n], Replaced(s[n..], false));
      } else {
        ReplacedIsValid(s[1..], true);
        ReplacementIsValid();
        var front := if inRun then "" else REPLACEMENT;
        ValidAppend(front, Replaced(s[1..], true));
      }
    }
  }

  lemma OneCharacter(s: string)
    requires s != "" && CharLength(s) > 0
    ensures Valid(s[..CharLength(s)])
  {
    hide CharLength;
    var n := CharLength(s);
    var c := s[..n];
    assert c[..n] == s[..n];
    CharLengthIsLocal(s, c);
    assert c[n..] == "";
  }

  lemma ReplacementIsValid()
    ensures Valid(REPLACEMENT)
  {
    assert CharLength(REPLACEMENT) == 3;
    assert REPLACEMENT[3..] == "";
  }

  /** What is handed on is valid, and it is the given text exactly when that was valid. */
  lemma ToValidExactly(s: string)
    ensures Valid(ToValid(s))
    ensures ToValid(s) == s <==> Valid(s)
    ensures ToValid(s) == Replaced(s, false)
  {
    hide CharLength;
    ReplacedIsValid(s, false);
    if Valid(s) {
      ValidStays(s, false);
    }
  }

  // ---------------------------------------------------------------- lines

  predicate EndsLine(s: string) {
    s != "" && s[|s| - 1] == '\n'
  }

  lemma {:induction false} ReplacedKeepsLines(s: string, inRun: bool)
    ensures Count(Replaced(s, inRun), '\n') == Count(s, '\n')
    ensures EndsLine(Replaced(s, inRun)) <==> EndsLine(s)
    ensures |Replaced(s, inRun)| <= 3 * |s|
    decreases |s|
  {
    hide CharLength, Count;
    if s != "" {
      var n := CharLength(s);
      if n > 0 {
        ReplacedKeepsLines(s[n..], false);
        LinesAppend(s[..n], s[n..]);
        LinesAppend(s[..n], Replaced(s[n..], false));
        assert s == s[..n] + s[n..];
      } else {
        var front := if inRun then "" else REPLACEMENT;
        ReplacedKeepsLines(s[1..], true);
        LinesAppend(s[..1], s[1..]);
        LinesAppend(front, Replaced(s[1..], true));
        assert s == s[..1] + s[1..];
        NoLineThere(s, front);
      }
    }
  }

  lemma LinesAppend(a: string, b: string)
    ensures Count(a + b, '\n') == Count(a, '\n') + Count(b, '\n')
    ensures EndsLine(a + b) <==> if b == "" then EndsLine(a) else EndsLine(b)
  {
    CountAppend(a, b, '\n');
    if b == "" {
      assert a + b == a;
    }
  }

  lemma NoLineThere(s: string, front: string)
    requires s != "" && CharLength(s) == 0 && (front == "" || front == REPLACEMENT)
    ensures Count(s[..1], '\n') == Count(front, '\n') == 0 && !EndsLine(s[..1]) && !EndsLine(front)
  {
    var r := REPLACEMENT;
    assert Count(s[..1], '\n') == Count(s[..1][..0], '\n');
    assert r[..2][..1] == r[..1] && r[..1][..0] == "";
    assert Count(r, '\n') == Count(r[..2], '\n') == Count(r[..1], '\n') == Count(r[..0], '\n');
  }

  // ---------------------------------------------------------------- counting characters

  /** How many bytes of `s` continue nothing; in valid text, its characters. */
  function Starts(s: string): nat {
    if s == "" then 0 else (if Continues(s[0]) then 0 else 1) + Starts(s[1..])
  }

  lemma {:induction false} StartsAppend(a: string, b: string)
    ensures Starts(a + b) == Starts(a) + Starts(b)
  {
    if a == "" {
      assert a + b == b;
    } else {
      assert (a + b)[1..] == a[1..] + b;
      StartsAppend(a[1..], b);
    }
  }

  lemma ReplacementStarts()
    ensures Starts(REPLACEMENT) == 1
  {
    var r := REPLACEMENT;
    assert Starts(r) == 1 + Starts(r[1..]) == 1 + Starts(r[1..][1..]) == 1 + Starts(r[1..][1..][1..]);
  }

  /** Continuation bytes alone: nothing is left of them in a run, and they count nothing. */
  lemma {:induction false} LooseBytes(s: string)
    requires forall c :: c in s ==> Continues(c)
    ensures Starts(s) == 0 && Replaced(s, true) == ""
  {
    if s != "" {
      assert s[0] in s && CharLength(s) == 0;
      assert forall c :: c in s[1..] ==> c in s;
      LooseBytes(s[1..]);
    }
  }

  /** In a run, replacing the beginning of a valid text loses a character at most
      when the text is cut inside that character. */
  lemma {:induction false} CountedFromStart(s: string, rest: string, inRun: bool)
    requires Valid(s + rest)
    ensures Starts(Replaced(s, inRun)) >= Starts(s) - if inRun && !Boundary(rest, 0) then 1 else 0
    decreases |s|
  {
    hide CharLength, Starts;
    if s == "" {
      NoStarts();
    } else {
      var text := s + rest;
      var n := CharLength(text);
      CharShape(text);
      if n <= |s| {
        assert text[..n] == s[..n] && text[n..] == s[n..] + rest;
        CharLengthIsLocal(text, s);
        CountedFromStart(s[n..], rest, false);
        StartsAppend(s[..n], s[n..]);
        StartsAppend(s[..n], Replaced(s[n..], false));
        assert s == s[..n] + s[n..];
      } else {
        assert Continues(text[|s|]) && text[|s|] == rest[0];
        CutCharacter(s, rest);
        assert forall c :: c in s[1..] ==> Continues(c) by {
          forall c | c in s[1..] ensures Continues(c) {
            var k :| 1 <= k < |s| && s[k] == c;
            assert text[k] == c;
          }
        }
        LooseBytes(s[1..]);
        OneStart(s, inRun);
      }
    }
  }

  lemma NoStarts()
    ensures Starts("") == 0
  {
  }

  lemma OneStart(s: string, inRun: bool)
    requires s != "" && !Continues(s[0]) && CharLength(s) == 0 && Starts(s[1..]) == 0 && Replaced(s[1..], true) == ""
    ensures Starts(s) == 1 && Starts(Replaced(s, inRun)) == if inRun then 0 else 1
  {
    ReplacementStarts();
    assert REPLACEMENT + "" == REPLACEMENT;
  }

  /** Cut inside its first character, a text begins with no character. */
  lemma CutCharacter(s: string, rest: string)
    requires s != "" && CharLength(s + rest) > |s|
    ensures CharLength(s) == 0
  {
    hide CharLength;
    if CharLength(s) > 0 {
      assert (s + rest)[..CharLength(s)] == s[..CharLength(s)];
      CharLengthIsLocal(s, s + rest);
      assert false;
    }
  }

  lemma LooseFirst(s: string)
    requires s != "" && Continues(s[0])
    ensures Starts(s) == Starts(s[1..]) && Replaced(s, true) == Replaced(s[1..], true)
    ensures Starts(Replaced(s, false)) == 1 + Starts(Replaced(s[1..], true))
  {
    hide CharLength;
    assert CharLength(s) == 0 by {
      if CharLength(s) > 0 {
        CharShape(s);
        assert false;
      }
    }
    assert "" + Replaced(s[1..], true) == Replaced(s[1..], true);
    ReplacementStarts();
    StartsAppend(REPLACEMENT, Replaced(s[1..], true));
  }

  lemma {:induction false} CountedInRun(text: string, i: nat, j: nat)
    requires Valid(text) && i <= j <= |text|
    ensures Starts(Replaced(text[i..j], true)) >= Starts(text[i..j]) - if Boundary(text, j) then 0 else 1
    decreases j - i
  {
    hide CharLength, Valid, Replaced, Starts;
    if Boundary(text, i) {
      BoundarySplits(text, i);
      assert text[i..] == text[i..j] + text[j..];
      CountedFromStart(text[i..j], text[j..], true);
    } else if i < j {
      LooseFirst(text[i..j]);
      assert text[i..j][1..] == text[i + 1..j];
      CountedInRun(text, i + 1, j);
    } else {
      assert text[i..j] == "";
      NoStarts();
    }
  }

  /** A part of a valid text that begins inside a character gains one by being
      replaced; ending inside a character costs at most that. */
  lemma CountedSlice(text: string, i: nat, j: nat)
    requires Valid(text) && i < j <= |text|
    ensures Boundary(text, i) ==> Starts(ToValid(text[i..j])) >= Starts(text[i..j])
    ensures !Boundary(text, i) ==>
              Starts(ToValid(text[i..j])) >= Starts(text[i..j]) + 1 - if Boundary(text, j) then 0 else 1
  {
    hide CharLength, Valid, Starts, Replaced, ToValid;
    var s := text[i..j];
    ToValidExactly(s);
    if Boundary(text, i) {
      BoundarySplits(text, i);
      assert text[i..] == s + text[j..];
      CountedFromStart(s, text[j..], false);
    } else {
      LooseFirst(s);
      assert s[1..] == text[i + 1..j];
      CountedInRun(text, i + 1, j);
    }
  }
}
