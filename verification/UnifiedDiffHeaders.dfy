/** How a hunk header is spelled: the "Diff -u Output Format" section of the
    POSIX.1-2017 `diff` utility, with a section name behind it. */
module UnifiedDiffHeaders {
  import opened Text
  import opened UnifiedDiff

  /** `start[,count]`, in digits. */
  datatype Coordinates = Coordinates(start: string, count: Option<string>)

  datatype Header = Header(left: Coordinates, right: Coordinates, section: Option<string>)

  predicate Digital(s: string) {
    s != "" && forall i :: 0 <= i < |s| ==> '0' <= s[i] <= '9'
  }

  /** A number that fits 64 bits. */
  predicate Numeral(s: string) {
    Digital(s) && Decimal(s) < 0x1_0000_0000_0000_0000
  }

  predicate WellSpelled(c: Coordinates) {
    Numeral(c.start) && (c.count.Some? ==> Numeral(c.count.value))
  }

  function Spell(c: Coordinates): string {
    c.start + if c.count.None? then "" else "," + c.count.value
  }

  /** A count that is left out is one. */
  function CountOf(c: Coordinates): nat
    requires WellSpelled(c)
  {
    if c.count.None? then 1 else Decimal(c.count.value)
  }

  function SpellHeader(h: Header): string {
    var section := if h.section.None? then "" else " " + h.section.value;
    "@@ -" + (Spell(h.left) + (" +" + (Spell(h.right) + (" @@" + section))))
  }

  predicate Spells(h: Header, line: string, left: nat, right: nat) {
    && WellSpelled(h.left) && WellSpelled(h.right) && line == SpellHeader(h)
    && left == CountOf(h.left) && right == CountOf(h.right)
  }

  /** The line is a hunk header with these two counts. */
  ghost predicate IsHeader(line: string, left: nat, right: nat) {
    exists h :: Spells(h, line, left, right)
  }

  lemma {:induction false} DigitRunOf(digits: string, rest: string)
    requires forall i :: 0 <= i < |digits| ==> '0' <= digits[i] <= '9'
    requires rest == "" || !('0' <= rest[0] <= '9')
    ensures DigitRun(digits + rest) == |digits|
  {
    var s := digits + rest;
    if digits != "" {
      DigitRunOf(digits[1..], rest);
      assert s[1..] == digits[1..] + rest;
    }
  }

  lemma ReadsNumeral(digits: string, rest: string)
    requires Numeral(digits) && (rest == "" || !('0' <= rest[0] <= '9'))
    ensures var s := digits + rest;
            DigitRun(s) == |digits| && s[..|digits|] == digits && s[|digits|..] == rest
    ensures digits != "" && forall i :: 0 <= i < |digits| ==> IsDigit(digits[i])
    ensures ParseUint64(digits) == Some(Decimal(digits))
  {
    hide DigitRun, Decimal;
    DigitRunOf(digits, rest);
  }

  lemma RangeStep(s: string, digits: string, rest: string)
    requires s == digits + rest && digits != "" && DigitRun(s) == |digits|
    requires forall i :: 0 <= i < |digits| ==> IsDigit(digits[i])
    ensures ParseRange(s).Some? ==> ParseUint64(digits).Some?
    ensures ParseUint64(digits).Some? && (rest == "" || rest[0] != ',') ==>
              ParseRange(s) == Some(Range(Decimal(digits), 1, rest))
    ensures ParseUint64(digits).Some? && rest != "" && rest[0] == ',' ==>
              var tail := rest[1..];
              var m := DigitRun(tail);
              ParseRange(s) == if m == 0 || ParseUint64(tail[..m]).None? then None
                               else Some(Range(Decimal(digits), Decimal(tail[..m]), tail[m..]))
  {
    hide DigitRun, Decimal, ParseUint64;
    assert s[..|digits|] == digits && s[|digits|..] == rest;
  }

  lemma ReadsCoordinates(c: Coordinates, rest: string)
    requires WellSpelled(c) && (rest == "" || (!('0' <= rest[0] <= '9') && rest[0] != ','))
    ensures ParseRange(Spell(c) + rest) == Some(Range(Decimal(c.start), CountOf(c), rest))
  {
    hide DigitRun, Decimal, Numeral, ParseUint64, ParseRange;
    if c.count.None? {
      assert Spell(c) + rest == c.start + rest;
      ReadsNumeral(c.start, rest);
      RangeStep(c.start + rest, c.start, rest);
    } else {
      var more := c.count.value + rest;
      var tail := [','] + more;
      SpelledOut(c, rest);
      ReadsNumeral(c.start, tail);
      ReadsNumeral(c.count.value, rest);
      RangeStep(c.start + tail, c.start, tail);
      assert tail[1..] == more;
    }
  }

  lemma SpelledOut(c: Coordinates, rest: string)
    requires c.count.Some?
    ensures Spell(c) + rest == c.start + ([','] + (c.count.value + rest))
  {
    assert Spell(c) + rest == c.start + (("," + c.count.value) + rest);
    assert ("," + c.count.value) + rest == [','] + (c.count.value + rest);
  }

  lemma WasNumeral(digits: string)
    requires digits != "" && (forall i :: 0 <= i < |digits| ==> IsDigit(digits[i])) && ParseUint64(digits).Some?
    ensures Numeral(digits)
  {
    hide Decimal;
  }

  lemma WasCoordinates(s: string) returns (c: Coordinates)
    requires ParseRange(s).Some?
    ensures WellSpelled(c) && s == Spell(c) + ParseRange(s).value.rest && ParseRange(s).value.count == CountOf(c)
  {
    hide Decimal, Numeral, ParseUint64, DigitRun, ParseRange;
    var n := DigitRun(s);
    var digits, rest := s[..n], s[n..];
    SomeDigits(s);
    WasRun(s);
    RangeStep(s, digits, rest);
    WasNumeral(digits);
    if rest != "" && rest[0] == ',' {
      var tail := rest[1..];
      var m := DigitRun(tail);
      WasRun(tail);
      WasNumeral(tail[..m]);
      c := Coordinates(digits, Some(tail[..m]));
      SpelledOut(c, tail[m..]);
      assert tail == tail[..m] + tail[m..] && rest == [','] + tail;
    } else {
      c := Coordinates(digits, None);
      assert Spell(c) == digits;
    }
  }

  lemma SomeDigits(s: string)
    requires ParseRange(s).Some?
    ensures DigitRun(s) > 0 && s == s[..DigitRun(s)] + s[DigitRun(s)..]
  {
    hide DigitRun, Decimal, ParseUint64;
  }

  lemma WasRun(s: string)
    ensures forall i :: 0 <= i < DigitRun(s) ==> IsDigit(s[..DigitRun(s)][i])
  {
  }

  lemma HeaderIsRead(h: Header, line: string, left: nat, right: nat)
    requires Spells(h, line, left, right)
    ensures HunkCounts(line) == Some((left, right))
  {
    hide Spell, ParseRange, HasPrefix, WellSpelled, CountOf;
    var tail := " @@" + if h.section.None? then "" else " " + h.section.value;
    var mid := " +" + (Spell(h.right) + tail);
    ReadsCoordinates(h.left, mid);
    ReadsCoordinates(h.right, tail);
    HasPrefixMeansPrefix(line, "@@ -");
    HasPrefixMeansPrefix(mid, " +");
    HasPrefixMeansPrefix(tail, " @@");
    assert line[4..] == Spell(h.left) + mid && mid[2..] == Spell(h.right) + tail;
  }

  lemma HeaderWasRead(line: string) returns (h: Header)
    requires HunkCounts(line).Some?
    ensures Spells(h, line, HunkCounts(line).value.0, HunkCounts(line).value.1)
  {
    hide Spell, ParseRange, HasPrefix, WellSpelled, CountOf;
    var left := ParseRange(line[4..]).value;
    var right := ParseRange(left.rest[2..]).value;
    HasPrefixMeansPrefix(line, "@@ -");
    HasPrefixMeansPrefix(left.rest, " +");
    HasPrefixMeansPrefix(right.rest, " @@");
    var l := WasCoordinates(line[4..]);
    var r := WasCoordinates(left.rest[2..]);
    var section := if |right.rest| == 3 then None else Some(right.rest[4..]);
    h := Header(l, r, section);
    assert right.rest == " @@" + if section.None? then "" else " " + section.value;
    assert left.rest == " +" + left.rest[2..] && line == "@@ -" + line[4..];
  }

  /** The machine finds two counts in a line exactly when it is a header with them. */
  lemma CountsExactly(line: string, left: nat, right: nat)
    ensures HunkCounts(line) == Some((left, right)) <==> IsHeader(line, left, right)
  {
    hide HunkCounts, Spells;
    if HunkCounts(line) == Some((left, right)) {
      var h := HeaderWasRead(line);
    }
    if IsHeader(line, left, right) {
      var h :| Spells(h, line, left, right);
      HeaderIsRead(h, line, left, right);
    }
  }
}
