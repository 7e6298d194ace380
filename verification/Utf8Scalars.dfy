/** Valid text is the UTF-8 of some sequence of Unicode scalar values (RFC 3629,
    section 3), and what replaces everything else (internal/safe/safe.go 163-171). */
module Utf8Scalars {
  import opened Text
  import opened Utf8

  type Scalar = c: int | 0 <= c < 0xD800 || 0xE000 <= c < 0x11_0000

  /** The UTF-8 of one scalar value: its bits, six to a byte behind the first. */
  function EncodeScalar(c: Scalar): (s: string)
    ensures s != ""
  {
    if c < 0x80 then [c as char]
    else if c < 0x800 then [(0xC0 + c / 64) as char, (0x80 + c % 64) as char]
    else if c < 0x1_0000 then
      [(0xE0 + c / 4096) as char, (0x80 + c / 64 % 64) as char, (0x80 + c % 64) as char]
    else
      [(0xF0 + c / 26_2144) as char, (0x80 + c / 4096 % 64) as char, (0x80 + c / 64 % 64) as char,
       (0x80 + c % 64) as char]
  }

  function EncodeAll(scalars: seq<Scalar>): string
  {
    if scalars == [] then "" else EncodeScalar(scalars[0]) + EncodeAll(scalars[1..])
  }

  lemma ScalarIsCharacter(c: Scalar, rest: string)
    ensures CharLength(EncodeScalar(c) + rest) == |EncodeScalar(c)|
  {
    var s := EncodeScalar(c) + rest;
    assert forall k :: 0 <= k < |EncodeScalar(c)| ==> s[k] == EncodeScalar(c)[k];
    if 0x800 <= c < 0x1_0000 {
      ThreeBytes(c);
    } else if c >= 0x1_0000 {
      FourBytes(c);
    }
  }

  lemma ThreeBytes(c: Scalar)
    requires 0x800 <= c < 0x1_0000
    ensures c / 4096 == 0 ==> c / 64 % 64 >= 0x20
    ensures c / 4096 == 13 ==> c / 64 % 64 < 0x20
    ensures c / 4096 <= 15
  {
    assert c / 64 / 64 == c / 4096;
  }

  lemma FourBytes(c: Scalar)
    requires 0x1_0000 <= c < 0x11_0000
    ensures c / 26_2144 == 0 ==> c / 4096 % 64 >= 0x10
    ensures c / 26_2144 == 4 ==> c / 4096 % 64 < 0x10
    ensures c / 26_2144 <= 4
  {
    assert c / 4096 / 64 == c / 26_2144;
  }

  /** What the bits of the bytes make up. */
  function DecodeScalar(s: string): nat
    requires s != "" && CharLength(s) > 0
  {
    var n := CharLength(s);
    if n == 1 then s[0] as int
    else if n == 2 then (s[0] as int - 0xC0) * 64 + (s[1] as int - 0x80)
    else if n == 3 then ((s[0] as int - 0xE0) * 64 + (s[1] as int - 0x80)) * 64 + (s[2] as int - 0x80)
    else
      (((s[0] as int - 0xF0) * 64 + (s[1] as int - 0x80)) * 64 + (s[2] as int - 0x80)) * 64 + (s[3] as int - 0x80)
  }

  lemma SixBits(high: nat, low: nat)
    requires low < 64
    ensures (high * 64 + low) / 64 == high && (high * 64 + low) % 64 == low
  {
  }

  lemma TwelveBits(c: nat)
    ensures c / 4096 == c / 64 / 64 && c / 26_2144 == c / 64 / 64 / 64
  {
  }

  lemma CharacterIsScalar(s: string)
    requires s != "" && CharLength(s) > 0
    ensures var c := DecodeScalar(s); (c < 0xD800 || 0xE000 <= c < 0x11_0000) && EncodeScalar(c) == s[..CharLength(s)]
  {
    var n := CharLength(s);
    if n == 2 {
      SixBits(s[0] as int - 0xC0, s[1] as int - 0x80);
    } else if n == 3 {
      ThreeBytesDecoded(s);
    } else if n == 4 {
      FourBytesDecoded(s);
    }
  }

  lemma ThreeBytesDecoded(s: string)
    requires s != "" && CharLength(s) == 3
    ensures var c := DecodeScalar(s); (c < 0xD800 || 0xE000 <= c < 0x11_0000) && EncodeScalar(c) == s[..3]
  {
    var a, b, d := s[0] as int - 0xE0, s[1] as int - 0x80, s[2] as int - 0x80;
    var c := (a * 64 + b) * 64 + d;
    SixBits(a, b);
    SixBits(a * 64 + b, d);
    TwelveBits(c);
    assert 0x800 <= c < 0x1_0000;
  }

  lemma FourBytesDecoded(s: string)
    requires s != "" && CharLength(s) == 4
    ensures var c := DecodeScalar(s); (c < 0xD800 || 0xE000 <= c < 0x11_0000) && EncodeScalar(c) == s[..4]
  {
    var a, b, d, e := s[0] as int - 0xF0, s[1] as int - 0x80, s[2] as int - 0x80, s[3] as int - 0x80;
    var c := ((a * 64 + b) * 64 + d) * 64 + e;
    SixBits(a, b);
    SixBits(a * 64 + b, d);
    SixBits((a * 64 + b) * 64 + d, e);
    TwelveBits(c);
    assert 0x1_0000 <= c < 0x11_0000;
  }

  /** A text is valid exactly when it is the encoding of scalar values: no
      surrogates, nothing beyond U+10FFFF and no longer form than needed. */
  lemma ValidExactly(s: string)
    ensures Valid(s) <==> exists scalars: seq<Scalar> :: EncodeAll(scalars) == s
  {
    if Valid(s) {
      var scalars := ScalarsOf(s);
    }
    if scalars: seq<Scalar> :| EncodeAll(scalars) == s {
      EncodedIsValid(scalars);
    }
  }

  lemma {:induction false} ScalarsOf(s: string) returns (scalars: seq<Scalar>)
    requires Valid(s)
    ensures EncodeAll(scalars) == s
    decreases |s|
  {
    hide CharLength, EncodeScalar, DecodeScalar;
    scalars := [];
    if s != "" {
      var n := CharLength(s);
      var rest := ScalarsOf(s[n..]);
      CharacterIsScalar(s);
      scalars := [DecodeScalar(s)] + rest;
      assert scalars[1..] == rest && s == s[..n] + s[n..];
    }
  }

  lemma {:induction false} EncodedIsValid(scalars: seq<Scalar>)
    ensures Valid(EncodeAll(scalars))
  {
    hide CharLength, EncodeScalar;
    if scalars != [] {
      var first, rest := EncodeScalar(scalars[0]), EncodeAll(scalars[1..]);
      EncodedIsValid(scalars[1..]);
      ScalarIsCharacter(scalars[0], rest);
      assert (first + rest)[|first|..] == rest;
    }
  }

  /** A run of bytes that begin no character becomes one replacement, however long. */
  lemma {:induction false} RunIsReplaced(valid: string, bad: string, rest: string)
    requires Valid(valid) && bad != "" && (rest != "" ==> CharLength(rest) > 0)
    requires forall i :: 0 <= i < |bad| ==> CharLength((bad + rest)[i..]) == 0
    ensures Replaced(valid + (bad + rest), false) ==
            valid + ([0xEF as char, 0xBF as char, 0xBD as char] + Replaced(rest, false))
    decreases |valid|
  {
    hide CharLength, Replaced;
    if valid == "" {
      assert valid + (bad + rest) == bad + rest;
      RunAlone(bad, rest);
    } else {
      var n := CharLength(valid);
      RunIsReplaced(valid[n..], bad, rest);
      CharacterStays(valid, bad + rest);
      assert valid == valid[..n] + valid[n..];
    }
  }

  lemma CharacterStays(valid: string, rest: string)
    requires valid != "" && CharLength(valid) > 0
    ensures var n := CharLength(valid);
            Replaced(valid + rest, false) == valid[..n] + Replaced(valid[n..] + rest, false)
  {
    hide CharLength;
    var n := CharLength(valid);
    assert (valid + rest)[..n] == valid[..n] && (valid + rest)[n..] == valid[n..] + rest;
    CharLengthIsLocal(valid, valid + rest);
  }

  lemma RunAlone(bad: string, rest: string)
    requires bad != "" && (rest != "" ==> CharLength(rest) > 0)
    requires forall i :: 0 <= i < |bad| ==> CharLength((bad + rest)[i..]) == 0
    ensures Replaced(bad + rest, false) ==
            [0xEF as char, 0xBF as char, 0xBD as char] + Replaced(rest, false)
  {
    hide CharLength;
    assert (bad + rest)[0..] == bad + rest && (bad + rest)[1..] == bad[1..] + rest;
    RunContinues(bad[1..], rest, bad, 1);
  }

  lemma {:induction false} RunContinues(left: string, rest: string, bad: string, k: nat)
    requires k <= |bad| && left == bad[k..] && (rest != "" ==> CharLength(rest) > 0)
    requires forall i :: 0 <= i < |bad| ==> CharLength((bad + rest)[i..]) == 0
    ensures Replaced(left + rest, true) == Replaced(rest, false)
    decreases |left|
  {
    hide CharLength;
    if left == "" {
      assert left + rest == rest;
    } else {
      assert (bad + rest)[k..] == left + rest;
      assert (left + rest)[1..] == left[1..] + rest;
      RunContinues(left[1..], rest, bad, k + 1);
    }
  }
}
