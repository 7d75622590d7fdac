/**
 * The transfer encoding of an outgoing message: `Buffer.from(message)`
 * (UTF-8), `.toString('base64')` (the base64 alphabet of section 4 of
 * RFC 4648, with padding), then the URL-safe alphabet of section 5 of
 * RFC 4648 by `+` -> `-` and `/` -> `_`, and the padding removed by
 * `.replace(/=+$/, '')`, as section 3.2 of RFC 4648 allows.
 */
module Base64 {

  newtype byte = x: int | 0 <= x < 256

  // ---------------------------------------------------------------- UTF-8

  /** The UTF-8 encoding of one Unicode scalar value (section 3 of RFC 3629). */
  function Utf8Char(c: char): (r: seq<byte>)
    ensures 1 <= |r| <= 4
    ensures |r| == 1 <==> (c as int) < 0x80
    ensures |r| == 1 ==> r[0] as int == c as int
  {
    var n := c as int;
    if n < 0x80 then [n as byte]
    else if n < 0x800 then [(0xC0 + n / 64) as byte, (0x80 + n % 64) as byte]
    else if n < 0x10000 then
      [(0xE0 + n / 4096) as byte, (0x80 + (n / 64) % 64) as byte, (0x80 + n % 64) as byte]
    else
      [(0xF0 + n / 262144) as byte, (0x80 + (n / 4096) % 64) as byte,
       (0x80 + (n / 64) % 64) as byte, (0x80 + n % 64) as byte]
  }

  /** `Buffer.from(s)`: the UTF-8 bytes of `s`. */
  function Utf8(s: string): (r: seq<byte>)
    ensures |r| >= |s|
    decreases |s|
  {
    if s == [] then [] else Utf8Char(s[0]) + Utf8(s[1..])
  }

  predicate IsAscii(s: string) {
    forall i :: 0 <= i < |s| ==> (s[i] as int) < 0x80
  }

  /** An ASCII text is encoded one byte per character, each byte the character's code. */
  lemma {:induction false} Utf8OfAscii(s: string)
    requires IsAscii(s)
    ensures |Utf8(s)| == |s|
    ensures forall i :: 0 <= i < |s| ==> Utf8(s)[i] as int == s[i] as int
    decreases |s|
  {
    if s != [] {
      Utf8OfAscii(s[1..]);
      assert Utf8(s) == Utf8Char(s[0]) + Utf8(s[1..]);
      forall i | 0 < i < |s| ensures Utf8(s)[i] as int == s[i] as int {
        assert Utf8(s)[i] == Utf8(s[1..])[i - 1];
        assert s[i] == s[1..][i - 1];
      }
    }
  }

  // ---------------------------------------------------------------- base64

  /** The base64 alphabet. */
  function Digit(v: int): (c: char)
    requires 0 <= v < 64
    ensures IsStandardDigit(c)
  {
    if v < 26 then ('A' as int + v) as char
    else if v < 52 then ('a' as int + v - 26) as char
    else if v < 62 then ('0' as int + v - 52) as char
    else if v == 62 then '+' else '/'
  }

  /** The value of a base64 digit: the inverse of `Digit`. */
  function DigitValue(c: char): (v: int)
    requires IsStandardDigit(c)
    ensures 0 <= v < 64 && Digit(v) == c
  {
    if 'A' <= c <= 'Z' then c as int - 'A' as int
    else if 'a' <= c <= 'z' then c as int - 'a' as int + 26
    else if '0' <= c <= '9' then c as int - '0' as int + 52
    else if c == '+' then 62 else 63
  }

  predicate IsStandardDigit(c: char) {
    ('A' <= c <= 'Z') || ('a' <= c <= 'z') || ('0' <= c <= '9') || c == '+' || c == '/'
  }

  predicate IsUrlDigit(c: char) {
    ('A' <= c <= 'Z') || ('a' <= c <= 'z') || ('0' <= c <= '9') || c == '-' || c == '_'
  }

  /** The four 6-bit values of a group of three bytes (a missing byte counts as 0). */
  function Sextet0(b0: int): (v: int)
    requires 0 <= b0 < 256
    ensures 0 <= v < 64
  { b0 / 4 }

  function Sextet1(b0: int, b1: int): (v: int)
    requires 0 <= b0 < 256 && 0 <= b1 < 256
    ensures 0 <= v < 64
  { b0 % 4 * 16 + b1 / 16 }

  function Sextet2(b1: int, b2: int): (v: int)
    requires 0 <= b1 < 256 && 0 <= b2 < 256
    ensures 0 <= v < 64
  { b1 % 16 * 4 + b2 / 64 }

  function Sextet3(b2: int): (v: int)
    requires 0 <= b2 < 256
    ensures 0 <= v < 64
  { b2 % 64 }

  /** The digits of the encoding: four per group of three bytes, and two or three for a
      final group of one or two bytes. */
  function Digits(b: seq<byte>): (r: string)
    ensures forall i :: 0 <= i < |r| ==> IsStandardDigit(r[i])
    decreases |b|
  {
    if |b| == 0 then ""
    else
      var b0 := b[0] as int;
      if |b| == 1 then [Digit(Sextet0(b0)), Digit(Sextet1(b0, 0))]
      else
        var b1 := b[1] as int;
        if |b| == 2 then [Digit(Sextet0(b0)), Digit(Sextet1(b0, b1)), Digit(Sextet2(b1, 0))]
        else
          var b2 := b[2] as int;
          [Digit(Sextet0(b0)), Digit(Sextet1(b0, b1)), Digit(Sextet2(b1, b2)), Digit(Sextet3(b2))]
          + Digits(b[3..])
  }

  /** The `=` characters that complete the last group of four. */
  function Padding(digitCount: nat): (r: string)
    ensures (digitCount + |r|) % 4 == 0 && |r| < 4
    ensures forall i :: 0 <= i < |r| ==> r[i] == '='
  {
    var k := (4 - digitCount % 4) % 4;
    seq(k, i => '=')
  }

  /** `toString('base64')`. */
  function Encode(b: seq<byte>): string {
    Digits(b) + Padding(|Digits(b)|)
  }

  /** The three bytes a group of four 6-bit values stands for. */
  function Byte0(v0: int, v1: int): (b: int)
    requires 0 <= v0 < 64 && 0 <= v1 < 64
    ensures 0 <= b < 256
  { v0 * 4 + v1 / 16 }

  function Byte1(v1: int, v2: int): (b: int)
    requires 0 <= v1 < 64 && 0 <= v2 < 64
    ensures 0 <= b < 256
  { v1 % 16 * 16 + v2 / 4 }

  function Byte2(v2: int, v3: int): (b: int)
    requires 0 <= v2 < 64 && 0 <= v3 < 64
    ensures 0 <= b < 256
  { v2 % 4 * 64 + v3 }

  /** Base64 decoding of a sequence of digits with the padding already removed;
      a length of 1 modulo 4 is not a valid encoding, and there the last digit is dropped. */
  function DecodeDigits(d: string): seq<byte>
    requires forall i :: 0 <= i < |d| ==> IsStandardDigit(d[i])
    decreases |d|
  {
    if |d| < 2 then []
    else
      var v0 := DigitValue(d[0]);
      var v1 := DigitValue(d[1]);
      if |d| == 2 then [Byte0(v0, v1) as byte]
      else
        var v2 := DigitValue(d[2]);
        if |d| == 3 then [Byte0(v0, v1) as byte, Byte1(v1, v2) as byte]
        else
          var v3 := DigitValue(d[3]);
          [Byte0(v0, v1) as byte, Byte1(v1, v2) as byte, Byte2(v2, v3) as byte]
          + DecodeDigits(d[4..])
  }

  /** Decoding the digits gives back the bytes. */
  lemma {:induction false} DecodeDigitsOfDigits(b: seq<byte>)
    ensures DecodeDigits(Digits(b)) == b
    decreases |b|
  {
    if |b| >= 3 {
      DecodeFirstGroup(b);
      DecodeDigitsOfDigits(b[3..]);
      assert b == b[..3] + b[3..];
    } else if |b| == 2 {
      var b0, b1 := b[0] as int, b[1] as int;
      assert Digits(b) == [Digit(Sextet0(b0)), Digit(Sextet1(b0, b1)), Digit(Sextet2(b1, 0))];
      DecodeTwoBytes(b0, b1);
      assert b == [b[0], b[1]];
    } else if |b| == 1 {
      var b0 := b[0] as int;
      assert Digits(b) == [Digit(Sextet0(b0)), Digit(Sextet1(b0, 0))];
      DecodeOneByte(b0);
      assert b == [b[0]];
    }
  }

  /** The first three bytes come back from the first four digits, ahead of the rest. */
  lemma DecodeFirstGroup(b: seq<byte>)
    requires |b| >= 3
    ensures DecodeDigits(Digits(b)) == b[..3] + DecodeDigits(Digits(b[3..]))
  {
    var b0, b1, b2 := b[0] as int, b[1] as int, b[2] as int;
    var g := [Digit(Sextet0(b0)), Digit(Sextet1(b0, b1)), Digit(Sextet2(b1, b2)), Digit(Sextet3(b2))];
    var rest := Digits(b[3..]);
    DecodeGroupThen(g, rest);
    DecodeThreeBytes(b0, b1, b2);
    FirstThreeBytes(b);
    DigitsFirstGroup(b);
  }

  lemma FirstThreeBytes(b: seq<byte>)
    requires |b| >= 3
    ensures [(b[0] as int) as byte, (b[1] as int) as byte, (b[2] as int) as byte] == b[..3]
  {
  }

  lemma DigitsFirstGroup(b: seq<byte>)
    requires |b| >= 3
    ensures Digits(b) == [Digit(Sextet0(b[0] as int)), Digit(Sextet1(b[0] as int, b[1] as int)),
      Digit(Sextet2(b[1] as int, b[2] as int)), Digit(Sextet3(b[2] as int))] + Digits(b[3..])
  {
  }

  /** Decoding splits after a full group of four digits. */
  lemma DecodeGroupThen(g: string, rest: string)
    requires |g| == 4
    requires forall i :: 0 <= i < |g| ==> IsStandardDigit(g[i])
    requires forall i :: 0 <= i < |rest| ==> IsStandardDigit(rest[i])
    ensures DecodeDigits(g + rest) == DecodeDigits(g) + DecodeDigits(rest)
  {
    assert (g + rest)[4..] == rest;
    assert g[4..] == [];
    assert (g + rest)[..4] == g;
  }

  /** A group of three, two or one bytes, alone. */
  lemma DecodeThreeBytes(b0: int, b1: int, b2: int)
    requires 0 <= b0 < 256 && 0 <= b1 < 256 && 0 <= b2 < 256
    ensures DecodeDigits([Digit(Sextet0(b0)), Digit(Sextet1(b0, b1)), Digit(Sextet2(b1, b2)), Digit(Sextet3(b2))])
      == [b0 as byte, b1 as byte, b2 as byte]
  {
    GroupArithmetic(b0, b1, b2);
    DecodeFourDigits(Sextet0(b0), Sextet1(b0, b1), Sextet2(b1, b2), Sextet3(b2));
  }

  lemma DecodeTwoBytes(b0: int, b1: int)
    requires 0 <= b0 < 256 && 0 <= b1 < 256
    ensures DecodeDigits([Digit(Sextet0(b0)), Digit(Sextet1(b0, b1)), Digit(Sextet2(b1, 0))])
      == [b0 as byte, b1 as byte]
  {
    GroupArithmetic(b0, b1, 0);
    DecodeThreeDigits(Sextet0(b0), Sextet1(b0, b1), Sextet2(b1, 0));
  }

  lemma DecodeOneByte(b0: int)
    requires 0 <= b0 < 256
    ensures DecodeDigits([Digit(Sextet0(b0)), Digit(Sextet1(b0, 0))]) == [b0 as byte]
  {
    var v0, v1 := Sextet0(b0), Sextet1(b0, 0);
    assert Byte0(v0, v1) == b0;
    DecodeTwoDigits(v0, v1);
  }

  /** Four, three or two digits decode to three, two or one bytes. */
  lemma DecodeFourDigits(v0: int, v1: int, v2: int, v3: int)
    requires 0 <= v0 < 64 && 0 <= v1 < 64 && 0 <= v2 < 64 && 0 <= v3 < 64
    ensures DecodeDigits([Digit(v0), Digit(v1), Digit(v2), Digit(v3)])
      == [Byte0(v0, v1) as byte, Byte1(v1, v2) as byte, Byte2(v2, v3) as byte]
  {
    DigitRoundTrip(v0);
    DigitRoundTrip(v1);
    DigitRoundTrip(v2);
    DigitRoundTrip(v3);
    assert [Digit(v0), Digit(v1), Digit(v2), Digit(v3)][4..] == [];
  }

  lemma DecodeThreeDigits(v0: int, v1: int, v2: int)
    requires 0 <= v0 < 64 && 0 <= v1 < 64 && 0 <= v2 < 64
    ensures DecodeDigits([Digit(v0), Digit(v1), Digit(v2)]) == [Byte0(v0, v1) as byte, Byte1(v1, v2) as byte]
  {
    DigitRoundTrip(v0);
    DigitRoundTrip(v1);
    DigitRoundTrip(v2);
  }

  lemma DecodeTwoDigits(v0: int, v1: int)
    requires 0 <= v0 < 64 && 0 <= v1 < 64
    ensures DecodeDigits([Digit(v0), Digit(v1)]) == [Byte0(v0, v1) as byte]
  {
    DigitRoundTrip(v0);
    DigitRoundTrip(v1);
  }

  /** The 6-bit values of a group of bytes give the bytes back. */
  lemma GroupArithmetic(b0: int, b1: int, b2: int)
    requires 0 <= b0 < 256 && 0 <= b1 < 256 && 0 <= b2 < 256
    ensures Byte0(Sextet0(b0), Sextet1(b0, b1)) == b0
    ensures Byte1(Sextet1(b0, b1), Sextet2(b1, b2)) == b1
    ensures Byte2(Sextet2(b1, b2), Sextet3(b2)) == b2
  {
  }

  lemma DigitRoundTrip(v: int)
    requires 0 <= v < 64
    ensures DigitValue(Digit(v)) == v
  {
  }

  // ---------------------------------------------------------------- base64url

  /** `s.replace(/<from>/g, <to>)` for a single-character pattern. */
  function ReplaceChar(s: string, from: char, to: char): (r: string)
    ensures |r| == |s|
    ensures forall i :: 0 <= i < |s| ==> r[i] == if s[i] == from then to else s[i]
  {
    seq(|s|, i requires 0 <= i < |s| => if s[i] == from then to else s[i])
  }

  /** `s.replace(/=+$/, '')`: the trailing run of `=` removed. */
  function StripPadding(s: string): (r: string)
    ensures |r| <= |s| && r == s[..|r|]
    ensures r == [] || r[|r| - 1] != '='
    ensures forall i :: |r| <= i < |s| ==> s[i] == '='
    decreases |s|
  {
    if s != [] && s[|s| - 1] == '=' then StripPadding(s[..|s| - 1]) else s
  }

  function ToUrl(s: string): string {
    ReplaceChar(ReplaceChar(s, '+', '-'), '/', '_')
  }

  function FromUrl(s: string): string {
    ReplaceChar(ReplaceChar(s, '-', '+'), '_', '/')
  }

  /** The `raw` field of a send request for `message`. */
  function Base64Url(message: string): string {
    StripPadding(ToUrl(Encode(Utf8(message))))
  }

  // ---------------------------------------------------------------- properties

  /** The encoded message is exactly the URL-safe digits: no padding, no `+` or `/`. */
  lemma Base64UrlIsDigits(message: string)
    ensures Base64Url(message) == ToUrl(Digits(Utf8(message)))
    ensures forall i :: 0 <= i < |Base64Url(message)| ==> IsUrlDigit(Base64Url(message)[i])
  {
    var d := Digits(Utf8(message));
    var p := Padding(|d|);
    var u := ToUrl(d + p);
    assert ToUrl(d + p) == ToUrl(d) + p;
    StripPaddingOf(ToUrl(d), p);
  }

  lemma StripPaddingOf(u: string, p: string)
    requires u == [] || u[|u| - 1] != '='
    requires forall i :: 0 <= i < |p| ==> p[i] == '='
    ensures StripPadding(u + p) == u
  {
    assert (u + p)[..|u|] == u;
  }

  /** Adding back the padding and the standard alphabet gives the standard encoding,
      and decoding that gives the UTF-8 bytes of the message. */
  lemma Base64UrlRoundTrip(message: string)
    ensures var u := Base64Url(message);
      FromUrl(u) + Padding(|u|) == Encode(Utf8(message))
      && DecodeDigits(FromUrl(u)) == Utf8(message)
  {
    var d := Digits(Utf8(message));
    Base64UrlIsDigits(message);
    assert FromUrl(ToUrl(d)) == d;
    DecodeDigitsOfDigits(Utf8(message));
  }
}
