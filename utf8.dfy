/**
 * Strict UTF-8 as `str::as_bytes` produces it and `str::from_utf8` accepts it:
 * exactly the well-formed byte sequences of Table 3-7 of the Unicode
 * Standard (no overlong forms, no surrogates, nothing above U+10FFFF).
 */
module Utf8 {
  import opened Results
  import opened Bytes

  predicate IsScalarValue(cp: int) {
    0 <= cp < 0xD800 || 0xE000 <= cp < 0x11_0000
  }

  predicate IsContinuation(b: Byte) {
    0x80 <= b <= 0xBF
  }

  /** The UTF-8 form of one scalar value. */
  function EncodeScalar(cp: int): (r: seq<Byte>)
    requires IsScalarValue(cp)
    ensures 1 <= |r| <= 4
  {
    if cp < 0x80 then [cp]
    else if cp < 0x800 then [0xC0 + cp / 64, 0x80 + cp % 64]
    else if cp < 0x1_0000 then [0xE0 + cp / 64 / 64, 0x80 + cp / 64 % 64, 0x80 + cp % 64]
    else [0xF0 + cp / 64 / 64 / 64, 0x80 + cp / 64 / 64 % 64, 0x80 + cp / 64 % 64, 0x80 + cp % 64]
  }

  /** The bytes of a string (`as_bytes`). */
  function Encode(s: string): seq<Byte>
  {
    if s == [] then [] else EncodeScalar(s[0] as int) + Encode(s[1..])
  }

  /**
   * The scalar value that b starts with and the number of bytes it takes,
   * or None when b does not start with a well-formed sequence.
   */
  function DecodeFirst(b: seq<Byte>): (r: Option<(int, nat)>)
    ensures r.Some? ==> IsScalarValue(r.value.0) && 1 <= r.value.1 <= |b|
  {
    if |b| == 0 then None
    else
      var b0: int := b[0];
      if b0 < 0x80 then Some((b0, 1))
      else if 0xC2 <= b0 <= 0xDF then
        if |b| >= 2 && IsContinuation(b[1])
        then Some((Combine2(b0 - 0xC0, b[1]), 2))
        else None
      else if 0xE0 <= b0 <= 0xEF then
        var lo := if b0 == 0xE0 then 0xA0 else 0x80;
        var hi := if b0 == 0xED then 0x9F else 0xBF;
        if |b| >= 3 && lo <= b[1] <= hi && IsContinuation(b[2])
        then Some((Combine3(b0 - 0xE0, b[1], b[2]), 3))
        else None
      else if 0xF0 <= b0 <= 0xF4 then
        var lo := if b0 == 0xF0 then 0x90 else 0x80;
        var hi := if b0 == 0xF4 then 0x8F else 0xBF;
        if |b| >= 4 && lo <= b[1] <= hi && IsContinuation(b[2]) && IsContinuation(b[3])
        then Some((Combine4(b0 - 0xF0, b[1], b[2], b[3]), 4))
        else None
      else None
  }

  /** A scalar value from the payload of a leading byte and its continuation bytes. */
  function Combine2(lead: int, c1: int): int { lead * 64 + (c1 - 0x80) }
  function Combine3(lead: int, c1: int, c2: int): int { Combine2(lead, c1) * 64 + (c2 - 0x80) }
  function Combine4(lead: int, c1: int, c2: int, c3: int): int { Combine3(lead, c1, c2) * 64 + (c3 - 0x80) }

  /** The string whose bytes are b, or None when b is not UTF-8 (`str::from_utf8`). */
  function Decode(b: seq<Byte>): Option<string>
    decreases |b|
  {
    if b == [] then Some([])
    else match DecodeFirst(b)
      case None => None
      case Some((cp, n)) =>
        match Decode(b[n..])
        case None => None
        case Some(rest) => Some([cp as char] + rest)
  }

  lemma DecodeFirstOfEncodeScalar(cp: int, rest: seq<Byte>)
    requires IsScalarValue(cp)
    ensures DecodeFirst(EncodeScalar(cp) + rest) == Some((cp, |EncodeScalar(cp)|))
  {
    if cp < 0x80 {
    } else if cp < 0x800 {
      DecodeFirstOfTwo(cp, rest);
    } else if cp < 0x1_0000 {
      DecodeFirstOfThree(cp, rest);
    } else {
      DecodeFirstOfFour(cp, rest);
    }
  }

  lemma DecodeFirstOfTwo(cp: int, rest: seq<Byte>)
    requires 0x80 <= cp < 0x800
    ensures DecodeFirst(EncodeScalar(cp) + rest) == Some((cp, 2))
  {
    var b := EncodeScalar(cp) + rest;
    assert b[0] == 0xC0 + cp / 64 && b[1] == 0x80 + cp % 64;
  }

  lemma DecodeFirstOfThree(cp: int, rest: seq<Byte>)
    requires IsScalarValue(cp) && 0x800 <= cp < 0x1_0000
    ensures DecodeFirst(EncodeScalar(cp) + rest) == Some((cp, 3))
  {
    var b := EncodeScalar(cp) + rest;
    var q := cp / 64;
    assert cp == q * 64 + cp % 64;
    assert q == q / 64 * 64 + q % 64;
    assert b[0] == 0xE0 + q / 64 && b[1] == 0x80 + q % 64 && b[2] == 0x80 + cp % 64;
  }

  lemma DecodeFirstOfFour(cp: int, rest: seq<Byte>)
    requires 0x1_0000 <= cp < 0x11_0000
    ensures DecodeFirst(EncodeScalar(cp) + rest) == Some((cp, 4))
  {
    var b := EncodeScalar(cp) + rest;
    var q := cp / 64;
    var q' := q / 64;
    assert cp == q * 64 + cp % 64;
    assert q == q' * 64 + q % 64;
    assert q' == q' / 64 * 64 + q' % 64;
    assert b[0] == 0xF0 + q' / 64 && b[1] == 0x80 + q' % 64 && b[2] == 0x80 + q % 64 && b[3] == 0x80 + cp % 64;
  }

  lemma DivMod64(x: int, q: int, r: int)
    requires 0 <= r < 64 && x == q * 64 + r
    ensures x / 64 == q && x % 64 == r
  {
  }

  lemma EncodeScalarOfDecodeFirst(b: seq<Byte>)
    requires DecodeFirst(b).Some?
    ensures b[..DecodeFirst(b).value.1] == EncodeScalar(DecodeFirst(b).value.0)
  {
    var n := DecodeFirst(b).value.1;
    if n == 2 {
      EncodeScalarOfTwo(b);
    } else if n == 3 {
      EncodeScalarOfThree(b);
    } else if n == 4 {
      EncodeScalarOfFour(b);
    }
  }

  lemma EncodeScalarOfTwo(b: seq<Byte>)
    requires DecodeFirst(b).Some? && DecodeFirst(b).value.1 == 2
    ensures b[..2] == EncodeScalar(DecodeFirst(b).value.0)
  {
    var cp := DecodeFirst(b).value.0;
    var b0: int := b[0];
    DivMod64(cp, b0 - 0xC0, b[1] - 0x80);
    assert b[..2] == [b[0], b[1]];
  }

  lemma EncodeScalarOfThree(b: seq<Byte>)
    requires DecodeFirst(b).Some? && DecodeFirst(b).value.1 == 3
    ensures b[..3] == EncodeScalar(DecodeFirst(b).value.0)
  {
    var cp := DecodeFirst(b).value.0;
    var b0: int := b[0];
    var q := Combine2(b0 - 0xE0, b[1]);
    DivMod64(cp, q, b[2] - 0x80);
    DivMod64(q, b0 - 0xE0, b[1] - 0x80);
    assert b[..3] == [b[0], b[1], b[2]];
  }

  lemma EncodeScalarOfFour(b: seq<Byte>)
    requires DecodeFirst(b).Some? && DecodeFirst(b).value.1 == 4
    ensures b[..4] == EncodeScalar(DecodeFirst(b).value.0)
  {
    var cp := DecodeFirst(b).value.0;
    var b0: int := b[0];
    var q' := Combine2(b0 - 0xF0, b[1]);
    var q := Combine3(b0 - 0xF0, b[1], b[2]);
    DivMod64(cp, q, b[3] - 0x80);
    DivMod64(q, q', b[2] - 0x80);
    DivMod64(q', b0 - 0xF0, b[1] - 0x80);
    assert b[..4] == [b[0], b[1], b[2], b[3]];
  }

  /** Decoding the bytes of a string gives the string back. */
  lemma {:induction false} DecodeOfEncode(s: string)
    ensures Decode(Encode(s)) == Some(s)
  {
    if s != [] {
      var cp := s[0] as int;
      var e := EncodeScalar(cp);
      DecodeFirstOfEncodeScalar(cp, Encode(s[1..]));
      assert (e + Encode(s[1..]))[|e|..] == Encode(s[1..]);
      DecodeOfEncode(s[1..]);
      assert s == [s[0]] + s[1..];
    }
  }

  /** A successful decode of a non-empty b is its first scalar value followed by the decode of the rest. */
  lemma DecodeStep(b: seq<Byte>)
    requires b != [] && Decode(b).Some?
    ensures DecodeFirst(b).Some?
    ensures Decode(b[DecodeFirst(b).value.1..]).Some?
    ensures Decode(b).value == [DecodeFirst(b).value.0 as char] + Decode(b[DecodeFirst(b).value.1..]).value
  {
  }

  /** Only the bytes of a string decode, and they decode to that string. */
  lemma {:induction false} EncodeOfDecode(b: seq<Byte>, s: string)
    requires Decode(b) == Some(s)
    ensures Encode(s) == b
    decreases |b|
  {
    if b != [] {
      DecodeStep(b);
      var (cp, n) := DecodeFirst(b).value;
      var rest := Decode(b[n..]).value;
      EncodeOfDecode(b[n..], rest);
      EncodeScalarOfDecodeFirst(b);
      assert s[0] == cp as char && s[1..] == rest;
      assert b == b[..n] + b[n..];
    }
  }

  /** The decoder and the encoder are inverse: b decodes to s exactly when b is the encoding of s. */
  lemma DecodeIffEncode(b: seq<Byte>, s: string)
    ensures Decode(b) == Some(s) <==> b == Encode(s)
  {
    if Decode(b) == Some(s) { EncodeOfDecode(b, s); }
    if b == Encode(s) { DecodeOfEncode(s); }
  }
}
