/**
 * UTF-8 as the Rust standard library uses it: `str::as_bytes` (encoding) and the
 * strict `String::from_utf8` (decoding, which refuses overlong forms, surrogates and
 * code points above U+10FFFF, following RFC 3629 section 4).
 * A Dafny `char` is a Unicode scalar value, as a Rust `char` is.
 */
module Utf8 {
  import opened Wrappers
  import opened Bytes

  /** A continuation byte 10xxxxxx. */
  predicate IsContinuation(b: byte) {
    0x80 <= b < 0xC0
  }

  /** The bytes of one scalar value: 1 to 4 bytes depending on its size. */
  function EncodeChar(c: char): (b: seq<byte>)
    ensures |b| == (if c as int < 0x80 then 1 else if c as int < 0x800 then 2
                    else if c as int < 0x1_0000 then 3 else 4)
  {
    var cp := c as int;
    if cp < 0x80 then
      [cp as byte]
    else if cp < 0x800 then
      [(0xC0 + cp / 64) as byte, (0x80 + cp % 64) as byte]
    else if cp < 0x1_0000 then
      [(0xE0 + cp / 4096) as byte, (0x80 + cp / 64 % 64) as byte, (0x80 + cp % 64) as byte]
    else
      [(0xF0 + cp / 262144) as byte, (0x80 + cp / 4096 % 64) as byte,
       (0x80 + cp / 64 % 64) as byte, (0x80 + cp % 64) as byte]
  }

  /** `str::as_bytes`: the concatenated encodings of the characters. */
  function Encode(s: string): (b: seq<byte>)
    ensures |b| >= |s|
  {
    if s == [] then [] else EncodeChar(s[0]) + Encode(s[1..])
  }

  /** The well-formed sequence at the head of `b` (RFC 3629 section 4), as the
      character it stands for and its length in bytes. */
  function DecodeFirst(b: seq<byte>): (r: Option<(char, nat)>)
    ensures r.Some? ==> 1 <= r.value.1 <= |b|
  {
    if |b| == 0 then None
    else if b[0] < 0x80 then
      Some((b[0] as int as char, 1))
    else if 0xC2 <= b[0] < 0xE0 then
      if |b| >= 2 && IsContinuation(b[1]) then
        Some((((b[0] as int - 0xC0) * 64 + (b[1] as int - 0x80)) as char, 2))
      else None
    else if 0xE0 <= b[0] < 0xF0 then
      if |b| >= 3 && IsContinuation(b[1]) && IsContinuation(b[2])
         && (b[0] == 0xE0 ==> 0xA0 <= b[1])
         && (b[0] == 0xED ==> b[1] < 0xA0)
      then
        Some((((b[0] as int - 0xE0) * 4096 + (b[1] as int - 0x80) * 64 + (b[2] as int - 0x80)) as char, 3))
      else None
    else if 0xF0 <= b[0] < 0xF5 then
      if |b| >= 4 && IsContinuation(b[1]) && IsContinuation(b[2]) && IsContinuation(b[3])
         && (b[0] == 0xF0 ==> 0x90 <= b[1])
         && (b[0] == 0xF4 ==> b[1] < 0x90)
      then
        Some((((b[0] as int - 0xF0) * 262144 + (b[1] as int - 0x80) * 4096
               + (b[2] as int - 0x80) * 64 + (b[3] as int - 0x80)) as char, 4))
      else None
    else None
  }

  /** `String::from_utf8`: the text the bytes encode, or None when they are not UTF-8. */
  function Decode(b: seq<byte>): (r: Option<string>)
    ensures r.Some? ==> |r.value| <= |b|
    decreases |b|
  {
    if b == [] then Some([])
    else match DecodeFirst(b)
      case None => None
      case Some((c, n)) =>
        match Decode(b[n..])
        case None => None
        case Some(rest) => Some([c] + rest)
  }

  /** Decoding the head of an encoded character gives the character back. */
  lemma DecodeFirstEncodeChar(c: char, rest: seq<byte>)
    ensures DecodeFirst(EncodeChar(c) + rest) == Some((c, |EncodeChar(c)|))
  {
    var cp := c as int;
    if cp < 0x80 {
      assert (EncodeChar(c) + rest)[0] == cp as byte;
    } else if cp < 0x800 {
      DecodeFirstTwo(c, rest);
    } else if cp < 0x1_0000 {
      DecodeFirstThree(c, rest);
    } else {
      DecodeFirstFour(c, rest);
    }
  }

  lemma DecodeFirstTwo(c: char, rest: seq<byte>)
    requires 0x80 <= c as int < 0x800
    ensures DecodeFirst(EncodeChar(c) + rest) == Some((c, 2))
  {
    var cp := c as int;
    var x, y := cp / 64, cp % 64;
    var b := EncodeChar(c) + rest;
    assert EncodeChar(c) == [(0xC0 + x) as byte, (0x80 + y) as byte];
    assert b[0] as int == 0xC0 + x && b[1] as int == 0x80 + y;
    assert x * 64 + y == cp;
  }

  lemma DecodeFirstThree(c: char, rest: seq<byte>)
    requires 0x800 <= c as int < 0x1_0000
    ensures DecodeFirst(EncodeChar(c) + rest) == Some((c, 3))
  {
    var cp := c as int;
    var x, y, z := cp / 4096, cp / 64 % 64, cp % 64;
    var b := EncodeChar(c) + rest;
    assert EncodeChar(c) == [(0xE0 + x) as byte, (0x80 + y) as byte, (0x80 + z) as byte];
    assert b[0] as int == 0xE0 + x && b[1] as int == 0x80 + y && b[2] as int == 0x80 + z;
    assert x * 4096 + y * 64 + z == cp;
  }

  lemma DecodeFirstFour(c: char, rest: seq<byte>)
    requires 0x1_0000 <= c as int
    ensures DecodeFirst(EncodeChar(c) + rest) == Some((c, 4))
  {
    var cp := c as int;
    var w, x, y, z := cp / 262144, cp / 4096 % 64, cp / 64 % 64, cp % 64;
    FourDigits(cp);
    var b := EncodeChar(c) + rest;
    assert EncodeChar(c) == [(0xF0 + w) as byte, (0x80 + x) as byte, (0x80 + y) as byte, (0x80 + z) as byte];
    assert b[0] as int == 0xF0 + w && b[1] as int == 0x80 + x && b[2] as int == 0x80 + y && b[3] as int == 0x80 + z;
  }

  /** The 6-bit groups of a supplementary-plane code point, and the bounds on its lead group. */
  lemma FourDigits(cp: int)
    requires 0x1_0000 <= cp < 0x11_0000
    ensures var w, x, y, z := cp / 262144, cp / 4096 % 64, cp / 64 % 64, cp % 64;
      && 0 <= w <= 4 && 0 <= x < 64 && 0 <= y < 64 && 0 <= z < 64
      && w * 262144 + x * 4096 + y * 64 + z == cp
      && (w == 0 ==> 16 <= x) && (w == 4 ==> x < 16)
  {
    var q1 := cp / 64;
    var q2 := q1 / 64;
    assert cp == q1 * 64 + cp % 64;
    assert q1 == q2 * 64 + q1 % 64;
    assert cp / 4096 == q2;
    assert q2 == cp / 4096 / 64 * 64 + cp / 4096 % 64;
    assert cp / 262144 == q2 / 64;
    assert cp / 64 % 64 == q1 % 64;
  }

  /** Splitting a two-byte scalar value into 6-bit groups recovers its digits. */
  lemma Digits2(x: int, y: int)
    requires 0 <= x < 32 && 0 <= y < 64
    ensures (x * 64 + y) / 64 == x && (x * 64 + y) % 64 == y
  {
  }

  lemma Digits3(x: int, y: int, z: int)
    requires 0 <= x < 16 && 0 <= y < 64 && 0 <= z < 64
    ensures var cp := x * 4096 + y * 64 + z;
      cp / 4096 == x && cp / 64 % 64 == y && cp % 64 == z
  {
    var cp := x * 4096 + y * 64 + z;
    assert cp / 64 == x * 64 + y;
    Digits2(x, y);
  }

  lemma Digits4(w: int, x: int, y: int, z: int)
    requires 0 <= w < 8 && 0 <= x < 64 && 0 <= y < 64 && 0 <= z < 64
    ensures var cp := w * 262144 + x * 4096 + y * 64 + z;
      cp / 262144 == w && cp / 4096 % 64 == x && cp / 64 % 64 == y && cp % 64 == z
  {
    var cp := w * 262144 + x * 4096 + y * 64 + z;
    assert cp / 64 == w * 4096 + x * 64 + y;
    assert cp / 4096 == w * 64 + x;
    Digits2(w, x);
  }

  /** Re-encoding the character found at the head gives back exactly the bytes read. */
  lemma EncodeCharDecodeFirst(b: seq<byte>)
    requires DecodeFirst(b).Some?
    ensures EncodeChar(DecodeFirst(b).value.0) == b[..DecodeFirst(b).value.1]
  {
    var n := DecodeFirst(b).value.1;
    if n == 1 {
      assert b[..1] == [b[0]];
    } else if n == 2 {
      EncodeTwoDecoded(b);
    } else if n == 3 {
      EncodeThreeDecoded(b);
    } else {
      EncodeFourDecoded(b);
    }
  }

  lemma EncodeTwoDecoded(b: seq<byte>)
    requires DecodeFirst(b).Some? && DecodeFirst(b).value.1 == 2
    ensures EncodeChar(DecodeFirst(b).value.0) == b[..2]
  {
    var c := DecodeFirst(b).value.0;
    Digits2(b[0] as int - 0xC0, b[1] as int - 0x80);
    assert EncodeChar(c) == [b[0], b[1]];
  }

  lemma EncodeThreeDecoded(b: seq<byte>)
    requires DecodeFirst(b).Some? && DecodeFirst(b).value.1 == 3
    ensures EncodeChar(DecodeFirst(b).value.0) == b[..3]
  {
    var c := DecodeFirst(b).value.0;
    Digits3(b[0] as int - 0xE0, b[1] as int - 0x80, b[2] as int - 0x80);
    assert EncodeChar(c) == [b[0], b[1], b[2]];
  }

  lemma EncodeFourDecoded(b: seq<byte>)
    requires DecodeFirst(b).Some? && DecodeFirst(b).value.1 == 4
    ensures EncodeChar(DecodeFirst(b).value.0) == b[..4]
  {
    var c := DecodeFirst(b).value.0;
    Digits4(b[0] as int - 0xF0, b[1] as int - 0x80, b[2] as int - 0x80, b[3] as int - 0x80);
    assert EncodeChar(c) == [b[0], b[1], b[2], b[3]];
  }

  /** Round trip: the bytes of a string decode to that string. */
  lemma {:induction false} DecodeEncode(s: string)
    ensures Decode(Encode(s)) == Some(s)
  {
    if s != [] {
      var head := EncodeChar(s[0]);
      DecodeFirstEncodeChar(s[0], Encode(s[1..]));
      assert (head + Encode(s[1..]))[|head|..] == Encode(s[1..]);
      DecodeEncode(s[1..]);
      assert [s[0]] + s[1..] == s;
    }
  }

  /** One decoding step: a non-empty decodable buffer is its first character
      followed by the decoding of what remains. */
  lemma DecodeUnfold(b: seq<byte>)
    requires b != [] && Decode(b).Some?
    ensures DecodeFirst(b).Some?
    ensures Decode(b[DecodeFirst(b).value.1..]).Some?
    ensures Decode(b).value == [DecodeFirst(b).value.0] + Decode(b[DecodeFirst(b).value.1..]).value
  {
  }

  lemma EncodeCons(c: char, rest: string)
    ensures Encode([c] + rest) == EncodeChar(c) + Encode(rest)
  {
    assert ([c] + rest)[1..] == rest;
  }

  /** Canonicity: whatever `from_utf8` accepts is exactly the encoding of its result. */
  lemma {:induction false} EncodeDecode(b: seq<byte>)
    requires Decode(b).Some?
    ensures Encode(Decode(b).value) == b
  {
    if b != [] {
      DecodeUnfold(b);
      var c := DecodeFirst(b).value.0;
      var n := DecodeFirst(b).value.1;
      var rest := Decode(b[n..]).value;
      EncodeCharDecodeFirst(b);
      EncodeDecode(b[n..]);
      EncodeStep(b, c, n, rest);
    }
  }

  /** One step of `EncodeDecode`: a character's bytes followed by the rest's bytes. */
  lemma EncodeStep(b: seq<byte>, c: char, n: nat, rest: string)
    requires n <= |b| && EncodeChar(c) == b[..n] && Encode(rest) == b[n..]
    ensures Encode([c] + rest) == b
  {
    EncodeCons(c, rest);
    assert b == b[..n] + b[n..];
  }
}
