/**
 * Base64 with the URL- and filename-safe alphabet and `=` padding (section 5 of
 * RFC 4648), decoded the way the `base64` crate's `GeneralPurpose::new(&URL_SAFE, PAD)`
 * engine decodes: the input must be padded canonically (its length is a multiple
 * of four, padding only in the last quantum) and the unused low bits of the last
 * symbol must be zero.
 */
module Base64Url {
  import opened Wrappers
  import opened Bytes

  /** The padding byte `=`. */
  const PAD: byte := 61

  /** The symbol for a 6-bit value: A-Z, a-z, 0-9, then `-` and `_`. */
  function Symbol(v: int): (c: byte)
    requires 0 <= v < 64
    ensures c != PAD
  {
    if v < 26 then (65 + v) as byte
    else if v < 52 then (97 + v - 26) as byte
    else if v < 62 then (48 + v - 52) as byte
    else if v == 62 then 45
    else 95
  }

  /** The 6-bit value of a symbol, or None for a byte outside the alphabet. */
  function SymbolValue(c: byte): (r: Option<int>)
    ensures r.Some? ==> 0 <= r.value < 64 && Symbol(r.value) == c
    ensures c == PAD ==> r.None?
  {
    if 65 <= c <= 90 then Some(c as int - 65)
    else if 97 <= c <= 122 then Some(c as int - 97 + 26)
    else if 48 <= c <= 57 then Some(c as int - 48 + 52)
    else if c == 45 then Some(62)
    else if c == 95 then Some(63)
    else None
  }

  lemma SymbolValueSymbol(v: int)
    requires 0 <= v < 64
    ensures SymbolValue(Symbol(v)) == Some(v)
  {
  }

  /** Three bytes as four symbols. */
  function EncodeGroup(x: byte, y: byte, z: byte): seq<byte> {
    [Symbol(x as int / 4), Symbol(x as int % 4 * 16 + y as int / 16),
     Symbol(y as int % 16 * 4 + z as int / 64), Symbol(z as int % 64)]
  }

  /** The last quantum of an input whose length leaves one byte over: two symbols, `==`. */
  function EncodeOne(x: byte): seq<byte> {
    [Symbol(x as int / 4), Symbol(x as int % 4 * 16), PAD, PAD]
  }

  /** The last quantum of an input whose length leaves two bytes over: three symbols, `=`. */
  function EncodeTwo(x: byte, y: byte): seq<byte> {
    [Symbol(x as int / 4), Symbol(x as int % 4 * 16 + y as int / 16), Symbol(y as int % 16 * 4), PAD]
  }

  /** Padded base64url encoding. */
  function Encode(b: seq<byte>): (s: seq<byte>)
    ensures |s| % 4 == 0
    decreases |b|
  {
    if |b| == 0 then []
    else if |b| == 1 then EncodeOne(b[0])
    else if |b| == 2 then EncodeTwo(b[0], b[1])
    else EncodeGroup(b[0], b[1], b[2]) + Encode(b[3..])
  }

  /** Four symbols as three bytes. */
  function DecodeGroup(a: byte, b: byte, c: byte, d: byte): Option<seq<byte>> {
    match (SymbolValue(a), SymbolValue(b), SymbolValue(c), SymbolValue(d))
    case (Some(v0), Some(v1), Some(v2), Some(v3)) =>
      Some([(v0 * 4 + v1 / 16) as byte, (v1 % 16 * 16 + v2 / 4) as byte, (v2 % 4 * 64 + v3) as byte])
    case _ => None
  }

  /** The final quantum, which may carry one or two padding bytes; the bits that the
      padding leaves unused must be zero. */
  function DecodeLast(a: byte, b: byte, c: byte, d: byte): Option<seq<byte>> {
    if d != PAD then DecodeGroup(a, b, c, d)
    else if c == PAD then
      match (SymbolValue(a), SymbolValue(b))
      case (Some(v0), Some(v1)) =>
        if v1 % 16 == 0 then Some([(v0 * 4 + v1 / 16) as byte]) else None
      case _ => None
    else
      match (SymbolValue(a), SymbolValue(b), SymbolValue(c))
      case (Some(v0), Some(v1), Some(v2)) =>
        if v2 % 4 == 0 then Some([(v0 * 4 + v1 / 16) as byte, (v1 % 16 * 16 + v2 / 4) as byte]) else None
      case _ => None
  }

  /** Padded, canonical base64url decoding; None is the crate's `DecodeError`. */
  function Decode(s: seq<byte>): (r: Option<seq<byte>>)
    ensures r.Some? ==> |s| % 4 == 0 && 4 * |r.value| <= 3 * |s|
    decreases |s|
  {
    if |s| == 0 then Some([])
    else if |s| < 4 then None
    else if |s| == 4 then DecodeLast(s[0], s[1], s[2], s[3])
    else
      match DecodeGroup(s[0], s[1], s[2], s[3])
      case None => None
      case Some(head) =>
        match Decode(s[4..])
        case None => None
        case Some(tail) => Some(head + tail)
  }

  // Arithmetic of regrouping 8-bit bytes into 6-bit symbols and back.

  lemma RegroupBytes(x: int, y: int, z: int)
    requires 0 <= x < 256 && 0 <= y < 256 && 0 <= z < 256
    ensures x / 4 * 4 + (x % 4 * 16 + y / 16) / 16 == x
    ensures (x % 4 * 16 + y / 16) % 16 * 16 + (y % 16 * 4 + z / 64) / 4 == y
    ensures (y % 16 * 4 + z / 64) % 4 * 64 + z % 64 == z
  {
    assert (x % 4 * 16 + y / 16) / 16 == x % 4;
    assert (x % 4 * 16 + y / 16) % 16 == y / 16;
    assert (y % 16 * 4 + z / 64) / 4 == y % 16;
    assert (y % 16 * 4 + z / 64) % 4 == z / 64;
  }

  lemma RegroupSymbols(v0: int, v1: int, v2: int, v3: int)
    requires 0 <= v0 < 64 && 0 <= v1 < 64 && 0 <= v2 < 64 && 0 <= v3 < 64
    ensures var x, y, z := v0 * 4 + v1 / 16, v1 % 16 * 16 + v2 / 4, v2 % 4 * 64 + v3;
      && x / 4 == v0 && x % 4 * 16 + y / 16 == v1
      && y % 16 * 4 + z / 64 == v2 && z % 64 == v3
  {
    var x, y, z := v0 * 4 + v1 / 16, v1 % 16 * 16 + v2 / 4, v2 % 4 * 64 + v3;
    assert x / 4 == v0 && x % 4 == v1 / 16;
    assert y / 16 == v1 % 16 && y % 16 == v2 / 4;
    assert z / 64 == v2 % 4 && z % 64 == v3;
  }

  lemma DecodeGroupEncodeGroup(x: byte, y: byte, z: byte)
    ensures var e := EncodeGroup(x, y, z); DecodeGroup(e[0], e[1], e[2], e[3]) == Some([x, y, z])
  {
    var v0, v1, v2, v3 := x as int / 4, x as int % 4 * 16 + y as int / 16, y as int % 16 * 4 + z as int / 64, z as int % 64;
    SymbolValueSymbol(v0); SymbolValueSymbol(v1); SymbolValueSymbol(v2); SymbolValueSymbol(v3);
    RegroupBytes(x as int, y as int, z as int);
  }

  lemma DecodeLastEncodeOne(x: byte)
    ensures var e := EncodeOne(x); DecodeLast(e[0], e[1], e[2], e[3]) == Some([x])
  {
    var v0, v1 := x as int / 4, x as int % 4 * 16;
    SymbolValueSymbol(v0); SymbolValueSymbol(v1);
    RegroupBytes(x as int, 0, 0);
  }

  lemma DecodeLastEncodeTwo(x: byte, y: byte)
    ensures var e := EncodeTwo(x, y); DecodeLast(e[0], e[1], e[2], e[3]) == Some([x, y])
  {
    var v0, v1, v2 := x as int / 4, x as int % 4 * 16 + y as int / 16, y as int % 16 * 4;
    SymbolValueSymbol(v0); SymbolValueSymbol(v1); SymbolValueSymbol(v2);
    RegroupBytes(x as int, y as int, 0);
  }

  lemma DecodeLastEncodeGroup(x: byte, y: byte, z: byte)
    ensures var e := EncodeGroup(x, y, z); DecodeLast(e[0], e[1], e[2], e[3]) == Some([x, y, z])
  {
    DecodeGroupEncodeGroup(x, y, z);
  }

  /** Encoding takes the first three bytes as one quantum. */
  lemma EncodeCons(b: seq<byte>)
    requires |b| >= 3
    ensures Encode(b) == EncodeGroup(b[0], b[1], b[2]) + Encode(b[3..])
  {
  }

  /** A non-empty input has a non-empty encoding. */
  lemma EncodeNonEmpty(b: seq<byte>)
    requires b != []
    ensures |Encode(b)| >= 4
  {
  }

  /** Decoding a full quantum followed by more symbols. */
  lemma DecodeConcat(q: seq<byte>, rest: seq<byte>, h: seq<byte>, t: seq<byte>)
    requires |q| == 4 && rest != []
    requires DecodeGroup(q[0], q[1], q[2], q[3]) == Some(h) && Decode(rest) == Some(t)
    ensures Decode(q + rest) == Some(h + t)
  {
    var e := q + rest;
    assert e[0] == q[0] && e[1] == q[1] && e[2] == q[2] && e[3] == q[3];
    assert e[4..] == rest;
  }

  /** One step of the round trip for inputs longer than one quantum. */
  lemma DecodeEncodeStep(b: seq<byte>)
    requires |b| > 3 && Decode(Encode(b[3..])) == Some(b[3..])
    ensures Decode(Encode(b)) == Some(b)
  {
    var head := EncodeGroup(b[0], b[1], b[2]);
    EncodeCons(b);
    EncodeNonEmpty(b[3..]);
    DecodeGroupEncodeGroup(b[0], b[1], b[2]);
    DecodeConcat(head, Encode(b[3..]), [b[0], b[1], b[2]], b[3..]);
    SplitThree(b);
  }

  lemma SplitThree(b: seq<byte>)
    requires |b| >= 3
    ensures [b[0], b[1], b[2]] + b[3..] == b
  {
  }

  /** Round trip: decoding an encoding gives the bytes back. */
  lemma {:induction false} DecodeEncode(b: seq<byte>)
    ensures Decode(Encode(b)) == Some(b)
    decreases |b|
  {
    if |b| == 1 {
      DecodeLastEncodeOne(b[0]);
      assert [b[0]] == b;
    } else if |b| == 2 {
      DecodeLastEncodeTwo(b[0], b[1]);
      assert [b[0], b[1]] == b;
    } else if |b| == 3 {
      assert Encode(b) == EncodeGroup(b[0], b[1], b[2]);
      DecodeLastEncodeGroup(b[0], b[1], b[2]);
      assert [b[0], b[1], b[2]] == b;
    } else if |b| > 3 {
      DecodeEncode(b[3..]);
      DecodeEncodeStep(b);
    }
  }

  lemma EncodeGroupDecodeGroup(a: byte, b: byte, c: byte, d: byte)
    requires DecodeGroup(a, b, c, d).Some?
    ensures var h := DecodeGroup(a, b, c, d).value; |h| == 3 && EncodeGroup(h[0], h[1], h[2]) == [a, b, c, d]
  {
    RegroupSymbols(SymbolValue(a).value, SymbolValue(b).value, SymbolValue(c).value, SymbolValue(d).value);
  }

  lemma EncodeDecodeLastOne(a: byte, b: byte, c: byte, d: byte)
    requires d == PAD && c == PAD && DecodeLast(a, b, c, d).Some?
    ensures Encode(DecodeLast(a, b, c, d).value) == [a, b, c, d]
  {
    var v0, v1 := SymbolValue(a).value, SymbolValue(b).value;
    var x := (v0 * 4 + v1 / 16) as byte;
    assert DecodeLast(a, b, c, d).value == [x];
    RegroupSymbols(v0, v1, 0, 0);
    assert Encode([x]) == EncodeOne(x);
  }

  lemma EncodeDecodeLastTwo(a: byte, b: byte, c: byte, d: byte)
    requires d == PAD && c != PAD && DecodeLast(a, b, c, d).Some?
    ensures Encode(DecodeLast(a, b, c, d).value) == [a, b, c, d]
  {
    var v0, v1, v2 := SymbolValue(a).value, SymbolValue(b).value, SymbolValue(c).value;
    var x, y := (v0 * 4 + v1 / 16) as byte, (v1 % 16 * 16 + v2 / 4) as byte;
    assert DecodeLast(a, b, c, d).value == [x, y];
    RegroupSymbols(v0, v1, v2, 0);
    assert Encode([x, y]) == EncodeTwo(x, y);
  }

  lemma EncodeDecodeLastFull(a: byte, b: byte, c: byte, d: byte)
    requires d != PAD && DecodeLast(a, b, c, d).Some?
    ensures Encode(DecodeLast(a, b, c, d).value) == [a, b, c, d]
  {
    var h := DecodeGroup(a, b, c, d).value;
    EncodeGroupDecodeGroup(a, b, c, d);
    assert Encode(h) == EncodeGroup(h[0], h[1], h[2]) + Encode(h[3..]);
  }

  lemma EncodeDecodeLast(a: byte, b: byte, c: byte, d: byte)
    requires DecodeLast(a, b, c, d).Some?
    ensures Encode(DecodeLast(a, b, c, d).value) == [a, b, c, d]
  {
    if d != PAD {
      EncodeDecodeLastFull(a, b, c, d);
    } else if c == PAD {
      EncodeDecodeLastOne(a, b, c, d);
    } else {
      EncodeDecodeLastTwo(a, b, c, d);
    }
  }

  /** One decoding step for an input longer than one quantum. */
  lemma DecodeUnfold(s: seq<byte>)
    requires |s| > 4 && Decode(s).Some?
    ensures DecodeGroup(s[0], s[1], s[2], s[3]).Some? && Decode(s[4..]).Some?
    ensures Decode(s).value == DecodeGroup(s[0], s[1], s[2], s[3]).value + Decode(s[4..]).value
  {
  }

  /** One step of canonicity for inputs longer than one quantum. */
  lemma EncodeDecodeStep(s: seq<byte>)
    requires |s| > 4 && Decode(s).Some?
    requires Encode(Decode(s[4..]).value) == s[4..]
    ensures Encode(Decode(s).value) == s
  {
    DecodeUnfold(s);
    var head := DecodeGroup(s[0], s[1], s[2], s[3]).value;
    var tail := Decode(s[4..]).value;
    EncodeGroupDecodeGroup(s[0], s[1], s[2], s[3]);
    assert (head + tail)[..3] == head && (head + tail)[3..] == tail;
    EncodeCons(head + tail);
    assert s == [s[0], s[1], s[2], s[3]] + s[4..];
  }

  /** Canonicity: whatever the decoder accepts is exactly the encoding of what it returns,
      so every byte string has a single accepted spelling. */
  lemma {:induction false} EncodeDecode(s: seq<byte>)
    requires Decode(s).Some?
    ensures Encode(Decode(s).value) == s
    decreases |s|
  {
    if |s| == 4 {
      EncodeDecodeLast(s[0], s[1], s[2], s[3]);
      assert [s[0], s[1], s[2], s[3]] == s;
    } else if |s| > 4 {
      DecodeUnfold(s);
      EncodeDecode(s[4..]);
      EncodeDecodeStep(s);
    }
  }
}
