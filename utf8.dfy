/**
 * UTF-8 as the reader's `to_str` check accepts it: the well-formed byte
 * sequences of the Unicode standard (no overlong forms, no surrogates,
 * nothing above U+10FFFF). `Decode` is the check, `Encode` is what
 * `as_bytes` gives back when the broadcaster writes a payload.
 */
module Utf8 {
  import opened Common

  predicate InRange(b: byte, lo: int, hi: int) { lo <= b as int <= hi }

  /** A continuation byte 10xxxxxx. */
  predicate IsCont(b: byte) { InRange(b, 0x80, 0xBF) }

  /** Bounds on the second byte of a three-byte sequence, which exclude overlong forms and surrogates. */
  function Lo3(b0: int): int { if b0 == 0xE0 then 0xA0 else 0x80 }
  function Hi3(b0: int): int { if b0 == 0xED then 0x9F else 0xBF }

  /** Bounds on the second byte of a four-byte sequence, which exclude overlong forms and values above U+10FFFF. */
  function Lo4(b0: int): int { if b0 == 0xF0 then 0x90 else 0x80 }
  function Hi4(b0: int): int { if b0 == 0xF4 then 0x8F else 0xBF }

  /** Decodes the character at the front of `b`, returning it with the number of bytes it takes. */
  function DecodeOne(b: seq<byte>): (r: Option<(char, nat)>)
    ensures r.Some? ==> 1 <= r.value.1 <= 4 && r.value.1 <= |b|
  {
    if |b| == 0 then None
    else if b[0] < 0x80 then Some((b[0] as int as char, 1))
    else if 0xC2 <= b[0] <= 0xDF then Decode2(b)
    else if 0xE0 <= b[0] <= 0xEF then Decode3(b)
    else if 0xF0 <= b[0] <= 0xF4 then Decode4(b)
    else None
  }

  /** A two-byte sequence: lead byte C2..DF, then one continuation byte. */
  function Decode2(b: seq<byte>): (r: Option<(char, nat)>)
    requires |b| > 0 && 0xC2 <= b[0] <= 0xDF
    ensures r.Some? ==> r.value.1 == 2 <= |b|
  {
    if |b| >= 2 && IsCont(b[1]) then
      Some((((b[0] as int - 0xC0) * 64 + (b[1] as int - 0x80)) as char, 2))
    else None
  }

  /** A three-byte sequence: lead byte E0..EF, a second byte within `Lo3`..`Hi3`, a continuation byte. */
  function Decode3(b: seq<byte>): (r: Option<(char, nat)>)
    requires |b| > 0 && 0xE0 <= b[0] <= 0xEF
    ensures r.Some? ==> r.value.1 == 3 <= |b|
  {
    var b0 := b[0] as int;
    if |b| >= 3 && InRange(b[1], Lo3(b0), Hi3(b0)) && IsCont(b[2]) then
      Some((((b0 - 0xE0) * 4096 + ((b[1] as int - 0x80) * 64 + (b[2] as int - 0x80))) as char, 3))
    else None
  }

  /** A four-byte sequence: lead byte F0..F4, a second byte within `Lo4`..`Hi4`, two continuation bytes. */
  function Decode4(b: seq<byte>): (r: Option<(char, nat)>)
    requires |b| > 0 && 0xF0 <= b[0] <= 0xF4
    ensures r.Some? ==> r.value.1 == 4 <= |b|
  {
    var b0 := b[0] as int;
    if |b| >= 4 && InRange(b[1], Lo4(b0), Hi4(b0)) && IsCont(b[2]) && IsCont(b[3]) then
      Some((((b0 - 0xF0) * 0x40000
             + ((b[1] as int - 0x80) * 4096 + ((b[2] as int - 0x80) * 64 + (b[3] as int - 0x80)))) as char, 4))
    else None
  }

  /** The text `b` encodes, or None when `b` is not well-formed UTF-8. */
  function Decode(b: seq<byte>): (r: Option<string>)
    ensures r.Some? ==> |r.value| <= |b| <= 4 * |r.value|
    decreases |b|
  {
    if |b| == 0 then Some([])
    else
      match DecodeOne(b)
      case None => None
      case Some((c, k)) =>
        match Decode(b[k..])
        case None => None
        case Some(s) => Some([c] + s)
  }

  /** The UTF-8 encoding of one character. */
  function EncodeChar(c: char): (r: seq<byte>)
    ensures 1 <= |r| <= 4
  {
    var cp := c as int;
    if cp < 0x80 then
      [cp as byte]
    else if cp < 0x800 then
      [(0xC0 + cp / 64) as byte, (0x80 + cp % 64) as byte]
    else if cp < 0x10000 then
      var r := cp % 4096;
      [(0xE0 + cp / 4096) as byte, (0x80 + r / 64) as byte, (0x80 + r % 64) as byte]
    else
      var r := cp % 0x40000;
      var s := r % 4096;
      [(0xF0 + cp / 0x40000) as byte, (0x80 + r / 4096) as byte, (0x80 + s / 64) as byte, (0x80 + s % 64) as byte]
  }

  /** The UTF-8 encoding of a text. */
  function Encode(s: string): (r: seq<byte>)
    ensures |s| <= |r| <= 4 * |s|
  {
    if |s| == 0 then [] else EncodeChar(s[0]) + Encode(s[1..])
  }

  /** Decoding the front of an encoded character gives that character back, with its length. */
  lemma DecodeOneEncodeChar(c: char, rest: seq<byte>)
    ensures DecodeOne(EncodeChar(c) + rest) == Some((c, |EncodeChar(c)|))
  {
    var cp := c as int;
    if cp < 0x80 {
    } else if cp < 0x800 {
      Decodes2(c, rest);
    } else if cp < 0x10000 {
      Decodes3(c, rest);
    } else {
      Decodes4(c, rest);
    }
  }

  lemma Decodes2(c: char, rest: seq<byte>)
    requires 0x80 <= c as int < 0x800
    ensures Decode2(EncodeChar(c) + rest) == Some((c, 2))
  {
    var cp := c as int;
    var b := EncodeChar(c) + rest;
    assert b[0] as int == 0xC0 + cp / 64 && b[1] as int == 0x80 + cp % 64;
  }

  lemma Decodes3(c: char, rest: seq<byte>)
    requires 0x800 <= c as int < 0x10000
    ensures Decode3(EncodeChar(c) + rest) == Some((c, 3))
  {
    var cp := c as int;
    var r := cp % 4096;
    var b := EncodeChar(c) + rest;
    assert b[0] as int == 0xE0 + cp / 4096 && b[1] as int == 0x80 + r / 64 && b[2] as int == 0x80 + r % 64;
  }

  lemma Decodes4(c: char, rest: seq<byte>)
    requires 0x10000 <= c as int
    ensures Decode4(EncodeChar(c) + rest) == Some((c, 4))
  {
    var cp := c as int;
    var r := cp % 0x40000;
    var s := r % 4096;
    var b := EncodeChar(c) + rest;
    assert b[0] as int == 0xF0 + cp / 0x40000 && b[1] as int == 0x80 + r / 4096;
    assert b[2] as int == 0x80 + s / 64 && b[3] as int == 0x80 + s % 64;
  }

  /** Splitting a code point back into its six-bit groups recovers the bytes it was assembled from. */
  lemma Groups2(x: int, y: int)
    requires 0 <= y < 64
    ensures (x * 64 + y) / 64 == x && (x * 64 + y) % 64 == y
  {
  }

  lemma Groups3(x: int, y: int, z: int)
    requires 0 <= y < 64 && 0 <= z < 64
    ensures (x * 4096 + (y * 64 + z)) / 4096 == x
    ensures (x * 4096 + (y * 64 + z)) % 4096 == y * 64 + z
  {
  }

  lemma Groups4(w: int, x: int, y: int, z: int)
    requires 0 <= x < 64 && 0 <= y < 64 && 0 <= z < 64
    ensures (w * 0x40000 + (x * 4096 + (y * 64 + z))) / 0x40000 == w
    ensures (w * 0x40000 + (x * 4096 + (y * 64 + z))) % 0x40000 == x * 4096 + (y * 64 + z)
  {
  }

  lemma Encodes2(b: seq<byte>)
    requires |b| > 0 && 0xC2 <= b[0] <= 0xDF && Decode2(b).Some?
    ensures b[..2] == EncodeChar(Decode2(b).value.0)
  {
    var x, y := b[0] as int - 0xC0, b[1] as int - 0x80;
    Groups2(x, y);
    assert Decode2(b).value.0 as int == x * 64 + y;
    assert b[..2] == [b[0], b[1]];
  }

  lemma Encodes3(b: seq<byte>)
    requires |b| > 0 && 0xE0 <= b[0] <= 0xEF && Decode3(b).Some?
    ensures b[..3] == EncodeChar(Decode3(b).value.0)
  {
    var x, y, z := b[0] as int - 0xE0, b[1] as int - 0x80, b[2] as int - 0x80;
    Groups3(x, y, z);
    Groups2(y, z);
    assert Decode3(b).value.0 as int == x * 4096 + (y * 64 + z);
    assert b[..3] == [b[0], b[1], b[2]];
  }

  lemma Encodes4(b: seq<byte>)
    requires |b| > 0 && 0xF0 <= b[0] <= 0xF4 && Decode4(b).Some?
    ensures b[..4] == EncodeChar(Decode4(b).value.0)
  {
    var w, x, y, z := b[0] as int - 0xF0, b[1] as int - 0x80, b[2] as int - 0x80, b[3] as int - 0x80;
    Groups4(w, x, y, z);
    Groups3(x, y, z);
    Groups2(y, z);
    assert Decode4(b).value.0 as int == w * 0x40000 + (x * 4096 + (y * 64 + z));
    assert b[..4] == [b[0], b[1], b[2], b[3]];
  }

  /** Whatever `DecodeOne` accepts is exactly the encoding of the character it returns. */
  lemma DecodeOneIsEncoding(b: seq<byte>)
    requires DecodeOne(b).Some?
    ensures b[..DecodeOne(b).value.1] == EncodeChar(DecodeOne(b).value.0)
  {
    if b[0] < 0x80 {
      assert b[..1] == [b[0]];
    } else if 0xC2 <= b[0] <= 0xDF {
      Encodes2(b);
    } else if 0xE0 <= b[0] <= 0xEF {
      Encodes3(b);
    } else {
      Encodes4(b);
    }
  }

  lemma EncodeCons(c: char, s: string)
    ensures Encode([c] + s) == EncodeChar(c) + Encode(s)
  {
    assert ([c] + s)[0] == c && ([c] + s)[1..] == s;
  }

  /** One unfolding of `Decode` on a well-formed, non-empty input. */
  lemma DecodeCons(b: seq<byte>)
    requires |b| > 0 && Decode(b).Some?
    ensures DecodeOne(b).Some? && Decode(b[DecodeOne(b).value.1..]).Some?
    ensures Decode(b).value == [DecodeOne(b).value.0] + Decode(b[DecodeOne(b).value.1..]).value
  {
  }

  /** Decoding an encoded text gives the text back. */
  lemma {:induction false} DecodeEncode(s: string)
    ensures Decode(Encode(s)) == Some(s)
  {
    if |s| > 0 {
      var e := EncodeChar(s[0]);
      DecodeOneEncodeChar(s[0], Encode(s[1..]));
      assert (e + Encode(s[1..]))[|e|..] == Encode(s[1..]);
      DecodeEncode(s[1..]);
      assert [s[0]] + s[1..] == s;
    }
  }

  /** Encoding a decoded text gives the original bytes back: `Decode` is injective. */
  lemma {:induction false} EncodeDecode(b: seq<byte>)
    requires Decode(b).Some?
    ensures Encode(Decode(b).value) == b
    decreases |b|
  {
    if |b| > 0 {
      DecodeCons(b);
      var (c, k) := DecodeOne(b).value;
      var rest := Decode(b[k..]).value;
      calc {
        Encode(Decode(b).value);
        Encode([c] + rest);
        { EncodeCons(c, rest); }
        EncodeChar(c) + Encode(rest);
        { EncodeDecode(b[k..]); }
        EncodeChar(c) + b[k..];
        { DecodeOneIsEncoding(b); }
        b[..k] + b[k..];
        b;
      }
    }
  }

  /** A text decoded from bytes with no zero byte holds no NUL character. */
  lemma {:induction false} DecodeNoNul(b: seq<byte>)
    requires Decode(b).Some? && 0 !in b
    ensures '\0' !in Decode(b).value
    decreases |b|
  {
    if |b| > 0 {
      var (c, k) := DecodeOne(b).value;
      assert b[0] in b;
      assert forall x :: x in b[k..] ==> x in b;
      DecodeNoNul(b[k..]);
    }
  }
}
