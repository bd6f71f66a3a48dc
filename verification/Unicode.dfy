/** Text as UTF-8 (section 3 of RFC 3629). */
module Unicode {
  import opened Memory

  predicate Continuation(b: Byte) { 0x80 <= b < 0xC0 }

  /** The check on a byte string, by the table in section 4 of RFC 3629. */
  predicate Utf8(b: seq<Byte>) {
    if b == [] then true
    else if b[0] < 0x80 then Utf8(b[1..])
    else if 0xC2 <= b[0] < 0xE0 then |b| >= 2 && Continuation(b[1]) && Utf8(b[2..])
    else if 0xE0 <= b[0] < 0xF0 then
      && |b| >= 3 && Continuation(b[1]) && Continuation(b[2])
      && (b[0] == 0xE0 ==> b[1] >= 0xA0) && (b[0] == 0xED ==> b[1] < 0xA0) && Utf8(b[3..])
    else
      && 0xF0 <= b[0] < 0xF5 && |b| >= 4 && Continuation(b[1]) && Continuation(b[2]) && Continuation(b[3])
      && (b[0] == 0xF0 ==> b[1] >= 0x90) && (b[0] == 0xF4 ==> b[1] < 0x90) && Utf8(b[4..])
  }

  /** A code point that is not a surrogate. */
  type Scalar = c: int | 0 <= c < 0xD800 || 0xE000 <= c < 0x11_0000

  function EncodeScalar(c: Scalar): (b: seq<Byte>)
    ensures 1 <= |b| <= 4
  {
    if c < 0x80 then [c]
    else if c < 0x800 then [0xC0 + c / 64, 0x80 + c % 64]
    else if c < 0x1_0000 then [0xE0 + c / 4096, 0x80 + c / 64 % 64, 0x80 + c % 64]
    else [0xF0 + c / 0x4_0000, 0x80 + c / 4096 % 64, 0x80 + c / 64 % 64, 0x80 + c % 64]
  }

  function EncodeText(text: seq<Scalar>): seq<Byte> {
    if text == [] then [] else EncodeScalar(text[0]) + EncodeText(text[1..])
  }

  lemma ScalarThen(c: Scalar, rest: seq<Byte>)
    ensures Utf8(EncodeScalar(c) + rest) <==> Utf8(rest)
  {
    var e := EncodeScalar(c);
    assert (e + rest)[|e|..] == rest;
  }

  lemma {:induction false} EncodedIsUtf8(text: seq<Scalar>)
    ensures Utf8(EncodeText(text))
  {
    if text != [] {
      EncodedIsUtf8(text[1..]);
      ScalarThen(text[0], EncodeText(text[1..]));
    }
  }

  lemma TwoBytes(x: int, y: int) returns (c: Scalar)
    requires 0xC2 <= x < 0xE0 && 0x80 <= y < 0xC0
    ensures EncodeScalar(c) == [x, y]
  {
    c := (x - 0xC0) * 64 + (y - 0x80);
    assert c / 64 == x - 0xC0;
  }

  lemma ThreeBytes(x: int, y: int, z: int) returns (c: Scalar)
    requires 0xE0 <= x < 0xF0 && 0x80 <= y < 0xC0 && 0x80 <= z < 0xC0
    requires (x == 0xE0 ==> y >= 0xA0) && (x == 0xED ==> y < 0xA0)
    ensures EncodeScalar(c) == [x, y, z]
  {
    var d := (x - 0xE0) * 64 + (y - 0x80);
    c := d * 64 + (z - 0x80);
    assert c / 64 == d && d / 64 == x - 0xE0 && c / 4096 == d / 64;
  }

  lemma FourBytes(x: int, y: int, z: int, w: int) returns (c: Scalar)
    requires 0xF0 <= x < 0xF5 && 0x80 <= y < 0xC0 && 0x80 <= z < 0xC0 && 0x80 <= w < 0xC0
    requires (x == 0xF0 ==> y >= 0x90) && (x == 0xF4 ==> y < 0x90)
    ensures EncodeScalar(c) == [x, y, z, w]
  {
    var d := (x - 0xF0) * 64 + (y - 0x80);
    var e := d * 64 + (z - 0x80);
    c := e * 64 + (w - 0x80);
    assert c / 64 == e && e / 64 == d && d / 64 == x - 0xF0 && c / 4096 == e / 64 && c / 0x4_0000 == d / 64;
  }

  /** The first scalar of a checked byte string. */
  lemma FirstScalar(b: seq<Byte>) returns (c: Scalar)
    requires b != [] && Utf8(b)
    ensures EncodeScalar(c) <= b && Utf8(b[|EncodeScalar(c)|..])
  {
    if b[0] < 0x80 {
      c := b[0];
    } else {
      hide EncodeScalar;
      if b[0] < 0xE0 {
        c := TwoBytes(b[0], b[1]);
      } else if b[0] < 0xF0 {
        c := ThreeBytes(b[0], b[1], b[2]);
      } else {
        c := FourBytes(b[0], b[1], b[2], b[3]);
      }
    }
  }

  lemma {:induction false} Utf8IsEncoded(b: seq<Byte>) returns (text: seq<Scalar>)
    requires Utf8(b)
    ensures EncodeText(text) == b
    decreases |b|
  {
    if b == [] {
      return [];
    }
    var c := FirstScalar(b);
    var e := EncodeScalar(c);
    var rest := Utf8IsEncoded(b[|e|..]);
    assert b == e + b[|e|..] && ([c] + rest)[1..] == rest;
    return [c] + rest;
  }

  /** The check accepts exactly the encodings of sequences of scalar values. */
  lemma Utf8Iff(b: seq<Byte>)
    ensures Utf8(b) <==> exists text: seq<Scalar> :: EncodeText(text) == b
  {
    if Utf8(b) { var text := Utf8IsEncoded(b); }
    forall text: seq<Scalar> | EncodeText(text) == b ensures Utf8(b) { EncodedIsUtf8(text); }
  }

  /** ASCII characters are their own encoding. */
  function Ascii(text: string): seq<Byte> {
    seq(|text|, i requires 0 <= i < |text| => text[i] as int % 128)
  }
}
