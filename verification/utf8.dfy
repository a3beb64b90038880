/** UTF-8 encoding of strings, the conversion Go performs for `[]byte(s)`
    on the valid UTF-8 strings the JSON decoder produces. */
module Utf8 {
  import opened Wrappers
  import opened Bytes

  /** A code point Dafny accepts as a `char`: a Unicode scalar value. */
  predicate IsScalar(n: int) {
    0 <= n < 0xD800 || 0xE000 <= n < 0x11_0000
  }

  predicate IsContinuation(b: Byte) {
    0x80 <= b < 0xC0
  }

  /** The one to four bytes that encode a single character. */
  function EncodeChar(c: char): (b: Bytes)
    ensures 1 <= |b| <= 4
    ensures |b| == 1 <==> (c as int) < 0x80
    ensures forall i :: 1 <= i < |b| ==> IsContinuation(b[i])
  {
    var n := c as int;
    if n < 0x80 then
      [n as Byte]
    else if n < 0x800 then
      [(0xC0 + n / 0x40) as Byte, (0x80 + n % 0x40) as Byte]
    else if n < 0x1_0000 then
      [(0xE0 + n / 0x1000) as Byte, (0x80 + (n / 0x40) % 0x40) as Byte, (0x80 + n % 0x40) as Byte]
    else
      [(0xF0 + n / 0x4_0000) as Byte, (0x80 + (n / 0x1000) % 0x40) as Byte,
       (0x80 + (n / 0x40) % 0x40) as Byte, (0x80 + n % 0x40) as Byte]
  }

  /** The bytes of a string: the encodings of its characters, in order. */
  function Encode(s: string): (b: Bytes)
    ensures |s| <= |b| <= 4 * |s|
  {
    if s == [] then [] else EncodeChar(s[0]) + Encode(s[1..])
  }

  /** Encoding is a homomorphism: the bytes of a concatenation are the
      concatenation of the bytes. */
  lemma {:induction false} EncodeAppend(a: string, b: string)
    ensures Encode(a + b) == Encode(a) + Encode(b)
  {
    if a == [] {
      assert a + b == b;
    } else {
      assert (a + b)[0] == a[0];
      assert (a + b)[1..] == a[1..] + b;
      EncodeAppend(a[1..], b);
    }
  }

  /** One decoded character and the number of bytes it occupied. */
  datatype Decoded = Decoded(c: char, len: nat)

  /** Decodes the character at the front of `b`, if the leading bytes are a
      well-formed UTF-8 sequence: the right continuation bytes, a scalar
      value, and the shortest form for it (overlong sequences such as
      `C0 80` for NUL are rejected). */
  function DecodeChar(b: Bytes): (r: Option<Decoded>)
    requires |b| > 0
    ensures r.Some? ==> 1 <= r.value.len <= |b| && r.value.len <= 4
  {
    var b0 := b[0] as int;
    if b0 < 0x80 then
      Some(Decoded(b0 as char, 1))
    else if 0xC0 <= b0 < 0xE0 then
      if |b| < 2 || !IsContinuation(b[1]) then None
      else
        var n := (b0 - 0xC0) * 0x40 + (b[1] as int - 0x80);
        if 0x80 <= n && IsScalar(n) then Some(Decoded(n as char, 2)) else None
    else if 0xE0 <= b0 < 0xF0 then
      if |b| < 3 || !IsContinuation(b[1]) || !IsContinuation(b[2]) then None
      else
        var n := (b0 - 0xE0) * 0x1000 + (b[1] as int - 0x80) * 0x40 + (b[2] as int - 0x80);
        if 0x800 <= n && IsScalar(n) then Some(Decoded(n as char, 3)) else None
    else if 0xF0 <= b0 < 0xF8 then
      if |b| < 4 || !IsContinuation(b[1]) || !IsContinuation(b[2]) || !IsContinuation(b[3]) then None
      else
        var n := (b0 - 0xF0) * 0x4_0000 + (b[1] as int - 0x80) * 0x1000
                 + (b[2] as int - 0x80) * 0x40 + (b[3] as int - 0x80);
        if 0x1_0000 <= n && IsScalar(n) then Some(Decoded(n as char, 4)) else None
    else
      None
  }

  /** Decodes a whole byte sequence, or fails at the first malformed character. */
  function Decode(b: Bytes): (r: Option<string>)
    decreases |b|
  {
    if b == [] then Some([])
    else
      match DecodeChar(b)
      case None => None
      case Some(d) =>
        match Decode(b[d.len..])
        case None => None
        case Some(rest) => Some([d.c] + rest)
  }

  /** Decoding the encoding of one character, whatever follows it, gives
      back that character and the encoding's length. */
  lemma DecodeEncodeChar(c: char, rest: Bytes)
    ensures DecodeChar(EncodeChar(c) + rest) == Some(Decoded(c, |EncodeChar(c)|))
  {
    var n := c as int;
    if n < 0x80 {
    } else if n < 0x800 {
      DecodeTwo(c, rest);
    } else if n < 0x1_0000 {
      DecodeThree(c, rest);
    } else {
      DecodeFour(c, rest);
    }
  }

  lemma DecodeTwo(c: char, rest: Bytes)
    requires 0x80 <= c as int < 0x800
    ensures DecodeChar(EncodeChar(c) + rest) == Some(Decoded(c, 2))
  {
    var n := c as int;
    var b := EncodeChar(c) + rest;
    var q, r := n / 0x40, n % 0x40;
    assert n == q * 0x40 + r;
    assert b[0] as int == 0xC0 + q;
    assert b[1] as int == 0x80 + r;
  }

  lemma DecodeThree(c: char, rest: Bytes)
    requires 0x800 <= c as int < 0x1_0000
    ensures DecodeChar(EncodeChar(c) + rest) == Some(Decoded(c, 3))
  {
    var n := c as int;
    var b := EncodeChar(c) + rest;
    var q2, r2 := n / 0x1000, n % 0x1000;
    var q1, r1 := r2 / 0x40, r2 % 0x40;
    assert n == q2 * 0x1000 + r2;
    assert r2 == q1 * 0x40 + r1;
    assert n / 0x40 == q2 * 0x40 + q1;
    assert (n / 0x40) % 0x40 == q1;
    assert n % 0x40 == r1;
    assert b[0] as int == 0xE0 + q2;
    assert b[1] as int == 0x80 + q1;
    assert b[2] as int == 0x80 + r1;
  }

  lemma DecodeFour(c: char, rest: Bytes)
    requires 0x1_0000 <= c as int
    ensures DecodeChar(EncodeChar(c) + rest) == Some(Decoded(c, 4))
  {
    var n := c as int;
    var b := EncodeChar(c) + rest;
    var q3, r3 := n / 0x4_0000, n % 0x4_0000;
    var q2, r2 := r3 / 0x1000, r3 % 0x1000;
    var q1, r1 := r2 / 0x40, r2 % 0x40;
    assert n == q3 * 0x4_0000 + r3;
    assert r3 == q2 * 0x1000 + r2;
    assert r2 == q1 * 0x40 + r1;
    assert n / 0x1000 == q3 * 0x40 + q2;
    assert (n / 0x1000) % 0x40 == q2;
    assert n / 0x40 == q3 * 0x1000 + q2 * 0x40 + q1;
    assert (n / 0x40) % 0x40 == q1;
    assert n % 0x40 == r1;
    assert b[0] as int == 0xF0 + q3;
    assert b[1] as int == 0x80 + q2;
    assert b[2] as int == 0x80 + q1;
    assert b[3] as int == 0x80 + r1;
  }

  /** The decoder accepts only shortest forms: the bytes it consumes for a
      character are exactly that character's encoding. */
  lemma EncodeDecodeChar(b: Bytes)
    requires |b| > 0
    ensures DecodeChar(b).Some? ==> b[..DecodeChar(b).value.len] == EncodeChar(DecodeChar(b).value.c)
  {
    var r := DecodeChar(b);
    if r.Some? {
      var b0 := b[0] as int;
      if 0xC0 <= b0 < 0xE0 {
        EncodeDecodeTwo(b);
      } else if 0xE0 <= b0 < 0xF0 {
        EncodeDecodeThree(b);
      } else if 0xF0 <= b0 {
        EncodeDecodeFour(b);
      }
    }
  }

  lemma EncodeDecodeTwo(b: Bytes)
    requires |b| >= 2 && 0xC0 <= b[0] < 0xE0 && DecodeChar(b).Some?
    ensures b[..2] == EncodeChar(DecodeChar(b).value.c)
  {
    var x0, x1 := b[0] as int - 0xC0, b[1] as int - 0x80;
    var n := x0 * 0x40 + x1;
    assert DecodeChar(b).value.c as int == n;
    assert n / 0x40 == x0 && n % 0x40 == x1;
  }

  lemma EncodeDecodeThree(b: Bytes)
    requires |b| >= 3 && 0xE0 <= b[0] < 0xF0 && DecodeChar(b).Some?
    ensures b[..3] == EncodeChar(DecodeChar(b).value.c)
  {
    var x0, x1, x2 := b[0] as int - 0xE0, b[1] as int - 0x80, b[2] as int - 0x80;
    var n := x0 * 0x1000 + x1 * 0x40 + x2;
    assert DecodeChar(b).value.c as int == n;
    assert n / 0x40 == x0 * 0x40 + x1;
    assert n / 0x1000 == x0 && (n / 0x40) % 0x40 == x1 && n % 0x40 == x2;
  }

  lemma EncodeDecodeFour(b: Bytes)
    requires |b| >= 4 && 0xF0 <= b[0] && DecodeChar(b).Some?
    ensures b[..4] == EncodeChar(DecodeChar(b).value.c)
  {
    var x0, x1, x2, x3 := b[0] as int - 0xF0, b[1] as int - 0x80, b[2] as int - 0x80, b[3] as int - 0x80;
    var n := x0 * 0x4_0000 + x1 * 0x1000 + x2 * 0x40 + x3;
    assert DecodeChar(b).value.c as int == n;
    assert n / 0x40 == x0 * 0x1000 + x1 * 0x40 + x2;
    assert n / 0x1000 == x0 * 0x40 + x1;
    assert n / 0x4_0000 == x0 && (n / 0x1000) % 0x40 == x1 && (n / 0x40) % 0x40 == x2 && n % 0x40 == x3;
  }

  /** An overlong encoding of NUL is refused. */
  lemma OverlongRejected()
    ensures DecodeChar([0xC0, 0x80]) == None
  {
  }

  /** Decoding inverts encoding. */
  lemma {:induction false} DecodeEncode(s: string)
    ensures Decode(Encode(s)) == Some(s)
  {
    if s != [] {
      var head := EncodeChar(s[0]);
      var b := Encode(s);
      DecodeEncodeChar(s[0], Encode(s[1..]));
      assert b[|head|..] == Encode(s[1..]);
      DecodeEncode(s[1..]);
      assert [s[0]] + s[1..] == s;
    }
  }

  /** Every decodable byte sequence is the encoding of what it decodes to,
      so `Encode` is the one encoding `Decode` accepts. */
  lemma {:induction false} EncodeDecode(b: Bytes)
    ensures Decode(b).Some? ==> Encode(Decode(b).value) == b
    decreases |b|
  {
    if b != [] && Decode(b).Some? {
      var d := DecodeChar(b).value;
      EncodeDecodeChar(b);
      EncodeDecode(b[d.len..]);
      assert Decode(b).value == [d.c] + Decode(b[d.len..]).value;
      assert b == b[..d.len] + b[d.len..];
    }
  }

  /** Distinct strings have distinct bytes. */
  lemma EncodeInjective(a: string, b: string)
    ensures Encode(a) == Encode(b) <==> a == b
  {
    if Encode(a) == Encode(b) {
      DecodeEncode(a);
      DecodeEncode(b);
    }
  }
}
