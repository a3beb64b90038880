/** Lowercase hexadecimal encoding, as Go's `hex.EncodeToString` produces it. */
module Hex {
  import opened Wrappers
  import opened Bytes

  /** The characters `0`-`9` and `a`-`f`. */
  predicate IsDigit(c: char) {
    '0' <= c <= '9' || 'a' <= c <= 'f'
  }

  predicate IsLowerHex(s: string) {
    forall i :: 0 <= i < |s| ==> IsDigit(s[i])
  }

  /** The digit for a nibble: `"0123456789abcdef"[v]`. */
  function Digit(v: int): (c: char)
    requires 0 <= v < 16
    ensures IsDigit(c)
  {
    if v < 10 then ('0' as int + v) as char else ('a' as int + v - 10) as char
  }

  /** The value of one lowercase hex digit. */
  function DigitValue(c: char): (r: Option<int>)
    ensures r.Some? <==> IsDigit(c)
    ensures r.Some? ==> 0 <= r.value < 16 && Digit(r.value) == c
  {
    if '0' <= c <= '9' then Some(c as int - '0' as int)
    else if 'a' <= c <= 'f' then Some(c as int - 'a' as int + 10)
    else None
  }

  lemma DigitValueOfDigit(v: int)
    requires 0 <= v < 16
    ensures DigitValue(Digit(v)) == Some(v)
  {
  }

  /** Two digits per byte, high nibble first. */
  function Encode(b: Bytes): (s: string)
    ensures |s| == 2 * |b|
    ensures IsLowerHex(s)
  {
    if b == [] then []
    else [Digit(b[0] as int / 16), Digit(b[0] as int % 16)] + Encode(b[1..])
  }

  /** Inverse of `Encode`: accepts exactly the even-length lowercase hex strings. */
  function Decode(s: string): (r: Option<Bytes>)
    decreases |s|
  {
    if s == [] then Some([])
    else if |s| == 1 || !IsDigit(s[0]) || !IsDigit(s[1]) then None
    else
      var rest := Decode(s[2..]);
      if rest.None? then None
      else Some([(DigitValue(s[0]).value * 16 + DigitValue(s[1]).value) as Byte] + rest.value)
  }

  lemma {:induction false} DecodeEncode(b: Bytes)
    ensures Decode(Encode(b)) == Some(b)
  {
    if b != [] {
      var s := Encode(b);
      var n := b[0] as int;
      DigitValueOfDigit(n / 16);
      DigitValueOfDigit(n % 16);
      assert s[2..] == Encode(b[1..]);
      DecodeEncode(b[1..]);
      assert [b[0]] + b[1..] == b;
    }
  }

  lemma {:induction false} EncodeDecode(s: string)
    requires Decode(s).Some?
    ensures Encode(Decode(s).value) == s
    decreases |s|
  {
    if s != [] {
      var hi, lo := DigitValue(s[0]).value, DigitValue(s[1]).value;
      var b := Decode(s).value;
      assert b == [(hi * 16 + lo) as Byte] + Decode(s[2..]).value;
      EncodeDecode(s[2..]);
      SplitNibbles(hi, lo);
      assert Encode(b) == [Digit(hi), Digit(lo)] + Encode(b[1..]);
      assert [s[0], s[1]] + s[2..] == s;
    }
  }

  lemma SplitNibbles(hi: int, lo: int)
    requires 0 <= hi < 16 && 0 <= lo < 16
    ensures (hi * 16 + lo) / 16 == hi && (hi * 16 + lo) % 16 == lo
  {
  }

  /** `Decode` succeeds exactly on what `Encode` can produce. */
  lemma {:induction false} DecodeDefined(s: string)
    ensures Decode(s).Some? <==> |s| % 2 == 0 && IsLowerHex(s)
    decreases |s|
  {
    if |s| >= 2 {
      DecodeDefined(s[2..]);
      if IsLowerHex(s) {
        assert IsDigit(s[0]) && IsDigit(s[1]);
        assert forall i :: 0 <= i < |s[2..]| ==> s[2..][i] == s[i + 2];
      }
      if IsDigit(s[0]) && IsDigit(s[1]) && IsLowerHex(s[2..]) {
        forall i | 0 <= i < |s| ensures IsDigit(s[i]) {
          if i >= 2 { assert s[i] == s[2..][i - 2]; }
        }
      }
    } else if |s| == 1 {
      assert Decode(s).None?;
    }
  }

  lemma EncodeInjective(a: Bytes, b: Bytes)
    ensures Encode(a) == Encode(b) <==> a == b
  {
    if Encode(a) == Encode(b) {
      DecodeEncode(a);
      DecodeEncode(b);
    }
  }
}
