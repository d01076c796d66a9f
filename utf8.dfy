/**
 * UTF-8, as Python's `str.encode("utf-8")` and strict `bytes.decode("utf-8")`
 * use it. A Dafny `char` is a Unicode scalar value, so every string encodes.
 */
module Utf8 {
  import opened Base

  /** The code points a `char` can hold. */
  predicate IsScalar(n: int) {
    0 <= n < 0xD800 || 0xE000 <= n < 0x11_0000
  }

  /** A byte of the form 10xxxxxx. */
  predicate IsContinuation(b: byte) {
    0x80 <= b < 0xC0
  }

  /** The shortest UTF-8 form of one scalar value: one to four bytes. */
  function EncodeScalar(n: int): (r: seq<byte>)
    requires IsScalar(n)
    ensures 1 <= |r| <= 4
    ensures |r| == 1 <==> n < 0x80
    ensures forall i :: 1 <= i < |r| ==> IsContinuation(r[i])
  {
    if n < 0x80 then [n]
    else if n < 0x800 then [0xC0 + n / 0x40, 0x80 + n % 0x40]
    else if n < 0x1_0000 then [0xE0 + n / 0x40 / 0x40, 0x80 + n / 0x40 % 0x40, 0x80 + n % 0x40]
    else [0xF0 + n / 0x40 / 0x40 / 0x40, 0x80 + n / 0x40 / 0x40 % 0x40, 0x80 + n / 0x40 % 0x40, 0x80 + n % 0x40]
  }

  function EncodeChar(c: char): seq<byte> {
    EncodeScalar(c as int)
  }

  /** The UTF-8 encoding of a string: the encodings of its characters, in order. */
  function Encode(s: string): (r: seq<byte>)
    ensures |s| <= |r| <= 4 * |s|
  {
    if s == [] then [] else EncodeChar(s[0]) + Encode(s[1..])
  }

  /**
   * The first character of a byte sequence and the number of bytes it takes,
   * or None when the bytes there are not well-formed UTF-8 (a stray
   * continuation byte, a truncated sequence, an overlong form, a surrogate,
   * or a value above U+10FFFF).
   */
  function DecodeFirst(bs: seq<byte>): (r: Option<(char, nat)>)
    requires |bs| > 0
    ensures r.Some? ==> 1 <= r.value.1 <= |bs|
  {
    var b0: int := bs[0];
    if b0 < 0x80 then
      Some((b0 as char, 1))
    else if 0xC0 <= b0 < 0xE0 then
      if |bs| < 2 || !IsContinuation(bs[1]) then None
      else
        var n: int := (b0 - 0xC0) * 0x40 + (bs[1] - 0x80);
        if n < 0x80 then None else Some((n as char, 2))
    else if 0xE0 <= b0 < 0xF0 then
      if |bs| < 3 || !IsContinuation(bs[1]) || !IsContinuation(bs[2]) then None
      else
        var n: int := ((b0 - 0xE0) * 0x40 + (bs[1] - 0x80)) * 0x40 + (bs[2] - 0x80);
        if n < 0x800 || (0xD800 <= n < 0xE000) then None else Some((n as char, 3))
    else if 0xF0 <= b0 < 0xF8 then
      if |bs| < 4 || !IsContinuation(bs[1]) || !IsContinuation(bs[2]) || !IsContinuation(bs[3]) then None
      else
        var n: int := (((b0 - 0xF0) * 0x40 + (bs[1] - 0x80)) * 0x40 + (bs[2] - 0x80)) * 0x40 + (bs[3] - 0x80);
        if n < 0x1_0000 || 0x11_0000 <= n then None else Some((n as char, 4))
    else
      None
  }

  /** Strict decoding: the text, or None if any part is malformed. */
  function Decode(bs: seq<byte>): (r: Option<string>)
    decreases |bs|
  {
    if bs == [] then Some([])
    else
      match DecodeFirst(bs)
      case None => None
      case Some((c, k)) =>
        match Decode(bs[k..])
        case None => None
        case Some(s) => Some([c] + s)
  }

  lemma DivMod64(x: int)
    requires 0 <= x
    ensures x == x / 0x40 * 0x40 + x % 0x40
  {
  }

  /** Decoding reads back exactly the character that was encoded, whatever follows it. */
  lemma DecodeFirstEncodeChar(c: char, rest: seq<byte>)
    ensures DecodeFirst(EncodeChar(c) + rest) == Some((c, |EncodeChar(c)|))
  {
    var n := c as int;
    var e := EncodeChar(c);
    var bs := e + rest;
    DivMod64(n);
    DivMod64(n / 0x40);
    DivMod64(n / 0x40 / 0x40);
    if n < 0x80 {
    } else if n < 0x800 {
      assert bs[0] == 0xC0 + n / 0x40 && bs[1] == 0x80 + n % 0x40;
    } else if n < 0x1_0000 {
      assert bs[0] == 0xE0 + n / 0x40 / 0x40;
      assert bs[1] == 0x80 + n / 0x40 % 0x40 && bs[2] == 0x80 + n % 0x40;
    } else {
      assert bs[0] == 0xF0 + n / 0x40 / 0x40 / 0x40;
      assert bs[1] == 0x80 + n / 0x40 / 0x40 % 0x40;
      assert bs[2] == 0x80 + n / 0x40 % 0x40 && bs[3] == 0x80 + n % 0x40;
    }
  }

  /** Round trip: decoding an encoded string gives the string back. */
  lemma {:induction false} DecodeEncode(s: string)
    ensures Decode(Encode(s)) == Some(s)
  {
    if s != [] {
      var e := EncodeChar(s[0]);
      var rest := Encode(s[1..]);
      DecodeFirstEncodeChar(s[0], rest);
      assert (e + rest)[|e|..] == rest;
      DecodeEncode(s[1..]);
      assert [s[0]] + s[1..] == s;
    }
  }

  lemma Split64(q: int, r: int)
    requires 0 <= q && 0 <= r < 0x40
    ensures (q * 0x40 + r) / 0x40 == q && (q * 0x40 + r) % 0x40 == r
  {
  }

  /** A character the decoder accepts is exactly the encoding of that character: no other byte form is let through. */
  lemma DecodeFirstIsEncoding(bs: seq<byte>)
    requires |bs| > 0 && DecodeFirst(bs).Some?
    ensures EncodeChar(DecodeFirst(bs).value.0) == bs[..DecodeFirst(bs).value.1]
  {
    var b0: int := bs[0];
    if 0xC0 <= b0 < 0xE0 {
      var n := (b0 - 0xC0) * 0x40 + (bs[1] - 0x80);
      Split64(b0 - 0xC0, bs[1] - 0x80);
      assert EncodeScalar(n) == [bs[0], bs[1]];
    } else if 0xE0 <= b0 < 0xF0 {
      ThreeByteIsEncoding(bs);
    } else if 0xF0 <= b0 < 0xF8 {
      FourByteIsEncoding(bs);
    }
  }

  lemma ThreeByteIsEncoding(bs: seq<byte>)
    requires |bs| > 0 && 0xE0 <= bs[0] < 0xF0 && DecodeFirst(bs).Some?
    ensures EncodeChar(DecodeFirst(bs).value.0) == bs[..3]
  {
    var b0: int, b1: int, b2: int := bs[0], bs[1], bs[2];
    var m := (b0 - 0xE0) * 0x40 + (b1 - 0x80);
    var n := m * 0x40 + (b2 - 0x80);
    Split64(b0 - 0xE0, b1 - 0x80);
    Split64(m, b2 - 0x80);
    assert EncodeScalar(n) == [bs[0], bs[1], bs[2]];
  }

  lemma FourByteIsEncoding(bs: seq<byte>)
    requires |bs| > 0 && 0xF0 <= bs[0] < 0xF8 && DecodeFirst(bs).Some?
    ensures EncodeChar(DecodeFirst(bs).value.0) == bs[..4]
  {
    var b0: int, b1: int, b2: int, b3: int := bs[0], bs[1], bs[2], bs[3];
    var l := (b0 - 0xF0) * 0x40 + (b1 - 0x80);
    var m := l * 0x40 + (b2 - 0x80);
    var n := m * 0x40 + (b3 - 0x80);
    Split64(b0 - 0xF0, b1 - 0x80);
    Split64(l, b2 - 0x80);
    Split64(m, b3 - 0x80);
    assert EncodeScalar(n) == [bs[0], bs[1], bs[2], bs[3]];
  }

  /** Round trip the other way: a byte sequence that decodes is the encoding of its text, so decoding is exact. */
  lemma {:induction false} EncodeDecode(bs: seq<byte>)
    requires Decode(bs).Some?
    ensures Encode(Decode(bs).value) == bs
    decreases |bs|
  {
    if bs != [] {
      var c := DecodeFirst(bs).value.0;
      var k := DecodeFirst(bs).value.1;
      DecodeFirstIsEncoding(bs);
      EncodeDecode(bs[k..]);
      var s := Decode(bs[k..]).value;
      assert Decode(bs).value == [c] + s;
      assert ([c] + s)[0] == c && ([c] + s)[1..] == s;
      assert bs[..k] + bs[k..] == bs;
    }
  }

  /** Every character is in the ASCII range. */
  predicate IsAscii(s: string) {
    forall i :: 0 <= i < |s| ==> s[i] < 128 as char
  }

  lemma AsciiConcat(x: string, y: string)
    requires IsAscii(x) && IsAscii(y)
    ensures IsAscii(x + y)
  {
    forall i | 0 <= i < |x + y|
      ensures (x + y)[i] < 128 as char
    {
      if i >= |x| {
        assert (x + y)[i] == y[i - |x|];
      }
    }
  }

  /** A string of ASCII characters encodes to one byte per character, each its code. */
  lemma {:induction false} EncodeAscii(s: string)
    requires IsAscii(s)
    ensures |Encode(s)| == |s|
    ensures forall i :: 0 <= i < |s| ==> Encode(s)[i] == s[i] as int
  {
    if s != [] {
      assert IsAscii(s[1..]) by {
        forall i | 0 <= i < |s[1..]| ensures s[1..][i] < 128 as char {
          assert s[1..][i] == s[i + 1];
        }
      }
      EncodeAscii(s[1..]);
      assert Encode(s) == [s[0] as int] + Encode(s[1..]);
    }
  }
}
