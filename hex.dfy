/** The lower-case hexadecimal rendering of bytes that Python's `bytes.hex()` gives. */
module Hex {
  import opened Base

  /** The lower-case hexadecimal digit for a value below sixteen. */
  function Digit(v: nat): (c: char)
    requires v < 16
    ensures IsDigit(c)
  {
    if v < 10 then ('0' as int + v) as char else ('a' as int + v - 10) as char
  }

  predicate IsDigit(c: char) {
    '0' <= c <= '9' || 'a' <= c <= 'f'
  }

  /** The value of a lower-case hexadecimal digit. */
  function DigitValue(c: char): (v: Option<nat>)
    ensures v.Some? <==> IsDigit(c)
    ensures v.Some? ==> v.value < 16 && Digit(v.value) == c
  {
    if '0' <= c <= '9' then Some(c as int - '0' as int)
    else if 'a' <= c <= 'f' then Some(c as int - 'a' as int + 10)
    else None
  }

  /** Two digits per byte, high nibble first, bytes in order. */
  function ToHex(bs: seq<byte>): (r: string)
    ensures |r| == 2 * |bs|
    ensures forall j :: 0 <= j < |r| ==> IsDigit(r[j])
  {
    if bs == [] then "" else [Digit(bs[0] / 16), Digit(bs[0] % 16)] + ToHex(bs[1..])
  }

  /** Character 2i and 2i+1 of the rendering are the two nibbles of byte i. */
  lemma {:induction false} ToHexAt(bs: seq<byte>, i: nat)
    requires i < |bs|
    ensures ToHex(bs)[2 * i] == Digit(bs[i] / 16)
    ensures ToHex(bs)[2 * i + 1] == Digit(bs[i] % 16)
  {
    if i > 0 {
      ToHexAt(bs[1..], i - 1);
    }
  }

  /** Reads a rendering back: pairs of digits, high nibble first. */
  function FromHex(s: string): (r: Option<seq<byte>>)
    decreases |s|
  {
    if s == [] then Some([])
    else if |s| < 2 then None
    else
      match (DigitValue(s[0]), DigitValue(s[1]), FromHex(s[2..]))
      case (Some(hi), Some(lo), Some(rest)) => Some([hi * 16 + lo] + rest)
      case _ => None
  }

  /** Round trip: the rendering determines the bytes. */
  lemma {:induction false} FromHexToHex(bs: seq<byte>)
    ensures FromHex(ToHex(bs)) == Some(bs)
  {
    if bs != [] {
      var s := ToHex(bs);
      var b := bs[0];
      assert s[0] == Digit(b / 16) && s[1] == Digit(b % 16);
      assert DigitValue(s[0]) == Some(b / 16);
      assert DigitValue(s[1]) == Some(b % 16);
      assert s[2..] == ToHex(bs[1..]);
      FromHexToHex(bs[1..]);
      assert [b] + bs[1..] == bs;
    }
  }
}
