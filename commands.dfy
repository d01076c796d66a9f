/**
 * The Tello text protocol as the client writes it: the "ask" placeholder for
 * operator-typed commands, the datagram a command becomes, and the
 * four-channel `rc` command with its reading back.
 */
module Commands {
  import opened Base
  import Utf8
  import Hex
  import Decimal

  /** The placeholder message that stands for "prompt the operator for a command". */
  const ASK: string := "ask"

  /** The text actually sent for a message: the operator's text in place of the placeholder. */
  function Resolve(message: string, operatorText: string): (text: string)
    ensures message == ASK ==> text == operatorText
    ensures message != ASK ==> text == message
  {
    if message == ASK then operatorText else message
  }

  /**
   * One outbound datagram: the command text, its UTF-8 payload, and the hex
   * trace of the payload when sent commands are being traced.
   */
  datatype Datagram = Datagram(text: string, payload: seq<byte>, hexTrace: Option<string>)

  /** The datagram for a command text under the given trace setting. */
  function Frame(text: string, printSent: bool): (d: Datagram)
    ensures d.text == text
    ensures d.hexTrace.Some? <==> printSent
  {
    var payload := Utf8.Encode(text);
    Datagram(text, payload, if printSent then Some(Hex.ToHex(payload)) else None)
  }

  /**
   * A datagram carries its command faithfully: the payload decodes to the
   * text, and the hex trace has two digits per payload byte, in byte order,
   * and reads back to the payload.
   */
  lemma FrameFaithful(text: string, printSent: bool)
    ensures var d := Frame(text, printSent);
      && Utf8.Decode(d.payload) == Some(text)
      && (d.hexTrace.Some? ==>
            && |d.hexTrace.value| == 2 * |d.payload|
            && Hex.FromHex(d.hexTrace.value) == Some(d.payload)
            && forall i :: 0 <= i < |d.payload| ==>
                 d.hexTrace.value[2 * i] == Hex.Digit(d.payload[i] / 16)
                 && d.hexTrace.value[2 * i + 1] == Hex.Digit(d.payload[i] % 16))
  {
    var payload := Utf8.Encode(text);
    Utf8.DecodeEncode(text);
    Hex.FromHexToHex(payload);
    forall i | 0 <= i < |payload|
      ensures Hex.ToHex(payload)[2 * i] == Hex.Digit(payload[i] / 16)
      ensures Hex.ToHex(payload)[2 * i + 1] == Hex.Digit(payload[i] % 16)
    {
      Hex.ToHexAt(payload, i);
    }
  }

  /** The remote-control command, channels in wire order, each rendered by `str`. */
  function Rc(a: int, b: int, c: int, d: int): (r: string)
    ensures |r| > 3 && r[..3] == "rc "
  {
    "rc " + Decimal.IntToString(a) + " " + Decimal.IntToString(b) + " "
      + Decimal.IntToString(c) + " " + Decimal.IntToString(d)
  }

  /** The space-separated fields of a string (empty fields kept). */
  function Split(s: string): (r: seq<string>)
    ensures |r| >= 1
    decreases |s|
  {
    if s == [] then [""]
    else if s[0] == ' ' then [""] + Split(s[1..])
    else
      var t := Split(s[1..]);
      [[s[0]] + t[0]] + t[1..]
  }

  /** Reads an `rc` command back into its four channel values. */
  function ParseRc(s: string): Option<(int, int, int, int)> {
    var f := Split(s);
    if |f| != 5 || f[0] != "rc" then None
    else
      match (Decimal.ParseInt(f[1]), Decimal.ParseInt(f[2]), Decimal.ParseInt(f[3]), Decimal.ParseInt(f[4]))
      case (Some(a), Some(b), Some(c), Some(d)) => Some((a, b, c, d))
      case _ => None
  }

  lemma {:induction false} SplitWord(x: string)
    requires ' ' !in x
    ensures Split(x) == [x]
  {
    if x != [] {
      SplitWord(x[1..]);
      assert [x[0]] + x[1..] == x;
    }
  }

  lemma {:induction false} SplitJoin(x: string, y: string)
    requires ' ' !in x
    ensures Split(x + " " + y) == [x] + Split(y)
  {
    if x == [] {
      assert x + " " + y == [' '] + y;
      assert (x + " " + y)[1..] == y;
    } else {
      var s := x + " " + y;
      assert s[1..] == x[1..] + " " + y;
      SplitJoin(x[1..], y);
      assert [x[0]] + x[1..] == x;
    }
  }

  /** "rc" and four space-free words, joined by spaces, split back into those five words. */
  lemma SplitFields(sa: string, sb: string, sc: string, sd: string)
    requires ' ' !in sa && ' ' !in sb && ' ' !in sc && ' ' !in sd
    ensures Split("rc" + " " + (sa + " " + (sb + " " + (sc + " " + sd)))) == ["rc", sa, sb, sc, sd]
  {
    assert Split(sc + " " + sd) == [sc, sd] by {
      SplitWord(sd);
      SplitJoin(sc, sd);
    }
    assert Split(sb + " " + (sc + " " + sd)) == [sb, sc, sd] by {
      SplitJoin(sb, sc + " " + sd);
    }
    assert Split(sa + " " + (sb + " " + (sc + " " + sd))) == [sa, sb, sc, sd] by {
      SplitJoin(sa, sb + " " + (sc + " " + sd));
    }
    SplitJoin("rc", sa + " " + (sb + " " + (sc + " " + sd)));
  }

  /** The fields of an `rc` command are the keyword and the four renderings. */
  lemma RcFields(a: int, b: int, c: int, d: int)
    ensures Split(Rc(a, b, c, d)) == ["rc", Decimal.IntToString(a), Decimal.IntToString(b),
                                     Decimal.IntToString(c), Decimal.IntToString(d)]
  {
    var sa, sb, sc, sd := Decimal.IntToString(a), Decimal.IntToString(b), Decimal.IntToString(c), Decimal.IntToString(d);
    assert Rc(a, b, c, d) == "rc" + " " + (sa + " " + (sb + " " + (sc + " " + sd)));
    SplitFields(sa, sb, sc, sd);
  }

  /** Round trip: an `rc` command carries exactly its four values, in order. */
  lemma RcRoundTrip(a: int, b: int, c: int, d: int)
    ensures ParseRc(Rc(a, b, c, d)) == Some((a, b, c, d))
  {
    RcFields(a, b, c, d);
    Decimal.IntRoundTrip(a);
    Decimal.IntRoundTrip(b);
    Decimal.IntRoundTrip(c);
    Decimal.IntRoundTrip(d);
  }

  /** `str` of an integer is ASCII: a sign and decimal digits. */
  lemma IntToStringAscii(n: int)
    ensures Utf8.IsAscii(Decimal.IntToString(n))
  {
    var m := if n < 0 then -n else n;
    var digits := Decimal.NatToString(m);
    assert Utf8.IsAscii(digits) by {
      forall i | 0 <= i < |digits| ensures digits[i] < 128 as char {
        assert Decimal.IsDigit(digits[i]);
      }
    }
    if n < 0 {
      Utf8.AsciiConcat("-", digits);
    }
  }

  /** An `rc` command is ASCII, so its payload is one byte per character, each its code. */
  lemma RcPayload(a: int, b: int, c: int, d: int, printSent: bool)
    ensures var r := Rc(a, b, c, d);
      && Utf8.IsAscii(r)
      && |Frame(r, printSent).payload| == |r|
      && forall i :: 0 <= i < |r| ==> Frame(r, printSent).payload[i] == r[i] as int
  {
    var sa, sb, sc, sd := Decimal.IntToString(a), Decimal.IntToString(b), Decimal.IntToString(c), Decimal.IntToString(d);
    IntToStringAscii(a);
    IntToStringAscii(b);
    IntToStringAscii(c);
    IntToStringAscii(d);
    assert Utf8.IsAscii("rc ") && Utf8.IsAscii(" ");
    Utf8.AsciiConcat("rc ", sa);
    Utf8.AsciiConcat("rc " + sa, " ");
    Utf8.AsciiConcat("rc " + sa + " ", sb);
    Utf8.AsciiConcat("rc " + sa + " " + sb, " ");
    Utf8.AsciiConcat("rc " + sa + " " + sb + " ", sc);
    Utf8.AsciiConcat("rc " + sa + " " + sb + " " + sc, " ");
    Utf8.AsciiConcat("rc " + sa + " " + sb + " " + sc + " ", sd);
    Utf8.EncodeAscii(Rc(a, b, c, d));
  }

  /** No `rc` command is the placeholder, so the operator is never prompted for one. */
  lemma RcIsNotAsk(a: int, b: int, c: int, d: int, operatorText: string)
    ensures Resolve(Rc(a, b, c, d), operatorText) == Rc(a, b, c, d)
  {
    var r := Rc(a, b, c, d);
    assert r[0] == 'r';
    assert ASK[0] == 'a';
  }
}
