/** Base 64 encoding as `java.util.Base64.getEncoder()` produces it: the basic
    alphabet of section 4 of RFC 4648, with `=` padding and no line breaks. The
    converter embeds inline images with it; the decoder here is the reference
    against which the encoding is proved lossless. */
module Base64 {
  import opened Wrappers
  import opened Bytes

  /** A 6-bit group, the value one output character stands for. */
  type Sextet = x: int | 0 <= x < 64

  /** Table 1 of RFC 4648. */
  function Alphabet(v: Sextet): (c: char)
    ensures c != '='
  {
    if v < 26 then ('A' as int + v) as char
    else if v < 52 then ('a' as int + (v - 26)) as char
    else if v < 62 then ('0' as int + (v - 52)) as char
    else if v == 62 then '+'
    else '/'
  }

  /** The value a character of the alphabet stands for; `None` off the alphabet. */
  function ValueOf(c: char): (r: Option<Sextet>)
    ensures r.Some? ==> Alphabet(r.value) == c
  {
    if 'A' <= c <= 'Z' then Some(c as int - 'A' as int)
    else if 'a' <= c <= 'z' then Some(c as int - 'a' as int + 26)
    else if '0' <= c <= '9' then Some(c as int - '0' as int + 52)
    else if c == '+' then Some(62)
    else if c == '/' then Some(63)
    else None
  }

  lemma ValueOfAlphabet(v: Sextet)
    ensures ValueOf(Alphabet(v)) == Some(v)
  {
  }

  /** Three bytes, 24 bits, as four characters. */
  function EncodeGroup(b0: byte, b1: byte, b2: byte): (s: string)
    ensures |s| == 4
  {
    var x0, x1, x2 := b0 as int, b1 as int, b2 as int;
    [Alphabet(x0 / 4), Alphabet((x0 % 4) * 16 + x1 / 16), Alphabet((x1 % 16) * 4 + x2 / 64), Alphabet(x2 % 64)]
  }

  /** A final single byte: two characters and `==`. */
  function EncodeOne(b0: byte): (s: string)
    ensures |s| == 4 && s[2] == '=' && s[3] == '='
  {
    var x0 := b0 as int;
    [Alphabet(x0 / 4), Alphabet((x0 % 4) * 16), '=', '=']
  }

  /** Two final bytes: three characters and `=`. */
  function EncodeTwo(b0: byte, b1: byte): (s: string)
    ensures |s| == 4 && s[2] != '=' && s[3] == '='
  {
    var x0, x1 := b0 as int, b1 as int;
    [Alphabet(x0 / 4), Alphabet((x0 % 4) * 16 + x1 / 16), Alphabet((x1 % 16) * 4), '=']
  }

  /** `Base64.getEncoder().encodeToString(bytes)`. */
  function Encode(bytes: seq<byte>): (s: string)
    ensures |bytes| == 0 ==> s == ""
    ensures |bytes| > 0 ==> |s| >= 4
    ensures |s| % 4 == 0
  {
    EncodeFrom(bytes, 0)
  }

  /** The encoding of `bytes[i..]`: full groups first, then a final group of
      one or two bytes padded with `==` or `=`. */
  function EncodeFrom(bytes: seq<byte>, i: nat): (s: string)
    requires i <= |bytes|
    ensures i == |bytes| ==> s == ""
    ensures i < |bytes| ==> |s| >= 4
    ensures |s| % 4 == 0
    decreases |bytes| - i
  {
    var n := |bytes| - i;
    if n == 0 then ""
    else if n == 1 then EncodeOne(bytes[i])
    else if n == 2 then EncodeTwo(bytes[i], bytes[i + 1])
    else EncodeGroup(bytes[i], bytes[i + 1], bytes[i + 2]) + EncodeFrom(bytes, i + 3)
  }

  /** The bytes of one four-character group; `=` may stand only in the last two
      places, and only in the last group of the text. */
  function DecodeGroup(g: string, last: bool): Option<seq<byte>>
    requires |g| == 4
  {
    var v0, v1, v2, v3 := ValueOf(g[0]), ValueOf(g[1]), ValueOf(g[2]), ValueOf(g[3]);
    if v0.None? || v1.None? then None
    else
      var y0, y1 := v0.value, v1.value;
      var first := (y0 * 4 + y1 / 16) as byte;
      if last && g[2] == '=' && g[3] == '=' then Some([first])
      else if v2.None? then None
      else
        var y2 := v2.value;
        var second := ((y1 % 16) * 16 + y2 / 4) as byte;
        if last && g[3] == '=' then Some([first, second])
        else if v3.None? then None
        else Some([first, second, ((y2 % 4) * 64 + v3.value) as byte])
  }

  /** Decoding of padded base 64 text; `None` for text that is not. */
  function Decode(s: string): Option<seq<byte>>
    decreases |s|
  {
    if |s| == 0 then Some([])
    else if |s| < 4 then None
    else
      match DecodeGroup(s[..4], |s| == 4)
      case None => None
      case Some(head) =>
        match Decode(s[4..])
        case None => None
        case Some(tail) => Some(head + tail)
  }

  /** A number written as `q * 16 + r` has quotient `q` and remainder `r` by 16. */
  lemma Unpack16(q: int, r: int)
    requires 0 <= r < 16
    ensures (q * 16 + r) / 16 == q && (q * 16 + r) % 16 == r
  {
  }

  /** A number written as `q * 4 + r` has quotient `q` and remainder `r` by 4. */
  lemma Unpack4(q: int, r: int)
    requires 0 <= r < 4
    ensures (q * 4 + r) / 4 == q && (q * 4 + r) % 4 == r
  {
  }

  /** Joining the sextets of a group gives back its bytes. */
  lemma GroupArithmetic(x0: int, x1: int, x2: int)
    requires 0 <= x0 < 256 && 0 <= x1 < 256 && 0 <= x2 < 256
    ensures var y0, y1, y2 := x0 / 4, (x0 % 4) * 16 + x1 / 16, (x1 % 16) * 4 + x2 / 64;
      && y0 * 4 + y1 / 16 == x0
      && (y1 % 16) * 16 + y2 / 4 == x1
      && (y2 % 4) * 64 + x2 % 64 == x2
  {
    Unpack16(x0 % 4, x1 / 16);
    Unpack4(x1 % 16, x2 / 64);
  }

  lemma GroupRoundTrip(b0: byte, b1: byte, b2: byte, last: bool)
    ensures DecodeGroup(EncodeGroup(b0, b1, b2), last) == Some([b0, b1, b2])
  {
    var x0, x1, x2 := b0 as int, b1 as int, b2 as int;
    ValueOfAlphabet(x0 / 4);
    ValueOfAlphabet((x0 % 4) * 16 + x1 / 16);
    ValueOfAlphabet((x1 % 16) * 4 + x2 / 64);
    ValueOfAlphabet(x2 % 64);
    GroupArithmetic(x0, x1, x2);
  }

  lemma OneByteRoundTrip(b0: byte)
    ensures Decode(EncodeOne(b0)) == Some([b0])
  {
    var x0 := b0 as int;
    var s := EncodeOne(b0);
    ValueOfAlphabet(x0 / 4);
    ValueOfAlphabet((x0 % 4) * 16);
    GroupArithmetic(x0, 0, 0);
    assert s[..4] == s;
    assert DecodeGroup(s, true) == Some([b0]);
    assert s[4..] == "";
    assert [b0] + [] == [b0];
  }

  lemma TwoBytesRoundTrip(b0: byte, b1: byte)
    ensures Decode(EncodeTwo(b0, b1)) == Some([b0, b1])
  {
    var x0, x1 := b0 as int, b1 as int;
    var s := EncodeTwo(b0, b1);
    ValueOfAlphabet(x0 / 4);
    ValueOfAlphabet((x0 % 4) * 16 + x1 / 16);
    ValueOfAlphabet((x1 % 16) * 4);
    GroupArithmetic(x0, x1, 0);
    assert s[..4] == s;
    assert DecodeGroup(s, true) == Some([b0, b1]);
    assert s[4..] == "";
    assert [b0, b1] + [] == [b0, b1];
  }

  /** Decoding a group in front of decodable text. */
  lemma DecodeFront(g: string, rest: string, head: seq<byte>, tail: seq<byte>)
    requires |g| == 4
    requires DecodeGroup(g, rest == "") == Some(head)
    requires Decode(rest) == Some(tail)
    ensures Decode(g + rest) == Some(head + tail)
  {
    var s := g + rest;
    assert s[..4] == g;
    assert s[4..] == rest;
  }

  /** Every three bytes become four characters. */
  lemma EncodedLength(bytes: seq<byte>)
    ensures |Encode(bytes)| == 4 * ((|bytes| + 2) / 3)
  {
    EncodedLengthFrom(bytes, 0);
  }

  lemma {:induction false} EncodedLengthFrom(bytes: seq<byte>, i: nat)
    requires i <= |bytes|
    ensures |EncodeFrom(bytes, i)| == 4 * ((|bytes| - i + 2) / 3)
    decreases |bytes| - i
  {
    if |bytes| - i > 2 {
      EncodedLengthFrom(bytes, i + 3);
      assert (|bytes| - i + 2) / 3 == (|bytes| - (i + 3) + 2) / 3 + 1;
    }
  }

  /** A full group decodes in front of any decodable text. */
  lemma GroupInFront(b0: byte, b1: byte, b2: byte, rest: string, tail: seq<byte>)
    requires Decode(rest) == Some(tail)
    ensures Decode(EncodeGroup(b0, b1, b2) + rest) == Some([b0, b1, b2] + tail)
  {
    GroupRoundTrip(b0, b1, b2, rest == "");
    DecodeFront(EncodeGroup(b0, b1, b2), rest, [b0, b1, b2], tail);
  }

  /** Decoding undoes the encoding: the embedded data of an inline image is
      exactly the image's bytes. */
  lemma DecodeEncode(bytes: seq<byte>)
    ensures Decode(Encode(bytes)) == Some(bytes)
  {
    DecodeEncodeFrom(bytes, 0);
  }

  lemma {:induction false} DecodeEncodeFrom(bytes: seq<byte>, i: nat)
    requires i <= |bytes|
    ensures Decode(EncodeFrom(bytes, i)) == Some(bytes[i..])
    decreases |bytes| - i
  {
    var n := |bytes| - i;
    if n == 0 {
      assert bytes[i..] == [];
    } else if n == 1 {
      OneByteRoundTrip(bytes[i]);
      assert bytes[i..] == [bytes[i]];
    } else if n == 2 {
      TwoBytesRoundTrip(bytes[i], bytes[i + 1]);
      assert bytes[i..] == [bytes[i], bytes[i + 1]];
    } else {
      DecodeEncodeFrom(bytes, i + 3);
      GroupThenRest(bytes, i);
    }
  }

  /** One full group in front of an encoding that round-trips. */
  lemma GroupThenRest(bytes: seq<byte>, i: nat)
    requires i + 3 <= |bytes|
    requires Decode(EncodeFrom(bytes, i + 3)) == Some(bytes[i + 3..])
    ensures Decode(EncodeFrom(bytes, i)) == Some(bytes[i..])
  {
    GroupInFront(bytes[i], bytes[i + 1], bytes[i + 2], EncodeFrom(bytes, i + 3), bytes[i + 3..]);
    assert [bytes[i], bytes[i + 1], bytes[i + 2]] + bytes[i + 3..] == bytes[i..];
  }
}
