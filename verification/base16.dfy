/**
 * Base 16 encoding of bytes, section 8 of RFC 4648: each byte becomes two
 * digits, the high-order four bits first.  The RFC's alphabet is upper case
 * and its decoders accept either case; `Encode` takes the case as a
 * parameter.  `Decode` is the inverse the rest of the model measures the
 * encoders against.
 */
module Base16 {
  import opened JsValues

  /** The digit of value `n`: '0' to '9', then 'A' to 'F' or 'a' to 'f'. */
  function Digit(n: Byte, upper: bool): (c: Unit)
    requires n < 16
    ensures IsDigit(c, upper)
  {
    if n < 10 then 0x30 + n as bv16
    else (if upper then 0x41 else 0x61) + (n - 10) as bv16
  }

  /** A character of the alphabet of the given case. */
  predicate IsDigit(c: Unit, upper: bool)
  {
    (0x30 <= c <= 0x39) || (if upper then 0x41 <= c <= 0x46 else 0x61 <= c <= 0x66)
  }

  /** The value of a digit of either case, `None` for any other character. */
  function Value(c: Unit): Option<Byte>
  {
    if 0x30 <= c <= 0x39 then Some((c - 0x30) as bv8)
    else if 0x41 <= c <= 0x46 then Some((c - 0x41 + 10) as bv8)
    else if 0x61 <= c <= 0x66 then Some((c - 0x61 + 10) as bv8)
    else None
  }

  lemma ValueOfDigit(n: Byte, upper: bool)
    requires n < 16
    ensures Value(Digit(n, upper)) == Some(n)
  {
  }

  /** Each byte as two digits, the high-order four bits first. */
  function Encode(b: seq<Byte>, upper: bool): (s: JsString)
    ensures |s| == 2 * |b|
  {
    if |b| == 0 then []
    else [Digit(b[0] >> 4, upper), Digit(b[0] & 15, upper)] + Encode(b[1..], upper)
  }

  /** Two digits per byte; `None` for an odd length or a character outside the alphabet. */
  function Decode(s: JsString): Option<seq<Byte>>
  {
    if |s| == 0 then Some([])
    else if |s| == 1 then None
    else match (Value(s[0]), Value(s[1]), Decode(s[2..]))
      case (Some(h), Some(l), Some(rest)) => Some([(h << 4) | l] + rest)
      case _ => None
  }

  /** The high and low four bits put back together make the byte. */
  lemma JoinNibbles(b: Byte)
    ensures ((b >> 4) << 4) | (b & 15) == b
  {
  }

  /** Decoding undoes encoding, in either case. */
  lemma {:induction false} DecodeEncode(b: seq<Byte>, upper: bool)
    ensures Decode(Encode(b, upper)) == Some(b)
  {
    if |b| > 0 {
      var s := Encode(b, upper);
      ValueOfDigit(b[0] >> 4, upper);
      ValueOfDigit(b[0] & 15, upper);
      assert s[2..] == Encode(b[1..], upper);
      DecodeEncode(b[1..], upper);
      JoinNibbles(b[0]);
      assert [b[0]] + b[1..] == b;
    }
  }

  /** Every character of the encoding is a digit of the chosen case. */
  lemma {:induction false} EncodeInAlphabet(b: seq<Byte>, upper: bool, i: nat)
    requires i < 2 * |b|
    ensures IsDigit(Encode(b, upper)[i], upper)
  {
    if i >= 2 {
      EncodeInAlphabet(b[1..], upper, i - 2);
    }
  }
}
