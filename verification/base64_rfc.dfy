/**
 * Base 64 encoding of bytes, section 4 of RFC 4648.  Each group of three
 * bytes (24 bits) becomes four characters of Table 1, six bits each, most
 * significant first.  A final group of one or two bytes is completed with
 * zero bits to whole 6-bit groups and followed by pad characters, two or one.
 *
 * The pad is a parameter: the RFC's is "=", and the encoders of HasherUtils.js
 * also use the empty string.  `Decode` reads the RFC's padded form and is the
 * inverse the encoders are measured against.
 */
module Base64Rfc {
  import opened JsValues

  /** Table 1: the character of value `v`. */
  function Char(v: Byte): (c: Unit)
    requires v < 64
    ensures IsAlphabet(c)
  {
    if v < 26 then 0x41 + v as bv16
    else if v < 52 then 0x61 + (v - 26) as bv16
    else if v < 62 then 0x30 + (v - 52) as bv16
    else if v == 62 then 0x2B
    else 0x2F
  }

  /** 'A' to 'Z', 'a' to 'z', '0' to '9', '+' and '/'. */
  predicate IsAlphabet(c: Unit)
  {
    (0x41 <= c <= 0x5A) || (0x61 <= c <= 0x7A) || (0x30 <= c <= 0x39) || c == 0x2B || c == 0x2F
  }

  /** The value of a character of Table 1, `None` for any other character. */
  function Value(c: Unit): Option<Byte>
  {
    if 0x41 <= c <= 0x5A then Some((c - 0x41) as bv8)
    else if 0x61 <= c <= 0x7A then Some((c - 0x61 + 26) as bv8)
    else if 0x30 <= c <= 0x39 then Some((c - 0x30 + 52) as bv8)
    else if c == 0x2B then Some(62)
    else if c == 0x2F then Some(63)
    else None
  }

  lemma ValueOfChar(v: Byte)
    requires v < 64
    ensures Value(Char(v)) == Some(v)
  {
  }

  /** The pad character of the RFC. */
  const PadChar: Unit := 0x3D

  // The four 6-bit groups of the 24 bits `a b c`, most significant first.

  function Sextet0(a: Byte): (v: Byte)
    ensures v < 64
  {
    a >> 2
  }

  function Sextet1(a: Byte, b: Byte): (v: Byte)
    ensures v < 64
  {
    ((a & 3) << 4) | (b >> 4)
  }

  function Sextet2(b: Byte, c: Byte): (v: Byte)
    ensures v < 64
  {
    ((b & 15) << 2) | (c >> 6)
  }

  function Sextet3(c: Byte): (v: Byte)
    ensures v < 64
  {
    c & 63
  }

  /**
   * The encoding of one quantum of `n` bytes (1 to 3): `a b c` with the
   * missing bytes zero, the characters their bits reach, then one pad per
   * character the quantum does not reach.
   */
  function Quantum(a: Byte, b: Byte, c: Byte, n: nat, pad: JsString): (s: JsString)
    requires 1 <= n <= 3
    ensures |s| == QuantumLength(n, |pad|)
  {
    [Char(Sextet0(a)), Char(Sextet1(a, b))]
    + (if n >= 2 then [Char(Sextet2(b, c))] else pad)
    + (if n == 3 then [Char(Sextet3(c))] else pad)
  }

  /** A whole quantum is the four characters of its 6-bit groups. */
  lemma WholeQuantum(a: Byte, b: Byte, c: Byte, pad: JsString)
    ensures Quantum(a, b, c, 3, pad) == [Char(Sextet0(a)), Char(Sextet1(a, b)), Char(Sextet2(b, c)), Char(Sextet3(c))]
  {
  }

  /** The characters a quantum of `n` bytes writes, with a pad of `p` characters. */
  function QuantumLength(n: nat, p: nat): nat
  {
    if n == 1 then 2 + p + p else if n == 2 then 3 + p else 4
  }

  /** The characters `Encode` writes for `n` bytes, with a pad of `p` characters. */
  function EncodedLength(n: nat, p: nat): nat
  {
    4 * (n / 3) + (if n % 3 == 0 then 0 else QuantumLength(n % 3, p))
  }

  function Encode(b: seq<Byte>, pad: JsString): JsString
  {
    if |b| == 0 then []
    else if |b| == 1 then Quantum(b[0], 0, 0, 1, pad)
    else if |b| == 2 then Quantum(b[0], b[1], 0, 2, pad)
    else Quantum(b[0], b[1], b[2], 3, pad) + Encode(b[3..], pad)
  }

  /** Four characters per whole group of three bytes, then the final quantum with its pads. */
  lemma {:induction false} EncodeLength(b: seq<Byte>, pad: JsString)
    ensures |Encode(b, pad)| == EncodedLength(|b|, |pad|)
  {
    if |b| >= 3 {
      EncodeLength(b[3..], pad);
      LengthStep(|b| - 3, |pad|);
    }
  }

  lemma LengthStep(n: nat, p: nat)
    ensures EncodedLength(n + 3, p) == 4 + EncodedLength(n, p)
  {
    assert (n + 3) / 3 == n / 3 + 1 && (n + 3) % 3 == n % 3;
  }

  /** Characters of Table 1 only. */
  predicate AllAlphabet(s: JsString)
  {
    forall i :: 0 <= i < |s| ==> IsAlphabet(s[i])
  }

  /** The characters of Table 1 `Encode` writes for `n` bytes: the bits of the bytes, in 6-bit groups. */
  function CharCount(n: nat): nat
  {
    4 * (n / 3) + (if n % 3 == 0 then 0 else n % 3 + 1)
  }

  /** The pads `Encode` ends with for `n` bytes: two after a last quantum of one byte, one after two. */
  function Pads(n: nat, pad: JsString): JsString
  {
    if n % 3 == 1 then pad + pad else if n % 3 == 2 then pad else []
  }

  /** `e` is `CharCount(n)` characters of Table 1, then the pads for `n` bytes. */
  predicate Shaped(e: JsString, n: nat, pad: JsString)
  {
    |e| == CharCount(n) + |Pads(n, pad)| && AllAlphabet(e[..CharCount(n)]) && e[CharCount(n)..] == Pads(n, pad)
  }

  lemma ShortShape(b: seq<Byte>, pad: JsString)
    requires |b| < 3
    ensures Shaped(Encode(b, pad), |b|, pad)
  {
    var e := Encode(b, pad);
    if |b| == 1 {
      var x := [Char(Sextet0(b[0])), Char(Sextet1(b[0], 0))];
      assert e == x + pad + pad;
      assert e[..2] == x;
    } else if |b| == 2 {
      var x := [Char(Sextet0(b[0])), Char(Sextet1(b[0], b[1])), Char(Sextet2(b[1], 0))];
      assert e == x + pad;
      assert e[..3] == x;
    }
  }

  /** A whole quantum in front of a shaped encoding of `n` bytes gives a shaped encoding of `n + 3`. */
  lemma ShapeStep(q: JsString, t: JsString, n: nat, pad: JsString)
    requires |q| == 4 && AllAlphabet(q) && Shaped(t, n, pad)
    ensures Shaped(q + t, n + 3, pad)
  {
    assert (n + 3) / 3 == n / 3 + 1 && (n + 3) % 3 == n % 3;
    var c := CharCount(n);
    assert CharCount(n + 3) == 4 + c;
    assert Pads(n + 3, pad) == Pads(n, pad);
    var e := q + t;
    assert e[..4 + c] == q + t[..c];
    assert e[4 + c..] == t[c..];
  }

  /**
   * An encoding is characters of Table 1 (as many as the bytes' bits fill
   * 6-bit groups) followed by the pads of the last quantum: two after one
   * byte, one after two, none after a whole group.
   */
  lemma {:induction false} EncodeShape(b: seq<Byte>, pad: JsString)
    ensures Shaped(Encode(b, pad), |b|, pad)
    decreases |b|
  {
    if |b| < 3 {
      ShortShape(b, pad);
    } else {
      var q := Quantum(b[0], b[1], b[2], 3, pad);
      WholeQuantum(b[0], b[1], b[2], pad);
      EncodeShape(b[3..], pad);
      ShapeStep(q, Encode(b[3..], pad), |b| - 3, pad);
    }
  }

  /**
   * With the RFC's pad an encoding ends with exactly `(3 - n % 3) % 3` "="
   * for `n` bytes: every character before them is of the alphabet, which
   * has no "=".
   */
  lemma PadCount(b: seq<Byte>)
    ensures var e := Encode(b, [PadChar]);
      var k := (3 - |b| % 3) % 3;
      k <= |e| && AllAlphabet(e[..|e| - k]) && (forall i :: |e| - k <= i < |e| ==> e[i] == PadChar)
      && !IsAlphabet(PadChar)
  {
    var e := Encode(b, [PadChar]);
    var pads := Pads(|b|, [PadChar]);
    EncodeShape(b, [PadChar]);
    assert |pads| == (3 - |b| % 3) % 3;
    assert |e| - |pads| == CharCount(|b|);
    forall i | |e| - |pads| <= i < |e|
      ensures e[i] == PadChar
    {
      assert e[i] == pads[i - (|e| - |pads|)];
    }
  }

  // The bytes the 6-bit groups of a quantum put back together.

  function Join0(v0: Byte, v1: Byte): Byte
  {
    (v0 << 2) | (v1 >> 4)
  }

  function Join1(v1: Byte, v2: Byte): Byte
  {
    ((v1 & 15) << 4) | (v2 >> 2)
  }

  function Join2(v2: Byte, v3: Byte): Byte
  {
    ((v2 & 3) << 6) | v3
  }

  /**
   * Four characters as bytes: three, or, in the last quantum, one before
   * "==" or two before "=".
   */
  function DecodeQuantum(q: JsString, last: bool): Option<seq<Byte>>
    requires |q| == 4
  {
    var v0, v1, v2, v3 := Value(q[0]), Value(q[1]), Value(q[2]), Value(q[3]);
    if v0.None? || v1.None? then None
    else if last && q[2] == PadChar && q[3] == PadChar then Some([Join0(v0.value, v1.value)])
    else if v2.None? then None
    else if last && q[3] == PadChar then Some([Join0(v0.value, v1.value), Join1(v1.value, v2.value)])
    else if v3.None? then None
    else Some([Join0(v0.value, v1.value), Join1(v1.value, v2.value), Join2(v2.value, v3.value)])
  }

  /** Quanta of four characters, padding only in the last. */
  function Decode(s: JsString): Option<seq<Byte>>
  {
    if |s| == 0 then Some([])
    else if |s| < 4 then None
    else
      match (DecodeQuantum(s[..4], |s| == 4), Decode(s[4..]))
      case (Some(q), Some(rest)) => Some(q + rest)
      case _ => None
  }

  // ------------------------------------------------------------- round trip

  lemma JoinFirst(a: Byte, b: Byte)
    ensures Join0(Sextet0(a), Sextet1(a, b)) == a
  {
  }

  lemma JoinSecond(a: Byte, b: Byte, c: Byte)
    ensures Join1(Sextet1(a, b), Sextet2(b, c)) == b
  {
  }

  lemma JoinThird(b: Byte, c: Byte)
    ensures Join2(Sextet2(b, c), Sextet3(c)) == c
  {
  }

  lemma DecodeQuantum1(a: Byte)
    ensures DecodeQuantum(Quantum(a, 0, 0, 1, [PadChar]), true) == Some([a])
  {
    var v0, v1 := Sextet0(a), Sextet1(a, 0);
    assert Quantum(a, 0, 0, 1, [PadChar]) == [Char(v0), Char(v1), PadChar, PadChar];
    ValueOfChar(v0);
    ValueOfChar(v1);
    JoinFirst(a, 0);
  }

  lemma DecodeQuantum2(a: Byte, b: Byte)
    ensures DecodeQuantum(Quantum(a, b, 0, 2, [PadChar]), true) == Some([a, b])
  {
    var v0, v1, v2 := Sextet0(a), Sextet1(a, b), Sextet2(b, 0);
    assert Quantum(a, b, 0, 2, [PadChar]) == [Char(v0), Char(v1), Char(v2), PadChar];
    ValueOfChar(v0);
    ValueOfChar(v1);
    ValueOfChar(v2);
    JoinFirst(a, b);
    JoinSecond(a, b, 0);
  }

  lemma DecodeQuantum3(a: Byte, b: Byte, c: Byte, last: bool)
    ensures DecodeQuantum(Quantum(a, b, c, 3, [PadChar]), last) == Some([a, b, c])
  {
    var v0, v1, v2, v3 := Sextet0(a), Sextet1(a, b), Sextet2(b, c), Sextet3(c);
    assert Quantum(a, b, c, 3, [PadChar]) == [Char(v0), Char(v1), Char(v2), Char(v3)];
    ValueOfChar(v0);
    ValueOfChar(v1);
    ValueOfChar(v2);
    ValueOfChar(v3);
    JoinFirst(a, b);
    JoinSecond(a, b, c);
    JoinThird(b, c);
  }

  lemma DecodeLast1(a: Byte)
    ensures Decode(Encode([a], [PadChar])) == Some([a])
  {
    var s := Encode([a], [PadChar]);
    assert s == Quantum(a, 0, 0, 1, [PadChar]);
    DecodeQuantum1(a);
    assert s[..4] == s;
    assert s[4..] == [];
    assert [a] + [] == [a];
  }

  lemma DecodeLast2(a: Byte, b: Byte)
    ensures Decode(Encode([a, b], [PadChar])) == Some([a, b])
  {
    var s := Encode([a, b], [PadChar]);
    assert s == Quantum(a, b, 0, 2, [PadChar]);
    DecodeQuantum2(a, b);
    assert s[..4] == s;
    assert s[4..] == [];
    assert [a, b] + [] == [a, b];
  }

  /** A quantum in front of further quanta decodes to its bytes in front of theirs. */
  lemma DecodeConcat(q: JsString, t: JsString, x: seq<Byte>, y: seq<Byte>)
    requires |q| == 4 && DecodeQuantum(q, |t| == 0) == Some(x) && Decode(t) == Some(y)
    ensures Decode(q + t) == Some(x + y)
  {
    var s := q + t;
    assert s[..4] == q;
    assert s[4..] == t;
  }

  lemma EncodeFirst(b: seq<Byte>)
    requires |b| >= 3
    ensures Encode(b, [PadChar]) == Quantum(b[0], b[1], b[2], 3, [PadChar]) + Encode(b[3..], [PadChar])
  {
  }

  lemma ThreeAndRest(b: seq<Byte>)
    requires |b| >= 3
    ensures [b[0], b[1], b[2]] + b[3..] == b
  {
  }

  /** A whole quantum in front of an encoding decodes to its three bytes in front of the rest. */
  lemma DecodeFirst(b: seq<Byte>)
    requires |b| >= 3 && Decode(Encode(b[3..], [PadChar])) == Some(b[3..])
    ensures Decode(Encode(b, [PadChar])) == Some(b)
  {
    var t := Encode(b[3..], [PadChar]);
    var q := Quantum(b[0], b[1], b[2], 3, [PadChar]);
    EncodeFirst(b);
    DecodeQuantum3(b[0], b[1], b[2], |t| == 0);
    DecodeConcat(q, t, [b[0], b[1], b[2]], b[3..]);
    ThreeAndRest(b);
  }

  /** Fewer than three bytes: the empty encoding or a single padded quantum. */
  lemma DecodeShort(b: seq<Byte>)
    requires |b| < 3
    ensures Decode(Encode(b, [PadChar])) == Some(b)
  {
    if |b| == 1 {
      assert b == [b[0]];
      DecodeLast1(b[0]);
    } else if |b| == 2 {
      assert b == [b[0], b[1]];
      DecodeLast2(b[0], b[1]);
    }
  }

  /** Decoding undoes encoding with the RFC's pad. */
  lemma {:induction false} DecodeEncode(b: seq<Byte>)
    ensures Decode(Encode(b, [PadChar])) == Some(b)
  {
    if |b| < 3 {
      DecodeShort(b);
    } else {
      DecodeEncode(b[3..]);
      DecodeFirst(b);
    }
  }

  /** With the RFC's pad the encoding is four characters per started group of three bytes. */
  lemma PaddedLength(n: nat)
    ensures EncodedLength(n, 1) == 4 * ((n + 2) / 3)
  {
  }
}
