/**
 * `base64_encode` of HasherUtils.js: the string is UTF-8 encoded
 * (`utf8_encode`), then written four characters per three bytes.  The loop
 * always writes whole groups, reading 0 past the end (`charCodeAt` gives NaN
 * there, which the shift operators take as 0); afterwards the characters that
 * only cover those zeros are overwritten with "=".  The result is base 64 of
 * RFC 4648, section 4, of the UTF-8 bytes.
 */
module Base64Text {
  import opened JsValues
  import opened LittleEndian
  import opened Triplets
  import Utf8
  import B64 = Base64Rfc

  /** `data.charCodeAt(i)` as the shift operators read it: 0 past the end. */
  function CodeAt(d: JsString, i: nat): Word
  {
    if i < |d| then d[i] as bv32 else 0
  }

  /** The bits of the three characters at `i`: `o1 << 16 | o2 << 8 | o3`. */
  function Bits(d: JsString, i: nat): Word
  {
    Triplet(CodeAt(d, i), CodeAt(d, i + 1), CodeAt(d, i + 2))
  }

  /** The four characters one pass of the loop appends: `b64.charAt(h1)` to `b64.charAt(h4)`. */
  function Hexets(d: JsString, i: nat): (q: JsString)
    ensures |q| == 4
  {
    var bits := Bits(d, i);
    [B64.Char(SixBits(bits, 0)), B64.Char(SixBits(bits, 1)), B64.Char(SixBits(bits, 2)), B64.Char(SixBits(bits, 3))]
  }

  /** The groups the loop appends from `i` on, one per started three characters. */
  function Groups(d: JsString, i: nat): JsString
    decreases |d| - i
  {
    if i < |d| then Hexets(d, i) + Groups(d, i + 3) else []
  }

  /** `enc.slice(0, -k)`: all but the last `k` characters, empty when there are fewer. */
  function DropLast(enc: JsString, k: nat): JsString
  {
    if |enc| >= k then enc[..|enc| - k] else []
  }

  /** The `switch` on `data.length % 3`: one or two trailing characters become "=". */
  function PadTail(enc: JsString, n: nat): JsString
  {
    if n % 3 == 1 then DropLast(enc, 2) + [B64.PadChar, B64.PadChar]
    else if n % 3 == 2 then DropLast(enc, 1) + [B64.PadChar]
    else enc
  }

  // ------------------------------------------------------------- one group

  lemma CodeAtIsByte(d: JsString, k: nat)
    requires IsByteString(d)
    ensures CodeAt(d, k) == ByteAt(LowBytes(d), k) as bv32
  {
    if k < |d| {
      LowByteOfByte(d[k]);
      WidenOfLowByte(d[k]);
    }
  }

  lemma WidenOfLowByte(u: Unit)
    requires u < 0x100
    ensures u as bv32 == LowByte(u) as bv32
  {
  }

  lemma BitsOfBytes(d: JsString, i: nat)
    requires IsByteString(d)
    ensures var b := LowBytes(d);
      Bits(d, i) == Triplet(ByteAt(b, i) as bv32, ByteAt(b, i + 1) as bv32, ByteAt(b, i + 2) as bv32)
  {
    CodeAtIsByte(d, i);
    CodeAtIsByte(d, i + 1);
    CodeAtIsByte(d, i + 2);
  }

  /** The four characters of a group are those of RFC 4648 for its three bytes, 0 past the end. */
  lemma HexetsAreQuantum(d: JsString, i: nat, pad: JsString)
    requires IsByteString(d)
    ensures var b := LowBytes(d);
      Hexets(d, i) == B64.Quantum(ByteAt(b, i), ByteAt(b, i + 1), ByteAt(b, i + 2), 3, pad)
  {
    var b := LowBytes(d);
    HexetsOfBytes(d, i);
    B64.WholeQuantum(ByteAt(b, i), ByteAt(b, i + 1), ByteAt(b, i + 2), pad);
  }

  lemma HexetsOfBytes(d: JsString, i: nat)
    requires IsByteString(d)
    ensures var b := LowBytes(d);
      var x, y, z := ByteAt(b, i), ByteAt(b, i + 1), ByteAt(b, i + 2);
      Hexets(d, i) == [B64.Char(B64.Sextet0(x)), B64.Char(B64.Sextet1(x, y)), B64.Char(B64.Sextet2(y, z)), B64.Char(B64.Sextet3(z))]
  {
    var b := LowBytes(d);
    var x, y, z := ByteAt(b, i), ByteAt(b, i + 1), ByteAt(b, i + 2);
    SixBitsOfBytes0(d, i);
    SixBitsOfBytes1(d, i);
    SixBitsOfBytes2(d, i);
    SixBitsOfBytes3(d, i);
  }

  // Each 6-bit index of the group read from the string is the RFC's for its bytes.

  lemma SixBitsOfBytes0(d: JsString, i: nat)
    requires IsByteString(d)
    ensures SixBits(Bits(d, i), 0) == B64.Sextet0(ByteAt(LowBytes(d), i))
  {
    var b := LowBytes(d);
    BitsOfBytes(d, i);
    SixBits0(ByteAt(b, i), ByteAt(b, i + 1), ByteAt(b, i + 2));
  }

  lemma SixBitsOfBytes1(d: JsString, i: nat)
    requires IsByteString(d)
    ensures SixBits(Bits(d, i), 1) == B64.Sextet1(ByteAt(LowBytes(d), i), ByteAt(LowBytes(d), i + 1))
  {
    var b := LowBytes(d);
    BitsOfBytes(d, i);
    SixBits1(ByteAt(b, i), ByteAt(b, i + 1), ByteAt(b, i + 2));
  }

  lemma SixBitsOfBytes2(d: JsString, i: nat)
    requires IsByteString(d)
    ensures SixBits(Bits(d, i), 2) == B64.Sextet2(ByteAt(LowBytes(d), i + 1), ByteAt(LowBytes(d), i + 2))
  {
    var b := LowBytes(d);
    BitsOfBytes(d, i);
    SixBits2(ByteAt(b, i), ByteAt(b, i + 1), ByteAt(b, i + 2));
  }

  lemma SixBitsOfBytes3(d: JsString, i: nat)
    requires IsByteString(d)
    ensures SixBits(Bits(d, i), 3) == B64.Sextet3(ByteAt(LowBytes(d), i + 2))
  {
    var b := LowBytes(d);
    BitsOfBytes(d, i);
    SixBits3(ByteAt(b, i), ByteAt(b, i + 1), ByteAt(b, i + 2));
  }

  /** Two bytes left: the last character, which covers only zero bits, becomes one pad. */
  lemma ShortQuantum2(a: Byte, b: Byte, q: JsString)
    requires q == B64.Quantum(a, b, 0, 3, [])
    ensures DropLast(q, 1) + [B64.PadChar] == B64.Quantum(a, b, 0, 2, [B64.PadChar])
  {
  }

  /** One byte left: the last two characters become two pads. */
  lemma ShortQuantum1(a: Byte, q: JsString)
    requires q == B64.Quantum(a, 0, 0, 3, [])
    ensures DropLast(q, 2) + [B64.PadChar, B64.PadChar] == B64.Quantum(a, 0, 0, 1, [B64.PadChar])
  {
  }

  // ------------------------------------------------------------- the loop

  lemma PadTailFront(h: JsString, g: JsString, n: nat)
    requires |h| == 4 && (n % 3 == 0 || |g| >= 2)
    ensures PadTail(h + g, n + 3) == h + PadTail(g, n)
  {
    assert (n + 3) % 3 == n % 3;
    if n % 3 == 1 {
      assert (h + g)[..|h + g| - 2] == h + g[..|g| - 2];
    } else if n % 3 == 2 {
      assert (h + g)[..|h + g| - 1] == h + g[..|g| - 1];
    }
  }

  lemma GroupsLength(d: JsString, i: nat)
    requires i + 3 < |d|
    ensures |Groups(d, i + 3)| >= 4
  {
  }

  /** The last group, one or two bytes from the end, with its pads. */
  lemma LastGroupPadded(d: JsString, i: nat)
    requires IsByteString(d) && i < |d| < i + 3
    ensures PadTail(Groups(d, i), |d| - i) == B64.Encode(LowBytes(d)[i..], [B64.PadChar])
  {
    var b := LowBytes(d);
    var rest := b[i..];
    HexetsAreQuantum(d, i, []);
    assert Groups(d, i + 3) == [];
    assert Groups(d, i) == Hexets(d, i);
    if |rest| == 1 {
      assert ByteAt(b, i + 1) == 0 && ByteAt(b, i + 2) == 0;
      ShortQuantum1(ByteAt(b, i), Hexets(d, i));
    } else {
      assert ByteAt(b, i + 2) == 0;
      ShortQuantum2(ByteAt(b, i), ByteAt(b, i + 1), Hexets(d, i));
    }
  }

  /** A whole group is the first quantum of the encoding of the bytes from it on. */
  lemma WholeGroupEncoded(d: JsString, i: nat)
    requires IsByteString(d) && i + 3 <= |d|
    ensures B64.Encode(LowBytes(d)[i..], [B64.PadChar]) == Hexets(d, i) + B64.Encode(LowBytes(d)[i + 3..], [B64.PadChar])
  {
    var b := LowBytes(d);
    var rest := b[i..];
    HexetsAreQuantum(d, i, [B64.PadChar]);
    assert rest[3..] == b[i + 3..];
  }

  /** The switch does not reach a group that is followed by another. */
  lemma WholeGroupPadTail(d: JsString, i: nat)
    requires i + 3 <= |d|
    ensures PadTail(Groups(d, i), |d| - i) == Hexets(d, i) + PadTail(Groups(d, i + 3), |d| - (i + 3))
  {
    var n := |d| - (i + 3);
    if i + 3 < |d| {
      GroupsLength(d, i);
    }
    assert Groups(d, i) == Hexets(d, i) + Groups(d, i + 3);
    assert |d| - i == n + 3;
    PadTailFront(Hexets(d, i), Groups(d, i + 3), n);
  }

  /** A whole group in front of the rest of the loop and the switch encodes the bytes from `i` on. */
  lemma GroupStep(d: JsString, i: nat)
    requires IsByteString(d) && i + 3 <= |d|
    requires PadTail(Groups(d, i + 3), |d| - (i + 3)) == B64.Encode(LowBytes(d)[i + 3..], [B64.PadChar])
    ensures PadTail(Groups(d, i), |d| - i) == B64.Encode(LowBytes(d)[i..], [B64.PadChar])
  {
    WholeGroupEncoded(d, i);
    WholeGroupPadTail(d, i);
  }

  /** From any group on, the loop and the switch write the RFC's encoding of the remaining bytes. */
  lemma {:induction false} GroupsEncode(d: JsString, i: nat)
    requires IsByteString(d) && i <= |d|
    ensures PadTail(Groups(d, i), |d| - i) == B64.Encode(LowBytes(d)[i..], [B64.PadChar])
    decreases |d| - i
  {
    if i + 3 <= |d| {
      GroupsEncode(d, i + 3);
      GroupStep(d, i);
    } else if i < |d| {
      LastGroupPadded(d, i);
    }
  }

  lemma NormalizeKeepsSome(s: JsString)
    requires |s| > 0
    ensures |Utf8.ReplaceCrLf(s)| > 0
  {
  }

  /** A non-empty string has a non-empty UTF-8 encoding. */
  lemma EncodedNotEmpty(s: JsString)
    requires |s| > 0
    ensures |Utf8.Encode(Utf8.Normalize(s))| > 0
  {
    NormalizeKeepsSome(s);
    Utf8.EncodeLength(Utf8.Normalize(s));
  }

  /**
   * The do-while loop of `base64_encode` over the encoded string `d`, its
   * first pass written before the `while`, and the `join` of the groups.
   */
  method AppendGroups(d: JsString) returns (tmp: JsString)
    requires |d| > 0
    ensures tmp == Groups(d, 0)
  {
    var i := 0;
    tmp := [];
    tmp := tmp + Hexets(d, i);
    i := i + 3;
    while i < |d|
      invariant 3 <= i <= |d| + 2
      invariant tmp + Groups(d, i) == Groups(d, 0)
      decreases |d| - i
    {
      GroupsStep(d, i, tmp);
      tmp := tmp + Hexets(d, i);
      i := i + 3;
    }
  }

  lemma GroupsStep(d: JsString, i: nat, tmp: JsString)
    requires i < |d|
    ensures tmp + Groups(d, i) == (tmp + Hexets(d, i)) + Groups(d, i + 3)
  {
  }

  /**
   * `base64_encode(data)`: the empty string is returned as it is; otherwise
   * the UTF-8 bytes are grouped, and the switch puts in the pads.
   */
  method Base64Encode(data: JsString) returns (enc: JsString)
    ensures |data| == 0 ==> enc == data
    ensures |data| > 0 ==> enc == B64.Encode(LowBytes(Utf8.Encode(Utf8.Normalize(data))), [B64.PadChar])
  {
    if |data| == 0 {
      return data;
    }
    var d := Utf8.Utf8Encode(data);
    EncodedNotEmpty(data);
    enc := AppendGroups(d);
    if |d| % 3 == 1 {
      enc := DropLast(enc, 2) + [B64.PadChar, B64.PadChar];
    } else if |d| % 3 == 2 {
      enc := DropLast(enc, 1) + [B64.PadChar];
    }
    GroupsEncodeAll(d);
  }

  /** The loop and the switch over all of `d` write the RFC's encoding of its bytes. */
  lemma GroupsEncodeAll(d: JsString)
    requires IsByteString(d)
    ensures PadTail(Groups(d, 0), |d|) == B64.Encode(LowBytes(d), [B64.PadChar])
  {
    GroupsEncode(d, 0);
    assert LowBytes(d)[0..] == LowBytes(d);
  }

  /** What `base64_encode` writes decodes to the UTF-8 bytes, which decode to the normalised string. */
  lemma Base64EncodeRoundTrip(data: JsString)
    ensures var d := Utf8.Encode(Utf8.Normalize(data));
      B64.Decode(B64.Encode(LowBytes(d), [B64.PadChar])) == Some(LowBytes(d))
      && Utf8.Decode(Widen(LowBytes(d))) == Some(Utf8.Normalize(data))
  {
    var d := Utf8.Encode(Utf8.Normalize(data));
    B64.DecodeEncode(LowBytes(d));
    Utf8.EncodeIsByteString(Utf8.Normalize(data));
    WidenLowBytes(d);
    Utf8.DecodeEncode(Utf8.Normalize(data));
  }

  /** Four characters per started group of three UTF-8 bytes. */
  lemma Base64EncodeLength(data: JsString)
    ensures var n := |Utf8.Encode(Utf8.Normalize(data))|;
      |B64.Encode(LowBytes(Utf8.Encode(Utf8.Normalize(data))), [B64.PadChar])| == 4 * ((n + 2) / 3)
  {
    var d := Utf8.Encode(Utf8.Normalize(data));
    B64.EncodeLength(LowBytes(d), [B64.PadChar]);
    B64.PaddedLength(|d|);
  }

  /**
   * The encoding ends with exactly `(3 - n % 3) % 3` "=" for `n` UTF-8
   * bytes: every character before them is of the alphabet, which has no "=".
   */
  lemma Base64EncodePads(data: JsString)
    ensures var n := |Utf8.Encode(Utf8.Normalize(data))|;
      var e := B64.Encode(LowBytes(Utf8.Encode(Utf8.Normalize(data))), [B64.PadChar]);
      var k := (3 - n % 3) % 3;
      k <= |e| && B64.AllAlphabet(e[..|e| - k]) && (forall i :: |e| - k <= i < |e| ==> e[i] == B64.PadChar)
      && !B64.IsAlphabet(B64.PadChar)
  {
    B64.PadCount(LowBytes(Utf8.Encode(Utf8.Normalize(data))));
  }
}
