/**
 * The renderings of a word array in HasherUtils.js, `binl2hex` and
 * `binl2b64`, and the digest functions built on them, `hex_md5`, `b64_md5`
 * and `str_md5`.  The configuration variables `hexcase` and `b64pad` are
 * parameters here.
 *
 * Each renderer reads the words' bytes little-endian, so each is an encoding
 * of `Bytes(bin)`: base 16 and base 64 of RFC 4648.  Both loops find byte `i`
 * in word `i >> 2`; `>>` reads `i` as a signed 32-bit number, so the
 * encodings are stated for arrays of at most 2^29 words, whose bytes are
 * counted below 2^31.
 */
module Md5Render {
  import opened JsValues
  import opened WordArith
  import opened LittleEndian
  import opened Md5Packing
  import opened Md5Core
  import opened Md5Padding
  import opened Md5Agreement
  import opened Triplets
  import Base16
  import B64 = Base64Rfc
  import Rfc = Md5Rfc

  /** Arrays of at most 2^29 words: their byte count stays below 2^31, where `i >> 2` is `i / 4`. */
  const MaxWords: nat := 0x2000_0000

  /**
   * `i >> 2`: from byte 2^31 on (modulo 2^32) the signed shift gives a
   * negative index, the floor of the division by 4.
   */
  function WordOfByte(i: nat): (k: int)
    ensures -0x2000_0000 <= k < 0x2000_0000
    ensures i < 0x8000_0000 ==> k == i / 4
  {
    var low := i % 0x1_0000_0000;
    if low < 0x8000_0000 then low / 4 else (low - 0x1_0000_0000) / 4
  }

  // ------------------------------------------------------------- binl2hex

  /** `w >> k * 8 + 4 & 15`: the high four bits of byte `k` of `w`. */
  function HighNibble(w: Word, k: nat): Byte
    requires k < 4
  {
    var shifted := if k == 0 then w >> 4 else if k == 1 then w >> 12 else if k == 2 then w >> 20 else w >> 28;
    (shifted & 15) as bv8
  }

  /** `w >> k * 8 & 15`: the low four bits of byte `k` of `w`. */
  function LowNibble(w: Word, k: nat): Byte
    requires k < 4
  {
    var shifted := if k == 0 then w else if k == 1 then w >> 8 else if k == 2 then w >> 16 else w >> 24;
    (shifted & 15) as bv8
  }

  /**
   * The loop of `binl2hex` from byte `i` on: two characters of `hex_tab` per
   * byte.  `hex_tab.charAt(n)` is the base 16 digit of value `n` in the case
   * `hexcase` selects.
   */
  function Binl2HexFrom(bin: seq<Word>, upper: bool, i: nat): (str: JsString)
    ensures |str| == if i < 4 * |bin| then 2 * (4 * |bin| - i) else 0
    decreases 4 * |bin| - i
  {
    if i >= 4 * |bin| then []
    else
      var w := AtIndex(bin, WordOfByte(i));
      [Base16.Digit(HighNibble(w, i % 4), upper), Base16.Digit(LowNibble(w, i % 4), upper)]
      + Binl2HexFrom(bin, upper, i + 1)
  }

  /** `binl2hex(binarray)`. */
  function Binl2Hex(bin: seq<Word>, upper: bool): JsString
  {
    Binl2HexFrom(bin, upper, 0)
  }

  lemma Nibbles0(w: Word)
    ensures HighNibble(w, 0) == ByteOf(w, 0) >> 4 && LowNibble(w, 0) == ByteOf(w, 0) & 15
  {
  }

  lemma Nibbles1(w: Word)
    ensures HighNibble(w, 1) == ByteOf(w, 1) >> 4 && LowNibble(w, 1) == ByteOf(w, 1) & 15
  {
  }

  lemma Nibbles2(w: Word)
    ensures HighNibble(w, 2) == ByteOf(w, 2) >> 4 && LowNibble(w, 2) == ByteOf(w, 2) & 15
  {
  }

  lemma Nibbles3(w: Word)
    ensures HighNibble(w, 3) == ByteOf(w, 3) >> 4 && LowNibble(w, 3) == ByteOf(w, 3) & 15
  {
  }

  /** The two nibbles `binl2hex` reads are the high and low halves of byte `k`. */
  lemma Nibbles(w: Word, k: nat)
    requires k < 4
    ensures HighNibble(w, k) == ByteOf(w, k) >> 4 && LowNibble(w, k) == ByteOf(w, k) & 15
  {
    if k == 0 {
      Nibbles0(w);
    } else if k == 1 {
      Nibbles1(w);
    } else if k == 2 {
      Nibbles2(w);
    } else {
      Nibbles3(w);
    }
  }

  /** One pass of the loop of `binl2hex` writes the two base 16 digits of byte `i`. */
  lemma HexStep(bin: seq<Word>, upper: bool, i: nat)
    requires |bin| <= MaxWords
    requires i < 4 * |bin|
    requires Binl2HexFrom(bin, upper, i + 1) == Base16.Encode(Bytes(bin)[i + 1..], upper)
    ensures Binl2HexFrom(bin, upper, i) == Base16.Encode(Bytes(bin)[i..], upper)
  {
    var rest := Bytes(bin)[i..];
    assert rest[0] == ByteOf(bin[i / 4], i % 4);
    assert rest[1..] == Bytes(bin)[i + 1..];
    Nibbles(bin[i / 4], i % 4);
  }

  lemma {:induction false} Binl2HexFromEncodes(bin: seq<Word>, upper: bool, i: nat)
    requires |bin| <= MaxWords
    requires i <= 4 * |bin|
    ensures Binl2HexFrom(bin, upper, i) == Base16.Encode(Bytes(bin)[i..], upper)
    decreases 4 * |bin| - i
  {
    if i < 4 * |bin| {
      Binl2HexFromEncodes(bin, upper, i + 1);
      HexStep(bin, upper, i);
    }
  }

  /** `binl2hex` writes the bytes of the words, least significant first, in base 16. */
  lemma Binl2HexEncodes(bin: seq<Word>, upper: bool)
    requires |bin| <= MaxWords
    ensures Binl2Hex(bin, upper) == Base16.Encode(Bytes(bin), upper)
  {
    Binl2HexFromEncodes(bin, upper, 0);
    assert Bytes(bin)[0..] == Bytes(bin);
  }

  /** `binl2hex` loses nothing: decoding its output in base 16 gives the words' bytes back. */
  lemma Binl2HexDecodes(bin: seq<Word>, upper: bool)
    requires |bin| <= MaxWords
    ensures Base16.Decode(Binl2Hex(bin, upper)) == Some(Bytes(bin))
  {
    Binl2HexEncodes(bin, upper);
    Base16.DecodeEncode(Bytes(bin), upper);
  }

  /** The loop of `binl2hex` writes the two digits of byte `j` at positions `2 * j` and `2 * j + 1`. */
  lemma {:induction false} Binl2HexFromDigits(bin: seq<Word>, upper: bool, i: nat, j: nat)
    requires i <= j < 4 * |bin|
    ensures var str, w := Binl2HexFrom(bin, upper, i), AtIndex(bin, WordOfByte(j));
      str[2 * (j - i)] == Base16.Digit(HighNibble(w, j % 4), upper)
      && str[2 * (j - i) + 1] == Base16.Digit(LowNibble(w, j % 4), upper)
    decreases j - i
  {
    if i < j {
      Binl2HexFromDigits(bin, upper, i + 1, j);
    }
  }

  /**
   * Beyond 2^29 words, `binl2hex` writes byte 2^31 as "00": `i >> 2` is
   * -2^29 there, which reads `undefined`, whatever word 2^29 holds.
   */
  lemma Binl2HexPastLimit(bin: seq<Word>, upper: bool)
    requires |bin| > MaxWords
    ensures Binl2Hex(bin, upper)[0x1_0000_0000] == '0' as Unit
    ensures Binl2Hex(bin, upper)[0x1_0000_0001] == '0' as Unit
  {
    Binl2HexFromDigits(bin, upper, 0, 0x8000_0000);
    assert WordOfByte(0x8000_0000) == -0x2000_0000;
  }

  // ------------------------------------------------------------- binl2b64

  /** `w >> 8 * m & 255`: byte `m` of `w`. */
  function ByteLane(w: Word, m: nat): Word
    requires m < 4
  {
    var shifted := if m == 0 then w else if m == 1 then w >> 8 else if m == 2 then w >> 16 else w >> 24;
    shifted & 255
  }

  /**
   * `binarray[k >> 2] >> 8 * (k % 4) & 255`: byte `k` of the array, 0 past
   * its end or where `k >> 2` is negative.
   */
  function ByteIn(bin: seq<Word>, k: nat): Word
  {
    ByteLane(AtIndex(bin, WordOfByte(k)), k % 4)
  }

  /**
   * Character `j` of the group at byte `i`: `b64pad` once the bits written
   * (`i * 8 + j * 6`) pass the end of the array, otherwise `tab.charAt(...)`,
   * `tab` being the alphabet of Table 1 of RFC 4648.
   */
  function B64Char(bin: seq<Word>, pad: JsString, i: nat, t: Word, j: nat): JsString
    requires j < 4
  {
    if i * 8 + j * 6 > |bin| * 32 then pad else [B64.Char(SixBits(t, j))]
  }

  /** `triplet`: the bytes `i`, `i + 1` and `i + 2` of the array as 24 bits. */
  function GroupBits(bin: seq<Word>, i: nat): Word
  {
    Triplet(ByteIn(bin, i), ByteIn(bin, i + 1), ByteIn(bin, i + 2))
  }

  /** The loop of `binl2b64` from byte `i` on; its inner loop over `j` written out. */
  function Binl2B64From(bin: seq<Word>, pad: JsString, i: nat): JsString
    decreases 4 * |bin| - i
  {
    if i >= 4 * |bin| then []
    else
      Group(bin, pad, i) + Binl2B64From(bin, pad, i + 3)
  }

  /** The four characters the inner loop appends for the group at byte `i`. */
  function Group(bin: seq<Word>, pad: JsString, i: nat): JsString
  {
    var t := GroupBits(bin, i);
    B64Char(bin, pad, i, t, 0) + B64Char(bin, pad, i, t, 1) + B64Char(bin, pad, i, t, 2) + B64Char(bin, pad, i, t, 3)
  }

  /** `binl2b64(binarray)` with `b64pad` as `pad`. */
  function Binl2B64(bin: seq<Word>, pad: JsString): JsString
  {
    Binl2B64From(bin, pad, 0)
  }

  lemma ByteLane0(w: Word)
    ensures ByteLane(w, 0) == ByteOf(w, 0) as bv32
  {
  }

  lemma ByteLane1(w: Word)
    ensures ByteLane(w, 1) == ByteOf(w, 1) as bv32
  {
  }

  lemma ByteLane2(w: Word)
    ensures ByteLane(w, 2) == ByteOf(w, 2) as bv32
  {
  }

  lemma ByteLane3(w: Word)
    ensures ByteLane(w, 3) == ByteOf(w, 3) as bv32
  {
  }

  lemma ByteLaneIsByte(w: Word, m: nat)
    requires m < 4
    ensures ByteLane(w, m) == ByteOf(w, m) as bv32
  {
    if m == 0 {
      ByteLane0(w);
    } else if m == 1 {
      ByteLane1(w);
    } else if m == 2 {
      ByteLane2(w);
    } else {
      ByteLane3(w);
    }
  }

  lemma ByteOfZero(m: nat)
    requires m < 4
    ensures ByteOf(0, m) == 0
  {
  }

  /** Below 2^29 words, `binl2b64` reads byte `k` of the words, and 0 past their end. */
  lemma ByteInIsByte(bin: seq<Word>, k: nat)
    requires |bin| <= MaxWords && k < 0x1_0000_0000
    ensures ByteIn(bin, k) == ByteAt(Bytes(bin), k) as bv32
  {
    ByteLaneIsByte(AtIndex(bin, WordOfByte(k)), k % 4);
    if k < 4 * |bin| {
      assert Bytes(bin)[k] == ByteOf(bin[k / 4], k % 4);
    } else {
      assert AtIndex(bin, WordOfByte(k)) == 0;
      ByteOfZero(k % 4);
    }
  }

  /**
   * Beyond 2^29 words, the group at byte 2^31 - 2 reads its third byte,
   * byte 2^31, at index -2^29: as 0, whatever word 2^29 holds.
   */
  lemma Binl2B64PastLimit(bin: seq<Word>)
    requires |bin| > MaxWords
    ensures GroupBits(bin, 0x7fff_fffe) & 255 == 0
  {
  }

  /** The 24 bits of the group at byte `i` are those of the bytes `i`, `i + 1`, `i + 2`. */
  lemma GroupTriplet(bin: seq<Word>, i: nat)
    requires |bin| <= MaxWords && i < 4 * |bin|
    ensures var b := Bytes(bin);
      GroupBits(bin, i) == Triplet(ByteAt(b, i) as bv32, ByteAt(b, i + 1) as bv32, ByteAt(b, i + 2) as bv32)
  {
    ByteInIsByte(bin, i);
    ByteInIsByte(bin, i + 1);
    ByteInIsByte(bin, i + 2);
  }

  // The four characters of a group: a pad where the bits written pass the
  // end, otherwise the alphabet character of the group's six bits.

  lemma GroupChar0(bin: seq<Word>, pad: JsString, i: nat)
    requires |bin| <= MaxWords
    requires i < 4 * |bin|
    ensures var b := Bytes(bin);
      B64Char(bin, pad, i, GroupBits(bin, i), 0) == [B64.Char(B64.Sextet0(ByteAt(b, i)))]
  {
    var b := Bytes(bin);
    GroupTriplet(bin, i);
    SixBits0(ByteAt(b, i), ByteAt(b, i + 1), ByteAt(b, i + 2));
  }

  lemma GroupChar1(bin: seq<Word>, pad: JsString, i: nat)
    requires |bin| <= MaxWords
    requires i < 4 * |bin|
    ensures var b := Bytes(bin);
      B64Char(bin, pad, i, GroupBits(bin, i), 1) == [B64.Char(B64.Sextet1(ByteAt(b, i), ByteAt(b, i + 1)))]
  {
    var b := Bytes(bin);
    GroupTriplet(bin, i);
    SixBits1(ByteAt(b, i), ByteAt(b, i + 1), ByteAt(b, i + 2));
  }

  lemma GroupChar2(bin: seq<Word>, pad: JsString, i: nat)
    requires |bin| <= MaxWords
    requires i < 4 * |bin|
    ensures var b := Bytes(bin);
      B64Char(bin, pad, i, GroupBits(bin, i), 2)
      == if 4 * |bin| - i < 2 then pad else [B64.Char(B64.Sextet2(ByteAt(b, i + 1), ByteAt(b, i + 2)))]
  {
    var b := Bytes(bin);
    GroupTriplet(bin, i);
    SixBits2(ByteAt(b, i), ByteAt(b, i + 1), ByteAt(b, i + 2));
  }

  lemma GroupChar3(bin: seq<Word>, pad: JsString, i: nat)
    requires |bin| <= MaxWords
    requires i < 4 * |bin|
    ensures var b := Bytes(bin);
      B64Char(bin, pad, i, GroupBits(bin, i), 3)
      == if 4 * |bin| - i < 3 then pad else [B64.Char(B64.Sextet3(ByteAt(b, i + 2)))]
  {
    var b := Bytes(bin);
    GroupTriplet(bin, i);
    SixBits3(ByteAt(b, i), ByteAt(b, i + 1), ByteAt(b, i + 2));
  }

  /** One group of `binl2b64`, at byte `i` with `r` bytes left, is a quantum of RFC 4648. */
  lemma GroupIsQuantum(bin: seq<Word>, pad: JsString, i: nat)
    requires |bin| <= MaxWords
    requires i < 4 * |bin|
    ensures var b, r := Bytes(bin), 4 * |bin| - i;
      Group(bin, pad, i) == B64.Quantum(ByteAt(b, i), ByteAt(b, i + 1), ByteAt(b, i + 2), if r < 3 then r else 3, pad)
  {
    GroupChar0(bin, pad, i);
    GroupChar1(bin, pad, i);
    GroupChar2(bin, pad, i);
    GroupChar3(bin, pad, i);
  }

  /** A group with `r` bytes left is the first quantum of the rest of the bytes. */
  lemma GroupIsFirstQuantum(bin: seq<Word>, pad: JsString, i: nat)
    requires |bin| <= MaxWords
    requires i < 4 * |bin|
    ensures var rest := Bytes(bin)[i..];
      Group(bin, pad, i)
      == if |rest| < 3 then B64.Encode(rest, pad) else B64.Quantum(rest[0], rest[1], rest[2], 3, pad)
  {
    var b := Bytes(bin);
    var rest := b[i..];
    GroupIsQuantum(bin, pad, i);
    if |rest| == 1 {
      assert ByteAt(b, i + 1) == 0 && ByteAt(b, i + 2) == 0;
    } else if |rest| == 2 {
      assert ByteAt(b, i + 2) == 0;
    }
  }

  /** The last group, fewer than three bytes from the end, is the whole encoding of the rest. */
  lemma LastGroup(bin: seq<Word>, pad: JsString, i: nat)
    requires |bin| <= MaxWords
    requires i < 4 * |bin| < i + 3
    ensures Binl2B64From(bin, pad, i) == B64.Encode(Bytes(bin)[i..], pad)
  {
    GroupIsFirstQuantum(bin, pad, i);
    assert Binl2B64From(bin, pad, i + 3) == [];
  }

  /** A whole group is the first quantum of the encoding of the rest. */
  lemma WholeGroup(bin: seq<Word>, pad: JsString, i: nat)
    requires |bin| <= MaxWords
    requires i + 3 <= 4 * |bin|
    ensures B64.Encode(Bytes(bin)[i..], pad) == Group(bin, pad, i) + B64.Encode(Bytes(bin)[i + 3..], pad)
  {
    var rest := Bytes(bin)[i..];
    GroupIsFirstQuantum(bin, pad, i);
    assert rest[3..] == Bytes(bin)[i + 3..];
  }

  /** A whole group followed by the rest of the loop encodes the bytes from `i` on. */
  lemma B64Step(bin: seq<Word>, pad: JsString, i: nat)
    requires |bin| <= MaxWords
    requires i + 3 <= 4 * |bin|
    requires Binl2B64From(bin, pad, i + 3) == B64.Encode(Bytes(bin)[i + 3..], pad)
    ensures Binl2B64From(bin, pad, i) == B64.Encode(Bytes(bin)[i..], pad)
  {
    WholeGroup(bin, pad, i);
  }

  lemma {:induction false} Binl2B64FromEncodes(bin: seq<Word>, pad: JsString, i: nat)
    requires |bin| <= MaxWords
    requires i <= 4 * |bin|
    ensures Binl2B64From(bin, pad, i) == B64.Encode(Bytes(bin)[i..], pad)
    decreases 4 * |bin| - i
  {
    if i + 3 <= 4 * |bin| {
      Binl2B64FromEncodes(bin, pad, i + 3);
      B64Step(bin, pad, i);
    } else if i < 4 * |bin| {
      LastGroup(bin, pad, i);
    }
  }

  /** `binl2b64` writes the bytes of the words, least significant first, in base 64 with `b64pad`. */
  lemma Binl2B64Encodes(bin: seq<Word>, pad: JsString)
    requires |bin| <= MaxWords
    ensures Binl2B64(bin, pad) == B64.Encode(Bytes(bin), pad)
  {
    Binl2B64FromEncodes(bin, pad, 0);
    assert Bytes(bin)[0..] == Bytes(bin);
  }

  /** With `b64pad` set to "=", `binl2b64` loses nothing: base 64 decoding gives the words' bytes back. */
  lemma Binl2B64Decodes(bin: seq<Word>)
    requires |bin| <= MaxWords
    ensures B64.Decode(Binl2B64(bin, [B64.PadChar])) == Some(Bytes(bin))
  {
    Binl2B64Encodes(bin, [B64.PadChar]);
    B64.DecodeEncode(Bytes(bin));
  }

  // ------------------------------------------------------------- digests

  /** The four words `core_md5` returns for `s`, eight bits per character. */
  function DigestWords(s: JsString): Buffer
  {
    CoreMd5(Str2Binl(s), 8 * |s|)
  }

  /** `hex_md5(s)`, with `hexcase` as `upper`. */
  function HexMd5(s: JsString, upper: bool): (h: JsString)
    ensures |h| == 32
  {
    Binl2Hex(DigestWords(s), upper)
  }

  /** `b64_md5(s)`, with `b64pad` as `pad`. */
  function B64Md5(s: JsString, pad: JsString): JsString
  {
    Binl2B64(DigestWords(s), pad)
  }

  /** `str_md5(s)`. */
  function StrMd5(s: JsString): JsString
  {
    Binl2Str(DigestWords(s))
  }

  /** `hex_md5` is the MD5 digest in base 16: 32 digits, lower case with the default `hexcase`. */
  lemma HexMd5IsDigest(s: JsString, upper: bool)
    requires |s| < MaxLength
    ensures HexMd5(s, upper) == Base16.Encode(Rfc.Md5(LowBytes(s)), upper)
  {
    CoreMd5IsMd5(s);
    Binl2HexEncodes(DigestWords(s), upper);
  }

  /** Whatever the string, `hex_md5` with `hexcase` 0 writes only '0' to '9' and 'a' to 'f'. */
  lemma HexMd5IsLowerHex(s: JsString, i: nat)
    requires i < 32
    ensures Base16.IsDigit(HexMd5(s, false)[i], false)
  {
    Binl2HexEncodes(DigestWords(s), false);
    Base16.EncodeInAlphabet(Bytes(DigestWords(s)), false, i);
  }

  /** `b64_md5` is the MD5 digest in base 64: 22 characters of the alphabet, then `b64pad` twice. */
  lemma B64Md5IsDigest(s: JsString, pad: JsString)
    requires |s| < MaxLength
    ensures B64Md5(s, pad) == B64.Encode(Rfc.Md5(LowBytes(s)), pad)
    ensures var r := B64Md5(s, pad);
      |r| == 22 + 2 * |pad| && B64.AllAlphabet(r[..22]) && r[22..] == pad + pad
  {
    CoreMd5IsMd5(s);
    Binl2B64Encodes(DigestWords(s), pad);
    DigestShape(Rfc.Md5(LowBytes(s)), pad);
  }

  /** Sixteen bytes encode as five whole groups and one byte: 22 characters, then two pads. */
  lemma DigestShape(d: seq<Byte>, pad: JsString)
    requires |d| == 16
    ensures var e := B64.Encode(d, pad);
      |e| == 22 + 2 * |pad| && B64.AllAlphabet(e[..22]) && e[22..] == pad + pad
  {
    B64.EncodeShape(d, pad);
    assert B64.CharCount(16) == 22;
  }

  /** `str_md5` is the MD5 digest as a string of 16 bytes. */
  lemma StrMd5IsDigest(s: JsString)
    requires |s| < MaxLength
    ensures StrMd5(s) == Widen(Rfc.Md5(LowBytes(s)))
  {
    CoreMd5IsMd5(s);
    Binl2StrIsBytes(DigestWords(s));
  }
}
