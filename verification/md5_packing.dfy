/**
 * The conversions between strings and word arrays of HasherUtils.js,
 * `str2binl` and `binl2str`, with `chrsz` fixed to 8: every character
 * contributes the low byte of its code unit.
 *
 * A JavaScript array is modelled by the sequence of its elements; a hole or
 * a read past the end is `undefined`, which every bitwise operator reads as 0.
 * Both loops index the array with `i >> 5`, where `i` counts bits; `>>`
 * reads `i` as a signed 32-bit number, so the model follows the source only
 * as far as the bit count stays below 2^31, which is where the properties
 * below are stated.
 */
module Md5Packing {
  import opened JsValues
  import opened LittleEndian

  /**
   * Strings of at most 2^28 characters, arrays of at most 2^26 words: every
   * bit they index is below 2^31, so `i >> 5` is the word index `i / 32`.
   */
  const MaxLength: nat := 0x1000_0000

  /**
   * `i >> 5`: `>>` reads `i` as a signed 32-bit number, so from 2^31 on
   * (modulo 2^32) the index is negative.  The sign-propagating shift is the
   * floor of the division by 32, which Dafny's `/` is for a positive divisor.
   */
  function WordOfBit(i: nat): (k: int)
    ensures -0x400_0000 <= k < 0x400_0000
    ensures i < 0x8000_0000 ==> k == i / 32
  {
    var low := i % 0x1_0000_0000;
    if low < 0x8000_0000 then low / 32 else (low - 0x1_0000_0000) / 32
  }

  /** Element `i` of a word array as a bitwise operator reads it. */
  function At(x: seq<Word>, i: nat): Word
  {
    if i < |x| then x[i] else 0
  }

  function Zeros(n: nat): (z: seq<Word>)
    ensures |z| == n && forall j | 0 <= j < n :: z[j] == 0
  {
    seq(n, _ => 0)
  }

  /** `x[i] = v`: writing past the end lengthens the array, leaving holes that read as 0. */
  function Put(x: seq<Word>, i: nat, v: Word): (y: seq<Word>)
    ensures |y| == if i < |x| then |x| else i + 1
    ensures At(y, i) == v
    ensures forall j: nat | j != i :: At(y, j) == At(x, j)
  {
    if i < |x| then x[i := v] else x + Zeros(i - |x|) + [v]
  }

  /**
   * `(str.charCodeAt(i / chrsz) & mask) << (i % 32)` for the character at
   * `i / 8 == c`: its low byte moved to byte `c % 4` of the word.
   */
  function Lane(b: Byte, k: nat): Word
    requires k < 4
  {
    if k == 0 then b as bv32
    else if k == 1 then (b as bv32) << 8
    else if k == 2 then (b as bv32) << 16
    else (b as bv32) << 24
  }

  /** `w |= (code & mask) << (i % 32)`: byte `b` written into lane `k` of `w`. */
  function SetLane(w: Word, b: Byte, k: nat): Word
    requires k < 4
  {
    w | Lane(b, k)
  }

  /**
   * `bin[i >> 5] |= … << (i % 32)` for character `c`, at bit `i == 8 * c`.  A
   * negative index names a property of the array object, not an element, so
   * the elements are left as they are.
   */
  function Str2BinlStep(s: JsString, c: nat, bin: seq<Word>): (r: seq<Word>)
    requires c < |s|
    ensures WordOfBit(8 * c) < 0 ==> r == bin
    ensures WordOfBit(8 * c) >= 0 ==> r == Put(bin, WordOfBit(8 * c), SetLane(At(bin, WordOfBit(8 * c)), LowByte(s[c]), c % 4))
  {
    var k := WordOfBit(8 * c);
    if k < 0 then bin else Put(bin, k, SetLane(At(bin, k), LowByte(s[c]), c % 4))
  }

  /** The loop of `str2binl` from character `c` on. */
  function Str2BinlFrom(s: JsString, c: nat, bin: seq<Word>): (r: seq<Word>)
    requires c <= |s|
    ensures |bin| <= 0x400_0000 ==> |r| <= 0x400_0000
    decreases |s| - c
  {
    if c == |s| then bin else Str2BinlFrom(s, c + 1, Str2BinlStep(s, c, bin))
  }

  /**
   * `str2binl(str)`: the string as an array of little-endian words.  The
   * index never reaches 2^26, so neither does the length, however long the
   * string.
   */
  function Str2Binl(s: JsString): (r: seq<Word>)
    ensures |r| <= 0x400_0000
  {
    Str2BinlFrom(s, 0, [])
  }

  /** Element `k` of a word array, for any integer `k`: a negative index reads `undefined`. */
  function AtIndex(x: seq<Word>, k: int): (w: Word)
    ensures k >= 0 ==> w == At(x, k)
  {
    if 0 <= k < |x| then x[k] else 0
  }

  /** `binl2str(bin)`: character `c`, at bit `i == 8 * c`, is byte `c % 4` of word `i >> 5`. */
  function Binl2Str(bin: seq<Word>): (r: JsString)
    ensures |r| == 4 * |bin| && IsByteString(r)
  {
    seq(4 * |bin|, c requires 0 <= c => WidenByte(ByteOf(AtIndex(bin, WordOfBit(8 * c)), c % 4)))
  }

  // ------------------------------------------------------------- byte lanes

  lemma SetLane0(b: Byte)
    ensures SetLane(0, b, 0) == Le4(b, 0, 0, 0)
  {
  }

  lemma SetLane1(x0: Byte, b: Byte)
    ensures SetLane(Le4(x0, 0, 0, 0), b, 1) == Le4(x0, b, 0, 0)
  {
  }

  lemma SetLane2(x0: Byte, x1: Byte, b: Byte)
    ensures SetLane(Le4(x0, x1, 0, 0), b, 2) == Le4(x0, x1, b, 0)
  {
  }

  lemma SetLane3(x0: Byte, x1: Byte, x2: Byte, b: Byte)
    ensures SetLane(Le4(x0, x1, x2, 0), b, 3) == Le4(x0, x1, x2, b)
  {
  }

  lemma LastWordGetsByte0(p: seq<Byte>, b: Byte)
    requires |p| % 4 == 0
    ensures WordAt(p + [b], |p| / 4) == SetLane(WordAt(p, |p| / 4), b, 0)
  {
    var j := |p| / 4;
    assert 4 * j == |p|;
    assert WordAt(p + [b], j) == Le4(b, 0, 0, 0);
    assert WordAt(p, j) == Le4(0, 0, 0, 0);
    SetLane0(b);
  }

  lemma LastWordGetsByte1(p: seq<Byte>, b: Byte)
    requires |p| % 4 == 1
    ensures WordAt(p + [b], |p| / 4) == SetLane(WordAt(p, |p| / 4), b, 1)
  {
    var j := |p| / 4;
    assert 4 * j + 1 == |p|;
    assert WordAt(p + [b], j) == Le4(p[4 * j], b, 0, 0);
    assert WordAt(p, j) == Le4(p[4 * j], 0, 0, 0);
    SetLane1(p[4 * j], b);
  }

  lemma LastWordGetsByte2(p: seq<Byte>, b: Byte)
    requires |p| % 4 == 2
    ensures WordAt(p + [b], |p| / 4) == SetLane(WordAt(p, |p| / 4), b, 2)
  {
    var j := |p| / 4;
    assert 4 * j + 2 == |p|;
    assert WordAt(p + [b], j) == Le4(p[4 * j], p[4 * j + 1], b, 0);
    assert WordAt(p, j) == Le4(p[4 * j], p[4 * j + 1], 0, 0);
    SetLane2(p[4 * j], p[4 * j + 1], b);
  }

  lemma LastWordGetsByte3(p: seq<Byte>, b: Byte)
    requires |p| % 4 == 3
    ensures WordAt(p + [b], |p| / 4) == SetLane(WordAt(p, |p| / 4), b, 3)
  {
    var j := |p| / 4;
    assert 4 * j + 3 == |p|;
    assert WordAt(p + [b], j) == Le4(p[4 * j], p[4 * j + 1], p[4 * j + 2], b);
    assert WordAt(p, j) == Le4(p[4 * j], p[4 * j + 1], p[4 * j + 2], 0);
    SetLane3(p[4 * j], p[4 * j + 1], p[4 * j + 2], b);
  }

  /** Word `|p| / 4` of `p + [b]` is word `|p| / 4` of `p` with `b` in lane `|p| % 4`. */
  lemma LastWordGetsByte(p: seq<Byte>, b: Byte)
    ensures WordAt(p + [b], |p| / 4) == SetLane(WordAt(p, |p| / 4), b, |p| % 4)
  {
    if |p| % 4 == 0 {
      LastWordGetsByte0(p, b);
    } else if |p| % 4 == 1 {
      LastWordGetsByte1(p, b);
    } else if |p| % 4 == 2 {
      LastWordGetsByte2(p, b);
    } else {
      LastWordGetsByte3(p, b);
    }
  }

  /** One iteration of the `str2binl` loop packs one more byte. */
  lemma PackOneMore(p: seq<Byte>, b: Byte)
    ensures Put(Words(p), |p| / 4, SetLane(At(Words(p), |p| / 4), b, |p| % 4)) == Words(p + [b])
  {
    var j := |p| / 4;
    var w := Words(p);
    var y := Put(w, j, SetLane(At(w, j), b, |p| % 4));
    var q := p + [b];
    assert |y| == |Words(q)|;
    forall i | 0 <= i < |y|
      ensures y[i] == Words(q)[i]
    {
      WordsAt(q, i);
      assert y[i] == At(y, i);
      if i < j {
        WordAtAppendLeft(p, [b], i);
        WordsAt(p, i);
      } else {
        if j < |w| {
          WordsAt(p, j);
        } else {
          assert WordAt(p, j) == 0 by {
            assert 4 * j >= |p|;
          }
        }
        LastWordGetsByte(p, b);
      }
    }
  }

  lemma {:induction false} Str2BinlFromPacks(s: JsString, c: nat)
    requires c <= |s| <= MaxLength
    ensures Str2BinlFrom(s, c, Words(LowBytes(s)[..c])) == Words(LowBytes(s))
    decreases |s| - c
  {
    var bytes := LowBytes(s);
    if c == |s| {
      assert bytes[..c] == bytes;
    } else {
      assert Str2BinlStep(s, c, Words(bytes[..c])) == Words(bytes[..c + 1]) by {
        assert bytes[..c + 1] == bytes[..c] + [LowByte(s[c])];
        assert |bytes[..c]| == c && bytes[c] == LowByte(s[c]);
        assert WordOfBit(8 * c) == c / 4;
        PackOneMore(bytes[..c], LowByte(s[c]));
      }
      Str2BinlFromPacks(s, c + 1);
    }
  }

  // ------------------------------------------------------------- properties

  /**
   * `str2binl` packs the low bytes of the characters little-endian, four per
   * word: the low byte of character `i` is byte `i % 4` of word `i / 4`, and
   * the array has one word per four characters, rounded up.
   */
  lemma Str2BinlPacks(s: JsString)
    requires |s| <= MaxLength
    ensures Str2Binl(s) == Words(LowBytes(s))
  {
    assert LowBytes(s)[..0] == [];
    Str2BinlFromPacks(s, 0);
  }

  lemma Str2BinlPlacesChars(s: JsString, i: nat)
    requires i < |s| <= MaxLength
    ensures |Str2Binl(s)| == (|s| + 3) / 4
    ensures ByteOf(Str2Binl(s)[i / 4], i % 4) == LowByte(s[i])
  {
    Str2BinlPacks(s);
    WordsAt(LowBytes(s), i / 4);
    assert i == 4 * (i / 4) + i % 4;
    ByteOfWordAt(LowBytes(s), i / 4, i % 4);
  }

  /** `binl2str` writes the bytes of the words as characters, least significant first. */
  lemma Binl2StrIsBytes(bin: seq<Word>)
    requires 4 * |bin| <= MaxLength
    ensures Binl2Str(bin) == Widen(Bytes(bin))
  {
    forall c | 0 <= c < 4 * |bin|
      ensures Binl2Str(bin)[c] == Widen(Bytes(bin))[c]
    {
      assert WordOfBit(8 * c) == c / 4;
    }
  }

  /** `binl2str` undoes `str2binl` on byte strings whose length is a multiple of 4. */
  lemma Binl2StrOfStr2Binl(s: JsString)
    requires IsByteString(s) && |s| % 4 == 0 && |s| <= MaxLength
    ensures Binl2Str(Str2Binl(s)) == s
  {
    Str2BinlPacks(s);
    Binl2StrIsBytes(Str2Binl(s));
    BytesOfWords(LowBytes(s));
    WidenLowBytes(s);
  }

  /** `str2binl` undoes `binl2str` on every word array. */
  lemma Str2BinlOfBinl2Str(bin: seq<Word>)
    requires 4 * |bin| <= MaxLength
    ensures Str2Binl(Binl2Str(bin)) == bin
  {
    Binl2StrIsBytes(bin);
    Str2BinlPacks(Binl2Str(bin));
    LowBytesWiden(Bytes(bin));
    WordsOfBytes(bin);
  }

  // ----------------------------------------------------------- past 2^31 bits

  /**
   * Beyond 2^28 characters, `str2binl` no longer packs the string: it has
   * too few words to hold the bytes.
   */
  lemma Str2BinlPastLimit(s: JsString)
    requires |s| > MaxLength
    ensures Str2Binl(s) != Words(LowBytes(s))
  {
    assert |Words(LowBytes(s))| > 0x400_0000;
  }

  /**
   * Beyond 2^26 words, `binl2str` reads character 2^28 at index -2^26, which
   * is `undefined`, instead of the low byte of word 2^26.
   */
  lemma Binl2StrPastLimit(bin: seq<Word>)
    requires |bin| > 0x400_0000
    ensures Binl2Str(bin)[MaxLength] == 0
  {
    assert WordOfBit(8 * MaxLength) == -0x400_0000;
    assert ByteOf(0, 0) == 0;
  }
}
