/**
 * The padding `core_md5` appends (HasherUtils.js, lines 192 and 193) is the
 * padding of sections 3.1 and 3.2 of RFC 1321, word for word, for messages of
 * fewer than 2^28 bytes.
 *
 * `PaddedWord` says what word `j` of the padded message is; one lemma shows
 * the source's array reads so, the other that the RFC's padded message does.
 */
module Md5Padding {
  import opened JsValues
  import opened LittleEndian
  import opened Md5Packing
  import opened Md5Core
  import Rfc = Md5Rfc

  /** The index of the length word: word 14 of the last block. */
  function LengthIndex(n: nat): nat
  {
    16 * ((n + 8) / 64) + 14
  }

  /**
   * Word `j` of the padded `b`: the message words, the word with the byte
   * 0x80 after the message, the length in bits, and zeros elsewhere.
   */
  function PaddedWord(b: seq<Byte>, j: nat): Word
    requires |b| < MaxLength
  {
    var n := |b|;
    if j < n / 4 then WordAt(b, j)
    else if j == n / 4 then SetLane(WordAt(b, j), 0x80, n % 4)
    else if j == LengthIndex(n) then Low32(8 * n)
    else 0
  }

  // ------------------------------------------------------------- arithmetic

  lemma PaddingArithmetic(n: nat)
    requires n < MaxLength
    ensures n / 4 < LengthIndex(n)
    ensures n + 1 + Rfc.ZeroCount(n) == 4 * LengthIndex(n)
    ensures (8 * n) / 32 == n / 4 && (8 * n) % 32 == 8 * (n % 4)
    ensures (8 * n + 64) / 512 * 16 + 14 == LengthIndex(n)
  {
    var e, r := (n + 8) / 64, (n + 8) % 64;
    assert n + 8 == 64 * e + r;
    var z := Rfc.ZeroCount(n);
    assert (r + 1 + z) % 64 == 0 by {
      assert n + 9 + z == 64 * e + (r + 1 + z);
    }
    assert r + 1 + z == 64;
    assert 8 * n + 64 == 512 * e + 8 * r;
    assert (8 * n + 64) / 512 == e;
    var q, k := n / 4, n % 4;
    assert 8 * n == 32 * q + 8 * k;
  }

  lemma Le4Zero()
    ensures Le4(0, 0, 0, 0) == 0
  {
  }

  /** A word that starts at or past the end of `p` is 0. */
  lemma WordAtPastEnd(p: seq<Byte>, j: nat)
    requires 4 * j >= |p|
    ensures WordAt(p, j) == 0
  {
    Le4Zero();
  }

  lemma PadBitIsLane(n: nat)
    ensures PadBit(8 * n) == Lane(0x80, n % 4)
  {
    var q, k := n / 4, n % 4;
    assert (8 * n) % 32 == 8 * k by {
      assert 8 * n == 32 * q + 8 * k;
    }
    if k == 0 {
      assert PadBit(8 * n) == (0x80 as bv32) << 0;
    } else if k == 1 {
      assert PadBit(8 * n) == (0x80 as bv32) << 8;
    } else if k == 2 {
      assert PadBit(8 * n) == (0x80 as bv32) << 16;
    } else {
      assert PadBit(8 * n) == (0x80 as bv32) << 24;
    }
  }

  // ------------------------------------------------------------- the source

  /** The word `x[len >> 5] |= 128 << len % 32` writes holds the byte 0x80 after the message. */
  lemma MarkedWord(b: seq<Byte>)
    ensures At(Words(b), |b| / 4) | PadBit(8 * |b|) == SetLane(WordAt(b, |b| / 4), 0x80, |b| % 4)
  {
    var n := |b|;
    if n / 4 < |Words(b)| {
      WordsAt(b, n / 4);
    } else {
      WordAtPastEnd(b, n / 4);
    }
    PadBitIsLane(n);
  }

  /** For a message of fewer than 2^28 bytes neither shift of the padding sees a wrapped length. */
  lemma ShortSlots(n: nat)
    requires n < MaxLength
    ensures WordOfBit(8 * n) == n / 4
    ensures LengthSlot(8 * n) == LengthIndex(n)
  {
    PaddingArithmetic(n);
    var len := 8 * n;
    assert len % 0x1_0000_0000 == len < 0x8000_0000;
    assert WordOfBit(len) == len / 32;
    assert (len + 64) % 0x1_0000_0000 == len + 64;
    assert LengthSlot(len) == (len + 64) / 512 * 16 + 14;
  }

  /** Two writes, the second past the first: what the array reads afterwards. */
  lemma TwoPuts(x: seq<Word>, i: nat, v: Word, l: nat, u: Word, j: nat)
    requires |x| <= i + 1 && i < l
    ensures |Put(Put(x, i, v), l, u)| == l + 1
    ensures At(Put(Put(x, i, v), l, u), j) == if j == l then u else if j == i then v else At(x, j)
  {
  }

  /** When `len >> 5` is not negative, the padding `core_md5` appends is two writes. */
  lemma AppendPaddingWrites(w: seq<Word>, len: nat, j: nat)
    requires WordOfBit(len) >= 0
    ensures At(AppendPadding(w, len), j)
         == At(Put(Put(w, WordOfBit(len), At(w, WordOfBit(len)) | PadBit(len)), LengthSlot(len), Low32(len)), j)
    ensures |AppendPadding(w, len)|
         == |Put(Put(w, WordOfBit(len), At(w, WordOfBit(len)) | PadBit(len)), LengthSlot(len), Low32(len))|
  {
  }

  /**
   * After the padding, an array that ends at or before the marked word holds
   * the length at `LengthSlot(len)`, the marked word at `WordOfBit(len)`, and
   * is unchanged elsewhere.
   */
  lemma PaddingWrites(w: seq<Word>, len: nat, j: nat)
    requires 0 <= WordOfBit(len) < LengthSlot(len) && |w| <= WordOfBit(len) + 1
    ensures At(AppendPadding(w, len), j)
         == if j == LengthSlot(len) then Low32(len)
            else if j == WordOfBit(len) then At(w, WordOfBit(len)) | PadBit(len)
            else At(w, j)
    ensures |AppendPadding(w, len)| == LengthSlot(len) + 1
  {
    AppendPaddingWrites(w, len, j);
    TwoPuts(w, WordOfBit(len), At(w, WordOfBit(len)) | PadBit(len), LengthSlot(len), Low32(len), j);
  }

  lemma WordCount(n: nat)
    ensures (n + 3) / 4 <= n / 4 + 1
  {
    assert n == 4 * (n / 4) + n % 4;
  }

  /** The array `core_md5` pads, for a message of `n` bytes, reads as `PaddedWord` says. */
  lemma SourcePadding(b: seq<Byte>, j: nat)
    requires |b| < MaxLength
    ensures At(AppendPadding(Words(b), 8 * |b|), j) == PaddedWord(b, j)
    ensures |AppendPadding(Words(b), 8 * |b|)| == LengthIndex(|b|) + 1
  {
    var n := |b|;
    WordCount(n);
    PaddingArithmetic(n);
    ShortSlots(n);
    PaddingWrites(Words(b), 8 * n, j);
    if j == LengthIndex(n) {
    } else if j == n / 4 {
      MarkedWord(b);
    } else if j < n / 4 {
      WordsAt(b, j);
    }
  }

  // ------------------------------------------------------------- the RFC

  lemma ByteAtZeroPadded(p: seq<Byte>, z: nat, i: nat)
    ensures ByteAt(p + Rfc.ZeroBytes(z), i) == ByteAt(p, i)
  {
    ByteAtAppend(p, Rfc.ZeroBytes(z), i);
  }

  /** Zero bytes at the end do not change the words. */
  lemma WordAtZeroPadded(p: seq<Byte>, z: nat, j: nat)
    ensures WordAt(p + Rfc.ZeroBytes(z), j) == WordAt(p, j)
  {
    ByteAtZeroPadded(p, z, 4 * j);
    ByteAtZeroPadded(p, z, 4 * j + 1);
    ByteAtZeroPadded(p, z, 4 * j + 2);
    ByteAtZeroPadded(p, z, 4 * j + 3);
  }

  /** Word `j` of the message followed by 0x80 and zeros, before the length. */
  lemma MarkedMessageWord(b: seq<Byte>, j: nat)
    requires |b| < MaxLength && j != LengthIndex(|b|)
    ensures WordAt(b + [0x80], j) == PaddedWord(b, j)
  {
    var n := |b|;
    if j < n / 4 {
      WordAtAppendLeft(b, [0x80], j);
    } else if j == n / 4 {
      LastWordGetsByte(b, 0x80);
    } else {
      WordAtPastEnd(b + [0x80], j);
    }
  }

  lemma LengthWordsOfShort(n: nat)
    requires n < MaxLength
    ensures Rfc.LengthWords(n) == [Low32(8 * n), 0]
  {
    assert (8 * n) % 0x1_0000_0000_0000_0000 == 8 * n;
    assert (8 * n) / 0x1_0000_0000 == 0;
  }

  lemma MultipleOfFour(k: nat)
    ensures (4 * k) % 4 == 0
  {
  }

  /** The padded message of RFC 1321 as words: the message, 0x80 and the zeros, then the two length words. */
  lemma RfcPaddedWords(b: seq<Byte>)
    requires |b| < MaxLength
    ensures |b + [0x80] + Rfc.ZeroBytes(Rfc.ZeroCount(|b|))| == 4 * LengthIndex(|b|)
    ensures Rfc.PaddedWords(b) == Words(b + [0x80] + Rfc.ZeroBytes(Rfc.ZeroCount(|b|))) + [Low32(8 * |b|), 0]
  {
    var n := |b|;
    var a := b + [0x80] + Rfc.ZeroBytes(Rfc.ZeroCount(n));
    var lw := Rfc.LengthWords(n);
    PaddingArithmetic(n);
    var l := LengthIndex(n);
    assert |a| == 4 * l;
    MultipleOfFour(l);
    assert Rfc.Padded(b) == a + Bytes(lw);
    WordsAppend(a, Bytes(lw));
    WordsOfBytes(lw);
    LengthWordsOfShort(n);
  }

  /** The padded message of RFC 1321 reads as `PaddedWord` says. */
  lemma RfcPadding(b: seq<Byte>, j: nat)
    requires |b| < MaxLength
    ensures At(Rfc.PaddedWords(b), j) == PaddedWord(b, j)
    ensures |Rfc.PaddedWords(b)| == LengthIndex(|b|) + 2
  {
    var n := |b|;
    var z := Rfc.ZeroCount(n);
    var a := b + [0x80] + Rfc.ZeroBytes(z);
    var l := LengthIndex(n);
    RfcPaddedWords(b);
    var pw := Rfc.PaddedWords(b);
    if j < l {
      WordsAt(a, j);
      WordAtZeroPadded(b + [0x80], z, j);
      MarkedMessageWord(b, j);
      assert pw[j] == Words(a)[j];
    } else if j == l {
      assert pw[j] == Low32(8 * n);
    } else if j == l + 1 {
      assert pw[j] == 0;
    }
  }
}
