/**
 * `core_hmac_md5` of HasherUtils.js and the renderings built on it,
 * `hex_hmac_md5`, `b64_hmac_md5` and `str_hmac_md5`.
 *
 * The source works on word arrays: the key's words, replaced by their digest
 * when there are more than 16 of them, each word exclusive-or the pad byte
 * repeated four times, then `core_md5` twice.  For a key of fewer than
 * 2^28 bytes and data of fewer than 2^28 - 64 bytes this is HMAC-MD5 of
 * RFC 2104 over the strings' low bytes; longer data makes the inner bit
 * length reach 2^31, where `len >> 5` goes negative.
 */
module HmacMd5 {
  import opened JsValues
  import opened WordArith
  import opened LittleEndian
  import opened WordXor
  import opened Md5Packing
  import opened Md5Core
  import opened Md5Padding
  import opened Md5Agreement
  import opened Md5Render
  import Rfc = Md5Rfc
  import Ref = HmacRfc
  import Base16
  import B64 = Base64Rfc

  /** The decimal literals of the source: the bytes 0x36 and 0x5C, four times each. */
  const InnerPad: Word := 909522486
  const OuterPad: Word := 1549556828

  /** `bkey`: the key's words, or their digest when there are more than 16. */
  function KeyWords(key: JsString): seq<Word>
  {
    var bkey := Str2Binl(key);
    if |bkey| > 16 then CoreMd5(bkey, 8 * |key|) else bkey
  }

  /** `ipad` or `opad`: `bkey[i] ^ pad` for the 16 words of a block, a missing word read as 0. */
  function PadWords(bkey: seq<Word>, pad: Word): (p: seq<Word>)
    ensures |p| == 16
  {
    seq(16, i requires 0 <= i < 16 => Masked(At(bkey, i), pad))
  }

  /** One word of a pad block: `w ^ pad`. */
  function Masked(w: Word, pad: Word): Word
  {
    w ^ pad
  }

  /** `core_hmac_md5(key, data)`: the inner digest over `ipad` and the data, the outer over `opad` and it. */
  function CoreHmacMd5(key: JsString, data: JsString): Buffer
  {
    var bkey := KeyWords(key);
    var hash := CoreMd5(PadWords(bkey, InnerPad) + Str2Binl(data), 512 + 8 * |data|);
    CoreMd5(PadWords(bkey, OuterPad) + hash, 512 + 128)
  }

  /** `hex_hmac_md5(key, data)`, with `hexcase` as `upper`. */
  function HexHmacMd5(key: JsString, data: JsString, upper: bool): JsString
  {
    Binl2Hex(CoreHmacMd5(key, data), upper)
  }

  /** `b64_hmac_md5(key, data)`, with `b64pad` as `pad`. */
  function B64HmacMd5(key: JsString, data: JsString, pad: JsString): JsString
  {
    Binl2B64(CoreHmacMd5(key, data), pad)
  }

  /** `str_hmac_md5(key, data)`. */
  function StrHmacMd5(key: JsString, data: JsString): JsString
  {
    Binl2Str(CoreHmacMd5(key, data))
  }

  // ------------------------------------------------------------- the pads

  /** The byte `p` in all four lanes of a word. */
  function Repeated(p: Byte): Word
  {
    Le4(p, p, p, p)
  }

  /** The source's two constants are ipad and opad of RFC 2104, one byte per lane. */
  lemma PadsAreRepeated()
    ensures InnerPad == Repeated(Ref.Ipad)
    ensures OuterPad == Repeated(Ref.Opad)
  {
  }

  lemma ByteAtXor(b: seq<Byte>, p: Byte, i: nat)
    requires i < |b|
    ensures ByteAt(Ref.Xor(b, p), i) == ByteAt(b, i) ^ p
  {
  }

  /** A word of bytes exclusive-or `p` is the word exclusive-or `p` in every lane. */
  lemma WordAtXor(b: seq<Byte>, p: Byte, j: nat)
    requires 4 * j + 4 <= |b|
    ensures WordAt(Ref.Xor(b, p), j) == WordAt(b, j) ^ Repeated(p)
  {
    ByteAtXor(b, p, 4 * j);
    ByteAtXor(b, p, 4 * j + 1);
    ByteAtXor(b, p, 4 * j + 2);
    ByteAtXor(b, p, 4 * j + 3);
    Le4Xor(ByteAt(b, 4 * j), ByteAt(b, 4 * j + 1), ByteAt(b, 4 * j + 2), ByteAt(b, 4 * j + 3), p);
    assert Repeated(p) == Le4(p, p, p, p);
  }

  // ------------------------------------------------------------- the key

  lemma WordCountOfKey(n: nat)
    ensures (n + 3) / 4 > 16 <==> n > Ref.BlockLength
  {
  }

  /** The source's `bkey` holds the words of the RFC's hashed key. */
  lemma KeyWordsAreHashedKey(key: JsString)
    requires |key| < MaxLength
    ensures KeyWords(key) == Words(Ref.HashedKey(LowBytes(key)))
  {
    var k := LowBytes(key);
    Str2BinlPacks(key);
    WordCountOfKey(|k|);
    if |k| > Ref.BlockLength {
      CoreMd5OfBytes(k);
      WordsOfBytes(CoreMd5(Words(k), 8 * |k|));
    }
  }

  lemma WordPastEnd(h: seq<Byte>, i: nat)
    requires i >= |Words(h)|
    ensures 4 * i >= |h|
  {
  }

  /** Word `i` of a key padded with zeros is word `i` of the key, read as 0 past its end. */
  lemma PaddedKeyWord(h: seq<Byte>, z: nat, i: nat)
    ensures At(Words(h), i) == WordAt(h + Rfc.ZeroBytes(z), i)
  {
    WordAtZeroPadded(h, z, i);
    if i < |Words(h)| {
      WordsAt(h, i);
    } else {
      WordPastEnd(h, i);
      WordAtPastEnd(h, i);
    }
  }

  /** Word `i` of a block of bytes exclusive-or `p` is the word masked with `p` in every lane. */
  lemma XorBlockWord(kb: seq<Byte>, p: Byte, i: nat)
    requires |kb| == Ref.BlockLength && i < 16
    ensures Words(Ref.Xor(kb, p))[i] == Masked(WordAt(kb, i), Repeated(p))
  {
    WordAtXor(kb, p, i);
    WordsAt(Ref.Xor(kb, p), i);
  }

  /** Word `i` of the pad words of a hashed key is word `i` of its zero-padded block, exclusive-or the pad. */
  lemma PadWordAt(h: seq<Byte>, p: Byte, i: nat)
    requires |h| <= Ref.BlockLength && i < 16
    ensures PadWords(Words(h), Repeated(p))[i] == Words(Ref.Xor(h + Rfc.ZeroBytes(Ref.BlockLength - |h|), p))[i]
  {
    PaddedKeyWord(h, Ref.BlockLength - |h|, i);
    XorBlockWord(h + Rfc.ZeroBytes(Ref.BlockLength - |h|), p, i);
  }

  lemma PadWordsOfBlock(h: seq<Byte>, p: Byte)
    requires |h| <= Ref.BlockLength
    ensures PadWords(Words(h), Repeated(p)) == Words(Ref.Xor(h + Rfc.ZeroBytes(Ref.BlockLength - |h|), p))
  {
    forall i | 0 <= i < 16
      ensures PadWords(Words(h), Repeated(p))[i] == Words(Ref.Xor(h + Rfc.ZeroBytes(Ref.BlockLength - |h|), p))[i]
    {
      PadWordAt(h, p, i);
    }
  }

  /** `ipad` and `opad` are the words of the RFC's key block exclusive-or the pad byte. */
  lemma PadWordsAreXor(key: JsString, p: Byte)
    requires |key| < MaxLength
    ensures PadWords(KeyWords(key), Repeated(p)) == Words(Ref.Xor(Ref.KeyBlock(LowBytes(key)), p))
  {
    var h := Ref.HashedKey(LowBytes(key));
    KeyWordsAreHashedKey(key);
    PadWordsOfBlock(h, p);
  }

  // ------------------------------------------------------------- agreement

  /** One digest of a block of pad words followed by message bytes, as `core_hmac_md5` takes it. */
  lemma PaddedDigest(padBlock: seq<Byte>, m: seq<Byte>, ws: seq<Word>)
    requires |padBlock| == Ref.BlockLength && |padBlock| + |m| < MaxLength && ws == Words(m)
    ensures Bytes(CoreMd5(Words(padBlock) + ws, 512 + 8 * |m|)) == Rfc.Md5(padBlock + m)
  {
    var b := padBlock + m;
    WordsAppend(padBlock, m);
    assert 512 + 8 * |m| == 8 * |b|;
    CoreMd5OfBytes(b);
  }

  /**
   * For a key of fewer than 2^28 bytes and data of fewer than 2^28 - 64
   * bytes, the bytes of `core_hmac_md5(key, data)` are HMAC-MD5 of RFC 2104
   * over the strings' low bytes.
   */
  lemma CoreHmacIsHmac(key: JsString, data: JsString)
    requires |key| < MaxLength && Ref.BlockLength + |data| < MaxLength
    ensures Bytes(CoreHmacMd5(key, data)) == Ref.Hmac(LowBytes(key), LowBytes(data))
  {
    var k, text := LowBytes(key), LowBytes(data);
    var kb := Ref.KeyBlock(k);
    var bkey := KeyWords(key);
    PadsAreRepeated();
    PadWordsAreXor(key, Ref.Ipad);
    PadWordsAreXor(key, Ref.Opad);
    Str2BinlPacks(data);
    var hash := CoreMd5(PadWords(bkey, InnerPad) + Str2Binl(data), 512 + 8 * |data|);
    PaddedDigest(Ref.Xor(kb, Ref.Ipad), text, Str2Binl(data));
    var inner := Rfc.Md5(Ref.Xor(kb, Ref.Ipad) + text);
    assert Bytes(hash) == inner;
    WordsOfBytes(hash);
    PaddedDigest(Ref.Xor(kb, Ref.Opad), inner, hash);
  }

  /** `hex_hmac_md5` is HMAC-MD5 in base 16. */
  lemma HexHmacIsHmac(key: JsString, data: JsString, upper: bool)
    requires |key| < MaxLength && Ref.BlockLength + |data| < MaxLength
    ensures HexHmacMd5(key, data, upper) == Base16.Encode(Ref.Hmac(LowBytes(key), LowBytes(data)), upper)
  {
    CoreHmacIsHmac(key, data);
    Binl2HexEncodes(CoreHmacMd5(key, data), upper);
  }

  /** `b64_hmac_md5` is HMAC-MD5 in base 64 with `b64pad`. */
  lemma B64HmacIsHmac(key: JsString, data: JsString, pad: JsString)
    requires |key| < MaxLength && Ref.BlockLength + |data| < MaxLength
    ensures B64HmacMd5(key, data, pad) == B64.Encode(Ref.Hmac(LowBytes(key), LowBytes(data)), pad)
  {
    CoreHmacIsHmac(key, data);
    Binl2B64Encodes(CoreHmacMd5(key, data), pad);
  }

  /** `str_hmac_md5` is HMAC-MD5 as a string of 16 bytes. */
  lemma StrHmacIsHmac(key: JsString, data: JsString)
    requires |key| < MaxLength && Ref.BlockLength + |data| < MaxLength
    ensures StrHmacMd5(key, data) == Widen(Ref.Hmac(LowBytes(key), LowBytes(data)))
  {
    CoreHmacIsHmac(key, data);
    Binl2StrIsBytes(CoreHmacMd5(key, data));
  }
}
