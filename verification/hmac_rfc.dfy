/**
 * HMAC with MD5, section 2 of RFC 2104: with B = 64 bytes, a key longer than
 * B is first replaced by its MD5 digest, then padded with zeros to B bytes;
 * the MAC of `text` is `H(K XOR opad, H(K XOR ipad, text))`, ipad being the
 * byte 0x36 and opad the byte 0x5C repeated B times.
 */
module HmacRfc {
  import opened JsValues
  import Rfc = Md5Rfc

  /** B: the block length of MD5 in bytes. */
  const BlockLength: nat := 64

  const Ipad: Byte := 0x36
  const Opad: Byte := 0x5C

  /** The key the MAC uses before padding: its digest when it is longer than a block. */
  function HashedKey(k: seq<Byte>): (h: seq<Byte>)
    ensures |h| <= BlockLength
    ensures |k| <= BlockLength ==> h == k
  {
    if |k| > BlockLength then Rfc.Md5(k) else k
  }

  /** The key as one block: `HashedKey(k)` followed by zeros. */
  function KeyBlock(k: seq<Byte>): (kb: seq<Byte>)
    ensures |kb| == BlockLength
    ensures kb[..|HashedKey(k)|] == HashedKey(k)
    ensures forall i | |HashedKey(k)| <= i < BlockLength :: kb[i] == 0
  {
    var h := HashedKey(k);
    h + Rfc.ZeroBytes(BlockLength - |h|)
  }

  /** Every byte of `b` exclusive-or `p`. */
  function Xor(b: seq<Byte>, p: Byte): (r: seq<Byte>)
    ensures |r| == |b|
  {
    seq(|b|, i requires 0 <= i < |b| => b[i] ^ p)
  }

  /** Exclusive-or with the same byte twice gives the bytes back. */
  lemma XorTwice(b: seq<Byte>, p: Byte)
    ensures Xor(Xor(b, p), p) == b
  {
    forall i | 0 <= i < |b|
      ensures Xor(Xor(b, p), p)[i] == b[i]
    {
      assert (b[i] ^ p) ^ p == b[i];
    }
  }

  /** HMAC-MD5 of `text` under the key `k`. */
  function Hmac(k: seq<Byte>, text: seq<Byte>): (mac: seq<Byte>)
    ensures |mac| == 16
  {
    var kb := KeyBlock(k);
    Rfc.Md5(Xor(kb, Opad) + Rfc.Md5(Xor(kb, Ipad) + text))
  }
}
