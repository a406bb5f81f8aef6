/**
 * The MD5 message-digest algorithm as RFC 1321 specifies it (section 3),
 * on a message that is a whole number of bytes.  This is the reference the
 * JavaScript `core_md5` is proved against.
 */
module Md5Rfc {
  import opened JsValues
  import opened WordArith
  import opened LittleEndian

  function ZeroBytes(n: nat): (z: seq<Byte>)
    ensures |z| == n && forall i | 0 <= i < n :: z[i] == 0
  {
    seq(n, _ => 0)
  }

  /**
   * Section 3.1: a single 1 bit and then 0 bits bring the length to 448
   * modulo 512 bits; for a message of `n` bytes that is the byte 0x80 and
   * `(55 - n) mod 64` zero bytes.
   */
  function ZeroCount(n: nat): (z: nat)
    ensures z < 64 && (n + 9 + z) % 64 == 0
  {
    ZeroCountFills(n);
    (55 - n) % 64
  }

  lemma ZeroCountFills(n: nat)
    ensures (n + 9 + (55 - n) % 64) % 64 == 0
  {
    var q := (55 - n) / 64;
    assert 55 - n == 64 * q + (55 - n) % 64;
    assert n + 9 + (55 - n) % 64 == 64 * (1 - q);
  }

  /**
   * Section 3.2: the 64-bit length of the message in bits (modulo 2^64), as
   * two words, low-order word first.
   */
  function LengthWords(n: nat): (w: seq<Word>)
    ensures |w| == 2
  {
    var bits := (8 * n) % 0x1_0000_0000_0000_0000;
    [Low32(bits), Low32(bits / 0x1_0000_0000)]
  }

  /** The padded message of sections 3.1 and 3.2: whole 512-bit blocks starting with the message. */
  function Padded(m: seq<Byte>): (p: seq<Byte>)
    ensures |p| % 64 == 0 && |m| + 9 <= |p| <= |m| + 72
    ensures p[..|m|] == m && p[|m|] == 0x80
  {
    m + [0x80] + ZeroBytes(ZeroCount(|m|)) + Bytes(LengthWords(|m|))
  }

  /** The padded message as words (section 2): a whole number of 16-word blocks. */
  function PaddedWords(m: seq<Byte>): (w: seq<Word>)
    ensures |w| % 16 == 0 && 4 * |w| == |Padded(m)|
  {
    var p := Padded(m);
    WholeBlocks(|p|);
    Words(p)
  }

  lemma WholeBlocks(len: nat)
    requires len % 64 == 0
    ensures (len + 3) / 4 == len / 4 && (len / 4) % 16 == 0
  {
    var k := len / 64;
    assert len == 64 * k;
    assert (len + 3) / 4 == 16 * k;
  }

  /** Section 3.3: the buffer before the first block, words given low-order byte first as hex. */
  const InitialBuffer: Buffer := [0x67452301, 0xefcdab89, 0x98badcfe, 0x10325476]

  /**
   * The table T[1 ... 64] of section 3.4, T[i] being the integer part of
   * 4294967296 * abs(sin(i)); here indexed from 0, one round per function.
   */
  function T1(): (t: seq<Word>)
    ensures |t| == 16
  {
    [0xd76aa478, 0xe8c7b756, 0x242070db, 0xc1bdceee, 0xf57c0faf, 0x4787c62a, 0xa8304613, 0xfd469501,
     0x698098d8, 0x8b44f7af, 0xffff5bb1, 0x895cd7be, 0x6b901122, 0xfd987193, 0xa679438e, 0x49b40821]
  }

  function T2(): (t: seq<Word>)
    ensures |t| == 16
  {
    [0xf61e2562, 0xc040b340, 0x265e5a51, 0xe9b6c7aa, 0xd62f105d, 0x02441453, 0xd8a1e681, 0xe7d3fbc8,
     0x21e1cde6, 0xc33707d6, 0xf4d50d87, 0x455a14ed, 0xa9e3e905, 0xfcefa3f8, 0x676f02d9, 0x8d2a4c8a]
  }

  function T3(): (t: seq<Word>)
    ensures |t| == 16
  {
    [0xfffa3942, 0x8771f681, 0x6d9d6122, 0xfde5380c, 0xa4beea44, 0x4bdecfa9, 0xf6bb4b60, 0xbebfbc70,
     0x289b7ec6, 0xeaa127fa, 0xd4ef3085, 0x04881d05, 0xd9d4d039, 0xe6db99e5, 0x1fa27cf8, 0xc4ac5665]
  }

  function T4(): (t: seq<Word>)
    ensures |t| == 16
  {
    [0xf4292244, 0x432aff97, 0xab9423a7, 0xfc93a039, 0x655b59c3, 0x8f0ccc92, 0xffeff47d, 0x85845dd1,
     0x6fa87e4f, 0xfe2ce6e0, 0xa3014314, 0x4e0811a1, 0xf7537e82, 0xbd3af235, 0x2ad7d2bb, 0xeb86d391]
  }

  function T(n: nat): Word
    requires n < 64
  {
    if n < 16 then T1()[n]
    else if n < 32 then T2()[n - 16]
    else if n < 48 then T3()[n - 32]
    else T4()[n - 48]
  }

  /** The shift amounts of the four rounds of section 3.4; each round cycles through its four. */
  function Shifts(): (s: seq<Word>)
    ensures |s| == 16
  {
    [7, 12, 17, 22, 5, 9, 14, 20, 4, 11, 16, 23, 6, 10, 15, 21]
  }

  function Shift(n: nat): (s: Word)
    requires n < 64
    ensures 0 < s < 32
  {
    Shifts()[4 * (n / 16) + n % 4]
  }

  /**
   * The word of the block used by operation `n` (0 to 63) of section 3.4:
   * round 1 takes the words in order, rounds 2, 3 and 4 step through them
   * from word 1 by 5, from word 5 by 3 and from word 0 by 7.
   */
  function WordIndex(n: nat): (k: nat)
    requires n < 64
    ensures k < 16
  {
    var i := n % 16;
    if n < 16 then i
    else if n < 32 then (5 * i + 1) % 16
    else if n < 48 then (3 * i + 5) % 16
    else (7 * i) % 16
  }

  /** The auxiliary function of the round operation `n` belongs to. */
  function RoundFunction(n: nat, x: Word, y: Word, z: Word): Word
    requires n < 64
  {
    if n < 16 then F(x, y, z)
    else if n < 32 then G(x, y, z)
    else if n < 48 then H(x, y, z)
    else I(x, y, z)
  }

  /** One operation of section 3.4: `a = b + ((a + q + X[k] + T[i]) <<< s)` with `q` the round's function of `b`, `c`, `d`. */
  function Operation(q: Word, a: Word, b: Word, x: Word, s: Word, t: Word): Word
    requires 0 < s < 32
  {
    b + Rotl(a + q + x + t, s)
  }

  /**
   * Operation `n` on the buffer.  The RFC names the registers anew in each
   * operation ([ABCD ...], [DABC ...], [CDAB ...], [BCDA ...]); here the
   * buffer is turned instead, so the register written is always A and
   * after every four operations each register is back in its place.
   */
  function Step(n: nat, p: Buffer, x: seq<Word>): (q: Buffer)
    requires n < 64 && |x| == 16
  {
    [p[3], Operation(RoundFunction(n, p[1], p[2], p[3]), p[0], p[1], x[WordIndex(n)], Shift(n), T(n)), p[1], p[2]]
  }

  /** The first `n` operations on block `x`. */
  function Steps(n: nat, p: Buffer, x: seq<Word>): Buffer
    requires n <= 64 && |x| == 16
  {
    if n == 0 then p else Step(n - 1, Steps(n - 1, p, x), x)
  }

  /** `A = A + AA` and so on: each register increased by its value before the block. */
  function AddBuffers(q: Buffer, p: Buffer): Buffer
  {
    [q[0] + p[0], q[1] + p[1], q[2] + p[2], q[3] + p[3]]
  }

  /** One 16-word block: the 64 operations, then the buffer before the block added in. */
  function Block(p: Buffer, x: seq<Word>): Buffer
    requires |x| == 16
  {
    AddBuffers(Steps(64, p, x), p)
  }

  /** The blocks of `m` from word `i` on. */
  function Process(m: seq<Word>, i: nat, p: Buffer): Buffer
    requires |m| % 16 == 0 && i % 16 == 0
    decreases |m| - i
  {
    if i >= |m| then p else Process(m, i + 16, Block(p, m[i..i + 16]))
  }

  /** Section 3.5: the digest is A, B, C, D, each low-order byte first. */
  function Md5(m: seq<Byte>): (digest: seq<Byte>)
    ensures |digest| == 16
  {
    Bytes(Process(PaddedWords(m), 0, InitialBuffer))
  }
}
