/**
 * The 32-bit word operations of the MD5 code in HasherUtils.js:
 * `safe_add`, `bit_rol`, `md5_cmn` and `md5_ff`, `md5_gg`, `md5_hh`, `md5_ii`.
 *
 * Every JavaScript number these functions see has already passed through a
 * bitwise operator, so it is modelled by its 32-bit pattern.  `x >> 16` on a
 * pattern is the sign-propagating shift, written `(x >> 16) | ((0 - (x >> 31)) << 16)`:
 * `0 - (x >> 31)` is all ones exactly when the sign bit is set.
 */
module Md5Words {
  import opened JsValues
  import opened WordArith

  // ---------------------------------------------------------------- safe_add

  /**
   * `safe_add`: `lsw = (x & 65535) + (y & 65535)` (at most 17 bits, so no
   * wrap-around), `msw = (x >> 16) + (y >> 16) + (lsw >> 16)`, and the result
   * `msw << 16 | lsw & 65535`.  Only the low 16 bits of `msw` survive the left
   * shift, so it does not matter that JavaScript computes `msw` as an
   * unbounded sum.  As its comment in the source promises, the result is the
   * sum modulo 2^32.
   */
  function SafeAdd(x: Word, y: Word): (r: Word)
    ensures r == x + y
  {
    SafeAddComputesSum(x, y);
    ((((x >> 16) | ((0 - (x >> 31)) << 16)) + ((y >> 16) | ((0 - (y >> 31)) << 16))
      + (((x & 0xFFFF) + (y & 0xFFFF)) >> 16)) << 16)
    | (((x & 0xFFFF) + (y & 0xFFFF)) & 0xFFFF)
  }

  /** The postcondition of `SafeAdd` as a lemma, for proofs that need it on particular words. */
  lemma SafeAddIsSum(x: Word, y: Word)
    ensures SafeAdd(x, y) == x + y
  {
  }

  /** Sixteen bits: the unit `safe_add` computes with. */
  type Half = bv16

  function HighHalf(x: Word): Half
  {
    (x >> 16) as bv16
  }

  function LowHalf(x: Word): Half
  {
    (x & 0xFFFF) as bv16
  }

  lemma WordOfHalves(x: Word)
    ensures x == ((HighHalf(x) as bv32) << 16) | (LowHalf(x) as bv32)
  {
  }

  /**
   * The carry rule of addition, stated on 16-bit halves: the high halves add
   * up together with the carry out of the low halves.
   */
  lemma AddByHalves(xh: Half, xl: Half, yh: Half, yl: Half)
    ensures (((xh as bv32) << 16) | (xl as bv32)) + (((yh as bv32) << 16) | (yl as bv32))
         == (((xh + yh + ((((xl as bv32) + (yl as bv32)) >> 16) as bv16)) as bv32) << 16) | ((xl + yl) as bv32)
  {
  }

  /** The computation of `safe_add`, on two words given by their halves, is the right-hand side of the carry rule. */
  lemma SafeAddOfHalves(xh: Half, xl: Half, yh: Half, yl: Half)
    ensures (((((((xh as bv32) << 16) | (xl as bv32)) >> 16) | ((0 - ((((xh as bv32) << 16) | (xl as bv32)) >> 31)) << 16)) + (((((yh as bv32) << 16) | (yl as bv32)) >> 16) | ((0 - ((((yh as bv32) << 16) | (yl as bv32)) >> 31)) << 16))
      + ((((((xh as bv32) << 16) | (xl as bv32)) & 0xFFFF) + ((((yh as bv32) << 16) | (yl as bv32)) & 0xFFFF)) >> 16)) << 16)
    | ((((((xh as bv32) << 16) | (xl as bv32)) & 0xFFFF) + ((((yh as bv32) << 16) | (yl as bv32)) & 0xFFFF)) & 0xFFFF)
         == (((xh + yh + ((((xl as bv32) + (yl as bv32)) >> 16) as bv16)) as bv32) << 16) | ((xl + yl) as bv32)
  {
  }

  lemma SafeAddComputesSum(x: Word, y: Word)
    ensures ((((x >> 16) | ((0 - (x >> 31)) << 16)) + ((y >> 16) | ((0 - (y >> 31)) << 16))
      + (((x & 0xFFFF) + (y & 0xFFFF)) >> 16)) << 16)
    | (((x & 0xFFFF) + (y & 0xFFFF)) & 0xFFFF) == x + y
  {
    WordOfHalves(x);
    WordOfHalves(y);
    AddByHalves(HighHalf(x), LowHalf(x), HighHalf(y), LowHalf(y));
    SafeAddOfHalves(HighHalf(x), LowHalf(x), HighHalf(y), LowHalf(y));
  }

  // ---------------------------------------------------------------- bit_rol

  /**
   * `bit_rol`: `num << cnt | num >>> 32 - cnt`.  JavaScript uses only the
   * low five bits of a shift count, which the masks make explicit.  For the
   * counts 1 to 31 this is the rotation `<<<` of RFC 1321.
   */
  function BitRol(num: Word, cnt: Word): (r: Word)
    ensures 0 < cnt < 32 ==> r == Rotl(num, cnt)
  {
    if 0 < cnt < 32 then
      MasksKeepCount(num, cnt);
      (num << (cnt & 31)) | (num >> ((32 - cnt) & 31))
    else
      (num << (cnt & 31)) | (num >> ((32 - cnt) & 31))
  }

  /** For the counts 1 to 31 the masks of `bit_rol` change nothing. */
  lemma MasksKeepCount(num: Word, cnt: Word)
    requires 0 < cnt < 32
    ensures (num << (cnt & 31)) | (num >> ((32 - cnt) & 31)) == (num << cnt) | (num >> (32 - cnt))
  {
  }

  /**
   * For the counts 1 to 31, `bit_rol` by `cnt` is undone by `bit_rol` by
   * `32 - cnt`; so `bit_rol` with such a count is a bijection of words.
   */
  lemma BitRolInverse(num: Word, cnt: Word)
    requires 0 < cnt < 32
    ensures BitRol(BitRol(num, cnt), 32 - cnt) == num
  {
    ComplementCount(cnt);
    RotlInverse(num, cnt);
  }

  lemma ComplementCount(cnt: Word)
    requires 0 < cnt < 32
    ensures 0 < 32 - cnt < 32
  {
  }

  lemma BitRolInjective(x: Word, y: Word, cnt: Word)
    requires 0 < cnt < 32 && BitRol(x, cnt) == BitRol(y, cnt)
    ensures x == y
  {
    BitRolInverse(x, cnt);
    BitRolInverse(y, cnt);
  }

  // ------------------------------------------------------------------ md5_cmn

  /**
   * `md5_cmn(q, a, b, x, s, t)`: `safe_add(bit_rol(safe_add(safe_add(a, q),
   * safe_add(x, t)), s), b)`, which is one MD5 operation
   * `b + ((a + q + x + t) <<< s)` of section 3.4 of RFC 1321.
   */
  function Md5Cmn(q: Word, a: Word, b: Word, x: Word, s: Word, t: Word): Word
  {
    SafeAdd(BitRol(SafeAdd(SafeAdd(a, q), SafeAdd(x, t)), s), b)
  }

  /** The three inner `safe_add`s sum their four terms. */
  lemma Md5CmnSum(q: Word, a: Word, x: Word, t: Word)
    ensures SafeAdd(SafeAdd(a, q), SafeAdd(x, t)) == a + q + x + t
  {
  }

  lemma Md5CmnRotation(q: Word, a: Word, x: Word, t: Word, s: Word)
    requires 0 < s < 32
    ensures BitRol(SafeAdd(SafeAdd(a, q), SafeAdd(x, t)), s) == Rotl(a + q + x + t, s)
  {
    Md5CmnSum(q, a, x, t);
  }

  /**
   * `md5_cmn` is one MD5 operation of section 3.4 of RFC 1321,
   * `b + ((a + q + x + t) <<< s)`, for every count 1 to 31.
   */
  lemma Md5CmnIsStep(q: Word, a: Word, b: Word, x: Word, s: Word, t: Word)
    requires 0 < s < 32
    ensures Md5Cmn(q, a, b, x, s, t) == b + Rotl(a + q + x + t, s)
  {
    Md5CmnRotation(q, a, x, t, s);
  }

  function Md5FF(a: Word, b: Word, c: Word, d: Word, x: Word, s: Word, t: Word): Word
  {
    Md5Cmn(F(b, c, d), a, b, x, s, t)
  }

  function Md5GG(a: Word, b: Word, c: Word, d: Word, x: Word, s: Word, t: Word): Word
  {
    Md5Cmn(G(b, c, d), a, b, x, s, t)
  }

  function Md5HH(a: Word, b: Word, c: Word, d: Word, x: Word, s: Word, t: Word): Word
  {
    Md5Cmn(H(b, c, d), a, b, x, s, t)
  }

  function Md5II(a: Word, b: Word, c: Word, d: Word, x: Word, s: Word, t: Word): Word
  {
    Md5Cmn(I(b, c, d), a, b, x, s, t)
  }
}
