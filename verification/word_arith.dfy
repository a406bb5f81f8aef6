/**
 * Arithmetic on 32-bit words as section 2 and section 3.4 of RFC 1321 define
 * it: `+` is addition modulo 2^32 (Dafny's `+` on `bv32`), `X <<< s` rotates
 * left by `s` bit positions, and F, G, H, I are the four bitwise auxiliary
 * functions.  The JavaScript MD5 code in HasherUtils.js computes the same four
 * functions with the same formulas, so they are defined once, here.
 */
module WordArith {
  import opened JsValues

  /** `X <<< s`, the circular left shift, for the counts 1 to 31 that MD5 uses. */
  function Rotl(x: Word, s: Word): Word
    requires 0 < s < 32
  {
    (x << s) | (x >> (32 - s))
  }

  // One lemma per count: with the count a literal, each is a rewriting exercise.

  lemma RotlInverse1(x: Word)
    ensures Rotl(Rotl(x, 1), 31) == x
  {
  }

  lemma RotlInverse2(x: Word)
    ensures Rotl(Rotl(x, 2), 30) == x
  {
  }

  lemma RotlInverse3(x: Word)
    ensures Rotl(Rotl(x, 3), 29) == x
  {
  }

  lemma RotlInverse4(x: Word)
    ensures Rotl(Rotl(x, 4), 28) == x
  {
  }

  lemma RotlInverse5(x: Word)
    ensures Rotl(Rotl(x, 5), 27) == x
  {
  }

  lemma RotlInverse6(x: Word)
    ensures Rotl(Rotl(x, 6), 26) == x
  {
  }

  lemma RotlInverse7(x: Word)
    ensures Rotl(Rotl(x, 7), 25) == x
  {
  }

  lemma RotlInverse8(x: Word)
    ensures Rotl(Rotl(x, 8), 24) == x
  {
  }

  lemma RotlInverse9(x: Word)
    ensures Rotl(Rotl(x, 9), 23) == x
  {
  }

  lemma RotlInverse10(x: Word)
    ensures Rotl(Rotl(x, 10), 22) == x
  {
  }

  lemma RotlInverse11(x: Word)
    ensures Rotl(Rotl(x, 11), 21) == x
  {
  }

  lemma RotlInverse12(x: Word)
    ensures Rotl(Rotl(x, 12), 20) == x
  {
  }

  lemma RotlInverse13(x: Word)
    ensures Rotl(Rotl(x, 13), 19) == x
  {
  }

  lemma RotlInverse14(x: Word)
    ensures Rotl(Rotl(x, 14), 18) == x
  {
  }

  lemma RotlInverse15(x: Word)
    ensures Rotl(Rotl(x, 15), 17) == x
  {
  }

  lemma RotlInverse16(x: Word)
    ensures Rotl(Rotl(x, 16), 16) == x
  {
  }

  lemma RotlInverse17(x: Word)
    ensures Rotl(Rotl(x, 17), 15) == x
  {
  }

  lemma RotlInverse18(x: Word)
    ensures Rotl(Rotl(x, 18), 14) == x
  {
  }

  lemma RotlInverse19(x: Word)
    ensures Rotl(Rotl(x, 19), 13) == x
  {
  }

  lemma RotlInverse20(x: Word)
    ensures Rotl(Rotl(x, 20), 12) == x
  {
  }

  lemma RotlInverse21(x: Word)
    ensures Rotl(Rotl(x, 21), 11) == x
  {
  }

  lemma RotlInverse22(x: Word)
    ensures Rotl(Rotl(x, 22), 10) == x
  {
  }

  lemma RotlInverse23(x: Word)
    ensures Rotl(Rotl(x, 23), 9) == x
  {
  }

  lemma RotlInverse24(x: Word)
    ensures Rotl(Rotl(x, 24), 8) == x
  {
  }

  lemma RotlInverse25(x: Word)
    ensures Rotl(Rotl(x, 25), 7) == x
  {
  }

  lemma RotlInverse26(x: Word)
    ensures Rotl(Rotl(x, 26), 6) == x
  {
  }

  lemma RotlInverse27(x: Word)
    ensures Rotl(Rotl(x, 27), 5) == x
  {
  }

  lemma RotlInverse28(x: Word)
    ensures Rotl(Rotl(x, 28), 4) == x
  {
  }

  lemma RotlInverse29(x: Word)
    ensures Rotl(Rotl(x, 29), 3) == x
  {
  }

  lemma RotlInverse30(x: Word)
    ensures Rotl(Rotl(x, 30), 2) == x
  {
  }

  lemma RotlInverse31(x: Word)
    ensures Rotl(Rotl(x, 31), 1) == x
  {
  }

  /** Rotating by `s` and then by `32 - s` gives the word back: rotation loses nothing. */
  lemma RotlInverse(x: Word, s: Word)
    requires 0 < s < 32
    ensures Rotl(Rotl(x, s), 32 - s) == x
  {
    if s == 1 {
      RotlInverse1(x);
    } else if s == 2 {
      RotlInverse2(x);
    } else if s == 3 {
      RotlInverse3(x);
    } else if s == 4 {
      RotlInverse4(x);
    } else if s == 5 {
      RotlInverse5(x);
    } else if s == 6 {
      RotlInverse6(x);
    } else if s == 7 {
      RotlInverse7(x);
    } else if s == 8 {
      RotlInverse8(x);
    } else if s == 9 {
      RotlInverse9(x);
    } else if s == 10 {
      RotlInverse10(x);
    } else if s == 11 {
      RotlInverse11(x);
    } else if s == 12 {
      RotlInverse12(x);
    } else if s == 13 {
      RotlInverse13(x);
    } else if s == 14 {
      RotlInverse14(x);
    } else if s == 15 {
      RotlInverse15(x);
    } else if s == 16 {
      RotlInverse16(x);
    } else if s == 17 {
      RotlInverse17(x);
    } else if s == 18 {
      RotlInverse18(x);
    } else if s == 19 {
      RotlInverse19(x);
    } else if s == 20 {
      RotlInverse20(x);
    } else if s == 21 {
      RotlInverse21(x);
    } else if s == 22 {
      RotlInverse22(x);
    } else if s == 23 {
      RotlInverse23(x);
    } else if s == 24 {
      RotlInverse24(x);
    } else if s == 25 {
      RotlInverse25(x);
    } else if s == 26 {
      RotlInverse26(x);
    } else if s == 27 {
      RotlInverse27(x);
    } else if s == 28 {
      RotlInverse28(x);
    } else if s == 29 {
      RotlInverse29(x);
    } else if s == 30 {
      RotlInverse30(x);
    } else {
      RotlInverse31(x);
    }
  }

  /** F(X, Y, Z) = XY v not(X) Z. */
  function F(x: Word, y: Word, z: Word): Word
  {
    (x & y) | (!x & z)
  }

  /** G(X, Y, Z) = XZ v Y not(Z). */
  function G(x: Word, y: Word, z: Word): Word
  {
    (x & z) | (y & !z)
  }

  /** H(X, Y, Z) = X xor Y xor Z. */
  function H(x: Word, y: Word, z: Word): Word
  {
    x ^ y ^ z
  }

  /** I(X, Y, Z) = Y xor (X v not(Z)). */
  function I(x: Word, y: Word, z: Word): Word
  {
    y ^ (x | !z)
  }

  /** F is a bitwise conditional: where X has a one it takes Y, elsewhere Z. */
  lemma FSelects(x: Word, y: Word, z: Word)
    ensures F(x, y, z) & x == y & x
    ensures F(x, y, z) & !x == z & !x
  {
  }

  /** G is a bitwise conditional: where Z has a one it takes X, elsewhere Y. */
  lemma GSelects(x: Word, y: Word, z: Word)
    ensures G(x, y, z) & z == x & z
    ensures G(x, y, z) & !z == y & !z
  {
  }

  /** H is the bitwise parity: xor-ing two of the inputs out of it leaves the third. */
  lemma HIsParity(x: Word, y: Word, z: Word)
    ensures H(x, y, z) ^ x ^ y == z
  {
  }

  /** I: where Z has a zero it gives the complement of Y; where Z has a one, Y xor X. */
  lemma ISelects(x: Word, y: Word, z: Word)
    ensures I(x, y, z) & !z == !y & !z
    ensures I(x, y, z) & z == (y ^ x) & z
  {
  }

  /**
   * The four-word buffer (A, B, C, D) of section 3.3 of RFC 1321, the state
   * of an MD5 computation, in that order.
   */
  type Buffer = s: seq<Word> | |s| == 4 witness [0, 0, 0, 0]
}
