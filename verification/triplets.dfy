/**
 * The 24-bit groups both base-64 encoders of HasherUtils.js build: three
 * byte values shifted together, then cut into four 6-bit indices into the
 * alphabet.
 *
 * The source shifts right with `>>`, which copies the sign bit; every index
 * is masked to its low six bits, which no copied sign bit reaches, so the
 * unsigned shift here reads the same bits.
 */
module Triplets {
  import opened JsValues
  import Rfc = Base64Rfc

  /** `o1 << 16 | o2 << 8 | o3`. */
  function Triplet(o1: Word, o2: Word, o3: Word): Word
  {
    (o1 << 16) | (o2 << 8) | o3
  }

  /** `triplet >> 6 * (3 - j) & 63`: group `j` of six bits, the most significant first. */
  function SixBits(t: Word, j: nat): (v: Byte)
    requires j < 4
    ensures v < 64
  {
    var shifted := if j == 0 then t >> 18 else if j == 1 then t >> 12 else if j == 2 then t >> 6 else t;
    (shifted & 63) as bv8
  }

  lemma SixBits0(a: Byte, b: Byte, c: Byte)
    ensures SixBits(Triplet(a as bv32, b as bv32, c as bv32), 0) == Rfc.Sextet0(a)
  {
  }

  lemma SixBits1(a: Byte, b: Byte, c: Byte)
    ensures SixBits(Triplet(a as bv32, b as bv32, c as bv32), 1) == Rfc.Sextet1(a, b)
  {
  }

  lemma SixBits2(a: Byte, b: Byte, c: Byte)
    ensures SixBits(Triplet(a as bv32, b as bv32, c as bv32), 2) == Rfc.Sextet2(b, c)
  {
  }

  lemma SixBits3(a: Byte, b: Byte, c: Byte)
    ensures SixBits(Triplet(a as bv32, b as bv32, c as bv32), 3) == Rfc.Sextet3(c)
  {
  }

  /** The alphabet characters of a triplet of bytes are those of section 4 of RFC 4648. */
  lemma CharsOfTriplet(a: Byte, b: Byte, c: Byte)
    ensures Rfc.Char(SixBits(Triplet(a as bv32, b as bv32, c as bv32), 0)) == Rfc.Char(Rfc.Sextet0(a))
    ensures Rfc.Char(SixBits(Triplet(a as bv32, b as bv32, c as bv32), 1)) == Rfc.Char(Rfc.Sextet1(a, b))
    ensures Rfc.Char(SixBits(Triplet(a as bv32, b as bv32, c as bv32), 2)) == Rfc.Char(Rfc.Sextet2(b, c))
    ensures Rfc.Char(SixBits(Triplet(a as bv32, b as bv32, c as bv32), 3)) == Rfc.Char(Rfc.Sextet3(c))
  {
    SixBits0(a, b, c);
    SixBits1(a, b, c);
    SixBits2(a, b, c);
    SixBits3(a, b, c);
  }
}
