/** Exclusive-or acts on each byte of a word on its own: it commutes with packing bytes into words. */
module WordXor {
  import opened JsValues
  import opened LittleEndian

  lemma ByteOfXor0(x: Word, y: Word)
    ensures ByteOf(x ^ y, 0) == ByteOf(x, 0) ^ ByteOf(y, 0)
  {
  }

  lemma ByteOfXor1(x: Word, y: Word)
    ensures ByteOf(x ^ y, 1) == ByteOf(x, 1) ^ ByteOf(y, 1)
  {
  }

  lemma ByteOfXor2(x: Word, y: Word)
    ensures ByteOf(x ^ y, 2) == ByteOf(x, 2) ^ ByteOf(y, 2)
  {
  }

  lemma ByteOfXor3(x: Word, y: Word)
    ensures ByteOf(x ^ y, 3) == ByteOf(x, 3) ^ ByteOf(y, 3)
  {
  }

  /** Packing bytes exclusive-or `p` is packing them, exclusive-or `p` in every lane. */
  lemma Le4Xor(a0: Byte, a1: Byte, a2: Byte, a3: Byte, p: Byte)
    ensures Le4(a0 ^ p, a1 ^ p, a2 ^ p, a3 ^ p) == Le4(a0, a1, a2, a3) ^ Le4(p, p, p, p)
  {
    var x, r := Le4(a0, a1, a2, a3), Le4(p, p, p, p);
    var w := x ^ r;
    ByteOfLe4(a0, a1, a2, a3);
    ByteOfLe4(p, p, p, p);
    ByteOfXor0(x, r);
    ByteOfXor1(x, r);
    ByteOfXor2(x, r);
    ByteOfXor3(x, r);
    Le4OfBytes(w);
  }
}
