/**
 * Little-endian packing of bytes into 32-bit words, the convention of
 * section 2 of RFC 1321 ("a sequence of bytes can be interpreted as a
 * sequence of 32-bit words, where each consecutive group of four bytes is
 * interpreted as a word with the low-order (least significant) byte given
 * first") and of the word arrays of HasherUtils.js.
 */
module LittleEndian {
  import opened JsValues

  /** The word whose bytes, from the least significant, are `b0`, `b1`, `b2`, `b3`. */
  function Le4(b0: Byte, b1: Byte, b2: Byte, b3: Byte): Word
  {
    (b0 as bv32) | ((b1 as bv32) << 8) | ((b2 as bv32) << 16) | ((b3 as bv32) << 24)
  }

  /** Byte `k` of `w`, byte 0 being the least significant. */
  function ByteOf(w: Word, k: nat): Byte
    requires k < 4
  {
    if k == 0 then (w & 0xFF) as bv8
    else if k == 1 then ((w >> 8) & 0xFF) as bv8
    else if k == 2 then ((w >> 16) & 0xFF) as bv8
    else (w >> 24) as bv8
  }

  /** Taking a packed word apart gives its bytes back. */
  lemma ByteOfLe4(b0: Byte, b1: Byte, b2: Byte, b3: Byte)
    ensures ByteOf(Le4(b0, b1, b2, b3), 0) == b0
    ensures ByteOf(Le4(b0, b1, b2, b3), 1) == b1
    ensures ByteOf(Le4(b0, b1, b2, b3), 2) == b2
    ensures ByteOf(Le4(b0, b1, b2, b3), 3) == b3
  {
  }

  /** Packing the bytes of a word gives the word back. */
  lemma Le4OfBytes(w: Word)
    ensures Le4(ByteOf(w, 0), ByteOf(w, 1), ByteOf(w, 2), ByteOf(w, 3)) == w
  {
  }

  /** Byte `i` of `b`, or 0 past its end: a message is padded with zero bits. */
  function ByteAt(b: seq<Byte>, i: nat): Byte
  {
    if i < |b| then b[i] else 0
  }

  /** Word `j` of `b`: bytes `4j` to `4j + 3`, missing bytes being zero. */
  function WordAt(b: seq<Byte>, j: nat): Word
  {
    Le4(ByteAt(b, 4 * j), ByteAt(b, 4 * j + 1), ByteAt(b, 4 * j + 2), ByteAt(b, 4 * j + 3))
  }

  /** The words of a byte string; a last incomplete group is filled with zero bytes. */
  function Words(b: seq<Byte>): (ws: seq<Word>)
    ensures |ws| == (|b| + 3) / 4
  {
    seq((|b| + 3) / 4, j requires 0 <= j => WordAt(b, j))
  }

  /** The bytes of a word sequence, four per word, least significant first. */
  function Bytes(ws: seq<Word>): (b: seq<Byte>)
    ensures |b| == 4 * |ws|
  {
    seq(4 * |ws|, c requires 0 <= c < 4 * |ws| => ByteOf(ws[c / 4], c % 4))
  }

  /** Bytes(ws)[4j + k] is byte k of word j. */
  lemma BytesAt(ws: seq<Word>, j: nat, k: nat)
    requires j < |ws| && k < 4
    ensures 4 * j + k < |Bytes(ws)|
    ensures ByteAt(Bytes(ws), 4 * j + k) == ByteOf(ws[j], k)
  {
    assert (4 * j + k) / 4 == j && (4 * j + k) % 4 == k;
  }

  lemma BytesOfWordAt(ws: seq<Word>, j: nat)
    requires j < |ws|
    ensures ByteAt(Bytes(ws), 4 * j) == ByteOf(ws[j], 0)
    ensures ByteAt(Bytes(ws), 4 * j + 1) == ByteOf(ws[j], 1)
    ensures ByteAt(Bytes(ws), 4 * j + 2) == ByteOf(ws[j], 2)
    ensures ByteAt(Bytes(ws), 4 * j + 3) == ByteOf(ws[j], 3)
  {
    BytesAt(ws, j, 0);
    BytesAt(ws, j, 1);
    BytesAt(ws, j, 2);
    BytesAt(ws, j, 3);
  }

  lemma Le4OfEqualBytes(w: Word, b0: Byte, b1: Byte, b2: Byte, b3: Byte)
    requires b0 == ByteOf(w, 0) && b1 == ByteOf(w, 1) && b2 == ByteOf(w, 2) && b3 == ByteOf(w, 3)
    ensures Le4(b0, b1, b2, b3) == w
  {
    Le4OfBytes(w);
  }

  lemma WordAtBytes(ws: seq<Word>, j: nat)
    requires j < |ws|
    ensures WordAt(Bytes(ws), j) == ws[j]
  {
    var b := Bytes(ws);
    BytesOfWordAt(ws, j);
    Le4OfEqualBytes(ws[j], ByteAt(b, 4 * j), ByteAt(b, 4 * j + 1), ByteAt(b, 4 * j + 2), ByteAt(b, 4 * j + 3));
  }

  /** Splitting words into bytes and packing them again gives the words back. */
  lemma WordsOfBytes(ws: seq<Word>)
    ensures Words(Bytes(ws)) == ws
  {
    forall j | 0 <= j < |ws|
      ensures Words(Bytes(ws))[j] == ws[j]
    {
      WordAtBytes(ws, j);
    }
  }

  /** Byte `k` of word `j` of `b` is byte `4j + k` of `b`. */
  lemma ByteOfWordAt(b: seq<Byte>, j: nat, k: nat)
    requires k < 4
    ensures ByteOf(WordAt(b, j), k) == ByteAt(b, 4 * j + k)
  {
    ByteOfLe4(ByteAt(b, 4 * j), ByteAt(b, 4 * j + 1), ByteAt(b, 4 * j + 2), ByteAt(b, 4 * j + 3));
    if k == 0 {
      assert ByteOf(WordAt(b, j), 0) == ByteAt(b, 4 * j);
    } else if k == 1 {
      assert ByteOf(WordAt(b, j), 1) == ByteAt(b, 4 * j + 1);
    } else if k == 2 {
      assert ByteOf(WordAt(b, j), 2) == ByteAt(b, 4 * j + 2);
    } else {
      assert ByteOf(WordAt(b, j), 3) == ByteAt(b, 4 * j + 3);
    }
  }

  lemma WordsAt(b: seq<Byte>, j: nat)
    requires j < |Words(b)|
    ensures Words(b)[j] == WordAt(b, j)
  {
  }

  lemma BytesWordsAt(b: seq<Byte>, c: nat)
    requires c < |b| && |b| % 4 == 0
    ensures ByteAt(Bytes(Words(b)), c) == b[c]
  {
    var j, k := c / 4, c % 4;
    assert c == 4 * j + k;
    BytesAt(Words(b), j, k);
    WordsAt(b, j);
    ByteOfWordAt(b, j, k);
  }

  /** Packing a whole number of words and splitting them again gives the bytes back. */
  lemma BytesOfWords(b: seq<Byte>)
    requires |b| % 4 == 0
    ensures Bytes(Words(b)) == b
  {
    forall c | 0 <= c < |b|
      ensures Bytes(Words(b))[c] == b[c]
    {
      BytesWordsAt(b, c);
      assert ByteAt(Bytes(Words(b)), c) == Bytes(Words(b))[c];
    }
  }

  lemma ByteAtAppend(a: seq<Byte>, b: seq<Byte>, i: nat)
    ensures ByteAt(a + b, i) == if i < |a| then ByteAt(a, i) else ByteAt(b, i - |a|)
  {
  }

  lemma WordAtAppendLeft(a: seq<Byte>, b: seq<Byte>, j: nat)
    requires 4 * j + 4 <= |a|
    ensures WordAt(a + b, j) == WordAt(a, j)
  {
    ByteAtAppend(a, b, 4 * j);
    ByteAtAppend(a, b, 4 * j + 1);
    ByteAtAppend(a, b, 4 * j + 2);
    ByteAtAppend(a, b, 4 * j + 3);
  }

  lemma WordAtAppendRight(a: seq<Byte>, b: seq<Byte>, i: nat)
    requires |a| % 4 == 0
    ensures WordAt(a + b, |a| / 4 + i) == WordAt(b, i)
  {
    var j := |a| / 4 + i;
    assert 4 * j == |a| + 4 * i;
    ByteAtAppend(a, b, 4 * j);
    ByteAtAppend(a, b, 4 * j + 1);
    ByteAtAppend(a, b, 4 * j + 2);
    ByteAtAppend(a, b, 4 * j + 3);
  }

  /** Packing distributes over concatenation when the first part is a whole number of words. */
  lemma WordsAppend(a: seq<Byte>, b: seq<Byte>)
    requires |a| % 4 == 0
    ensures Words(a + b) == Words(a) + Words(b)
  {
    forall j | 0 <= j < |Words(a + b)|
      ensures Words(a + b)[j] == (Words(a) + Words(b))[j]
    {
      WordsAt(a + b, j);
      if j < |a| / 4 {
        WordAtAppendLeft(a, b, j);
        WordsAt(a, j);
      } else {
        WordAtAppendRight(a, b, j - |a| / 4);
        WordsAt(b, j - |a| / 4);
      }
    }
  }

  /** Splitting distributes over concatenation. */
  lemma BytesAppend(v: seq<Word>, w: seq<Word>)
    ensures Bytes(v + w) == Bytes(v) + Bytes(w)
  {
    forall c | 0 <= c < 4 * |v + w|
      ensures Bytes(v + w)[c] == (Bytes(v) + Bytes(w))[c]
    {
      if c >= 4 * |v| {
        assert (c - 4 * |v|) / 4 == c / 4 - |v| && (c - 4 * |v|) % 4 == c % 4;
      }
    }
  }
}
