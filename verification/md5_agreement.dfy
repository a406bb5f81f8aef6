/**
 * `core_md5` of HasherUtils.js computes the MD5 of RFC 1321: for a string
 * whose characters are bytes, the four words it returns are the RFC's
 * digest.
 */
module Md5Agreement {
  import opened JsValues
  import opened WordArith
  import opened LittleEndian
  import opened Md5Words
  import opened Md5Packing
  import opened Md5Core
  import Rfc = Md5Rfc
  import opened Md5Table
  import opened Md5Padding

  // ------------------------------------------------------------- one block

  /** `md5_cmn` is the operation of section 3.4 of RFC 1321. */
  lemma CmnIsOperation(q: Word, a: Word, b: Word, x: Word, s: Word, t: Word)
    requires 0 < s < 32
    ensures Md5Cmn(q, a, b, x, s, t) == Rfc.Operation(q, a, b, x, s, t)
  {
    Md5CmnIsStep(q, a, b, x, s, t);
  }

  /** `md5_ff`, `md5_gg`, `md5_hh`, `md5_ii` apply the auxiliary function of their round. */
  lemma ApplyIsOperation(n: nat, a: Word, b: Word, c: Word, d: Word, x: Word, t: Word)
    requires n < 64
    ensures Apply(RoundFnOf(n), a, b, c, d, x, Rfc.Shift(n), t)
         == Rfc.Operation(Rfc.RoundFunction(n, b, c, d), a, b, x, Rfc.Shift(n), t)
  {
    var s := Rfc.Shift(n);
    if n < 16 {
      CmnIsOperation(F(b, c, d), a, b, x, s, t);
    } else if n < 32 {
      CmnIsOperation(G(b, c, d), a, b, x, s, t);
    } else if n < 48 {
      CmnIsOperation(H(b, c, d), a, b, x, s, t);
    } else {
      CmnIsOperation(I(b, c, d), a, b, x, s, t);
    }
  }

  /** Words `i` to `i + 15` of `x`, as the loop body reads them, are the block `blk`. */
  predicate BlockIs(x: seq<Word>, i: nat, blk: seq<Word>)
  {
    |blk| == 16 && forall k | 0 <= k < 16 :: At(x, i + k) == blk[k]
  }

  /** A call with the function, word, shift and constant of operation `n` performs operation `n`. */
  lemma PerformMatching(n: nat, c: Call, p: Buffer, x: seq<Word>, i: nat, blk: seq<Word>)
    requires n < 64 && BlockIs(x, i, blk)
    requires c.fn == RoundFnOf(n) && c.k == Rfc.WordIndex(n) && c.s == Rfc.Shift(n) && I32(c.t) == Rfc.T(n)
    ensures Perform(c, p, x, i) == Rfc.Step(n, p, blk)
  {
    var w := At(x, i + c.k);
    assert w == blk[Rfc.WordIndex(n)];
    ApplyIsOperation(n, p[0], p[1], p[2], p[3], w, I32(c.t));
  }

  lemma PerformIsStep(n: nat, p: Buffer, x: seq<Word>, i: nat, blk: seq<Word>)
    requires n < 64 && BlockIs(x, i, blk)
    ensures Perform(CallAt(n), p, x, i) == Rfc.Step(n, p, blk)
  {
    TableMatches(n);
    PerformMatching(n, CallAt(n), p, x, i, blk);
  }

  /** Call `n - 1` extends the first `n - 1` calls as operation `n - 1` extends the first `n - 1` operations. */
  lemma CallStep(n: nat, p: Buffer, x: seq<Word>, i: nat, blk: seq<Word>)
    requires 0 < n <= 64 && BlockIs(x, i, blk)
    requires PerformCalls(n - 1, p, x, i) == Rfc.Steps(n - 1, p, blk)
    ensures PerformCalls(n, p, x, i) == Rfc.Steps(n, p, blk)
  {
    PerformIsStep(n - 1, PerformCalls(n - 1, p, x, i), x, i, blk);
  }

  lemma {:induction false} CallsAreSteps(n: nat, p: Buffer, x: seq<Word>, i: nat, blk: seq<Word>)
    requires n <= 64 && BlockIs(x, i, blk)
    ensures PerformCalls(n, p, x, i) == Rfc.Steps(n, p, blk)
  {
    if n > 0 {
      CallsAreSteps(n - 1, p, x, i, blk);
      CallStep(n, p, x, i, blk);
    }
  }

  /** One pass of the loop body of `core_md5` processes one block as section 3.4 of RFC 1321 does. */
  lemma BlockAtIsBlock(p: Buffer, x: seq<Word>, i: nat, blk: seq<Word>)
    requires BlockIs(x, i, blk)
    ensures BlockAt(p, x, i) == Rfc.Block(p, blk)
  {
    CallsAreSteps(64, p, x, i, blk);
    SafeAddsAddBuffers(PerformCalls(64, p, x, i), p);
  }

  /** The four `safe_add`s at the end of the loop body add the buffers. */
  lemma SafeAddsAddBuffers(q: Buffer, p: Buffer)
    ensures [SafeAdd(q[0], p[0]), SafeAdd(q[1], p[1]), SafeAdd(q[2], p[2]), SafeAdd(q[3], p[3])] == Rfc.AddBuffers(q, p)
  {
  }

  // ------------------------------------------------------------- the loop

  /** The two arrays read the same, holes and reads past the end being 0. */
  ghost predicate SameWords(x: seq<Word>, m: seq<Word>)
  {
    forall j: nat :: At(x, j) == At(m, j)
  }

  /**
   * The loop of `core_md5` over an array that reads as `m`, and has at most
   * 15 fewer elements, processes the blocks of `m`.
   */
  lemma {:induction false} LoopIsProcess(x: seq<Word>, m: seq<Word>, i: nat, p: Buffer)
    requires |m| % 16 == 0 && i % 16 == 0 && SameWords(x, m) && |m| - 16 < |x| <= |m|
    ensures Loop(x, i, p) == Rfc.Process(m, i, p)
    decreases |m| - i
  {
    if i < |m| {
      BlockOfSameWords(x, m, i);
      LoopIsProcess(x, m, i + 16, BlockAt(p, x, i));
      LoopStep(x, m, i, p);
    }
  }

  /** Where the two arrays read the same, the loop body reads block `i` of `m`. */
  lemma BlockOfSameWords(x: seq<Word>, m: seq<Word>, i: nat)
    requires |m| % 16 == 0 && i % 16 == 0 && i < |m| && SameWords(x, m)
    ensures i + 16 <= |m| && BlockIs(x, i, m[i..i + 16])
  {
    var blk := m[i..i + 16];
    forall k | 0 <= k < 16
      ensures At(x, i + k) == blk[k]
    {
      assert At(x, i + k) == At(m, i + k);
    }
  }

  /** A pass of the loop over block `i`, followed by the rest of the loop, is the RFC's processing from block `i`. */
  lemma LoopStep(x: seq<Word>, m: seq<Word>, i: nat, p: Buffer)
    requires |m| % 16 == 0 && i % 16 == 0 && i < |m| && |m| - 16 < |x|
    requires i + 16 <= |m| && (i + 16) % 16 == 0 && BlockIs(x, i, m[i..i + 16])
    requires Loop(x, i + 16, BlockAt(p, x, i)) == Rfc.Process(m, i + 16, BlockAt(p, x, i))
    ensures Loop(x, i, p) == Rfc.Process(m, i, p)
  {
    BlockAtIsBlock(p, x, i, m[i..i + 16]);
  }

  // ------------------------------------------------------------- the digest

  /** `core_md5` starts from the buffer of section 3.3 of RFC 1321, written as signed decimals. */
  lemma StartIsInitialBuffer()
    ensures Start == Rfc.InitialBuffer
  {
  }

  /**
   * On the little-endian words of a message of fewer than 2^28 bytes and its
   * length in bits, `core_md5` returns the MD5 digest of RFC 1321 of the
   * message, as four words whose bytes, least significant first, are the digest.
   */
  lemma CoreMd5OfBytes(b: seq<Byte>)
    requires |b| < MaxLength
    ensures Bytes(CoreMd5(Words(b), 8 * |b|)) == Rfc.Md5(b)
  {
    var x := AppendPadding(Words(b), 8 * |b|);
    var m := Rfc.PaddedWords(b);
    forall j: nat
      ensures At(x, j) == At(m, j)
    {
      SourcePadding(b, j);
      RfcPadding(b, j);
    }
    SourcePadding(b, 0);
    RfcPadding(b, 0);
    LoopIsProcess(x, m, 0, Start);
    StartIsInitialBuffer();
  }

  /**
   * For a string of fewer than 2^28 characters, `core_md5(str2binl(s), s.length * 8)`
   * is the MD5 digest of the low bytes of its characters.
   */
  lemma CoreMd5IsMd5(s: JsString)
    requires |s| < MaxLength
    ensures Bytes(CoreMd5(Str2Binl(s), 8 * |s|)) == Rfc.Md5(LowBytes(s))
  {
    Str2BinlPacks(s);
    CoreMd5OfBytes(LowBytes(s));
  }
}
