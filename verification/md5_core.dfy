/**
 * `core_md5` of HasherUtils.js: the padding it appends to an array of
 * little-endian words and the 64 calls per 16-word block.
 *
 * The 64 calls of the source are kept as a table, one entry per call, in the
 * source's order.  Each call writes one of the four registers from all four;
 * the model turns the buffer after every call (the register written goes to
 * position `b`, the others move along), so every call reads as
 * `md5_xx(a, b, c, d, x[i + k], s, t)`, as the first call of each group of
 * four does in the source.
 */
module Md5Core {
  import opened JsValues
  import opened WordArith
  import opened Md5Words
  import opened Md5Packing

  /** Which of `md5_ff`, `md5_gg`, `md5_hh`, `md5_ii` a call uses. */
  datatype RoundFn = FF | GG | HH | II

  /**
   * One call `md5_xx(a, b, c, d, x[i + k], s, t)` of the block loop; `t` is
   * the number as the source writes it, which `safe_add` reads as a 32-bit
   * pattern.
   */
  datatype Call = Call(fn: RoundFn, k: nat, s: Word, t: Int32Literal)

  /** Calls 0 to 15 of the block loop of `core_md5`, the round of `md5_ff`, with the source's constants. */
  function Round1(): (calls: seq<Call>)
    ensures |calls| == 16
  {
    [
      Call(FF, 0, 7, -680876936),
      Call(FF, 1, 12, -389564586),
      Call(FF, 2, 17, 606105819),
      Call(FF, 3, 22, -1044525330),
      Call(FF, 4, 7, -176418897),
      Call(FF, 5, 12, 1200080426),
      Call(FF, 6, 17, -1473231341),
      Call(FF, 7, 22, -45705983),
      Call(FF, 8, 7, 1770035416),
      Call(FF, 9, 12, -1958414417),
      Call(FF, 10, 17, -42063),
      Call(FF, 11, 22, -1990404162),
      Call(FF, 12, 7, 1804603682),
      Call(FF, 13, 12, -40341101),
      Call(FF, 14, 17, -1502002290),
      Call(FF, 15, 22, 1236535329)
    ]
  }

  /** Calls 16 to 31 of the block loop of `core_md5`, the round of `md5_gg`, with the source's constants. */
  function Round2(): (calls: seq<Call>)
    ensures |calls| == 16
  {
    [
      Call(GG, 1, 5, -165796510),
      Call(GG, 6, 9, -1069501632),
      Call(GG, 11, 14, 643717713),
      Call(GG, 0, 20, -373897302),
      Call(GG, 5, 5, -701558691),
      Call(GG, 10, 9, 38016083),
      Call(GG, 15, 14, -660478335),
      Call(GG, 4, 20, -405537848),
      Call(GG, 9, 5, 568446438),
      Call(GG, 14, 9, -1019803690),
      Call(GG, 3, 14, -187363961),
      Call(GG, 8, 20, 1163531501),
      Call(GG, 13, 5, -1444681467),
      Call(GG, 2, 9, -51403784),
      Call(GG, 7, 14, 1735328473),
      Call(GG, 12, 20, -1926607734)
    ]
  }

  /** Calls 32 to 47 of the block loop of `core_md5`, the round of `md5_hh`, with the source's constants. */
  function Round3(): (calls: seq<Call>)
    ensures |calls| == 16
  {
    [
      Call(HH, 5, 4, -378558),
      Call(HH, 8, 11, -2022574463),
      Call(HH, 11, 16, 1839030562),
      Call(HH, 14, 23, -35309556),
      Call(HH, 1, 4, -1530992060),
      Call(HH, 4, 11, 1272893353),
      Call(HH, 7, 16, -155497632),
      Call(HH, 10, 23, -1094730640),
      Call(HH, 13, 4, 681279174),
      Call(HH, 0, 11, -358537222),
      Call(HH, 3, 16, -722521979),
      Call(HH, 6, 23, 76029189),
      Call(HH, 9, 4, -640364487),
      Call(HH, 12, 11, -421815835),
      Call(HH, 15, 16, 530742520),
      Call(HH, 2, 23, -995338651)
    ]
  }

  /** Calls 48 to 63 of the block loop of `core_md5`, the round of `md5_ii`, with the source's constants. */
  function Round4(): (calls: seq<Call>)
    ensures |calls| == 16
  {
    [
      Call(II, 0, 6, -198630844),
      Call(II, 7, 10, 1126891415),
      Call(II, 14, 15, -1416354905),
      Call(II, 5, 21, -57434055),
      Call(II, 12, 6, 1700485571),
      Call(II, 3, 10, -1894986606),
      Call(II, 10, 15, -1051523),
      Call(II, 1, 21, -2054922799),
      Call(II, 8, 6, 1873313359),
      Call(II, 15, 10, -30611744),
      Call(II, 6, 15, -1560198380),
      Call(II, 13, 21, 1309151649),
      Call(II, 4, 6, -145523070),
      Call(II, 11, 10, -1120210379),
      Call(II, 2, 15, 718787259),
      Call(II, 9, 21, -343485551)
    ]
  }

  /** Call `n` of the block loop, in the source's order. */
  function CallAt(n: nat): Call
    requires n < 64
  {
    if n < 16 then Round1()[n]
    else if n < 32 then Round2()[n - 16]
    else if n < 48 then Round3()[n - 32]
    else Round4()[n - 48]
  }

  function Apply(fn: RoundFn, a: Word, b: Word, c: Word, d: Word, x: Word, s: Word, t: Word): Word
  {
    match fn
    case FF => Md5FF(a, b, c, d, x, s, t)
    case GG => Md5GG(a, b, c, d, x, s, t)
    case HH => Md5HH(a, b, c, d, x, s, t)
    case II => Md5II(a, b, c, d, x, s, t)
  }

  /** One call on the block at `i`: the register written moves to position `b`. */
  function Perform(c: Call, p: Buffer, x: seq<Word>, i: nat): Buffer
  {
    [p[3], Apply(c.fn, p[0], p[1], p[2], p[3], At(x, i + c.k), c.s, I32(c.t)), p[1], p[2]]
  }

  /** The first `n` calls on the block at `i`. */
  function PerformCalls(n: nat, p: Buffer, x: seq<Word>, i: nat): Buffer
    requires n <= 64
  {
    if n == 0 then p else Perform(CallAt(n - 1), PerformCalls(n - 1, p, x, i), x, i)
  }

  /** One pass of the loop body: the 64 calls, then `a = safe_add(a, olda)` and so on. */
  function BlockAt(p: Buffer, x: seq<Word>, i: nat): Buffer
  {
    var q := PerformCalls(64, p, x, i);
    [SafeAdd(q[0], p[0]), SafeAdd(q[1], p[1]), SafeAdd(q[2], p[2]), SafeAdd(q[3], p[3])]
  }

  /** `for (i = …; i < x.length; i += 16)`. */
  function Loop(x: seq<Word>, i: nat, p: Buffer): Buffer
    decreases |x| - i
  {
    if i < |x| then Loop(x, i + 16, BlockAt(p, x, i)) else p
  }

  /** `128 << len % 32`. */
  function PadBit(len: nat): Word
  {
    (0x80 as bv32) << ((len % 32) as bv32)
  }

  /** `(len + 64 >>> 9 << 4) + 14`: `>>>` reads `len + 64` as an unsigned 32-bit number. */
  function LengthSlot(len: nat): nat
  {
    ((len + 64) % 0x1_0000_0000) / 512 * 16 + 14
  }

  /**
   * The padding `core_md5` appends to `x` for a message of `len` bits:
   * `x[len >> 5] |= 128 << len % 32`, then `x[(len + 64 >>> 9 << 4) + 14] = len`.
   * A negative index names a property rather than an element, so the first
   * assignment then leaves the array as it is.  The length stored is read
   * back through the bitwise operators, i.e. modulo 2^32.
   */
  function AppendPadding(x: seq<Word>, len: nat): seq<Word>
  {
    var mark := WordOfBit(len);
    var marked := if mark >= 0 then Put(x, mark, At(x, mark) | PadBit(len)) else x;
    Put(marked, LengthSlot(len), Low32(len))
  }

  /** `var a = 1732584193; var b = -271733879; …`. */
  const Start: Buffer := [I32(1732584193), I32(-271733879), I32(-1732584194), I32(271733878)]

  /** `core_md5(x, len)`: `[a, b, c, d]` after the padded array's blocks. */
  function CoreMd5(x: seq<Word>, len: nat): Buffer
  {
    Loop(AppendPadding(x, len), 0, Start)
  }
}
