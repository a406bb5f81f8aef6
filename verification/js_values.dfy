/**
 * Values as the hashing, slug and resource code of the Pydio web client sees them.
 *
 * A JavaScript string is a sequence of UTF-16 code units; the bitwise
 * operators of JavaScript act on the 32-bit two's-complement pattern of a
 * number (ToInt32), which is what a `Word` holds.  Whether a word is read as
 * signed or unsigned is only an interpretation of the same 32 bits.
 */
module JsValues {
  /** One UTF-16 code unit. */
  type Unit = bv16
  type JsString = seq<Unit>
  /** The bit pattern JavaScript's bitwise operators work on. */
  type Word = bv32
  type Byte = bv8

  datatype Option<T> = None | Some(value: T)

  datatype Result<T, E> = Success(value: T) | Failure(error: E)
  {
    predicate IsFailure() { Failure? }
  }

  /** The numbers whose ToInt32 is written out below. */
  type Int32Literal = n: int | -0x8000_0000 <= n < 0x1_0000_0000

  /**
   * A numeric literal of the source, between -2^31 and 2^32, as the 32-bit
   * pattern the bitwise operators see (ToInt32): negative numbers are taken
   * modulo 2^32.
   */
  function I32(n: Int32Literal): Word
  {
    if n < 0 then (n + 0x1_0000_0000) as bv32 else n as bv32
  }

  /** A non-negative number as the bitwise operators read it: its value modulo 2^32. */
  function Low32(n: nat): Word
  {
    (n % 0x1_0000_0000) as bv32
  }

  /** The code units of a literal made of characters of the Basic Multilingual Plane. */
  function Js(s: string): (r: JsString)
    requires forall i | 0 <= i < |s| :: s[i] as int < 0x1_0000
    ensures |r| == |s|
  {
    seq(|s|, i requires 0 <= i < |s| => CharUnit(s[i]))
  }

  function CharUnit(c: char): Unit
    requires c as int < 0x1_0000
  {
    c as bv16
  }

  /** `String.fromCharCode` of one byte. */
  function WidenByte(b: Byte): (u: Unit)
    ensures u < 0x100 && LowByte(u) == b
  {
    b as bv16
  }

  /** Every code unit is below 256, i.e. the string is a string of bytes. */
  predicate IsByteString(s: JsString)
  {
    forall i | 0 <= i < |s| :: s[i] < 0x100
  }

  /** The low byte of a code unit: `code & 255`. */
  function LowByte(u: Unit): Byte
  {
    (u & 0xFF) as bv8
  }

  /** `String.fromCharCode` of each byte. */
  function Widen(b: seq<Byte>): (r: JsString)
    ensures |r| == |b| && IsByteString(r)
  {
    seq(|b|, i requires 0 <= i < |b| => WidenByte(b[i]))
  }

  function LowBytes(s: JsString): (r: seq<Byte>)
    ensures |r| == |s|
  {
    seq(|s|, i requires 0 <= i < |s| => LowByte(s[i]))
  }

  /** Widening and narrowing are inverse on byte strings. */
  lemma WidenLowBytes(s: JsString)
    requires IsByteString(s)
    ensures Widen(LowBytes(s)) == s
  {
    forall i | 0 <= i < |s|
      ensures Widen(LowBytes(s))[i] == s[i]
    {
      LowByteOfByte(s[i]);
    }
  }

  lemma LowBytesWiden(b: seq<Byte>)
    ensures LowBytes(Widen(b)) == b
  {
    forall i | 0 <= i < |b|
      ensures LowBytes(Widen(b))[i] == b[i]
    {
    }
  }

  lemma LowByteOfByte(u: Unit)
    requires u < 0x100
    ensures LowByte(u) as bv16 == u
  {
  }
}
