/**
 * `utf8_encode` of HasherUtils.js: line breaks normalised to LF, then every
 * UTF-16 code unit written as one, two or three bytes in the layout of
 * UTF-8 (RFC 3629, section 3), each byte a character of the result.
 *
 * The encoder works unit by unit: a surrogate is written as the three bytes
 * of its own 16-bit value, so a character outside the Basic Multilingual
 * Plane becomes six bytes rather than UTF-8's four (the scheme known as
 * CESU-8).  `Decode` reads that layout back.
 */
module Utf8 {
  import opened JsValues

  const CR: Unit := 0x0D
  const LF: Unit := 0x0A

  // ------------------------------------------------------------- line breaks

  /** `.replace(/\r\n/g, '\n')`: each CR LF pair, left to right, becomes LF. */
  function ReplaceCrLf(s: JsString): (r: JsString)
    ensures |r| <= |s|
  {
    if |s| == 0 then []
    else if |s| >= 2 && s[0] == CR && s[1] == LF then [LF] + ReplaceCrLf(s[2..])
    else [s[0]] + ReplaceCrLf(s[1..])
  }

  /** `.replace(/\r/g, '\n')`: each remaining CR becomes LF. */
  function ReplaceCr(s: JsString): (r: JsString)
    ensures |r| == |s|
  {
    seq(|s|, i requires 0 <= i < |s| => if s[i] == CR then LF else s[i])
  }

  /** The string `utf8_encode` encodes. */
  function Normalize(s: JsString): JsString
  {
    ReplaceCr(ReplaceCrLf(s))
  }

  predicate HasNoCr(s: JsString)
  {
    forall i | 0 <= i < |s| :: s[i] != CR
  }

  lemma ReplaceCrRemovesCr(s: JsString)
    ensures HasNoCr(ReplaceCr(s))
  {
  }

  lemma {:induction false} ReplaceCrLfWithoutCr(s: JsString)
    requires HasNoCr(s)
    ensures ReplaceCrLf(s) == s
  {
    if |s| > 0 {
      assert HasNoCr(s[1..]) by {
        forall i | 0 <= i < |s[1..]|
          ensures s[1..][i] != CR
        {
          assert s[1..][i] == s[i + 1];
        }
      }
      ReplaceCrLfWithoutCr(s[1..]);
      assert [s[0]] + s[1..] == s;
    }
  }

  lemma ReplaceCrWithoutCr(s: JsString)
    requires HasNoCr(s)
    ensures ReplaceCr(s) == s
  {
  }

  /** A string without CR is left alone. */
  lemma NormalizeWithoutCr(s: JsString)
    requires HasNoCr(s)
    ensures Normalize(s) == s
  {
    ReplaceCrLfWithoutCr(s);
    ReplaceCrWithoutCr(s);
  }

  /** The normalised string holds no CR, and normalising it again changes nothing. */
  lemma NormalizeIdempotent(s: JsString)
    ensures HasNoCr(Normalize(s))
    ensures Normalize(Normalize(s)) == Normalize(s)
  {
    ReplaceCrRemovesCr(ReplaceCrLf(s));
    NormalizeWithoutCr(Normalize(s));
  }

  /** "a\r\nb\rc" becomes "a\nb\nc": a pair and a lone CR each become one LF. */
  lemma NormalizeExample()
    ensures Normalize([0x61, CR, LF, 0x62, CR, 0x63]) == [0x61, LF, 0x62, LF, 0x63]
  {
    var s: JsString := [0x61, CR, LF, 0x62, CR, 0x63];
    var t3: JsString := [CR, 0x63];
    var t2: JsString := [0x62] + t3;
    var t1: JsString := [CR, LF] + t2;
    assert [0x63][1..] == [];
    assert ReplaceCrLf([0x63]) == [0x63];
    assert t3[1..] == [0x63];
    assert ReplaceCrLf(t3) == [CR, 0x63];
    assert t2[1..] == t3;
    assert ReplaceCrLf(t2) == [0x62, CR, 0x63];
    assert t1[2..] == t2;
    assert ReplaceCrLf(t1) == [LF, 0x62, CR, 0x63];
    assert s == [0x61] + t1 && s[1..] == t1;
    assert ReplaceCrLf(s) == [0x61, LF, 0x62, CR, 0x63];
  }

  // ------------------------------------------------------------- code units

  /** The bytes of one code unit, as the loop body writes them. */
  function UnitBytes(c: Unit): (b: JsString)
    ensures 1 <= |b| <= 3
  {
    if c < 128 then [c]
    else if c > 127 && c < 2048 then TwoBytes(c)
    else ThreeBytes(c)
  }

  /** `110xxxxx 10xxxxxx`: the high five and the low six bits of a unit below 2048. */
  function TwoBytes(c: Unit): JsString
  {
    [(c >> 6) | 192, (c & 63) | 128]
  }

  /** `1110xxxx 10xxxxxx 10xxxxxx`: the three groups of a 16-bit unit. */
  function ThreeBytes(c: Unit): JsString
  {
    [(c >> 12) | 224, ((c >> 6) & 63) | 128, (c & 63) | 128]
  }

  /** The encoding of a string of code units: the bytes of each unit in turn. */
  function Encode(s: JsString): JsString
  {
    if |s| == 0 then [] else Encode(s[..|s| - 1]) + UnitBytes(s[|s| - 1])
  }

  /** A continuation byte: `10xxxxxx`. */
  predicate IsContinuation(u: Unit)
  {
    0x80 <= u < 0xC0
  }

  function Prepend(c: Unit, rest: Option<JsString>): Option<JsString>
  {
    if rest.Some? then Some([c] + rest.value) else None
  }

  /** Reads one-, two- and three-byte sequences back to code units; `None` for anything else. */
  function Decode(b: JsString): Option<JsString>
  {
    if |b| == 0 then Some([])
    else if b[0] < 0x80 then Prepend(b[0], Decode(b[1..]))
    else if 0xC0 <= b[0] < 0xE0 && |b| >= 2 && IsContinuation(b[1]) then
      Prepend(((b[0] & 31) << 6) | (b[1] & 63), Decode(b[2..]))
    else if 0xE0 <= b[0] < 0xF0 && |b| >= 3 && IsContinuation(b[1]) && IsContinuation(b[2]) then
      Prepend(((b[0] & 15) << 12) | ((b[1] & 63) << 6) | (b[2] & 63), Decode(b[3..]))
    else None
  }

  // ------------------------------------------------------------- properties

  /** Every byte written is below 256: the result is a byte string. */
  lemma UnitBytesAreBytes(c: Unit)
    ensures IsByteString(UnitBytes(c))
  {
  }

  /** One byte exactly for ASCII, two below 2048, three otherwise: the lengths of RFC 3629. */
  lemma UnitBytesLength(c: Unit)
    ensures |UnitBytes(c)| == (if c < 0x80 then 1 else if c < 0x800 then 2 else 3)
  {
  }

  lemma {:induction false} EncodeAppend(a: JsString, b: JsString)
    ensures Encode(a + b) == Encode(a) + Encode(b)
    decreases |b|
  {
    if |b| == 0 {
      assert a + b == a;
    } else {
      var b' := b[..|b| - 1];
      assert (a + b)[..|a + b| - 1] == a + b';
      assert (a + b)[|a + b| - 1] == b[|b| - 1];
      EncodeAppend(a, b');
    }
  }

  lemma EncodeOne(c: Unit)
    ensures Encode([c]) == UnitBytes(c)
  {
    assert [c][..0] == [];
  }

  /** Encoding is unit by unit from the front too. */
  lemma EncodeFront(s: JsString)
    requires |s| > 0
    ensures Encode(s) == UnitBytes(s[0]) + Encode(s[1..])
  {
    EncodeAppend([s[0]], s[1..]);
    EncodeOne(s[0]);
    HeadAndTail(s);
  }

  lemma HeadAndTail(s: JsString)
    requires |s| > 0
    ensures [s[0]] + s[1..] == s
  {
  }

  lemma {:induction false} EncodeIsByteString(s: JsString)
    ensures IsByteString(Encode(s))
  {
    if |s| > 0 {
      EncodeIsByteString(s[..|s| - 1]);
      UnitBytesAreBytes(s[|s| - 1]);
    }
  }

  /** The bytes of a unit other than CR hold no CR: a lead or continuation byte is 0x80 or more. */
  lemma UnitBytesNoCr(c: Unit)
    requires c != CR
    ensures HasNoCr(UnitBytes(c))
  {
  }

  /** Encoding a string without CR writes no CR. */
  lemma {:induction false} EncodeKeepsNoCr(s: JsString)
    requires HasNoCr(s)
    ensures HasNoCr(Encode(s))
  {
    if |s| > 0 {
      var init := s[..|s| - 1];
      assert HasNoCr(init) by {
        forall i | 0 <= i < |init|
          ensures init[i] != CR
        {
          assert init[i] == s[i];
        }
      }
      EncodeKeepsNoCr(init);
      UnitBytesNoCr(s[|s| - 1]);
    }
  }

  /** Plain ASCII is written as it is. */
  lemma {:induction false} EncodeAscii(s: JsString)
    requires forall i | 0 <= i < |s| :: s[i] < 0x80
    ensures Encode(s) == s
  {
    if |s| > 0 {
      EncodeAscii(s[..|s| - 1]);
      assert s[..|s| - 1] + [s[|s| - 1]] == s;
    }
  }

  /** The bytes written for any string lie between one and three per unit. */
  lemma {:induction false} EncodeLength(s: JsString)
    ensures |s| <= |Encode(s)| <= 3 * |s|
  {
    if |s| > 0 {
      EncodeLength(s[..|s| - 1]);
    }
  }

  lemma DecodeUnit2(c: Unit)
    requires 128 <= c < 2048
    ensures 0xC0 <= (c >> 6) | 192 < 0xE0 && IsContinuation((c & 63) | 128)
    ensures ((((c >> 6) | 192) & 31) << 6) | (((c & 63) | 128) & 63) == c
  {
  }

  lemma DecodeUnit3(c: Unit)
    requires c >= 2048
    ensures 0xE0 <= (c >> 12) | 224 < 0xF0
    ensures IsContinuation(((c >> 6) & 63) | 128) && IsContinuation((c & 63) | 128)
    ensures ((((c >> 12) | 224) & 15) << 12) | (((((c >> 6) & 63) | 128) & 63) << 6) | (((c & 63) | 128) & 63) == c
  {
  }

  lemma DecodeOneByte(b0: Unit, rest: JsString)
    requires b0 < 0x80
    ensures Decode([b0] + rest) == Prepend(b0, Decode(rest))
  {
    assert ([b0] + rest)[1..] == rest;
  }

  lemma DecodeTwoBytes(b0: Unit, b1: Unit, rest: JsString)
    requires 0xC0 <= b0 < 0xE0 && IsContinuation(b1)
    ensures Decode([b0, b1] + rest) == Prepend(((b0 & 31) << 6) | (b1 & 63), Decode(rest))
  {
    assert ([b0, b1] + rest)[2..] == rest;
  }

  lemma DecodeThreeBytes(b0: Unit, b1: Unit, b2: Unit, rest: JsString)
    requires 0xE0 <= b0 < 0xF0 && IsContinuation(b1) && IsContinuation(b2)
    ensures Decode([b0, b1, b2] + rest) == Prepend(((b0 & 15) << 12) | ((b1 & 63) << 6) | (b2 & 63), Decode(rest))
  {
    assert ([b0, b1, b2] + rest)[3..] == rest;
  }

  /** The bytes of one unit in front of any bytes decode to the unit in front of their decoding. */
  lemma DecodeUnitBytes(c: Unit, rest: JsString)
    ensures Decode(UnitBytes(c) + rest) == Prepend(c, Decode(rest))
  {
    if c < 128 {
      DecodeOneByte(c, rest);
    } else if c < 2048 {
      DecodeUnit2(c);
      DecodeTwoBytes((c >> 6) | 192, (c & 63) | 128, rest);
    } else {
      DecodeUnit3(c);
      DecodeThreeBytes((c >> 12) | 224, ((c >> 6) & 63) | 128, (c & 63) | 128, rest);
    }
  }

  /** Decoding gives back every code unit, surrogates included. */
  lemma {:induction false} DecodeEncode(s: JsString)
    ensures Decode(Encode(s)) == Some(s)
  {
    if |s| > 0 {
      EncodeFront(s);
      DecodeUnitBytes(s[0], Encode(s[1..]));
      DecodeEncode(s[1..]);
      assert [s[0]] + s[1..] == s;
    }
  }

  /** Different strings, once normalised, are encoded differently. */
  lemma EncodeInjective(s: JsString, t: JsString)
    requires Encode(s) == Encode(t)
    ensures s == t
  {
    DecodeEncode(s);
    DecodeEncode(t);
  }

  /** A lone surrogate, such as the high half of U+1F600, is written as the three bytes of its own value. */
  lemma SurrogateExample()
    ensures UnitBytes(0xD83D) == [0xED, 0xA0, 0xBD]
  {
  }

  // ------------------------------------------------------------- the loop

  lemma EncodeStep(s: JsString, n: nat)
    requires n < |s|
    ensures Encode(s[..n + 1]) == Encode(s[..n]) + UnitBytes(s[n])
  {
    assert s[..n + 1][..n] == s[..n];
  }

  /** Extending the pending ASCII run by the unit at `j` appends its one-byte encoding. */
  lemma CopyStep(done: JsString, s: JsString, i: nat, j: nat)
    requires i <= j < |s| && s[j] < 128
    ensures done + s[i..j + 1] == done + s[i..j] + UnitBytes(s[j])
  {
    assert s[i..j + 1] == s[i..j] + [s[j]];
  }

  /** Flushing the pending run, when there is one, before a longer sequence. */
  lemma FlushThenAppend(done: JsString, s: JsString, i: nat, j: nat, e: JsString)
    requires i <= j <= |s|
    ensures (if j > i then done + s[i..j] else done) + e == done + s[i..j] + e
  {
    if j == i {
      assert s[i..j] == [];
    }
  }

  /**
   * One pass of the loop of `utf8_encode` over unit `n` of `text`: an ASCII
   * unit extends the pending run `start` to `end`; any other unit flushes the
   * run with `substring` and appends its two or three bytes.  What has been
   * written plus the pending run grows by the encoding of the unit.
   */
  method EncodeUnit(text: JsString, n: nat, utftext0: JsString, start0: nat, end0: nat)
    returns (utftext: JsString, start: nat, end: nat)
    requires start0 <= end0 == n < |text|
    ensures start <= end == n + 1
    ensures utftext + text[start..end] == utftext0 + text[start0..end0] + UnitBytes(text[n])
  {
    utftext, start, end := utftext0, start0, end0;
    var c1 := text[n];
    var enc: Option<JsString> := None;
    if c1 < 128 {
      CopyStep(utftext, text, start, end);
      end := end + 1;
    } else if c1 > 127 && c1 < 2048 {
      enc := Some(TwoBytes(c1));
    } else {
      enc := Some(ThreeBytes(c1));
    }
    if enc.Some? {
      assert enc.value == UnitBytes(c1);
      FlushThenAppend(utftext, text, start, end, enc.value);
      if end > start {
        utftext := utftext + text[start..end];
      }
      utftext := utftext + enc.value;
      start, end := n + 1, n + 1;
      assert text[start..end] == [];
    }
  }

  /**
   * `utf8_encode(string)`, the normalised string named `text`: ASCII units are copied in runs `start` to `end`,
   * flushed with `substring` before each longer sequence and at the end.
   */
  method Utf8Encode(str: JsString) returns (utftext: JsString)
    ensures utftext == Encode(Normalize(str))
    ensures IsByteString(utftext) && HasNoCr(utftext) && HasNoCr(Normalize(str))
  {
    var text := Normalize(str);
    utftext := [];
    var start: nat, end: nat := 0, 0;
    var n: nat := 0;
    while n < |text|
      invariant start <= end == n <= |text|
      invariant utftext + text[start..end] == Encode(text[..n])
    {
      EncodeStep(text, n);
      utftext, start, end := EncodeUnit(text, n, utftext, start, end);
      n := n + 1;
    }
    if end > start {
      utftext := utftext + text[start..];
    }
    assert text[start..] == text[start..end];
    assert text[..n] == text;
    EncodeIsByteString(text);
    NormalizeIdempotent(str);
    EncodeKeepsNoCr(text);
  }
}
