/**
 * `LangUtils.computeStringSlug`: a string reduced to lower-case ASCII
 * letters, digits and single hyphens, in five passes over the UTF-16 code
 * units of the value:
 *
 *   1. every rule of the accent table, in order, replaces each unit of its
 *      range by its letter;
 *   2. `toLowerCase`;
 *   3. every run of white space becomes one hyphen (`/\s+/g`);
 *   4. every unit outside `[a-z0-9-]` is removed;
 *   5. every run of two or more hyphens becomes one (`/\-{2,}/g`).
 *
 * The pipeline is written once over any table; `SlugAsWritten` runs it with
 * the table of the source, `Slug` with the corrected table (see `CTable`).
 */
module Slug {
  import opened JsValues

  /** '-'. */
  const Hyphen: Unit := 0x2D

  // ------------------------------------------------------------ accent table

  /** `{ re: /[lo-hi]/g, ch: ch }`: each unit from `lo` to `hi` becomes `ch`. */
  datatype Rule = Rule(lo: Unit, hi: Unit, ch: Unit)

  predicate Matches(rule: Rule, c: Unit)
  {
    rule.lo <= c <= rule.hi
  }

  /** What one rule makes of one unit. */
  function Step(rule: Rule, c: Unit): (r: Unit)
  {
    if Matches(rule, c) then rule.ch else c
  }

  /** `value.replace(rule.re, rule.ch)`: the class matches one unit, so each match is replaced in place. */
  function Replace(rule: Rule, s: JsString): (r: JsString)
    ensures |r| == |s|
  {
    seq(|s|, i requires 0 <= i < |s| => Step(rule, s[i]))
  }

  /** The rules from `i` on, in order, each over the whole value: the source's loop over the table. */
  function ApplyFrom(table: seq<Rule>, i: nat, s: JsString): (r: JsString)
    requires i <= |table|
    ensures |r| == |s|
    decreases |table| - i
  {
    if i == |table| then s else ApplyFrom(table, i + 1, Replace(table[i], s))
  }

  function ApplyTable(table: seq<Rule>, s: JsString): JsString
  {
    ApplyFrom(table, 0, s)
  }

  /** What the rules from `i` on, in order, make of one unit. */
  function TranslateFrom(table: seq<Rule>, i: nat, c: Unit): Unit
    requires i <= |table|
    decreases |table| - i
  {
    if i == |table| then c else TranslateFrom(table, i + 1, Step(table[i], c))
  }

  function Translate(table: seq<Rule>, c: Unit): Unit
  {
    TranslateFrom(table, 0, c)
  }

  /** Applying the table pass by pass is translating every unit on its own. */
  lemma {:induction false} ApplyPointwise(table: seq<Rule>, i: nat, s: JsString)
    requires i <= |table|
    ensures |ApplyFrom(table, i, s)| == |s|
    ensures forall n :: 0 <= n < |s| ==> ApplyFrom(table, i, s)[n] == TranslateFrom(table, i, s[n])
    decreases |table| - i
  {
    if i < |table| {
      ApplyPointwise(table, i + 1, Replace(table[i], s));
    }
  }

  /** The first rule from `i` on that matches `c`, or the table's length when none does. */
  function First(table: seq<Rule>, c: Unit, i: nat): (k: nat)
    requires i <= |table|
    ensures i <= k <= |table|
    decreases |table| - i
  {
    if i == |table| || Matches(table[i], c) then i else First(table, c, i + 1)
  }

  /** The rule `First` finds matches, and none before it does. */
  lemma {:induction false} FirstMatches(table: seq<Rule>, c: Unit, i: nat)
    requires i <= |table|
    ensures First(table, c, i) < |table| ==> Matches(table[First(table, c, i)], c)
    ensures forall j :: i <= j < First(table, c, i) ==> !Matches(table[j], c)
    decreases |table| - i
  {
    if i < |table| && !Matches(table[i], c) {
      FirstMatches(table, c, i + 1);
    }
  }

  /**
   * The rule matches only units from U+00C0 up and writes a unit below:
   * the rules of an accent table rewrite Latin-1 letters as ASCII ones.
   */
  predicate Accent(rule: Rule)
  {
    rule.ch < 0xC0 <= rule.lo
  }

  predicate AccentTable(table: seq<Rule>)
  {
    forall j :: 0 <= j < |table| ==> Accent(table[j])
  }

  lemma StepBelow(rule: Rule, c: Unit)
    requires Accent(rule) && c < 0xC0
    ensures Step(rule, c) == c
  {
  }

  lemma StepLetter(rule: Rule)
    requires Accent(rule)
    ensures rule.ch < 0xC0
  {
  }

  /** A unit below every range stays as it is. */
  lemma {:induction false} TranslateBelow(table: seq<Rule>, i: nat, c: Unit)
    requires AccentTable(table) && i <= |table| && c < 0xC0
    ensures TranslateFrom(table, i, c) == c
    decreases |table| - i
  {
    if i < |table| {
      StepBelow(table[i], c);
      TranslateBelow(table, i + 1, c);
    }
  }

  /**
   * Running the rules in order gives the letter of the first rule that
   * matches the unit, or the unit itself when none does.
   */
  lemma {:induction false} TranslateIsFirstMatch(table: seq<Rule>, i: nat, c: Unit)
    requires AccentTable(table) && i <= |table|
    ensures TranslateFrom(table, i, c) == if First(table, c, i) < |table| then table[First(table, c, i)].ch else c
    decreases |table| - i
  {
    if i < |table| {
      if Matches(table[i], c) {
        StepLetter(table[i]);
        TranslateBelow(table, i + 1, table[i].ch);
      } else {
        TranslateIsFirstMatch(table, i + 1, c);
      }
    }
  }
  /** The table of LangUtils.slugTable, with the `[\xC7-\xE7]` range it has. */
  const SlugTable: seq<Rule> := [
    Rule(0xC0, 0xC6, 0x41), Rule(0xE0, 0xE6, 0x61),
    Rule(0xC8, 0xCB, 0x45), Rule(0xE8, 0xEB, 0x65),
    Rule(0xCC, 0xCF, 0x49), Rule(0xEC, 0xEF, 0x69),
    Rule(0xD2, 0xD6, 0x4F), Rule(0xF2, 0xF6, 0x6F),
    Rule(0xD9, 0xDC, 0x55), Rule(0xF9, 0xFC, 0x75),
    Rule(0xC7, 0xE7, 0x63),
    Rule(0xD1, 0xD1, 0x4E), Rule(0xF1, 0xF1, 0x6E)
  ]

  /**
   * The table with its `c` rule as the class `[\xC7\xE7]` (C cedilla, upper
   * and lower case), written as two one-unit rules.
   */
  const CTable: seq<Rule> := [
    Rule(0xC0, 0xC6, 0x41), Rule(0xE0, 0xE6, 0x61),
    Rule(0xC8, 0xCB, 0x45), Rule(0xE8, 0xEB, 0x65),
    Rule(0xCC, 0xCF, 0x49), Rule(0xEC, 0xEF, 0x69),
    Rule(0xD2, 0xD6, 0x4F), Rule(0xF2, 0xF6, 0x6F),
    Rule(0xD9, 0xDC, 0x55), Rule(0xF9, 0xFC, 0x75),
    Rule(0xC7, 0xC7, 0x63), Rule(0xE7, 0xE7, 0x63),
    Rule(0xD1, 0xD1, 0x4E), Rule(0xF1, 0xF1, 0x6E)
  ]

  lemma TablesAreAccentTables()
    ensures AccentTable(SlugTable) && AccentTable(CTable)
  {
  }

  /**
   * The source's table: the `c` range runs from U+00C7 to U+00E7 and comes
   * before the N rule, so U+00D1 (N tilde) is caught by the `c` rule.
   */
  lemma AsWrittenNTilde()
    ensures First(SlugTable, 0xD1, 0) == 10
    ensures Translate(SlugTable, 0xD1) == 0x63
  {
    TablesAreAccentTables();
    TranslateIsFirstMatch(SlugTable, 0, 0xD1);
  }

  /** U+00F1 (n tilde) lies above the `c` range and still becomes 'n'. */
  lemma AsWrittenSmallNTilde()
    ensures Translate(SlugTable, 0xF1) == 0x6E
  {
    TablesAreAccentTables();
    TranslateIsFirstMatch(SlugTable, 0, 0xF1);
  }

  /** As written, no unit reaches the N tilde rule first: that rule never fires. */
  lemma AsWrittenNRuleDead(c: Unit)
    ensures First(SlugTable, c, 0) != 11
  {
    FirstMatches(SlugTable, c, 0);
    if Matches(SlugTable[11], c) {
      assert Matches(SlugTable[10], c);
    }
  }

  /** With the corrected table the N tilde rule is the first to match U+00D1, which becomes 'N'. */
  lemma CorrectedNTilde()
    ensures First(CTable, 0xD1, 0) == 12
    ensures Translate(CTable, 0xD1) == 0x4E
  {
    TablesAreAccentTables();
    TranslateIsFirstMatch(CTable, 0, 0xD1);
  }

  /** C cedilla, upper and lower case, still becomes 'c'. */
  lemma CorrectedCedilla()
    ensures Translate(CTable, 0xC7) == 0x63 && Translate(CTable, 0xE7) == 0x63
  {
    TablesAreAccentTables();
    TranslateIsFirstMatch(CTable, 0, 0xC7);
    TranslateIsFirstMatch(CTable, 0, 0xE7);
  }

  /** U+00D8 (O with stroke), no longer caught by the `c` range, is left for the filter to remove. */
  lemma CorrectedOStroke()
    ensures Translate(CTable, 0xD8) == 0xD8
  {
    TablesAreAccentTables();
    TranslateIsFirstMatch(CTable, 0, 0xD8);
  }

  // ------------------------------------------------------------- lower case

  predicate IsAsciiUpper(c: Unit)
  {
    0x41 <= c <= 0x5A
  }

  /**
   * `toLowerCase` of one unit, as far as the later passes can see: ASCII and
   * Latin-1 capitals take their small letters, U+0130 (capital I with dot)
   * becomes 'i' followed by U+0307 (combining dot above), and U+212A (Kelvin
   * sign) becomes 'k'.  Every other unit is kept as it is: its lower case,
   * where it has one, is neither ASCII nor white space, so the filter removes
   * the unit and its lower case alike.
   */
  function LowerUnit(c: Unit): (r: JsString)
    ensures 1 <= |r| <= 2
  {
    if IsAsciiUpper(c) || (0xC0 <= c <= 0xDE && c != 0xD7) then [c + 0x20]
    else if c == 0x130 then [0x69, 0x307]
    else if c == 0x212A then [0x6B]
    else [c]
  }

  function Lower(s: JsString): (r: JsString)
    ensures |s| <= |r| <= 2 * |s|
  {
    if |s| == 0 then [] else LowerUnit(s[0]) + Lower(s[1..])
  }

  /** Lower case leaves no ASCII capital. */
  lemma {:induction false} LowerHasNoUpper(s: JsString)
    ensures forall i :: 0 <= i < |Lower(s)| ==> !IsAsciiUpper(Lower(s)[i])
  {
    if |s| > 0 {
      LowerHasNoUpper(s[1..]);
    }
  }

  /** Lower case keeps a value of slug characters as it is. */
  lemma {:induction false} LowerOfSlug(s: JsString)
    requires AllSlugChars(s)
    ensures Lower(s) == s
  {
    if |s| > 0 {
      LowerOfSlug(s[1..]);
      assert s == [s[0]] + s[1..];
    }
  }

  // -------------------------------------------------------- runs and hyphens

  /** ECMAScript `\s`: WhiteSpace and LineTerminator code units. */
  predicate IsSpace(c: Unit)
  {
    (0x09 <= c <= 0x0D) || c == 0x20 || c == 0xA0 || c == 0x1680
    || (0x2000 <= c <= 0x200A) || c == 0x2028 || c == 0x2029 || c == 0x202F
    || c == 0x205F || c == 0x3000 || c == 0xFEFF
  }

  /** The two kinds of run the slug replaces by a single hyphen. */
  datatype Run = Whitespace | Hyphens

  predicate InRun(run: Run, c: Unit)
  {
    match run
    case Whitespace => IsSpace(c)
    case Hyphens => c == Hyphen
  }

  /** The value after its leading run. */
  function SkipRun(s: JsString, run: Run): (r: JsString)
    ensures |r| <= |s| && r == s[|s| - |r|..]
    ensures |r| > 0 ==> !InRun(run, r[0])
  {
    if |s| == 0 || !InRun(run, s[0]) then s else SkipRun(s[1..], run)
  }

  /**
   * `replace(re, '-')` with `re` matching maximal runs (`/\s+/g`, and
   * `/\-{2,}/g`, whose runs of one hyphen already are one hyphen).
   */
  function Squeeze(s: JsString, run: Run): (r: JsString)
    ensures |r| <= |s|
    decreases |s|
  {
    if |s| == 0 then []
    else if InRun(run, s[0]) then [Hyphen] + Squeeze(SkipRun(s[1..], run), run)
    else [s[0]] + Squeeze(s[1..], run)
  }

  predicate NoDoubleHyphen(s: JsString)
  {
    forall i :: 0 <= i && i + 1 < |s| ==> !(s[i] == Hyphen && s[i + 1] == Hyphen)
  }

  predicate NoRunUnit(s: JsString, run: Run)
  {
    forall i :: 0 <= i < |s| ==> !InRun(run, s[i])
  }

  /** The units neither of the run nor hyphens: what squeezing must keep, in order. */
  function Others(s: JsString, run: Run): JsString
  {
    if |s| == 0 then []
    else if InRun(run, s[0]) || s[0] == Hyphen then Others(s[1..], run)
    else [s[0]] + Others(s[1..], run)
  }

  /** A value that starts outside the run keeps its first unit when squeezed. */
  lemma SqueezeHead(s: JsString, run: Run)
    requires |s| > 0 && !InRun(run, s[0])
    ensures |Squeeze(s, run)| > 0 && Squeeze(s, run)[0] == s[0]
  {
  }

  /** The only units of the run left are hyphens. */
  predicate OnlyHyphensOf(s: JsString, run: Run)
  {
    forall i :: 0 <= i < |s| && InRun(run, s[i]) ==> s[i] == Hyphen
  }

  lemma OnlyHyphensCons(h: Unit, r: JsString, run: Run)
    requires InRun(run, h) ==> h == Hyphen
    requires OnlyHyphensOf(r, run)
    ensures OnlyHyphensOf([h] + r, run)
  {
    forall i | 0 < i < |[h] + r|
      ensures ([h] + r)[i] == r[i - 1]
    {
    }
  }

  /** Squeezing leaves no unit of the run but the hyphens it writes. */
  lemma {:induction false} SqueezeRunUnits(s: JsString, run: Run)
    ensures OnlyHyphensOf(Squeeze(s, run), run)
  {
    if |s| > 0 {
      if InRun(run, s[0]) {
        SqueezeRunUnits(SkipRun(s[1..], run), run);
        OnlyHyphensCons(Hyphen, Squeeze(SkipRun(s[1..], run), run), run);
      } else {
        SqueezeRunUnits(s[1..], run);
        OnlyHyphensCons(s[0], Squeeze(s[1..], run), run);
      }
    }
  }

  /** Squeezing white space leaves none. */
  lemma SqueezeWhitespace(s: JsString)
    ensures NoRunUnit(Squeeze(s, Whitespace), Whitespace)
  {
    SqueezeRunUnits(s, Whitespace);
    assert !IsSpace(Hyphen);
  }

  lemma NoDoubleHyphenCons(c: Unit, r: JsString)
    requires NoDoubleHyphen(r) && (c == Hyphen && |r| > 0 ==> r[0] != Hyphen)
    ensures NoDoubleHyphen([c] + r)
  {
    var s := [c] + r;
    forall i | 0 <= i && i + 1 < |s|
      ensures !(s[i] == Hyphen && s[i + 1] == Hyphen)
    {
      if i > 0 {
        assert s[i] == r[i - 1] && s[i + 1] == r[i];
      }
    }
  }

  /** Squeezing hyphen runs leaves no two hyphens side by side. */
  lemma {:induction false} SqueezeHyphens(s: JsString)
    ensures NoDoubleHyphen(Squeeze(s, Hyphens))
  {
    if |s| > 0 {
      if s[0] == Hyphen {
        var t := SkipRun(s[1..], Hyphens);
        SqueezeHyphens(t);
        if |t| > 0 {
          SqueezeHead(t, Hyphens);
        }
        NoDoubleHyphenCons(Hyphen, Squeeze(t, Hyphens));
      } else {
        SqueezeHyphens(s[1..]);
        NoDoubleHyphenCons(s[0], Squeeze(s[1..], Hyphens));
      }
    }
  }

  /** Squeezing only turns runs into hyphens: every other unit stays, in order. */
  lemma {:induction false} SqueezeKeepsOthers(s: JsString, run: Run)
    ensures Others(Squeeze(s, run), run) == Others(s, run)
  {
    if |s| > 0 {
      if InRun(run, s[0]) {
        var t := SkipRun(s[1..], run);
        SqueezeKeepsOthers(t, run);
        SkippedOthers(s[1..], run);
        assert Others(Squeeze(s, run), run) == Others(Squeeze(t, run), run);
      } else {
        SqueezeKeepsOthers(s[1..], run);
        assert Others(Squeeze(s, run), run) == Others([s[0]] + Squeeze(s[1..], run), run);
        assert ([s[0]] + Squeeze(s[1..], run))[1..] == Squeeze(s[1..], run);
      }
    }
  }

  /** A run skipped holds no other unit. */
  lemma {:induction false} SkippedOthers(s: JsString, run: Run)
    ensures Others(SkipRun(s, run), run) == Others(s, run)
  {
    if |s| > 0 && InRun(run, s[0]) {
      SkippedOthers(s[1..], run);
    }
  }

  /** White space squeezing is the identity exactly on values without white space. */
  lemma {:induction false} SqueezeWhitespaceIdentity(s: JsString)
    ensures Squeeze(s, Whitespace) == s <==> NoRunUnit(s, Whitespace)
  {
    if NoRunUnit(s, Whitespace) {
      SqueezeNoRun(s, Whitespace);
    } else {
      SqueezeWhitespace(s);
    }
  }

  /** Hyphen squeezing is the identity exactly on values without a double hyphen. */
  lemma {:induction false} SqueezeHyphensIdentity(s: JsString)
    ensures Squeeze(s, Hyphens) == s <==> NoDoubleHyphen(s)
  {
    if NoDoubleHyphen(s) {
      SqueezeSingleHyphens(s);
    } else {
      SqueezeHyphens(s);
    }
  }

  lemma {:induction false} SqueezeNoRun(s: JsString, run: Run)
    requires NoRunUnit(s, run)
    ensures Squeeze(s, run) == s
  {
    if |s| > 0 {
      SqueezeNoRun(s[1..], run);
      assert s == [s[0]] + s[1..];
    }
  }

  lemma {:induction false} SqueezeSingleHyphens(s: JsString)
    requires NoDoubleHyphen(s)
    ensures Squeeze(s, Hyphens) == s
  {
    if |s| > 0 {
      SqueezeSingleHyphens(s[1..]);
      if s[0] == Hyphen {
        assert SkipRun(s[1..], Hyphens) == s[1..];
      }
      assert s == [s[0]] + s[1..];
    }
  }

  /** Every unit of `r` belongs to the run. */
  predicate AllRun(r: JsString, run: Run)
  {
    forall i :: 0 <= i < |r| ==> InRun(run, r[i])
  }

  /** A value that starts with a unit of the run is all run exactly when its tail is. */
  lemma AllRunTail(s: JsString, run: Run)
    requires |s| > 0 && InRun(run, s[0])
    ensures AllRun(s, run) <==> AllRun(s[1..], run)
  {
    assert forall i :: 0 < i < |s| ==> s[i] == s[1..][i - 1];
  }

  /** The leading run of a value is all of it exactly when the value is all run. */
  lemma {:induction false} SkipRunEmpty(s: JsString, run: Run)
    ensures SkipRun(s, run) == [] <==> AllRun(s, run)
  {
    if |s| > 0 && InRun(run, s[0]) {
      SkipRunEmpty(s[1..], run);
      AllRunTail(s, run);
    }
  }

  /** When `a` is all run, skipping the leading run of `a + b` skips all of `a`. */
  lemma {:induction false} SkipRunPast(a: JsString, b: JsString, run: Run)
    requires AllRun(a, run)
    ensures SkipRun(a + b, run) == SkipRun(b, run)
    decreases |a|
  {
    if |a| == 0 {
      assert a + b == b;
    } else {
      assert (a + b)[1..] == a[1..] + b;
      AllRunTail(a, run);
      SkipRunPast(a[1..], b, run);
    }
  }

  /** When `a` is not all run, skipping the leading run of `a + b` stops within `a`. */
  lemma {:induction false} SkipRunWithin(a: JsString, b: JsString, run: Run)
    requires !AllRun(a, run)
    ensures SkipRun(a + b, run) == SkipRun(a, run) + b
    decreases |a|
  {
    if InRun(run, a[0]) {
      assert (a + b)[1..] == a[1..] + b;
      AllRunTail(a, run);
      SkipRunWithin(a[1..], b, run);
    }
  }

  /** A non-empty value made only of the run squeezes to one hyphen. */
  lemma SqueezeAllRun(r: JsString, run: Run)
    requires |r| > 0 && AllRun(r, run)
    ensures Squeeze(r, run) == [Hyphen]
  {
    SkipRunEmpty(r[1..], run);
    assert AllRun(r[1..], run) by {
      assert forall i :: 0 <= i < |r[1..]| ==> r[1..][i] == r[i + 1];
    }
  }

  lemma TailOfAppend(a: JsString, b: JsString)
    requires |a| > 0
    ensures (a + b)[0] == a[0] && (a + b)[1..] == a[1..] + b
  {
  }

  /** What is left after the leading run ends where the value ends. */
  lemma SkipRunLast(s: JsString, run: Run)
    ensures |SkipRun(s, run)| > 0 ==> SkipRun(s, run)[|SkipRun(s, run)| - 1] == s[|s| - 1]
  {
    var t := SkipRun(s, run);
    if |t| > 0 {
      assert t == s[|s| - |t|..];
    }
  }

  /** A value that starts in the run squeezes to a hyphen and the squeezed rest past the run. */
  lemma SqueezeRunHead(s: JsString, run: Run)
    requires |s| > 0 && InRun(run, s[0])
    ensures Squeeze(s, run) == [Hyphen] + Squeeze(SkipRun(s[1..], run), run)
  {
  }

  /** A value that starts outside the run keeps its first unit. */
  lemma SqueezeOtherHead(s: JsString, run: Run)
    requires |s| > 0 && !InRun(run, s[0])
    ensures Squeeze(s, run) == [s[0]] + Squeeze(s[1..], run)
  {
  }

  /** The case of `SqueezeAppend` where `a` starts with a unit of the run. */
  lemma {:induction false} SqueezeRunFirst(a: JsString, b: JsString, run: Run)
    requires |a| > 0 && |b| > 0 && InRun(run, a[0])
    requires !InRun(run, a[|a| - 1]) || !InRun(run, b[0])
    ensures Squeeze(a + b, run) == Squeeze(a, run) + Squeeze(b, run)
    decreases |a|, 0
  {
    TailOfAppend(a, b);
    var t := SkipRun(a[1..], run);
    SqueezeRunHead(a + b, run);
    SqueezeRunHead(a, run);
    SkipRunEmpty(a[1..], run);
    if AllRun(a[1..], run) {
      assert SkipRun(a[1..] + b, run) == b by {
        SkipRunPast(a[1..], b, run);
        assert InRun(run, a[|a| - 1]) by {
          if |a| > 1 {
            assert a[|a| - 1] == a[1..][|a| - 2];
          }
        }
      }
      assert Squeeze(a, run) == [Hyphen] by {
        assert t == [];
        assert Squeeze(t, run) == [];
        assert [Hyphen] + [] == [Hyphen];
      }
      assert Squeeze(a + b, run) == [Hyphen] + Squeeze(b, run);
    } else {
      assert SkipRun(a[1..] + b, run) == t + b by {
        SkipRunWithin(a[1..], b, run);
      }
      assert Squeeze(t + b, run) == Squeeze(t, run) + Squeeze(b, run) by {
        SkipRunLast(a[1..], run);
        assert a[1..][|a[1..]| - 1] == a[|a| - 1];
        SqueezeAppend(t, b, run);
      }
      Associative([Hyphen], Squeeze(t, run), Squeeze(b, run));
      assert Squeeze(a + b, run) == Squeeze(a, run) + Squeeze(b, run);
    }
  }

  /**
   * Squeezing distributes over a concatenation that does not split a run:
   * `a` ends, or `b` starts, outside the run.
   */
  lemma {:induction false} SqueezeAppend(a: JsString, b: JsString, run: Run)
    requires |a| == 0 || |b| == 0 || !InRun(run, a[|a| - 1]) || !InRun(run, b[0])
    ensures Squeeze(a + b, run) == Squeeze(a, run) + Squeeze(b, run)
    decreases |a|, 1
  {
    if |a| == 0 {
      assert a + b == b;
    } else if |b| == 0 {
      assert a + b == a;
    } else if !InRun(run, a[0]) {
      TailOfAppend(a, b);
      SqueezeOtherHead(a + b, run);
      SqueezeOtherHead(a, run);
      assert Squeeze(a[1..] + b, run) == Squeeze(a[1..], run) + Squeeze(b, run) by {
        if |a| > 1 {
          assert a[1..][|a[1..]| - 1] == a[|a| - 1];
        }
        SqueezeAppend(a[1..], b, run);
      }
      Associative([a[0]], Squeeze(a[1..], run), Squeeze(b, run));
    } else {
      SqueezeRunFirst(a, b, run);
    }
  }

  /**
   * Each maximal run becomes exactly one hyphen, and what lies on either
   * side is squeezed on its own.
   */
  lemma SqueezeMaximalRun(x: JsString, r: JsString, y: JsString, run: Run)
    requires |r| > 0 && AllRun(r, run)
    requires |x| == 0 || !InRun(run, x[|x| - 1])
    requires |y| == 0 || !InRun(run, y[0])
    ensures Squeeze(x + r + y, run) == Squeeze(x, run) + [Hyphen] + Squeeze(y, run)
  {
    SqueezeAppend(r, y, run);
    SqueezeAllRun(r, run);
    SqueezeAppend(x, r + y, run);
    Associative(x, r, y);
    Associative(Squeeze(x, run), [Hyphen], Squeeze(y, run));
  }

  lemma Associative(a: JsString, b: JsString, c: JsString)
    ensures a + b + c == a + (b + c)
  {
  }

  /** A unit outside the run is kept as it is. */
  lemma SqueezeOther(c: Unit, run: Run)
    requires !InRun(run, c)
    ensures Squeeze([c], run) == [c]
  {
  }

  // ----------------------------------------------------------------- filter

  /** `[a-z0-9-]`. */
  predicate IsSlugChar(c: Unit)
  {
    (0x61 <= c <= 0x7A) || (0x30 <= c <= 0x39) || c == Hyphen
  }

  predicate AllSlugChars(s: JsString)
  {
    forall i :: 0 <= i < |s| ==> IsSlugChar(s[i])
  }

  /** `replace(/[^a-z0-9-]/g, '')`. */
  function Keep(s: JsString): (r: JsString)
    ensures |r| <= |s|
  {
    if |s| == 0 then []
    else if IsSlugChar(s[0]) then [s[0]] + Keep(s[1..])
    else Keep(s[1..])
  }

  /** The units kept are exactly the slug characters of the value. */
  lemma {:induction false} KeepContents(s: JsString)
    ensures forall c :: c in Keep(s) <==> c in s && IsSlugChar(c)
  {
    if |s| > 0 {
      KeepContents(s[1..]);
      assert s == [s[0]] + s[1..];
    }
  }

  lemma KeepAllSlug(s: JsString)
    ensures AllSlugChars(Keep(s))
  {
    KeepContents(s);
    assert forall i :: 0 <= i < |Keep(s)| ==> Keep(s)[i] in Keep(s);
  }

  lemma {:induction false} KeepOfSlug(s: JsString)
    requires AllSlugChars(s)
    ensures Keep(s) == s
  {
    if |s| > 0 {
      KeepOfSlug(s[1..]);
      assert s == [s[0]] + s[1..];
    }
  }

  /** The filter works unit by unit: it distributes over concatenation... */
  lemma {:induction false} KeepAppend(a: JsString, b: JsString)
    ensures Keep(a + b) == Keep(a) + Keep(b)
    decreases |a|
  {
    if |a| == 0 {
      assert a + b == b;
    } else {
      assert (a + b)[1..] == a[1..] + b;
      KeepAppend(a[1..], b);
    }
  }

  /** ...and keeps a single unit exactly when it is a slug character. */
  lemma KeepUnit(c: Unit)
    ensures Keep([c]) == if IsSlugChar(c) then [c] else []
  {
  }

  lemma SlugCharsCons(h: Unit, r: JsString)
    requires IsSlugChar(h) && AllSlugChars(r)
    ensures AllSlugChars([h] + r)
  {
    forall i | 0 < i < |[h] + r|
      ensures ([h] + r)[i] == r[i - 1]
    {
    }
  }

  lemma SlugCharsSuffix(s: JsString, k: nat)
    requires AllSlugChars(s) && k <= |s|
    ensures AllSlugChars(s[k..])
  {
    forall i | 0 <= i < |s[k..]|
      ensures s[k..][i] == s[k + i]
    {
    }
  }

  /** Squeezing hyphen runs writes hyphens only, so it keeps a value of slug characters in the alphabet. */
  lemma {:induction false} SqueezeKeepsSlug(s: JsString)
    requires AllSlugChars(s)
    ensures AllSlugChars(Squeeze(s, Hyphens))
  {
    if |s| > 0 {
      SlugCharsSuffix(s, 1);
      if s[0] == Hyphen {
        var t := SkipRun(s[1..], Hyphens);
        SlugCharsSuffix(s[1..], |s[1..]| - |t|);
        SqueezeKeepsSlug(t);
        SlugCharsCons(Hyphen, Squeeze(t, Hyphens));
      } else {
        SqueezeKeepsSlug(s[1..]);
        SlugCharsCons(s[0], Squeeze(s[1..], Hyphens));
      }
    }
  }

  // ---------------------------------------------------------------- the slug

  function ComputeSlug(table: seq<Rule>, value: JsString): JsString
  {
    Squeeze(Keep(Squeeze(Lower(ApplyTable(table, value)), Whitespace)), Hyphens)
  }

  /** `computeStringSlug` with the table as the source has it. */
  function SlugAsWritten(value: JsString): JsString
  {
    ComputeSlug(SlugTable, value)
  }

  /** `computeStringSlug` with the corrected table. */
  function Slug(value: JsString): JsString
  {
    ComputeSlug(CTable, value)
  }

  /** Every slug is lower-case letters, digits and hyphens, never two hyphens side by side. */
  lemma SlugShape(table: seq<Rule>, value: JsString)
    ensures AllSlugChars(ComputeSlug(table, value))
    ensures NoDoubleHyphen(ComputeSlug(table, value))
  {
    var k := Keep(Squeeze(Lower(ApplyTable(table, value)), Whitespace));
    KeepAllSlug(Squeeze(Lower(ApplyTable(table, value)), Whitespace));
    SqueezeKeepsSlug(k);
    SqueezeHyphens(k);
  }

  /** A slug is its own slug. */
  lemma SlugOfSlug(table: seq<Rule>, s: JsString)
    requires AccentTable(table)
    requires AllSlugChars(s) && NoDoubleHyphen(s)
    ensures ComputeSlug(table, s) == s
  {
    ApplyPointwise(table, 0, s);
    forall i | 0 <= i < |s|
      ensures Translate(table, s[i]) == s[i]
    {
      assert s[i] < 0xC0;
      TranslateBelow(table, 0, s[i]);
    }
    assert ApplyTable(table, s) == s;
    LowerOfSlug(s);
    SqueezeNoRun(s, Whitespace);
    KeepOfSlug(s);
    SqueezeSingleHyphens(s);
  }

  /**
   * `computeStringSlug` is idempotent for any table of accent rules, as
   * both tables are.
   */
  lemma SlugIdempotent(table: seq<Rule>, value: JsString)
    requires AccentTable(table)
    ensures ComputeSlug(table, ComputeSlug(table, value)) == ComputeSlug(table, value)
  {
    SlugShape(table, value);
    SlugOfSlug(table, ComputeSlug(table, value));
  }

  /** The slug of the corrected table is idempotent. */
  lemma CorrectedSlugIdempotent(value: JsString)
    ensures Slug(Slug(value)) == Slug(value)
  {
    TablesAreAccentTables();
    SlugIdempotent(CTable, value);
  }

  /** So is the slug of the source's table. */
  lemma AsWrittenSlugIdempotent(value: JsString)
    ensures SlugAsWritten(SlugAsWritten(value)) == SlugAsWritten(value)
  {
    TablesAreAccentTables();
    SlugIdempotent(SlugTable, value);
  }

  /** A capital ASCII letter alone slugs to its small letter. */
  lemma CapitalSlug(x: Unit)
    requires IsAsciiUpper(x)
    ensures Squeeze(Keep(Squeeze(Lower([x]), Whitespace)), Hyphens) == [x + 0x20]
  {
    var y := x + 0x20;
    assert Lower([x]) == [y];
    assert Squeeze([y], Whitespace) == [y];
    assert Keep([y]) == [y];
    assert Squeeze([y], Hyphens) == [y];
  }

  /** U+00D1 alone: "c" as written. */
  lemma AsWrittenNTildeSlug()
    ensures SlugAsWritten([0xD1]) == [0x63]
  {
    AsWrittenNTilde();
    ApplyPointwise(SlugTable, 0, [0xD1]);
    assert ApplyTable(SlugTable, [0xD1]) == [0x63];
    var y: Unit := 0x63;
    assert Lower([y]) == [y];
    assert Squeeze([y], Whitespace) == [y];
    assert Keep([y]) == [y];
    assert Squeeze([y], Hyphens) == [y];
  }

  /** U+00D1 alone: "n" with the corrected table. */
  lemma CorrectedNTildeSlug()
    ensures Slug([0xD1]) == [0x6E]
  {
    CorrectedNTilde();
    ApplyPointwise(CTable, 0, [0xD1]);
    assert ApplyTable(CTable, [0xD1]) == [0x4E];
    CapitalSlug(0x4E);
  }

  /** No accent rule touches " a b ". */
  lemma SpacedTable(table: seq<Rule>)
    requires AccentTable(table)
    ensures ApplyTable(table, [0x20, 0x61, 0x20, 0x62, 0x20]) == [0x20, 0x61, 0x20, 0x62, 0x20]
  {
    var v: JsString := [0x20, 0x61, 0x20, 0x62, 0x20];
    ApplyPointwise(table, 0, v);
    forall i | 0 <= i < |v|
      ensures Translate(table, v[i]) == v[i]
    {
      TranslateBelow(table, 0, v[i]);
    }
  }

  /** Lower case keeps " a b " as it is. */
  lemma SpacedLower()
    ensures Lower([0x20, 0x61, 0x20, 0x62, 0x20]) == [0x20, 0x61, 0x20, 0x62, 0x20]
  {
    var v: JsString := [0x20, 0x61, 0x20, 0x62, 0x20];
    assert Lower(v[4..]) == v[4..];
    assert Lower(v[3..]) == v[3..];
    assert Lower(v[2..]) == v[2..];
    assert Lower(v[1..]) == v[1..];
  }

  lemma FiveUnits(a: Unit, b: Unit, c: Unit, d: Unit, e: Unit)
    ensures [a] + ([b] + ([c] + ([d] + [e]))) == [a, b, c, d, e]
  {
  }

  /**
   * A value that alternates between single units of the run and units
   * outside it: each unit of the run becomes a hyphen, the others stay.
   */
  lemma SqueezeAlternating(x: Unit, y: Unit, z: Unit, run: Run)
    requires InRun(run, x) && !InRun(run, y) && !InRun(run, z)
    ensures Squeeze([x, y, x, z, x], run) == [Hyphen, y, Hyphen, z, Hyphen]
  {
    var r4: JsString := [x];
    var r3: JsString := [z] + r4;
    var r2: JsString := [x] + r3;
    var r1: JsString := [y] + r2;
    var r0: JsString := [x] + r1;
    var h4: JsString := [Hyphen];
    var h3: JsString := [z] + h4;
    var h2: JsString := [Hyphen] + h3;
    var h1: JsString := [y] + h2;
    var h0: JsString := [Hyphen] + h1;
    SqueezeAllRun([x], run);
    SqueezeOther(y, run);
    SqueezeOther(z, run);
    SqueezeAppend([z], r4, run);
    SqueezeAppend([x], r3, run);
    SqueezeAppend([y], r2, run);
    SqueezeAppend([x], r1, run);
    assert Squeeze(r0, run) == h0;
    FiveUnits(x, y, x, z, x);
    FiveUnits(Hyphen, y, Hyphen, z, Hyphen);
  }

  /** Each space of " a b " is a run of its own. */
  lemma SpacedSqueeze()
    ensures Squeeze([0x20, 0x61, 0x20, 0x62, 0x20], Whitespace) == [Hyphen, 0x61, Hyphen, 0x62, Hyphen]
  {
    SqueezeAlternating(0x20, 0x61, 0x62, Whitespace);
  }

  /** The single hyphens of "-a-b-" stay. */
  lemma SpacedHyphens()
    ensures Squeeze([Hyphen, 0x61, Hyphen, 0x62, Hyphen], Hyphens) == [Hyphen, 0x61, Hyphen, 0x62, Hyphen]
  {
    SqueezeAlternating(Hyphen, 0x61, 0x62, Hyphens);
  }

  /** The filter keeps "-a-b-" as it is. */
  lemma SpacedKeep()
    ensures Keep([Hyphen, 0x61, Hyphen, 0x62, Hyphen]) == [Hyphen, 0x61, Hyphen, 0x62, Hyphen]
  {
    var w: JsString := [Hyphen, 0x61, Hyphen, 0x62, Hyphen];
    assert AllSlugChars(w);
    KeepOfSlug(w);
  }

  /**
   * Leading, inner and trailing white space each become one hyphen, which
   * the later passes keep: " a b " slugs to "-a-b-".
   */
  lemma SpacedSlug(table: seq<Rule>)
    requires AccentTable(table)
    ensures ComputeSlug(table, [0x20, 0x61, 0x20, 0x62, 0x20]) == [Hyphen, 0x61, Hyphen, 0x62, Hyphen]
  {
    SpacedTable(table);
    SpacedLower();
    SpacedSqueeze();
    SpacedKeep();
    SpacedHyphens();
  }
}
