/**
 * The 64 calls of `core_md5` (HasherUtils.js, lines 206 to 272) against the
 * 64 operations of section 3.4 of RFC 1321: the same auxiliary function, the
 * same word of the block, the same shift and, read as a 32-bit pattern, the
 * same constant T[i].
 */
module Md5Table {
  import opened JsValues
  import opened Md5Core
  import Rfc = Md5Rfc

  /** The `md5_xx` function of the round operation `n` belongs to. */
  function RoundFnOf(n: nat): RoundFn
    requires n < 64
  {
    if n < 16 then FF else if n < 32 then GG else if n < 48 then HH else II
  }

  /** Call `n` of the source is operation `n` of section 3.4 of RFC 1321. */
  predicate CallMatches(n: nat)
    requires n < 64
  {
    var c := CallAt(n);
    c.fn == RoundFnOf(n) && c.k == Rfc.WordIndex(n) && c.s == Rfc.Shift(n) && I32(c.t) == Rfc.T(n)
  }

  // One lemma per call: with the call number a literal, each is an evaluation.

  lemma CallMatches0()
    ensures CallMatches(0)
  {
    assert CallAt(0) == Call(FF, 0, 7, -680876936);
    assert Rfc.WordIndex(0) == 0 && Rfc.Shift(0) == 7 && Rfc.T(0) == 0xd76aa478;
  }

  lemma CallMatches1()
    ensures CallMatches(1)
  {
    assert CallAt(1) == Call(FF, 1, 12, -389564586);
    assert Rfc.WordIndex(1) == 1 && Rfc.Shift(1) == 12 && Rfc.T(1) == 0xe8c7b756;
  }

  lemma CallMatches2()
    ensures CallMatches(2)
  {
    assert CallAt(2) == Call(FF, 2, 17, 606105819);
    assert Rfc.WordIndex(2) == 2 && Rfc.Shift(2) == 17 && Rfc.T(2) == 0x242070db;
  }

  lemma CallMatches3()
    ensures CallMatches(3)
  {
    assert CallAt(3) == Call(FF, 3, 22, -1044525330);
    assert Rfc.WordIndex(3) == 3 && Rfc.Shift(3) == 22 && Rfc.T(3) == 0xc1bdceee;
  }

  lemma CallMatches4()
    ensures CallMatches(4)
  {
    assert CallAt(4) == Call(FF, 4, 7, -176418897);
    assert Rfc.WordIndex(4) == 4 && Rfc.Shift(4) == 7 && Rfc.T(4) == 0xf57c0faf;
  }

  lemma CallMatches5()
    ensures CallMatches(5)
  {
    assert CallAt(5) == Call(FF, 5, 12, 1200080426);
    assert Rfc.WordIndex(5) == 5 && Rfc.Shift(5) == 12 && Rfc.T(5) == 0x4787c62a;
  }

  lemma CallMatches6()
    ensures CallMatches(6)
  {
    assert CallAt(6) == Call(FF, 6, 17, -1473231341);
    assert Rfc.WordIndex(6) == 6 && Rfc.Shift(6) == 17 && Rfc.T(6) == 0xa8304613;
  }

  lemma CallMatches7()
    ensures CallMatches(7)
  {
    assert CallAt(7) == Call(FF, 7, 22, -45705983);
    assert Rfc.WordIndex(7) == 7 && Rfc.Shift(7) == 22 && Rfc.T(7) == 0xfd469501;
  }

  lemma CallMatches8()
    ensures CallMatches(8)
  {
    assert CallAt(8) == Call(FF, 8, 7, 1770035416);
    assert Rfc.WordIndex(8) == 8 && Rfc.Shift(8) == 7 && Rfc.T(8) == 0x698098d8;
  }

  lemma CallMatches9()
    ensures CallMatches(9)
  {
    assert CallAt(9) == Call(FF, 9, 12, -1958414417);
    assert Rfc.WordIndex(9) == 9 && Rfc.Shift(9) == 12 && Rfc.T(9) == 0x8b44f7af;
  }

  lemma CallMatches10()
    ensures CallMatches(10)
  {
    assert CallAt(10) == Call(FF, 10, 17, -42063);
    assert Rfc.WordIndex(10) == 10 && Rfc.Shift(10) == 17 && Rfc.T(10) == 0xffff5bb1;
  }

  lemma CallMatches11()
    ensures CallMatches(11)
  {
    assert CallAt(11) == Call(FF, 11, 22, -1990404162);
    assert Rfc.WordIndex(11) == 11 && Rfc.Shift(11) == 22 && Rfc.T(11) == 0x895cd7be;
  }

  lemma CallMatches12()
    ensures CallMatches(12)
  {
    assert CallAt(12) == Call(FF, 12, 7, 1804603682);
    assert Rfc.WordIndex(12) == 12 && Rfc.Shift(12) == 7 && Rfc.T(12) == 0x6b901122;
  }

  lemma CallMatches13()
    ensures CallMatches(13)
  {
    assert CallAt(13) == Call(FF, 13, 12, -40341101);
    assert Rfc.WordIndex(13) == 13 && Rfc.Shift(13) == 12 && Rfc.T(13) == 0xfd987193;
  }

  lemma CallMatches14()
    ensures CallMatches(14)
  {
    assert CallAt(14) == Call(FF, 14, 17, -1502002290);
    assert Rfc.WordIndex(14) == 14 && Rfc.Shift(14) == 17 && Rfc.T(14) == 0xa679438e;
  }

  lemma CallMatches15()
    ensures CallMatches(15)
  {
    assert CallAt(15) == Call(FF, 15, 22, 1236535329);
    assert Rfc.WordIndex(15) == 15 && Rfc.Shift(15) == 22 && Rfc.T(15) == 0x49b40821;
  }

  lemma CallMatches16()
    ensures CallMatches(16)
  {
    assert CallAt(16) == Call(GG, 1, 5, -165796510);
    assert Rfc.WordIndex(16) == 1 && Rfc.Shift(16) == 5 && Rfc.T(16) == 0xf61e2562;
  }

  lemma CallMatches17()
    ensures CallMatches(17)
  {
    assert CallAt(17) == Call(GG, 6, 9, -1069501632);
    assert Rfc.WordIndex(17) == 6 && Rfc.Shift(17) == 9 && Rfc.T(17) == 0xc040b340;
  }

  lemma CallMatches18()
    ensures CallMatches(18)
  {
    assert CallAt(18) == Call(GG, 11, 14, 643717713);
    assert Rfc.WordIndex(18) == 11 && Rfc.Shift(18) == 14 && Rfc.T(18) == 0x265e5a51;
  }

  lemma CallMatches19()
    ensures CallMatches(19)
  {
    assert CallAt(19) == Call(GG, 0, 20, -373897302);
    assert Rfc.WordIndex(19) == 0 && Rfc.Shift(19) == 20 && Rfc.T(19) == 0xe9b6c7aa;
  }

  lemma CallMatches20()
    ensures CallMatches(20)
  {
    assert CallAt(20) == Call(GG, 5, 5, -701558691);
    assert Rfc.WordIndex(20) == 5 && Rfc.Shift(20) == 5 && Rfc.T(20) == 0xd62f105d;
  }

  lemma CallMatches21()
    ensures CallMatches(21)
  {
    assert CallAt(21) == Call(GG, 10, 9, 38016083);
    assert Rfc.WordIndex(21) == 10 && Rfc.Shift(21) == 9 && Rfc.T(21) == 0x02441453;
  }

  lemma CallMatches22()
    ensures CallMatches(22)
  {
    assert CallAt(22) == Call(GG, 15, 14, -660478335);
    assert Rfc.WordIndex(22) == 15 && Rfc.Shift(22) == 14 && Rfc.T(22) == 0xd8a1e681;
  }

  lemma CallMatches23()
    ensures CallMatches(23)
  {
    assert CallAt(23) == Call(GG, 4, 20, -405537848);
    assert Rfc.WordIndex(23) == 4 && Rfc.Shift(23) == 20 && Rfc.T(23) == 0xe7d3fbc8;
  }

  lemma CallMatches24()
    ensures CallMatches(24)
  {
    assert CallAt(24) == Call(GG, 9, 5, 568446438);
    assert Rfc.WordIndex(24) == 9 && Rfc.Shift(24) == 5 && Rfc.T(24) == 0x21e1cde6;
  }

  lemma CallMatches25()
    ensures CallMatches(25)
  {
    assert CallAt(25) == Call(GG, 14, 9, -1019803690);
    assert Rfc.WordIndex(25) == 14 && Rfc.Shift(25) == 9 && Rfc.T(25) == 0xc33707d6;
  }

  lemma CallMatches26()
    ensures CallMatches(26)
  {
    assert CallAt(26) == Call(GG, 3, 14, -187363961);
    assert Rfc.WordIndex(26) == 3 && Rfc.Shift(26) == 14 && Rfc.T(26) == 0xf4d50d87;
  }

  lemma CallMatches27()
    ensures CallMatches(27)
  {
    assert CallAt(27) == Call(GG, 8, 20, 1163531501);
    assert Rfc.WordIndex(27) == 8 && Rfc.Shift(27) == 20 && Rfc.T(27) == 0x455a14ed;
  }

  lemma CallMatches28()
    ensures CallMatches(28)
  {
    assert CallAt(28) == Call(GG, 13, 5, -1444681467);
    assert Rfc.WordIndex(28) == 13 && Rfc.Shift(28) == 5 && Rfc.T(28) == 0xa9e3e905;
  }

  lemma CallMatches29()
    ensures CallMatches(29)
  {
    assert CallAt(29) == Call(GG, 2, 9, -51403784);
    assert Rfc.WordIndex(29) == 2 && Rfc.Shift(29) == 9 && Rfc.T(29) == 0xfcefa3f8;
  }

  lemma CallMatches30()
    ensures CallMatches(30)
  {
    assert CallAt(30) == Call(GG, 7, 14, 1735328473);
    assert Rfc.WordIndex(30) == 7 && Rfc.Shift(30) == 14 && Rfc.T(30) == 0x676f02d9;
  }

  lemma CallMatches31()
    ensures CallMatches(31)
  {
    assert CallAt(31) == Call(GG, 12, 20, -1926607734);
    assert Rfc.WordIndex(31) == 12 && Rfc.Shift(31) == 20 && Rfc.T(31) == 0x8d2a4c8a;
  }

  lemma CallMatches32()
    ensures CallMatches(32)
  {
    assert CallAt(32) == Call(HH, 5, 4, -378558);
    assert Rfc.WordIndex(32) == 5 && Rfc.Shift(32) == 4 && Rfc.T(32) == 0xfffa3942;
  }

  lemma CallMatches33()
    ensures CallMatches(33)
  {
    assert CallAt(33) == Call(HH, 8, 11, -2022574463);
    assert Rfc.WordIndex(33) == 8 && Rfc.Shift(33) == 11 && Rfc.T(33) == 0x8771f681;
  }

  lemma CallMatches34()
    ensures CallMatches(34)
  {
    assert CallAt(34) == Call(HH, 11, 16, 1839030562);
    assert Rfc.WordIndex(34) == 11 && Rfc.Shift(34) == 16 && Rfc.T(34) == 0x6d9d6122;
  }

  lemma CallMatches35()
    ensures CallMatches(35)
  {
    assert CallAt(35) == Call(HH, 14, 23, -35309556);
    assert Rfc.WordIndex(35) == 14 && Rfc.Shift(35) == 23 && Rfc.T(35) == 0xfde5380c;
  }

  lemma CallMatches36()
    ensures CallMatches(36)
  {
    assert CallAt(36) == Call(HH, 1, 4, -1530992060);
    assert Rfc.WordIndex(36) == 1 && Rfc.Shift(36) == 4 && Rfc.T(36) == 0xa4beea44;
  }

  lemma CallMatches37()
    ensures CallMatches(37)
  {
    assert CallAt(37) == Call(HH, 4, 11, 1272893353);
    assert Rfc.WordIndex(37) == 4 && Rfc.Shift(37) == 11 && Rfc.T(37) == 0x4bdecfa9;
  }

  lemma CallMatches38()
    ensures CallMatches(38)
  {
    assert CallAt(38) == Call(HH, 7, 16, -155497632);
    assert Rfc.WordIndex(38) == 7 && Rfc.Shift(38) == 16 && Rfc.T(38) == 0xf6bb4b60;
  }

  lemma CallMatches39()
    ensures CallMatches(39)
  {
    assert CallAt(39) == Call(HH, 10, 23, -1094730640);
    assert Rfc.WordIndex(39) == 10 && Rfc.Shift(39) == 23 && Rfc.T(39) == 0xbebfbc70;
  }

  lemma CallMatches40()
    ensures CallMatches(40)
  {
    assert CallAt(40) == Call(HH, 13, 4, 681279174);
    assert Rfc.WordIndex(40) == 13 && Rfc.Shift(40) == 4 && Rfc.T(40) == 0x289b7ec6;
  }

  lemma CallMatches41()
    ensures CallMatches(41)
  {
    assert CallAt(41) == Call(HH, 0, 11, -358537222);
    assert Rfc.WordIndex(41) == 0 && Rfc.Shift(41) == 11 && Rfc.T(41) == 0xeaa127fa;
  }

  lemma CallMatches42()
    ensures CallMatches(42)
  {
    assert CallAt(42) == Call(HH, 3, 16, -722521979);
    assert Rfc.WordIndex(42) == 3 && Rfc.Shift(42) == 16 && Rfc.T(42) == 0xd4ef3085;
  }

  lemma CallMatches43()
    ensures CallMatches(43)
  {
    assert CallAt(43) == Call(HH, 6, 23, 76029189);
    assert Rfc.WordIndex(43) == 6 && Rfc.Shift(43) == 23 && Rfc.T(43) == 0x04881d05;
  }

  lemma CallMatches44()
    ensures CallMatches(44)
  {
    assert CallAt(44) == Call(HH, 9, 4, -640364487);
    assert Rfc.WordIndex(44) == 9 && Rfc.Shift(44) == 4 && Rfc.T(44) == 0xd9d4d039;
  }

  lemma CallMatches45()
    ensures CallMatches(45)
  {
    assert CallAt(45) == Call(HH, 12, 11, -421815835);
    assert Rfc.WordIndex(45) == 12 && Rfc.Shift(45) == 11 && Rfc.T(45) == 0xe6db99e5;
  }

  lemma CallMatches46()
    ensures CallMatches(46)
  {
    assert CallAt(46) == Call(HH, 15, 16, 530742520);
    assert Rfc.WordIndex(46) == 15 && Rfc.Shift(46) == 16 && Rfc.T(46) == 0x1fa27cf8;
  }

  lemma CallMatches47()
    ensures CallMatches(47)
  {
    assert CallAt(47) == Call(HH, 2, 23, -995338651);
    assert Rfc.WordIndex(47) == 2 && Rfc.Shift(47) == 23 && Rfc.T(47) == 0xc4ac5665;
  }

  lemma CallMatches48()
    ensures CallMatches(48)
  {
    assert CallAt(48) == Call(II, 0, 6, -198630844);
    assert Rfc.WordIndex(48) == 0 && Rfc.Shift(48) == 6 && Rfc.T(48) == 0xf4292244;
  }

  lemma CallMatches49()
    ensures CallMatches(49)
  {
    assert CallAt(49) == Call(II, 7, 10, 1126891415);
    assert Rfc.WordIndex(49) == 7 && Rfc.Shift(49) == 10 && Rfc.T(49) == 0x432aff97;
  }

  lemma CallMatches50()
    ensures CallMatches(50)
  {
    assert CallAt(50) == Call(II, 14, 15, -1416354905);
    assert Rfc.WordIndex(50) == 14 && Rfc.Shift(50) == 15 && Rfc.T(50) == 0xab9423a7;
  }

  lemma CallMatches51()
    ensures CallMatches(51)
  {
    assert CallAt(51) == Call(II, 5, 21, -57434055);
    assert Rfc.WordIndex(51) == 5 && Rfc.Shift(51) == 21 && Rfc.T(51) == 0xfc93a039;
  }

  lemma CallMatches52()
    ensures CallMatches(52)
  {
    assert CallAt(52) == Call(II, 12, 6, 1700485571);
    assert Rfc.WordIndex(52) == 12 && Rfc.Shift(52) == 6 && Rfc.T(52) == 0x655b59c3;
  }

  lemma CallMatches53()
    ensures CallMatches(53)
  {
    assert CallAt(53) == Call(II, 3, 10, -1894986606);
    assert Rfc.WordIndex(53) == 3 && Rfc.Shift(53) == 10 && Rfc.T(53) == 0x8f0ccc92;
  }

  lemma CallMatches54()
    ensures CallMatches(54)
  {
    assert CallAt(54) == Call(II, 10, 15, -1051523);
    assert Rfc.WordIndex(54) == 10 && Rfc.Shift(54) == 15 && Rfc.T(54) == 0xffeff47d;
  }

  lemma CallMatches55()
    ensures CallMatches(55)
  {
    assert CallAt(55) == Call(II, 1, 21, -2054922799);
    assert Rfc.WordIndex(55) == 1 && Rfc.Shift(55) == 21 && Rfc.T(55) == 0x85845dd1;
  }

  lemma CallMatches56()
    ensures CallMatches(56)
  {
    assert CallAt(56) == Call(II, 8, 6, 1873313359);
    assert Rfc.WordIndex(56) == 8 && Rfc.Shift(56) == 6 && Rfc.T(56) == 0x6fa87e4f;
  }

  lemma CallMatches57()
    ensures CallMatches(57)
  {
    assert CallAt(57) == Call(II, 15, 10, -30611744);
    assert Rfc.WordIndex(57) == 15 && Rfc.Shift(57) == 10 && Rfc.T(57) == 0xfe2ce6e0;
  }

  lemma CallMatches58()
    ensures CallMatches(58)
  {
    assert CallAt(58) == Call(II, 6, 15, -1560198380);
    assert Rfc.WordIndex(58) == 6 && Rfc.Shift(58) == 15 && Rfc.T(58) == 0xa3014314;
  }

  lemma CallMatches59()
    ensures CallMatches(59)
  {
    assert CallAt(59) == Call(II, 13, 21, 1309151649);
    assert Rfc.WordIndex(59) == 13 && Rfc.Shift(59) == 21 && Rfc.T(59) == 0x4e0811a1;
  }

  lemma CallMatches60()
    ensures CallMatches(60)
  {
    assert CallAt(60) == Call(II, 4, 6, -145523070);
    assert Rfc.WordIndex(60) == 4 && Rfc.Shift(60) == 6 && Rfc.T(60) == 0xf7537e82;
  }

  lemma CallMatches61()
    ensures CallMatches(61)
  {
    assert CallAt(61) == Call(II, 11, 10, -1120210379);
    assert Rfc.WordIndex(61) == 11 && Rfc.Shift(61) == 10 && Rfc.T(61) == 0xbd3af235;
  }

  lemma CallMatches62()
    ensures CallMatches(62)
  {
    assert CallAt(62) == Call(II, 2, 15, 718787259);
    assert Rfc.WordIndex(62) == 2 && Rfc.Shift(62) == 15 && Rfc.T(62) == 0x2ad7d2bb;
  }

  lemma CallMatches63()
    ensures CallMatches(63)
  {
    assert CallAt(63) == Call(II, 9, 21, -343485551);
    assert Rfc.WordIndex(63) == 9 && Rfc.Shift(63) == 21 && Rfc.T(63) == 0xeb86d391;
  }

  lemma Round1Matches(n: nat)
    requires 0 <= n < 16
    ensures CallMatches(n)
  {
    if n == 0 {
      CallMatches0();
    } else if n == 1 {
      CallMatches1();
    } else if n == 2 {
      CallMatches2();
    } else if n == 3 {
      CallMatches3();
    } else if n == 4 {
      CallMatches4();
    } else if n == 5 {
      CallMatches5();
    } else if n == 6 {
      CallMatches6();
    } else if n == 7 {
      CallMatches7();
    } else if n == 8 {
      CallMatches8();
    } else if n == 9 {
      CallMatches9();
    } else if n == 10 {
      CallMatches10();
    } else if n == 11 {
      CallMatches11();
    } else if n == 12 {
      CallMatches12();
    } else if n == 13 {
      CallMatches13();
    } else if n == 14 {
      CallMatches14();
    } else {
      CallMatches15();
    }
  }

  lemma Round2Matches(n: nat)
    requires 16 <= n < 32
    ensures CallMatches(n)
  {
    if n == 16 {
      CallMatches16();
    } else if n == 17 {
      CallMatches17();
    } else if n == 18 {
      CallMatches18();
    } else if n == 19 {
      CallMatches19();
    } else if n == 20 {
      CallMatches20();
    } else if n == 21 {
      CallMatches21();
    } else if n == 22 {
      CallMatches22();
    } else if n == 23 {
      CallMatches23();
    } else if n == 24 {
      CallMatches24();
    } else if n == 25 {
      CallMatches25();
    } else if n == 26 {
      CallMatches26();
    } else if n == 27 {
      CallMatches27();
    } else if n == 28 {
      CallMatches28();
    } else if n == 29 {
      CallMatches29();
    } else if n == 30 {
      CallMatches30();
    } else {
      CallMatches31();
    }
  }

  lemma Round3Matches(n: nat)
    requires 32 <= n < 48
    ensures CallMatches(n)
  {
    if n == 32 {
      CallMatches32();
    } else if n == 33 {
      CallMatches33();
    } else if n == 34 {
      CallMatches34();
    } else if n == 35 {
      CallMatches35();
    } else if n == 36 {
      CallMatches36();
    } else if n == 37 {
      CallMatches37();
    } else if n == 38 {
      CallMatches38();
    } else if n == 39 {
      CallMatches39();
    } else if n == 40 {
      CallMatches40();
    } else if n == 41 {
      CallMatches41();
    } else if n == 42 {
      CallMatches42();
    } else if n == 43 {
      CallMatches43();
    } else if n == 44 {
      CallMatches44();
    } else if n == 45 {
      CallMatches45();
    } else if n == 46 {
      CallMatches46();
    } else {
      CallMatches47();
    }
  }

  lemma Round4Matches(n: nat)
    requires 48 <= n < 64
    ensures CallMatches(n)
  {
    if n == 48 {
      CallMatches48();
    } else if n == 49 {
      CallMatches49();
    } else if n == 50 {
      CallMatches50();
    } else if n == 51 {
      CallMatches51();
    } else if n == 52 {
      CallMatches52();
    } else if n == 53 {
      CallMatches53();
    } else if n == 54 {
      CallMatches54();
    } else if n == 55 {
      CallMatches55();
    } else if n == 56 {
      CallMatches56();
    } else if n == 57 {
      CallMatches57();
    } else if n == 58 {
      CallMatches58();
    } else if n == 59 {
      CallMatches59();
    } else if n == 60 {
      CallMatches60();
    } else if n == 61 {
      CallMatches61();
    } else if n == 62 {
      CallMatches62();
    } else {
      CallMatches63();
    }
  }

  /** Every call of the source's block loop is the corresponding operation of the RFC. */
  lemma TableMatches(n: nat)
    requires n < 64
    ensures CallMatches(n)
  {
    if n < 16 {
      Round1Matches(n);
    } else if n < 32 {
      Round2Matches(n);
    } else if n < 48 {
      Round3Matches(n);
    } else {
      Round4Matches(n);
    }
  }
}
