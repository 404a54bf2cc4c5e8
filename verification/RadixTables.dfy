/** The tables of radix powers that fit into a digit (src/big_rtl.c). */
module RadixTables {
  import opened Exponentiation
  import opened Numerals
  import opened PowerBounds

  const POWER_OF_RADIX_IN_BIGDIGIT: seq<int> := [
    2147483648, 3486784401, 1073741824, 1220703125, 2176782336,
    1977326743, 1073741824, 3486784401, 1000000000, 2357947691,
    429981696, 815730721, 1475789056, 2562890625, 268435456,
    410338673, 612220032, 893871739, 1280000000, 1801088541,
    2494357888, 3404825447, 191102976, 244140625, 308915776,
    387420489, 481890304, 594823321, 729000000, 887503681,
    1073741824, 1291467969, 1544804416, 1838265625, 2176782336
  ]

  const RADIX_DIGITS_IN_BIGDIGIT: seq<int> := [
    31, 20, 15, 13, 12, 11, 10, 10, 9, 9, 8, 8,
    8, 8, 7, 7, 7, 7, 7, 7, 7, 7, 6, 6,
    6, 6, 6, 6, 6, 6, 6, 6, 6, 6, 6
  ]

  /** powerOfRadixInBigdigit[base - 2] */
  function PowerOfRadix(base: int): int
    requires Base(base)
  {
    POWER_OF_RADIX_IN_BIGDIGIT[base - 2]
  }

  /** radixDigitsInBigdigit[base - 2] */
  function RadixDigits(base: int): int
    requires Base(base)
  {
    RADIX_DIGITS_IN_BIGDIGIT[base - 2]
  }

  lemma RadixPower2(base: int)
    requires base == 2
    ensures Pow(base, 31) == 2147483648
  {
    assert Pow(base, 7) == 128;
    Doubled(base, 7, 128);
    Doubled(base, 15, 32768);
  }

  lemma RadixPower3(base: int)
    requires base == 3
    ensures Pow(base, 20) == 3486784401
  {
    assert Pow(base, 5) == 243;
    Doubled(base, 5, 243);
    Doubled(base, 10, 59049);
  }

  lemma RadixPower4(base: int)
    requires base == 4
    ensures Pow(base, 15) == 1073741824
  {
    assert Pow(base, 7) == 16384;
    Doubled(base, 7, 16384);
  }

  lemma RadixPowers5And6(base: int)
    requires 5 <= base <= 6
    ensures Pow(base, RadixDigits(base)) == PowerOfRadix(base)
  {
    if base == 5 {
      assert Pow(base, 6) == 15625;
      Doubled(base, 6, 15625);
    } else {
      assert Pow(base, 6) == 46656;
      Doubled(base, 6, 46656);
    }
  }

  lemma RadixPowers7To9(base: int)
    requires 7 <= base <= 9
    ensures Pow(base, RadixDigits(base)) == PowerOfRadix(base)
  {
    assert Pow(7, 11) == 1977326743;
    assert Pow(8, 10) == 1073741824;
    assert Pow(9, 10) == 3486784401;
  }

  lemma RadixPowers10To13(base: int)
    requires 10 <= base <= 13
    ensures Pow(base, RadixDigits(base)) == PowerOfRadix(base)
  {
    assert Pow(10, 9) == 1000000000;
    assert Pow(11, 9) == 2357947691;
    assert Pow(12, 8) == 429981696;
    assert Pow(13, 8) == 815730721;
  }

  lemma RadixPowers14To17(base: int)
    requires 14 <= base <= 17
    ensures Pow(base, RadixDigits(base)) == PowerOfRadix(base)
  {
    assert Pow(14, 8) == 1475789056;
    assert Pow(15, 8) == 2562890625;
    assert Pow(16, 7) == 268435456;
    assert Pow(17, 7) == 410338673;
  }

  lemma RadixPowers18To23(base: int)
    requires 18 <= base <= 23
    ensures Pow(base, RadixDigits(base)) == PowerOfRadix(base)
  {
    assert Pow(18, 7) == 612220032;
    assert Pow(19, 7) == 893871739;
    assert Pow(20, 7) == 1280000000;
    assert Pow(21, 7) == 1801088541;
    assert Pow(22, 7) == 2494357888;
    assert Pow(23, 7) == 3404825447;
  }

  lemma RadixPowers24To30(base: int)
    requires 24 <= base <= 30
    ensures Pow(base, RadixDigits(base)) == PowerOfRadix(base)
  {
    assert Pow(24, 6) == 191102976;
    assert Pow(25, 6) == 244140625;
    assert Pow(26, 6) == 308915776;
    assert Pow(27, 6) == 387420489;
    assert Pow(28, 6) == 481890304;
    assert Pow(29, 6) == 594823321;
    assert Pow(30, 6) == 729000000;
  }

  lemma RadixPowers31To36(base: int)
    requires 31 <= base <= 36
    ensures Pow(base, RadixDigits(base)) == PowerOfRadix(base)
  {
    assert Pow(31, 6) == 887503681;
    assert Pow(32, 6) == 1073741824;
    assert Pow(33, 6) == 1291467969;
    assert Pow(34, 6) == 1544804416;
    assert Pow(35, 6) == 1838265625;
    assert Pow(36, 6) == 2176782336;
  }

  lemma TableStart()
    ensures RadixDigits(2) == 31 && RadixDigits(3) == 20 && RadixDigits(4) == 15
    ensures PowerOfRadix(2) == 2147483648 && PowerOfRadix(3) == 3486784401 && PowerOfRadix(4) == 1073741824
  {
  }

  lemma TableRange(base: int)
    requires Base(base)
    ensures RadixDigits(base) >= 1 && 0 < PowerOfRadix(base) <= 0xFFFF_FFFF < base * PowerOfRadix(base)
  {
  }

  /** The tables agree: each power fits into a digit, and the next one does not. */
  lemma RadixPower(base: int)
    requires Base(base)
    ensures RadixDigits(base) >= 1 && 0 < PowerOfRadix(base) <= 0xFFFF_FFFF < base * PowerOfRadix(base)
    ensures Pow(base, RadixDigits(base)) == PowerOfRadix(base)
  {
    TableRange(base);
    TableStart();
    if base == 2 {
      RadixPower2(base);
    } else if base == 3 {
      RadixPower3(base);
    } else if base == 4 {
      RadixPower4(base);
    } else if base <= 6 {
      RadixPowers5And6(base);
    } else if base <= 9 {
      RadixPowers7To9(base);
    } else if base <= 13 {
      RadixPowers10To13(base);
    } else if base <= 17 {
      RadixPowers14To17(base);
    } else if base <= 23 {
      RadixPowers18To23(base);
    } else if base <= 30 {
      RadixPowers24To30(base);
    } else {
      RadixPowers31To36(base);
    }
  }
}
