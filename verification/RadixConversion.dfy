/** Big integers as strings (src/big_rtl.c): what bigStr and bigRadix print, and
    what bigParse and bigParseBased make of it. */
module RadixConversion {
  import opened Digits
  import opened Bits
  import opened DivisionLaws
  import opened BigRecord
  import opened Exponentiation
  import opened Numerals
  import opened PrintLimit
  import opened PowerBounds
  import opened PrintedText
  import opened RadixText
  import opened RadixRoom
  import opened BigPrint
  import opened BigParse
  import opened PowerOfTwoRadix
  import opened PowerOfTwoPrint

  // ---------------------------------------------------------------- printing

  /** The recursion starts with a power of the base that is above the magnitude. */
  lemma AboveMagnitude(m: nat, base: int, w: nat, result_size: nat)
    requires Base(base) && m < Pow(base, w) && 1 <= w <= result_size
    ensures m < Pow(base, Pow2(HighestBit(result_size) + 1))
  {
    HighestBitRange(result_size);
    PowGrows(base, w, Pow2(HighestBit(result_size) + 1));
  }

  /** What the printers write for x: always a literal, and that of x exactly if x is
      printable. Otherwise it is the literal of a number below x. */
  ghost predicate PrintedAs(stri: string, x: int, size: nat, base: int, upperCase: bool)
    requires size > 0 && Base(base)
  {
    && (stri == Literal(x, base, upperCase) <==> Printable(x, size, base))
    && IsLiteral(stri, base) && InCase(stri, upperCase)
    && (if Printable(x, size, base) then LiteralValue(stri, base) == x else LiteralValue(stri, base) < x)
  }

  /** A minus sign before a text of digits. */
  lemma NegativeLiteral(t: string, base: int)
    requires IsDigits(t, base) && DigitsValue(t, base) > 0
    ensures IsLiteral("-" + t, base) && LiteralValue("-" + t, base) == -DigitsValue(t, base)
  {
    assert ("-" + t)[1..] == t;
  }

  lemma SignAndText(x: int, size: nat, base: int, upperCase: bool, result_size: nat)
    requires Base(base) && size > 0
    ensures InCase(SignOf(x) + MagnitudeText(x, size, base, upperCase, result_size), upperCase)
  {
    WrittenInCase(MagnitudeValue(x, size), base, HighestBit(result_size) + 1, false, upperCase);
    JoinedInCase(SignOf(x), MagnitudeText(x, size, base, upperCase, result_size), upperCase);
  }

  lemma PrintedIffPrintable(x: int, size: nat, base: int, shift: nat, upperCase: bool, result_size: nat)
    requires Base(base) && !PowerOfTwoBase(base) && shift > 0 && Pow2(shift) <= base
    requires 0 < size <= MAX_MEMSIZETYPE && -SignWeight(size) <= x < SignWeight(size)
    requires RadixDigitsEstimate(size, shift) + |SignOf(x)| <= result_size
    ensures Abs(x) < Pow(base, Pow2(HighestBit(result_size) + 1))
    ensures PrintedAs(SignOf(x) + MagnitudeText(x, size, base, upperCase, result_size), x, size, base, upperCase)
    ensures Printable(x, size, base)
        ==> |MagnitudeText(x, size, base, upperCase, result_size)| + |SignOf(x)| <= result_size
  {
    var w := RadixDigitsEstimate(size, shift);
    MagnitudeBound(Abs(x), size, base, shift);
    AboveMagnitude(Abs(x), base, w, result_size);
    WrittenIffPrintable(x, size, base, HighestBit(result_size) + 1, upperCase);
    PaddedNumeral(Abs(x), base, w, upperCase);
    PrintThenParse(x, base, upperCase);
    SignAndText(x, size, base, upperCase, result_size);
    var text, numeral := MagnitudeText(x, size, base, upperCase, result_size), Numeral(Abs(x), base, upperCase);
    assert (SignOf(x) + text)[|SignOf(x)|..] == text && (SignOf(x) + numeral)[|SignOf(x)|..] == numeral;
    if !Printable(x, size, base) {
      NegativeLiteral(text, base);
    }
  }

  /** bigStrDecimal has room for what it writes, whether it is right or not. */
  lemma {:induction false} DecimalFits(x: int, size: nat, base: int, result_size: nat)
    requires base == 10 && 0 < size && x == -SignWeight(size) && Pow(base, 256) <= SignWeight(size)
    requires result_size == (size * 32 - 1) / 3 + 2
    requires SignWeight(size) < Pow(base, Pow2(HighestBit(result_size) + 1))
    ensures |MagnitudeText(x, size, base, false, result_size)| + 1 <= result_size
  {
    var exponent := HighestBit(result_size) + 1;
    LargeExponent(SignWeight(size), base, exponent);
    assert Pow2(3) == 8 && Pow2(4) == 16;
    RoomInBase(size, base, exponent, 3, false);
    LengthFits(|WrittenText(x, base, exponent, false, false)|, size * 32 - 1, 3);
  }

  lemma {:induction false} DecimalCharacters(x: int, size: nat, result_size: nat)
    requires size > 0
    ensures var stri := SignOf(x) + MagnitudeText(x, size, 10, false, result_size);
      forall i :: 0 <= i < |stri| ==> '0' <= stri[i] <= '9' || (i == 0 && stri[i] == '-')
  {
    WrittenDigits(MagnitudeValue(x, size), 10, HighestBit(result_size) + 1, false, false);
    var text := MagnitudeText(x, size, 10, false, result_size);
    forall i | 0 <= i < |text| ensures '0' <= text[i] <= '9' {
      assert CharValue(text[i]) < 10;
    }
  }

  method BigStrDecimal(cache: DivisorCache, big1: Big) returns (stri: string)
    requires big1.Canonical() && big1.size <= MAX_MEMSIZETYPE && cache.Valid() && cache.base == 10
    modifies cache`divisors
    ensures cache.Valid()
    ensures PrintedAs(stri, old(big1.Value()), big1.size, 10, false)
    ensures forall i :: 0 <= i < |stri| ==> '0' <= stri[i] <= '9' || (i == 0 && stri[i] == '-')
  {
    ghost var x := big1.Value();
    var result_size := (big1.size * 32 - 1) / 3 + 2;
    SValRange(big1.Digits());
    assert Pow2(3) == 8;
    PrintedIffPrintable(x, big1.size, 10, 3, false, result_size);
    if !Printable(x, big1.size, 10) {
      DecimalFits(x, big1.size, 10, result_size);
    }
    stri := RadixString(cache, big1, false, result_size);
    DecimalCharacters(x, big1.size, result_size);
  }

  /** What is written for x stays in the buffer: always if x is printable, otherwise depending on its size. */
  ghost predicate InBuffer(x: int, size: nat, base: int, upperCase: bool)
    requires size > 0 && Base(base)
  {
    Printable(x, size, base) || LowestInBuffer(size, base, upperCase)
  }

  lemma {:induction false} FitsExactly(x: int, size: nat, base: int, upperCase: bool)
    requires Base(base) && !PowerOfTwoBase(base) && 0 < size <= MAX_MEMSIZETYPE
    requires -SignWeight(size) <= x < SignWeight(size)
    ensures RadixFits(x, size, base, upperCase) <==> InBuffer(x, size, base, upperCase)
  {
    BitBelowBase(base);
    PrintedIffPrintable(x, size, base, HighestBit(base), upperCase, RadixSize(size, base, x < 0));
    if !Printable(x, size, base) {
      LargeExponent(SignWeight(size), base, FirstExponent(size, base));
      LowestFitsExactly(size, base, upperCase);
    }
  }

  /** bigRadix does not call it for powers of two. */
  method BigRadix2To36(cache: DivisorCache, big1: Big, upperCase: bool) returns (stri: string)
    requires big1.Canonical() && big1.size <= MAX_MEMSIZETYPE && cache.Valid() && !PowerOfTwoBase(cache.base)
    requires InBuffer(big1.Value(), big1.size, cache.base, upperCase)
    modifies cache`divisors
    ensures cache.Valid()
    ensures PrintedAs(stri, old(big1.Value()), big1.size, cache.base, upperCase)
    ensures if upperCase then forall c :: c in stri ==> !('a' <= c <= 'z')
            else forall c :: c in stri ==> !('A' <= c <= 'Z')
  {
    ghost var x := big1.Value();
    SValRange(big1.Digits());
    BitBelowBase(cache.base);
    var result_size := RadixSize(big1.size, cache.base, big1.Negative());
    PrintedIffPrintable(x, big1.size, cache.base, HighestBit(cache.base), upperCase, result_size);
    FitsExactly(x, big1.size, cache.base, upperCase);
    stri := RadixString(cache, big1, upperCase, result_size);
  }

  /** The first decimal number that is not printed has 27 digits: -2 ^ 863. */
  lemma {:induction false} FirstNotPrinted(x: int, size: nat)
    requires size > 0
    ensures !Printable(x, size, 10) <==> x == -SignWeight(size) && size >= 27
  {
    DecimalLimit(size, 10, 256, 832, 860);
  }

  lemma {:induction false} DecimalLimit(size: nat, base: int, w: nat, low: nat, high: nat)
    requires size > 0 && base == 10 && w == 256 && low == 832 && high == 860
    ensures SignWeight(size) < Pow(base, w) <==> size < 27
  {
    SignWeightIsPower(size);
    TenTo256(base, w, low, high);
    if size < 27 {
      Pow2Less(32 * size - 1, low);
    } else {
      Pow2Mono(high, 32 * size - 1);
    }
  }

  /** 2 ^ 832 <= 10 ^ 256 <= 2 ^ 860 */
  lemma {:induction false} TenTo256(base: int, w: nat, low: nat, high: nat)
    requires base == 10 && w == 256 && low == 832 && high == 860
    ensures Pow2(low) <= Pow(base, w) <= Pow2(high)
  {
    assert Pow2(8) == 256;
    assert Pow2(10) == 1024 && Pow(10, 3) == 1000 && Pow2(13) == 8192 && Pow(10, 4) == 10000;
    AtLeast256(base, 4, 13, 64, low);
    PowerAtMost(base, 3, 10, 86);
    PowGrows(base, w, 258);
  }

  // ---------------------------------------------------------------- dispatch

  /** The exception RANGE_ERROR is a result here. */
  datatype RadixResult = Printed(stri: string) | BadBase

  /** log2 of the base for the bases that bigRadix and bigParseBased treat apart. */
  function LogOfBase(base: int): (shift: nat)
    requires PowerOfTwoBase(base)
    ensures RadixShift(base, shift)
  {
    assert Pow2(1) == 2 && Pow2(2) == 4 && Pow2(3) == 8 && Pow2(4) == 16 && Pow2(5) == 32;
    if base == 2 then 1 else if base == 4 then 2 else if base == 8 then 3 else if base == 16 then 4 else 5
  }

  lemma {:induction false} DecimalCase(m: nat, upperCase: bool)
    ensures Numeral(m, 10, upperCase) == Numeral(m, 10, false)
  {
    if m >= 10 {
      DecimalCase(m / 10, upperCase);
    }
  }

  /** The numbers that bigRadix prints: all of them if the base is a power of two. */
  ghost predicate Prints(x: int, size: nat, base: int)
    requires size > 0
  {
    PowerOfTwoBase(base) || Printable(x, size, base)
  }

  /** The text is that of x exactly if x is printed, and it stands for x only then. */
  method BigRadix(cache: DivisorCache, big1: Big, base: IntType, upperCase: bool) returns (result: RadixResult)
    requires big1.Canonical() && big1.size <= MAX_MEMSIZETYPE
    requires Base(base) && !PowerOfTwoBase(base) ==> cache.Valid() && cache.base == base
    requires Base(base) && !PowerOfTwoBase(base) ==> InBuffer(big1.Value(), big1.size, base, upperCase)
    modifies cache`divisors
    ensures result.Printed? <==> 2 <= base <= 36
    ensures result.Printed? ==>
      (result.stri == Literal(old(big1.Value()), base, upperCase) <==> Prints(old(big1.Value()), big1.size, base))
    ensures result.Printed? ==> IsLiteral(result.stri, base)
    ensures result.Printed? ==>
      (LiteralValue(result.stri, base) == old(big1.Value()) <==> Prints(old(big1.Value()), big1.size, base))
    ensures result.Printed? && upperCase ==> forall c :: c in result.stri ==> !('a' <= c <= 'z')
    ensures result.Printed? && !upperCase ==> forall c :: c in result.stri ==> !('A' <= c <= 'Z')
    ensures Base(base) && !PowerOfTwoBase(base) ==> cache.Valid() && cache.base == base
  {
    ghost var x := big1.Value();
    var stri;
    if base == 16 || base == 8 || base == 2 || base == 4 || base == 32 {
      stri := BigRadixPow2(big1, LogOfBase(base), base - 1, upperCase, base);
      PrintThenParse(x, base, upperCase);
      LiteralInCase(x, base, upperCase);
      result := Printed(stri);
    } else if base == 10 {
      stri := BigStrDecimal(cache, big1);
      DecimalCase(Abs(x), upperCase);
      assert forall c :: c in stri ==> '0' <= c <= '9' || c == '-';
      result := Printed(stri);
    } else if base < 2 || base > 36 {
      result := BadBase;
    } else {
      stri := BigRadix2To36(cache, big1, upperCase);
      result := Printed(stri);
    }
  }

  method BigParseBased(stri: string, base: IntType) returns (result: ParseResult)
    ensures result.Parsed? <==> 2 <= base <= 36 && IsLiteral(stri, base)
    ensures result.Parsed? ==> fresh(result.value) && fresh(result.value.bigdigits) && result.value.Canonical()
    ensures result.Parsed? ==> result.value.Value() == LiteralValue(stri, base)
  {
    if base == 16 || base == 8 || base == 2 || base == 4 || base == 32 {
      result := BigParseBasedPow2(stri, base, LogOfBase(base));
    } else if base == 10 {
      result := BigParse.BigParse(stri);
    } else if base < 2 || base > 36 {
      result := RangeError;
    } else {
      result := BigParseBased2To36(stri, base);
    }
  }

  // -------------------------------------------------------------- round trip

  /** Parsing what has been printed gives the number back, digit by digit, exactly if it is printed. */
  method PrintAndParse(cache: DivisorCache, big1: Big, base: IntType, upperCase: bool) returns (result: ParseResult)
    requires big1.Canonical() && big1.size <= MAX_MEMSIZETYPE && Base(base)
    requires !PowerOfTwoBase(base) ==> cache.Valid() && cache.base == base
    requires !PowerOfTwoBase(base) ==> InBuffer(big1.Value(), big1.size, base, upperCase)
    modifies cache`divisors
    ensures result.Parsed? && result.value.Canonical()
    ensures result.value.Digits() == old(big1.Digits()) <==> Prints(old(big1.Value()), big1.size, base)
  {
    ghost var s := big1.Digits();
    var printed := BigRadix(cache, big1, base, upperCase);
    result := BigParseBased(printed.stri, base);
    if result.value.Value() == SVal(s) {
      NormalUnique(result.value.Digits(), s);
    }
  }
}
