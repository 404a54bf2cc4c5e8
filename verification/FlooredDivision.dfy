/** Integer division truncated towards negative infinity, and its modulo
    (bigMDiv and bigMod of src/big_rtl.c). */
module FlooredDivision {
  import opened Digits
  import opened BigRecord
  import opened Bits
  import opened AddSubtract
  import opened SignedDivision
  import opened DivisionLaws

  /** Gives a floored quotient its sign: a remainder moves it away from zero. */
  method FinishFloored(quotient: Big, negative: bool, isNot0: bool, ghost x: int, ghost y: int)
    requires y != 0 && quotient.Valid() && !quotient.Negative()
    requires quotient.Unsigned() == Abs(x) / Abs(y)
    requires negative <==> (x < 0) != (y < 0)
    requires isNot0 <==> Abs(x) % Abs(y) != 0
    modifies quotient, quotient.bigdigits
    ensures quotient.bigdigits == old(quotient.bigdigits) && quotient.Canonical()
    ensures quotient.Value() == FloorDiv(x, y)
  {
    SValRange(quotient.Digits());
    if negative && isNot0 {
      UBigIncr(quotient);
    }
    SignAndNormalize(quotient, negative);
  }

  method BigMDiv1(dividend: Big, divisor_digit: Digit) returns (result: Result<Big>)
    requires dividend.Valid()
    ensures result.NumericError? <==> divisor_digit == 0
    ensures result.Ok? ==> fresh(result.value) && fresh(result.value.bigdigits) && result.value.Canonical()
    ensures result.Ok? ==> result.value.Value() == FloorDiv(dividend.Value(), Signed(divisor_digit))
  {
    if divisor_digit == 0 {
      return NumericError;
    }
    var quotient, rem, negative := DivideByDigit(dividend, divisor_digit);
    ghost var x, y := dividend.Value(), Signed(divisor_digit);
    DivisionUnique(Abs(x), Abs(y), quotient.Unsigned(), rem);
    FinishFloored(quotient, negative, rem != 0, x, y);
    return Ok(quotient);
  }

  lemma FlooredSmall(x: int, y: int)
    requires Abs(x) <= Abs(y) && y != 0
    requires Abs(x) == Abs(y) ==> x == -y
    ensures x == 0 || (x < 0) == (y < 0) ==> FloorDiv(x, y) == 0 && FloorMod(x, y) == x
    ensures x != 0 && (x < 0) != (y < 0) ==> FloorDiv(x, y) == -1 && FloorMod(x, y) == x + y
  {
    if x == 0 || (x < 0) == (y < 0) {
      FlooredUnique(x, y, 0, x);
    } else {
      FlooredUnique(x, y, -1, x + y);
    }
  }

  /** The test of bigMDivSizeLess and bigModSizeLess: is the quotient zero? */
  method FloorsToZero(dividend: Big, divisor: Big) returns (zero: bool)
    requires dividend.Canonical() && divisor.Canonical() && dividend.size < divisor.size
    ensures divisor.Value() != 0
    ensures zero ==> FloorDiv(dividend.Value(), divisor.Value()) == 0
    ensures zero ==> FloorMod(dividend.Value(), divisor.Value()) == dividend.Value()
    ensures !zero ==> FloorDiv(dividend.Value(), divisor.Value()) == -1
    ensures !zero ==> FloorMod(dividend.Value(), divisor.Value()) == dividend.Value() + divisor.Value()
    ensures !zero ==> (dividend.Value() < 0) != (divisor.Value() < 0)
  {
    FewerDigits(dividend.Digits(), divisor.Digits());
    NormalRange(divisor.Digits());
    SValRange(dividend.Digits());
    SValRange(divisor.Digits());
    ZeroIsOneDigit(dividend);
    FlooredSmall(dividend.Value(), divisor.Value());
    zero := dividend.IsZero() || dividend.Negative() == divisor.Negative();
  }

  lemma ZeroIsOneDigit(big1: Big)
    requires big1.Canonical()
    ensures big1.IsZero() <==> big1.Value() == 0
  {
    if big1.size == 1 {
      SingleDigit(big1.Digits());
    } else {
      NormalRange(big1.Digits());
    }
  }

  method BigMDivSizeLess(dividend: Big, divisor: Big) returns (quotient: Big)
    requires dividend.Canonical() && divisor.Canonical() && dividend.size < divisor.size
    ensures fresh(quotient) && fresh(quotient.bigdigits) && quotient.Canonical() && divisor.Value() != 0
    ensures quotient.Value() == FloorDiv(dividend.Value(), divisor.Value())
  {
    var zero := FloorsToZero(dividend, divisor);
    quotient := OneDigit(if zero then 0 else 0xFFFF_FFFF);
  }

  method RemainderIsNot0(dividend: Big, single: bool, lshift: nat, rem: Digit, ghost r: int) returns (isNot0: bool)
    requires dividend.Valid() && r >= 0
    requires single ==> rem == r
    requires !single ==> dividend.Unsigned() == r * Pow2(lshift)
    ensures isNot0 <==> r != 0
  {
    if single {
      isNot0 := rem != 0;
    } else {
      isNot0 := UBigIsNot0(dividend);
    }
  }

  /** The quotient of the magnitudes, and whether there is a remainder. */
  method DivideAndTest(dividend: Big, divisor: Big, quotient: Big) returns (isNot0: bool)
    requires Prepared(dividend, divisor) && QuotientBuffer(quotient, dividend, divisor)
    modifies dividend, dividend.bigdigits, divisor, divisor.bigdigits, quotient.bigdigits
    ensures quotient.Valid() && !quotient.Negative() && divisor.bigdigits == old(divisor.bigdigits)
    ensures old(divisor.Unsigned()) > 0
    ensures quotient.Unsigned() == old(dividend.Unsigned()) / old(divisor.Unsigned())
    ensures isNot0 <==> old(dividend.Unsigned()) % old(divisor.Unsigned()) != 0
  {
    ghost var x, y := dividend.Unsigned(), divisor.Unsigned();
    var lshift, mdiv1_remainder;
    ghost var r;
    lshift, mdiv1_remainder, r := DivideMagnitudes(dividend, divisor, quotient);
    DivisionUnique(x, y, quotient.Unsigned(), r);
    isNot0 := RemainderIsNot0(dividend, divisor.size == 1, lshift, mdiv1_remainder, r);
  }

  method BigMDivLong(dividend: Big, divisor: Big) returns (quotient: Big)
    requires dividend.Canonical() && divisor.Canonical() && 2 <= divisor.size <= dividend.size
    ensures fresh(quotient) && fresh(quotient.bigdigits) && quotient.Canonical() && divisor.Value() != 0
    ensures quotient.Value() == FloorDiv(dividend.Value(), divisor.Value())
  {
    ghost var x, y := dividend.Value(), divisor.Value();
    var dividend_help, negative1 := PrepareDividend(dividend);
    var divisor_help, negative2 := PrepareDivisor(divisor);
    quotient := new Big.Alloc(dividend_help.size - divisor_help.size + 1);
    quotient.bigdigits[quotient.size - 1] := 0;
    var isNot0 := DivideAndTest(dividend_help, divisor_help, quotient);
    FinishFloored(quotient, negative1 != negative2, isNot0, x, y);
  }

  /** Integer division truncated towards negative infinity. */
  method BigMDiv(dividend: Big, divisor: Big) returns (result: Result<Big>)
    requires dividend.Canonical() && divisor.Canonical()
    ensures result.NumericError? <==> divisor.Value() == 0
    ensures result.Ok? ==> fresh(result.value) && fresh(result.value.bigdigits) && result.value.Canonical()
    ensures result.Ok? ==> result.value.Value() == FloorDiv(dividend.Value(), divisor.Value())
  {
    var quotient;
    if divisor.size == 1 {
      SingleDigit(divisor.Digits());
      result := BigMDiv1(dividend, divisor.bigdigits[0]);
    } else if dividend.size < divisor.size {
      quotient := BigMDivSizeLess(dividend, divisor);
      result := Ok(quotient);
    } else {
      quotient := BigMDivLong(dividend, divisor);
      result := Ok(quotient);
    }
  }

  // ---------------------------------------------------------------- modulo

  /** The remainder of one digit, or its sum with the divisor. */
  lemma ModuloDigit(x: int, d: Digit, m: Digit)
    requires Signed(d) != 0 && Signed(m) == TruncRem(x, Signed(d))
    ensures FloorMod(x, Signed(d))
         == if (x < 0) != IsNegative(d) && m != 0 then Signed((m + d) % 0x1_0000_0000) else Signed(m)
  {
    TruncatedLaw(x, Signed(d));
  }

  method BigMod1(dividend: Big, divisor_digit: Digit) returns (result: Result<Big>)
    requires dividend.Valid()
    ensures result.NumericError? <==> divisor_digit == 0
    ensures result.Ok? ==> fresh(result.value) && fresh(result.value.bigdigits) && result.value.Canonical()
    ensures result.Ok? ==> result.value.Value() == FloorMod(dividend.Value(), Signed(divisor_digit))
  {
    result := BigRem1(dividend, divisor_digit);
    if divisor_digit != 0 {
      SValRange(dividend.Digits());
      var modulo := result.value;
      SingleDigit(modulo.Digits());
      ModuloDigit(dividend.Value(), divisor_digit, modulo.bigdigits[0]);
      if dividend.Negative() != IsNegative(divisor_digit) && modulo.bigdigits[0] != 0 {
        modulo.bigdigits[0] := (modulo.bigdigits[0] + divisor_digit) % 0x1_0000_0000;
      }
      SingleDigit(modulo.Digits());
    }
  }

  method BigModSizeLess(dividend: Big, divisor: Big) returns (modulo: Big)
    requires dividend.Canonical() && divisor.Canonical() && dividend.size < divisor.size
    ensures fresh(modulo) && fresh(modulo.bigdigits) && modulo.Canonical() && divisor.Value() != 0
    ensures modulo.Value() == FloorMod(dividend.Value(), divisor.Value())
  {
    var zero := FloorsToZero(dividend, divisor);
    if zero {
      modulo := CopyOf(dividend);
    } else {
      modulo := CopyOf(divisor);
      OppositeSigns(dividend.Digits(), divisor.Digits());
      BigAddTo(modulo, dividend);
      Normalize(modulo);
    }
  }

  lemma OppositeSigns(x: seq<Digit>, y: seq<Digit>)
    requires 0 < |x| <= |y| && (SVal(x) < 0) != (SVal(y) < 0)
    ensures -SignWeight(|y|) <= SVal(x) + SVal(y) < SignWeight(|y|)
  {
    SValRange(x);
    SValRange(y);
    RadixMono(|x| - 1, |y| - 1);
  }

  /** Turns the remainder of the magnitudes into the modulo. */
  method FinishModulo(modulo: Big, divisor: Big, negative1: bool, negative2: bool, ghost x: int)
    requires modulo.Valid() && divisor.Valid() && modulo != divisor && modulo.bigdigits != divisor.bigdigits
    requires modulo.size > divisor.size && modulo.Unsigned() == modulo.Value()
    requires divisor.Value() != 0 && modulo.Value() == Abs(x) % Abs(divisor.Value())
    requires negative1 <==> x < 0
    requires negative2 <==> divisor.Value() < 0
    modifies modulo, modulo.bigdigits
    ensures modulo.bigdigits == old(modulo.bigdigits) && modulo.Canonical()
    ensures modulo.Value() == FloorMod(x, divisor.Value())
  {
    ghost var s, y, r := modulo.Digits(), divisor.Value(), modulo.Value();
    SValRange(s);
    SValRange(divisor.Digits());
    RadixMono(divisor.size - 1, modulo.size - 1);
    DivMod(Abs(x), Abs(y));
    if negative1 {
      if negative2 {
        NegatePositiveBig(modulo);
        NegatedValue(s, modulo.Digits());
      } else {
        var isNot0 := UBigIsNot0(modulo);
        if isNot0 {
          NegatePositiveBig(modulo);
          NegatedValue(s, modulo.Digits());
          BigAddTo(modulo, divisor);
        }
      }
    } else {
      if negative2 {
        var isNot0 := UBigIsNot0(modulo);
        if isNot0 {
          BigAddTo(modulo, divisor);
        }
      }
    }
    assert modulo.Value() == FloorMod(x, y);
    Normalize(modulo);
  }

  /** The remainder of BigMDiv, with the sign of the divisor. */
  method BigMod(dividend: Big, divisor: Big) returns (result: Result<Big>)
    requires dividend.Canonical() && divisor.Canonical()
    ensures result.NumericError? <==> divisor.Value() == 0
    ensures result.Ok? ==> fresh(result.value) && fresh(result.value.bigdigits) && result.value.Canonical()
    ensures result.Ok? ==> result.value.Value() == FloorMod(dividend.Value(), divisor.Value())
  {
    var modulo;
    if divisor.size == 1 {
      SingleDigit(divisor.Digits());
      result := BigMod1(dividend, divisor.bigdigits[0]);
    } else if dividend.size < divisor.size {
      modulo := BigModSizeLess(dividend, divisor);
      result := Ok(modulo);
    } else {
      var negative1, negative2;
      modulo, negative1, negative2 := LongRemainder(dividend, divisor);
      FinishModulo(modulo, divisor, negative1, negative2, dividend.Value());
      result := Ok(modulo);
    }
  }
}
