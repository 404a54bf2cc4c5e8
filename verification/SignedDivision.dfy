/** The division operations on signed big integers of src/big_rtl.c. */
module SignedDivision {
  import opened Digits
  import opened Carries
  import opened Bits
  import opened BigRecord
  import opened ShortDivision
  import opened LongDivision
  import opened DivisionLaws

  datatype Result<T> = Ok(value: T) | NumericError

  // -------------------------------------------------------- preparations

  /** help := abs(big1), in a buffer that has room for one more digit. */
  method CopyMagnitude(help: Big, big1: Big) returns (negative: bool)
    requires big1.Valid() && help != big1 && help.bigdigits != big1.bigdigits
    requires help.bigdigits.Length >= big1.size + 1
    modifies help`size, help.bigdigits
    ensures help.Valid() && !help.Negative() && help.Unsigned() == Abs(big1.Value())
    ensures help.size == if big1.Value() == -SignWeight(big1.size) then big1.size + 1 else big1.size
    ensures negative <==> big1.Value() < 0
  {
    SValRange(big1.Digits());
    negative := big1.Negative();
    if negative {
      PositiveCopyOfNegativeBig(help, big1);
    } else {
      help.size := big1.size;
      forall i | 0 <= i < big1.size {
        help.bigdigits[i] := big1.bigdigits[i];
      }
      assert help.Digits() == big1.Digits();
    }
  }

  /** A copy of abs(dividend) that is extended by a leading zero digit. */
  method PrepareDividend(dividend: Big) returns (help: Big, negative: bool)
    requires dividend.Valid()
    ensures fresh(help) && fresh(help.bigdigits) && help.Valid()
    ensures help.bigdigits.Length == dividend.size + 2
    ensures dividend.size + 1 <= help.size <= dividend.size + 2
    ensures help.bigdigits[help.size - 1] == 0 && !IsNegative(help.bigdigits[help.size - 2])
    ensures help.Unsigned() == UVal(help.bigdigits[..help.size - 1]) == Abs(dividend.Value())
    ensures negative <==> dividend.Value() < 0
  {
    help := new Big.Alloc(dividend.size + 2);
    negative := CopyMagnitude(help, dividend);
    ghost var s := help.Digits();
    help.bigdigits[help.size] := 0;
    help.size := help.size + 1;
    assert help.Digits() == s + [0] && help.bigdigits[..help.size - 1] == s;
    ZeroExtended(s);
  }

  /** A zero top digit means that the next digit has its top bit set. */
  lemma ZeroTop(s: seq<Digit>, t: seq<Digit>)
    requires Normal(s) && |s| >= 2 && |t| == |s| && !IsNegative(t[|t| - 1]) && UVal(t) == Abs(SVal(s))
    ensures t[|t| - 1] == 0 ==> IsNegative(t[|t| - 2])
  {
    var n := |s|;
    if t[n - 1] == 0 {
      NormalRange(s);
      ZeroExtended(t[..n - 1]);
      assert t == t[..n - 1] + [0];
      SValRange(t[..n - 1]);
    }
  }

  /** A copy of abs(divisor), without a leading zero digit except when the digit
      below it has its top bit set. */
  method PrepareDivisor(divisor: Big) returns (help: Big, negative: bool)
    requires divisor.Canonical() && divisor.size >= 2
    ensures fresh(help) && fresh(help.bigdigits) && help.Valid()
    ensures help.bigdigits.Length == divisor.size + 1
    ensures divisor.size <= help.size <= divisor.size + 1 && !help.Negative()
    ensures help.bigdigits[help.size - 1] == 0 ==> IsNegative(help.bigdigits[help.size - 2])
    ensures help.Unsigned() == Abs(divisor.Value()) > 0
    ensures negative <==> divisor.Value() < 0
  {
    help := new Big.Alloc(divisor.size + 1);
    negative := CopyMagnitude(help, divisor);
    NormalRange(divisor.Digits());
    if help.size == divisor.size {
      ZeroTop(divisor.Digits(), help.Digits());
    } else {
      SpecialMagnitude(help.Digits(), divisor.size);
    }
  }

  /** Magnitudes that the paths of the division can work on. */
  ghost predicate Prepared(dividend: Big, divisor: Big)
    reads dividend, dividend.bigdigits, divisor, divisor.bigdigits
  {
    && dividend.Valid() && divisor.Valid() && dividend.bigdigits != divisor.bigdigits
    && dividend != divisor && dividend.size >= divisor.size >= 2
    && dividend.bigdigits[dividend.size - 1] == 0 && !IsNegative(dividend.bigdigits[dividend.size - 2])
    && dividend.Unsigned() == UVal(dividend.bigdigits[..dividend.size - 1])
    && !divisor.Negative()
    && (divisor.bigdigits[divisor.size - 1] == 0 ==> IsNegative(divisor.bigdigits[divisor.size - 2]))
  }

  /** Shifting the extended dividend loses no bits, and its top digit stays small. */
  lemma ShiftedDividend(s: seq<Digit>, p: int, s': seq<Digit>, carry: int)
    requires |s| >= 1 && UVal(s) == UVal(s[..|s| - 1]) && |s'| == |s|
    requires 0 < p <= 0x8000_0000 && carry >= 0 && Stands(s', carry, UVal(s) * p)
    ensures UVal(s') == UVal(s) * p && s'[|s| - 1] < 0x8000_0000
  {
    var n := |s|;
    var r := Radix(n - 1);
    UValBound(s[..n - 1]);
    MulStrict(UVal(s), r, p);
    MulLe0(p, 0x8000_0000, r);
    NoCarry(s', carry);
    SValRange(s');
  }

  /** Shifting the divisor puts its highest bit on top and loses no bits. */
  lemma ShiftedDivisor(s: seq<Digit>, k: nat, s': seq<Digit>, carry: int)
    requires |s| >= 1 && |s'| == |s| && k <= 31 && Pow2(k) <= s[|s| - 1] < Pow2(k + 1)
    requires carry >= 0 && Stands(s', carry, UVal(s) * Pow2(31 - k))
    ensures UVal(s') == UVal(s) * Pow2(31 - k) && IsNegative(s'[|s| - 1])
  {
    var n, p := |s|, Pow2(31 - k);
    var r, d := Radix(n - 1), s[n - 1];
    Pow2Add(k, 31 - k);
    Pow2Add(k + 1, 31 - k);
    Pow2Of32();
    UValPrefix(s, n - 1);
    assert s[..n] == s;
    UValBound(s[..n - 1]);
    ShlRadix(d, n - 1);
    ScaledBounds(UVal(s), d, r, p, Pow2(k), Pow2(k + 1));
    NoCarry(s', carry);
    SValRange(s');
  }

  lemma ScaledBounds(u: int, d: int, r: int, p: int, lo: int, hi: int)
    requires d * r <= u < d * r + r && 0 < lo <= d < hi && 0 < p && 0 < r
    requires lo * p == 0x8000_0000 && hi * p == 0x1_0000_0000
    ensures 0x8000_0000 * r <= u * p < 0x1_0000_0000 * r
  {
    MulLe(lo, d, r, r);
    MulLe(lo * r, u, p, p);
    MulSwap(lo, r, p);
    MulDistr(d, 1, r);
    MulLe(d + 1, hi, r, r);
    MulStrict(u, hi * r, p);
    assert (lo * r) * p == (lo * p) * r && (hi * r) * p == (hi * p) * r;
  }

  /** Divides the magnitude in 'dividend' by the one in 'divisor'. The remainder
      is the result 'rem' if the divisor was reduced to one digit, and otherwise
      is left in the dividend, shifted left by 'lshift' bits. */
  method DivideMagnitudes(dividend: Big, divisor: Big, quotient: Big)
    returns (lshift: nat, rem: Digit, ghost r: int)
    requires Prepared(dividend, divisor) && QuotientBuffer(quotient, dividend, divisor)
    modifies dividend, divisor, dividend.bigdigits, divisor.bigdigits, quotient.bigdigits
    ensures dividend.bigdigits == old(dividend.bigdigits) && divisor.bigdigits == old(divisor.bigdigits)
    ensures OnlyChanged(dividend.bigdigits, 0, old(dividend.size))
    ensures dividend.Valid() && divisor.Valid() && lshift < 32
    ensures dividend.size == if lshift > 0 then old(dividend.size) else old(dividend.size) - 1
    ensures dividend.size < old(dividend.size) ==> dividend.bigdigits[dividend.size] == 0
    ensures IsDivision(old(dividend.Unsigned()), old(divisor.Unsigned()), quotient.Unsigned(), r)
    ensures !quotient.Negative()
    ensures divisor.size == 1 ==> lshift == 0 && rem == r
    ensures divisor.size != 1 ==> dividend.Unsigned() == r * Pow2(lshift)
  {
    lshift, rem := 0, 0;
    var shift := MostSignificantBit(divisor.bigdigits[divisor.size - 1]) + 1;
    if shift == 0 {
      rem, r := DivideUnshifted(dividend, divisor, quotient);
    } else {
      r := DivideShifted(dividend, divisor, quotient, shift - 1);
      lshift := 32 - shift;
    }
  }

  /** A separate buffer for the quotient, with a leading zero digit. */
  ghost predicate QuotientBuffer(quotient: Big, dividend: Big, divisor: Big)
    reads quotient, quotient.bigdigits, dividend, divisor
  {
    && quotient != dividend && quotient != divisor
    && quotient.bigdigits != dividend.bigdigits && quotient.bigdigits != divisor.bigdigits
    && quotient.Valid() && quotient.size == dividend.size - divisor.size + 1
    && quotient.bigdigits[quotient.size - 1] == 0
  }

  /** The top digit of the divisor is zero and is ignored. */
  method DivideUnshifted(dividend: Big, divisor: Big, quotient: Big) returns (rem: Digit, ghost r: int)
    requires Prepared(dividend, divisor) && divisor.bigdigits[divisor.size - 1] == 0
    requires QuotientBuffer(quotient, dividend, divisor)
    modifies dividend`size, divisor`size, dividend.bigdigits, quotient.bigdigits
    ensures OnlyChanged(dividend.bigdigits, 0, old(dividend.size) - 1)
    ensures dividend.size == old(dividend.size) - 1 && divisor.size == old(divisor.size) - 1
    ensures IsDivision(old(dividend.Unsigned()), old(divisor.Unsigned()), quotient.Unsigned(), r)
    ensures !quotient.Negative()
    ensures if divisor.size == 1 then rem == r else dividend.Unsigned() == r
  {
    ghost var X, Y := dividend.Unsigned(), divisor.Unsigned();
    rem := 0;
    QuotientTop(divisor.Digits());
    dividend.size := dividend.size - 1;
    divisor.size := divisor.size - 1;
    assert divisor.Digits() == old(divisor.Digits())[..divisor.size];
    assert dividend.Unsigned() == X && divisor.Unsigned() == Y;
    if divisor.size == 1 {
      assert divisor.Digits() == [divisor.bigdigits[0]];
      SValRange(dividend.Digits());
      rem := DivideDigits(quotient.bigdigits, dividend.bigdigits, dividend.size, divisor.bigdigits[0]);
      r := rem;
      DivisionNonneg(X, Y, quotient.Unsigned(), r);
      SValRange(quotient.Digits());
    } else {
      UBigDiv(dividend, divisor, quotient);
      QuotientTop(quotient.Digits());
      assert quotient.Digits()[..quotient.size - 1] == quotient.bigdigits[..quotient.size - 1];
      r := dividend.Unsigned();
    }
  }

  lemma QuotientTop(q: seq<Digit>)
    requires |q| > 0 && q[|q| - 1] == 0
    ensures UVal(q) == UVal(q[..|q| - 1])
  {
    ZeroExtended(q[..|q| - 1]);
    assert q == q[..|q| - 1] + [0];
  }

  /** Both numbers are shifted left until the top bit of the divisor is set. */
  method DivideShifted(dividend: Big, divisor: Big, quotient: Big, k: nat) returns (ghost r: int)
    requires Prepared(dividend, divisor) && QuotientBuffer(quotient, dividend, divisor)
    requires divisor.bigdigits[divisor.size - 1] > 0 && k == MostSignificantBit(divisor.bigdigits[divisor.size - 1])
    modifies dividend.bigdigits, divisor.bigdigits, quotient.bigdigits
    ensures OnlyChanged(dividend.bigdigits, 0, dividend.size)
    ensures k <= 30 && !quotient.Negative()
    ensures IsDivision(old(dividend.Unsigned()), old(divisor.Unsigned()), quotient.Unsigned(), r)
    ensures dividend.Unsigned() == r * Pow2(31 - k)
  {
    ghost var X, Y := dividend.Unsigned(), divisor.Unsigned();
    UValZeros(divisor.Digits());
    var lshift := ShiftBoth(dividend, divisor, k);
    UBigDiv(dividend, divisor, quotient);
    QuotientTop(quotient.Digits());
    assert quotient.Digits()[..quotient.size - 1] == quotient.bigdigits[..quotient.size - 1];
    ScaledDivision(X, Y, Pow2(lshift), quotient.Unsigned(), dividend.Unsigned());
    r := X % Y;
  }

  method ShiftBoth(dividend: Big, divisor: Big, k: nat) returns (lshift: nat)
    requires Prepared(dividend, divisor)
    requires divisor.bigdigits[divisor.size - 1] > 0 && k == MostSignificantBit(divisor.bigdigits[divisor.size - 1])
    modifies dividend.bigdigits, divisor.bigdigits
    ensures OnlyChanged(dividend.bigdigits, 0, dividend.size) && OnlyChanged(divisor.bigdigits, 0, divisor.size)
    ensures k <= 30 && lshift == 31 - k && ReadyToDivide(dividend, divisor)
    ensures dividend.Unsigned() == old(dividend.Unsigned()) * Pow2(lshift)
    ensures divisor.Unsigned() == old(divisor.Unsigned()) * Pow2(lshift)
  {
    ghost var s, t := dividend.Digits(), divisor.Digits();
    if k == 31 {
      Pow2Of32();
      assert false;
    }
    lshift := 32 - (k + 1);
    Pow2Mono(lshift, 31);
    Pow2Of32();
    assert s[..|s| - 1] == dividend.bigdigits[..dividend.size - 1];
    ghost var carry := UBigLShift(dividend, lshift);
    ShiftedDividend(s, Pow2(lshift), dividend.Digits(), carry);
    carry := UBigLShift(divisor, lshift);
    ShiftedDivisor(t, k, divisor.Digits(), carry);
  }

  // --------------------------------------------------- quotient operations

  /** The part that bigDiv1, bigDivRem1 and bigMDiv1 have in common. */
  method DivideByDigit(dividend: Big, divisor_digit: Digit) returns (quotient: Big, rem: Digit, negative: bool)
    requires dividend.Valid() && divisor_digit != 0
    ensures fresh(quotient) && fresh(quotient.bigdigits) && quotient.Valid() && !quotient.Negative()
    ensures IsDivision(Abs(dividend.Value()), Abs(Signed(divisor_digit)), quotient.Unsigned(), rem)
    ensures negative <==> (dividend.Value() < 0) != (Signed(divisor_digit) < 0)
  {
    quotient := new Big.Alloc(dividend.size + 1);
    var magnitude;
    magnitude, negative := UnsignedMagnitude(dividend);
    quotient.bigdigits[quotient.size - 1] := 0;
    var digit := divisor_digit;
    if IsNegative(divisor_digit) {
      negative := !negative;
      digit := DigitMagnitude(divisor_digit);
    }
    rem := DivideDigits(quotient.bigdigits, magnitude.bigdigits, magnitude.size, digit);
    QuotientTop(quotient.Digits());
    assert quotient.Digits()[..quotient.size - 1] == quotient.bigdigits[..magnitude.size];
  }

  method BigDiv1(dividend: Big, divisor_digit: Digit) returns (result: Result<Big>)
    requires dividend.Valid()
    ensures result.NumericError? <==> divisor_digit == 0
    ensures result.Ok? ==> fresh(result.value) && fresh(result.value.bigdigits) && result.value.Canonical()
    ensures result.Ok? ==> result.value.Value() == TruncDiv(dividend.Value(), Signed(divisor_digit))
  {
    if divisor_digit == 0 {
      return NumericError;
    }
    var quotient, rem, negative := DivideByDigit(dividend, divisor_digit);
    DivisionUnique(Abs(dividend.Value()), Abs(Signed(divisor_digit)), quotient.Unsigned(), rem);
    SValRange(quotient.Digits());
    SignAndNormalize(quotient, negative);
    return Ok(quotient);
  }

  /** A dividend with fewer digits is smaller than the divisor, except for
      -Radix(n)/2 against Radix(n)/2. */
  lemma FewerDigits(x: seq<Digit>, y: seq<Digit>)
    requires Normal(x) && Normal(y) && |x| < |y|
    ensures Abs(SVal(x)) <= Abs(SVal(y))
    ensures Abs(SVal(x)) == Abs(SVal(y))
       <==> SVal(x) == -SignWeight(|x|) && SVal(y) == SignWeight(|x|) && |y| == |x| + 1
  {
    SValRange(x);
    NormalRange(y);
    RadixMono(|x|, |y| - 1);
    if |x| < |y| - 1 {
      RadixMono(|x| + 1, |y| - 1);
    }
  }

  /** The test of bigDivSizeLess, bigDivRemSizeLess and bigRemSizeLess: are the
      magnitudes equal although the dividend has fewer digits? */
  method SameMagnitude(dividend: Big, divisor: Big) returns (same: bool)
    requires dividend.Canonical() && divisor.Canonical() && dividend.size < divisor.size
    ensures same <==> Abs(dividend.Value()) == Abs(divisor.Value())
  {
    ghost var x, y := dividend.Digits(), divisor.Digits();
    var n := dividend.size;
    FewerDigits(x, y);
    SignWeightDigits(x);
    SValRange(x);
    SValRange(y);
    if n + 1 == divisor.size {
      SignWeightDigits(y[..n]);
      if y[n] == 0 {
        QuotientTop(y);
      } else if SVal(y) == SignWeight(n) {
        SpecialMagnitude(y, n);
        assert false;
      }
    }
    if n + 1 == divisor.size && dividend.bigdigits[n - 1] == 0x8000_0000
       && divisor.bigdigits[divisor.size - 1] == 0 && divisor.bigdigits[divisor.size - 2] == 0x8000_0000 {
      var pos := n - 1;
      while pos > 0
        invariant 0 <= pos < n
        invariant forall i :: pos <= i < n - 1 ==> x[i] == 0 && y[i] == 0
      {
        pos := pos - 1;
        if dividend.bigdigits[pos] != 0 || divisor.bigdigits[pos] != 0 {
          assert x[pos] != 0 || y[..n][pos] != 0;
          return false;
        }
      }
      return true;
    }
    return false;
  }

  lemma EqualMagnitudes(x: int, y: int)
    requires y > 0 && x == -y
    ensures TruncDiv(x, y) == -1 && TruncRem(x, y) == 0
  {
    TruncatedUnique(x, y, -1, 0);
  }

  lemma SmallerMagnitude(x: int, y: int)
    requires Abs(x) < Abs(y)
    ensures TruncDiv(x, y) == 0 && TruncRem(x, y) == x
  {
    TruncatedUnique(x, y, 0, x);
  }

  method BigDivSizeLess(dividend: Big, divisor: Big) returns (quotient: Big)
    requires dividend.Canonical() && divisor.Canonical() && dividend.size < divisor.size
    ensures fresh(quotient) && fresh(quotient.bigdigits) && quotient.Canonical() && divisor.Value() != 0
    ensures quotient.Value() == TruncDiv(dividend.Value(), divisor.Value())
  {
    FewerDigits(dividend.Digits(), divisor.Digits());
    NormalRange(divisor.Digits());
    var same := SameMagnitude(dividend, divisor);
    if same {
      EqualMagnitudes(dividend.Value(), divisor.Value());
    } else {
      SmallerMagnitude(dividend.Value(), divisor.Value());
    }
    quotient := OneDigit(if same then 0xFFFF_FFFF else 0);
  }

  /** The operands of the long division, and a buffer for the quotient. */
  method PrepareDivision(dividend: Big, divisor: Big)
    returns (dividend_help: Big, divisor_help: Big, quotient: Big, negative1: bool, negative2: bool)
    requires dividend.Canonical() && divisor.Canonical() && 2 <= divisor.size <= dividend.size
    ensures fresh(dividend_help) && fresh(dividend_help.bigdigits)
        && dividend_help.bigdigits.Length == dividend.size + 2
    ensures fresh(divisor_help) && fresh(divisor_help.bigdigits) && fresh(quotient) && fresh(quotient.bigdigits)
    ensures Prepared(dividend_help, divisor_help) && QuotientBuffer(quotient, dividend_help, divisor_help)
    ensures dividend.size + 1 <= dividend_help.size <= dividend.size + 2 && divisor.Value() != 0
    ensures dividend_help.Unsigned() == Abs(dividend.Value()) && divisor_help.Unsigned() == Abs(divisor.Value())
    ensures negative1 <==> dividend.Value() < 0
    ensures negative2 <==> divisor.Value() < 0
  {
    dividend_help, negative1 := PrepareDividend(dividend);
    divisor_help, negative2 := PrepareDivisor(divisor);
    quotient := new Big.Alloc(dividend_help.size - divisor_help.size + 1);
    quotient.bigdigits[quotient.size - 1] := 0;
  }

  /** The magnitude of the quotient, with a clear sign bit. */
  method LongQuotient(dividend: Big, divisor: Big) returns (quotient: Big, negative: bool)
    requires dividend.Canonical() && divisor.Canonical() && 2 <= divisor.size <= dividend.size
    ensures fresh(quotient) && fresh(quotient.bigdigits) && quotient.Valid() && !quotient.Negative()
    ensures divisor.Value() != 0 && quotient.Unsigned() == Abs(dividend.Value()) / Abs(divisor.Value())
    ensures negative <==> (dividend.Value() < 0) != (divisor.Value() < 0)
  {
    var dividend_help, divisor_help, negative1, negative2;
    dividend_help, divisor_help, quotient, negative1, negative2 := PrepareDivision(dividend, divisor);
    ghost var lshift, rem, r;
    lshift, rem, r := DivideMagnitudes(dividend_help, divisor_help, quotient);
    DivisionUnique(Abs(dividend.Value()), Abs(divisor.Value()), quotient.Unsigned(), r);
    negative := negative1 != negative2;
  }

  /** The path of bigDiv for a divisor of at least two digits, none of them more
      than the dividend has. */
  method BigDivLong(dividend: Big, divisor: Big) returns (quotient: Big)
    requires dividend.Canonical() && divisor.Canonical() && 2 <= divisor.size <= dividend.size
    ensures fresh(quotient) && fresh(quotient.bigdigits) && quotient.Canonical() && divisor.Value() != 0
    ensures quotient.Value() == TruncDiv(dividend.Value(), divisor.Value())
  {
    var negative;
    quotient, negative := LongQuotient(dividend, divisor);
    SValRange(quotient.Digits());
    SignAndNormalize(quotient, negative);
  }

  /** Integer division truncated towards zero. */
  method BigDiv(dividend: Big, divisor: Big) returns (result: Result<Big>)
    requires dividend.Canonical() && divisor.Canonical()
    ensures result.NumericError? <==> divisor.Value() == 0
    ensures result.Ok? ==> fresh(result.value) && fresh(result.value.bigdigits) && result.value.Canonical()
    ensures result.Ok? ==> result.value.Value() == TruncDiv(dividend.Value(), divisor.Value())
  {
    var quotient;
    if divisor.size == 1 {
      SingleDigit(divisor.Digits());
      result := BigDiv1(dividend, divisor.bigdigits[0]);
    } else if dividend.size < divisor.size {
      quotient := BigDivSizeLess(dividend, divisor);
      result := Ok(quotient);
    } else {
      quotient := BigDivLong(dividend, divisor);
      result := Ok(quotient);
    }
  }

  // -------------------------------------------------- remainder operations

  /** The same division as DivideMagnitudes, without a quotient. */
  method RemainderMagnitudes(dividend: Big, divisor: Big) returns (lshift: nat, rem: Digit, ghost q: int, ghost r: int)
    requires Prepared(dividend, divisor)
    modifies dividend, divisor, dividend.bigdigits, divisor.bigdigits
    ensures dividend.bigdigits == old(dividend.bigdigits) && divisor.bigdigits == old(divisor.bigdigits)
    ensures OnlyChanged(dividend.bigdigits, 0, old(dividend.size))
    ensures dividend.Valid() && divisor.Valid() && lshift < 32
    ensures dividend.size == if lshift > 0 then old(dividend.size) else old(dividend.size) - 1
    ensures dividend.size < old(dividend.size) ==> dividend.bigdigits[dividend.size] == 0
    ensures IsDivision(old(dividend.Unsigned()), old(divisor.Unsigned()), q, r)
    ensures divisor.size == 1 ==> lshift == 0 && rem == r
    ensures divisor.size != 1 ==> dividend.Unsigned() == r * Pow2(lshift)
  {
    lshift, rem := 0, 0;
    var shift := MostSignificantBit(divisor.bigdigits[divisor.size - 1]) + 1;
    if shift == 0 {
      rem, q, r := RemainderUnshifted(dividend, divisor);
    } else {
      q, r := RemainderShifted(dividend, divisor, shift - 1);
      lshift := 32 - shift;
    }
  }

  /** The top digit of the divisor is zero and is ignored. */
  method RemainderUnshifted(dividend: Big, divisor: Big) returns (rem: Digit, ghost q: int, ghost r: int)
    requires Prepared(dividend, divisor) && divisor.bigdigits[divisor.size - 1] == 0
    modifies dividend`size, divisor`size, dividend.bigdigits
    ensures OnlyChanged(dividend.bigdigits, 0, old(dividend.size) - 1)
    ensures dividend.size == old(dividend.size) - 1 && divisor.size == old(divisor.size) - 1
    ensures IsDivision(old(dividend.Unsigned()), old(divisor.Unsigned()), q, r)
    ensures if divisor.size == 1 then rem == r else dividend.Unsigned() == r
  {
    ghost var X, Y := dividend.Unsigned(), divisor.Unsigned();
    rem := 0;
    QuotientTop(divisor.Digits());
    dividend.size := dividend.size - 1;
    divisor.size := divisor.size - 1;
    assert divisor.Digits() == old(divisor.Digits())[..divisor.size];
    assert dividend.Unsigned() == X && divisor.Unsigned() == Y;
    if divisor.size == 1 {
      SingleDigit(divisor.Digits());
      rem := RemainderDigits(dividend.bigdigits, dividend.size, divisor.bigdigits[0]);
      DivMod(X, Y);
      q, r := X / Y, rem;
    } else {
      q := UBigRem(dividend, divisor);
      r := dividend.Unsigned();
    }
  }

  /** Both numbers are shifted left until the top bit of the divisor is set. */
  method RemainderShifted(dividend: Big, divisor: Big, k: nat) returns (ghost q: int, ghost r: int)
    requires Prepared(dividend, divisor)
    requires divisor.bigdigits[divisor.size - 1] > 0 && k == MostSignificantBit(divisor.bigdigits[divisor.size - 1])
    modifies dividend.bigdigits, divisor.bigdigits
    ensures OnlyChanged(dividend.bigdigits, 0, dividend.size) && k <= 30
    ensures IsDivision(old(dividend.Unsigned()), old(divisor.Unsigned()), q, r)
    ensures dividend.Unsigned() == r * Pow2(31 - k)
  {
    ghost var X, Y := dividend.Unsigned(), divisor.Unsigned();
    UValZeros(divisor.Digits());
    var lshift := ShiftBoth(dividend, divisor, k);
    q := UBigRem(dividend, divisor);
    ScaledDivision(X, Y, Pow2(lshift), q, dividend.Unsigned());
    r := X % Y;
  }

  lemma {:induction false} ZeroTail(s: seq<Digit>, k: nat)
    requires k <= |s| && forall i :: k <= i < |s| ==> s[i] == 0
    ensures UVal(s) == UVal(s[..k])
  {
    UValSplit(s, k);
    UValZeros(s[k..]);
    ShlOne(k);
  }

  /** The remainder as a number of as many digits as it has. */
  method PlaceRemainder(remainder: Big, single: bool, lshift: nat, rem: Digit, ghost r: int)
    requires remainder.Valid() && lshift < 32
    requires single ==> lshift == 0 && rem == r
    requires !single ==> remainder.Unsigned() == r * Pow2(lshift)
    modifies remainder.bigdigits
    ensures remainder.Unsigned() == r && OnlyChanged(remainder.bigdigits, 0, remainder.size)
  {
    var d := remainder.bigdigits;
    if single {
      d[0] := rem;
      forall i | 1 <= i < remainder.size {
        d[i] := 0;
      }
      ZeroTail(remainder.Digits(), 1);
      SingleDigit(remainder.Digits()[..1]);
    } else if lshift > 0 {
      UBigRShift(remainder, lshift);
      RemainderUnique(r * Pow2(lshift), Pow2(lshift), r, 0);
    }
  }

  /** A value below SignWeight(n + 1) needs at most n + 1 of the n + 2 digits. */
  lemma {:induction false} WidenedValue(s: seq<Digit>, t: seq<Digit>, n: nat)
    requires n > 0 && n <= |s| <= n + 2 == |t| && UVal(s) < SignWeight(n + 1)
    requires t[n + 1] == 0 && (|s| == n ==> t[n] == 0)
    requires forall i :: 0 <= i < |s| && i <= n ==> t[i] == s[i]
    ensures UVal(t) == SVal(t) == UVal(s)
  {
    if |s| == n + 2 {
      UValSmall(s, n + 1);
    }
    var k := if |s| < n + 1 then |s| else n + 1;
    assert t[..k] == s[..k];
    if |s| <= n + 1 {
      assert s[..k] == s;
    }
    ZeroTail(t, k);
    RadixMono(n, n + 1);
    SValRange(t);
  }

  /** Puts the remainder into n + 2 digits. */
  method RestoreRemainder(remainder: Big, n: nat, single: bool, lshift: nat, rem: Digit, ghost r: int)
    requires remainder.Valid() && remainder.bigdigits.Length == n + 2 && n > 0 && lshift < 32
    requires n <= remainder.size <= n + 2
    requires remainder.size == n ==> remainder.bigdigits[n] == 0
    requires 0 <= r < SignWeight(n + 1)
    requires single ==> lshift == 0 && rem == r
    requires !single ==> remainder.Unsigned() == r * Pow2(lshift)
    modifies remainder, remainder.bigdigits
    ensures remainder.bigdigits == old(remainder.bigdigits) && remainder.size == n + 2
    ensures remainder.Unsigned() == remainder.Value() == r
  {
    PlaceRemainder(remainder, single, lshift, rem, r);
    ghost var s := remainder.Digits();
    remainder.bigdigits[n + 1] := 0;
    remainder.size := n + 2;
    WidenedValue(s, remainder.Digits(), n);
  }

  /** A remainder is smaller than the sign weight of the dividend. */
  lemma RemainderFits(x: seq<Digit>, y: seq<Digit>, r: int)
    requires 0 < |y| <= |x| && 0 <= r < Abs(SVal(y))
    ensures 0 <= r < SignWeight(|x|) <= SignWeight(|x| + 1) <= SignWeight(|x| + 2)
  {
    SValRange(y);
    RadixMono(|y| - 1, |x| - 1);
    RadixMono(|x| - 1, |x|);
    RadixMono(|x|, |x| + 1);
  }

  method FinishRemainder(remainder: Big, negative: bool)
    requires remainder.Valid() && remainder.Unsigned() == remainder.Value()
    modifies remainder, remainder.bigdigits
    ensures remainder.bigdigits == old(remainder.bigdigits) && remainder.Canonical()
    ensures remainder.Value() == if negative then -old(remainder.Value()) else old(remainder.Value())
  {
    SValRange(remainder.Digits());
    SignAndNormalize(remainder, negative);
  }

  method BigRem1(dividend: Big, divisor_digit: Digit) returns (result: Result<Big>)
    requires dividend.Valid()
    ensures result.NumericError? <==> divisor_digit == 0
    ensures result.Ok? ==> fresh(result.value) && fresh(result.value.bigdigits) && result.value.Canonical()
    ensures result.Ok? ==> result.value.size == 1
    ensures result.Ok? ==> result.value.Value() == TruncRem(dividend.Value(), Signed(divisor_digit))
  {
    if divisor_digit == 0 {
      return NumericError;
    }
    var remainder := new Big.Alloc(1);
    var magnitude, negative := UnsignedMagnitude(dividend);
    var digit := divisor_digit;
    if IsNegative(divisor_digit) {
      digit := DigitMagnitude(divisor_digit);
    }
    remainder.bigdigits[0] := RemainderDigits(magnitude.bigdigits, magnitude.size, digit);
    DivMod(Abs(dividend.Value()), digit);
    ghost var s := remainder.Digits();
    SingleDigit(s);
    SValRange(s);
    if negative {
      NegatePositiveBig(remainder);
      NegatedValue(s, remainder.Digits());
    }
    SingleDigit(remainder.Digits());
    return Ok(remainder);
  }

  method BigRemSizeLess(dividend: Big, divisor: Big) returns (remainder: Big)
    requires dividend.Canonical() && divisor.Canonical() && dividend.size < divisor.size
    ensures fresh(remainder) && fresh(remainder.bigdigits) && remainder.Canonical() && divisor.Value() != 0
    ensures remainder.Value() == TruncRem(dividend.Value(), divisor.Value())
  {
    FewerDigits(dividend.Digits(), divisor.Digits());
    NormalRange(divisor.Digits());
    var same := SameMagnitude(dividend, divisor);
    if same {
      EqualMagnitudes(dividend.Value(), divisor.Value());
      remainder := OneDigit(0);
    } else {
      SmallerMagnitude(dividend.Value(), divisor.Value());
      remainder := CopyOf(dividend);
    }
  }

  /** abs(dividend) mod abs(divisor) in two more digits than the dividend has. */
  method LongRemainder(dividend: Big, divisor: Big) returns (remainder: Big, negative1: bool, negative2: bool)
    requires dividend.Valid() && divisor.Canonical() && 2 <= divisor.size <= dividend.size
    ensures fresh(remainder) && fresh(remainder.bigdigits) && remainder.Valid() && divisor.Value() != 0
    ensures remainder.size == dividend.size + 2 && remainder.Unsigned() == remainder.Value()
    ensures remainder.Value() == Abs(dividend.Value()) % Abs(divisor.Value())
    ensures negative1 <==> dividend.Value() < 0
    ensures negative2 <==> divisor.Value() < 0
  {
    ghost var x, y := dividend.Value(), divisor.Value();
    ghost var s, t := dividend.Digits(), divisor.Digits();
    var divisor_help;
    remainder, negative1 := PrepareDividend(dividend);
    divisor_help, negative2 := PrepareDivisor(divisor);
    var lshift, rem;
    ghost var q, r;
    lshift, rem, q, r := RemainderMagnitudes(remainder, divisor_help);
    DivisionUnique(Abs(x), Abs(y), q, r);
    RemainderFits(s, t, r);
    RestoreRemainder(remainder, dividend.size, divisor_help.size == 1, lshift, rem, r);
  }

  /** The remainder of BigDiv, with the sign of the dividend. */
  method BigRem(dividend: Big, divisor: Big) returns (result: Result<Big>)
    requires dividend.Canonical() && divisor.Canonical()
    ensures result.NumericError? <==> divisor.Value() == 0
    ensures result.Ok? ==> fresh(result.value) && fresh(result.value.bigdigits) && result.value.Canonical()
    ensures result.Ok? ==> result.value.Value() == TruncRem(dividend.Value(), divisor.Value())
  {
    var remainder;
    if divisor.size == 1 {
      SingleDigit(divisor.Digits());
      result := BigRem1(dividend, divisor.bigdigits[0]);
    } else if dividend.size < divisor.size {
      remainder := BigRemSizeLess(dividend, divisor);
      result := Ok(remainder);
    } else {
      var negative1, negative2;
      remainder, negative1, negative2 := LongRemainder(dividend, divisor);
      FinishRemainder(remainder, negative1);
      result := Ok(remainder);
    }
  }

  // ------------------------------------------------ quotient and remainder

  method BigDivRem1(dividend: Big, divisor_digit: Digit) returns (result: Result<(Big, Big)>)
    requires dividend.Valid()
    ensures result.NumericError? <==> divisor_digit == 0
    ensures result.Ok? ==> TruncatedPair(result.value.0, result.value.1, dividend.Value(), Signed(divisor_digit))
    ensures result.Ok? ==> FreshPair(result.value.0, result.value.1)
    ensures result.Ok? ==> fresh(result.value.0) && fresh(result.value.1)
    ensures result.Ok? ==> fresh(result.value.0.bigdigits) && fresh(result.value.1.bigdigits)
  {
    if divisor_digit == 0 {
      return NumericError;
    }
    var quotient, rem, negative := DivideByDigit(dividend, divisor_digit);
    DivisionUnique(Abs(dividend.Value()), Abs(Signed(divisor_digit)), quotient.Unsigned(), rem);
    SValRange(quotient.Digits());
    SignAndNormalize(quotient, negative);
    SValRange(dividend.Digits());
    var remainder := SignedRemainder(rem, dividend.Negative());
    return Ok((quotient, remainder));
  }

  /** A remainder of one digit, which is smaller than 2 ^ 31 or equal to it. */
  method SignedRemainder(rem: Digit, negative: bool) returns (remainder: Big)
    requires rem < 0x8000_0000
    ensures fresh(remainder) && fresh(remainder.bigdigits) && remainder.Canonical()
    ensures remainder.Value() == if negative then -(rem as int) else rem
  {
    remainder := new Big.Alloc(1);
    remainder.bigdigits[0] := rem;
    SingleDigit(remainder.Digits());
    SValRange(remainder.Digits());
    SignAndNormalize(remainder, negative);
  }

  /** quotient and remainder of the division truncated towards zero. */
  ghost predicate TruncatedPair(quotient: Big, remainder: Big, x: int, y: int)
    reads quotient, remainder, quotient.bigdigits, remainder.bigdigits
  {
    && y != 0 && quotient.Canonical() && remainder.Canonical()
    && quotient.Value() == TruncDiv(x, y) && remainder.Value() == TruncRem(x, y)
  }

  /** The two results do not share anything. */
  ghost predicate FreshPair(quotient: Big, remainder: Big)
    reads quotient, remainder
  {
    quotient != remainder && quotient.bigdigits != remainder.bigdigits
  }

  method BigDivRemSizeLess(dividend: Big, divisor: Big) returns (quotient: Big, remainder: Big)
    requires dividend.Canonical() && divisor.Canonical() && dividend.size < divisor.size
    ensures TruncatedPair(quotient, remainder, dividend.Value(), divisor.Value())
    ensures fresh(quotient) && fresh(remainder) && FreshPair(quotient, remainder)
    ensures fresh(quotient.bigdigits) && fresh(remainder.bigdigits)
  {
    quotient := BigDivSizeLess(dividend, divisor);
    remainder := BigRemSizeLess(dividend, divisor);
  }

  /** Magnitudes of quotient and remainder, both with a clear sign bit. */
  method LongQuotientAndRemainder(dividend: Big, divisor: Big)
    returns (quotient: Big, remainder: Big, negative1: bool, negative2: bool)
    requires dividend.Canonical() && divisor.Canonical() && 2 <= divisor.size <= dividend.size
    ensures fresh(quotient) && fresh(quotient.bigdigits) && quotient.Valid() && !quotient.Negative()
    ensures fresh(remainder) && fresh(remainder.bigdigits) && remainder.Valid() && FreshPair(quotient, remainder)
    ensures divisor.Value() != 0 && quotient.Unsigned() == Abs(dividend.Value()) / Abs(divisor.Value())
    ensures remainder.Unsigned() == remainder.Value() == Abs(dividend.Value()) % Abs(divisor.Value())
    ensures negative1 <==> dividend.Value() < 0
    ensures negative2 <==> divisor.Value() < 0
  {
    var divisor_help;
    remainder, divisor_help, quotient, negative1, negative2 := PrepareDivision(dividend, divisor);
    var lshift, rem;
    ghost var r;
    lshift, rem, r := DivideMagnitudes(remainder, divisor_help, quotient);
    DivisionUnique(Abs(dividend.Value()), Abs(divisor.Value()), quotient.Unsigned(), r);
    RemainderFits(dividend.Digits(), divisor.Digits(), r);
    RestoreRemainder(remainder, dividend.size, divisor_help.size == 1, lshift, rem, r);
  }

  method BigDivRemLong(dividend: Big, divisor: Big) returns (quotient: Big, remainder: Big)
    requires dividend.Canonical() && divisor.Canonical() && 2 <= divisor.size <= dividend.size
    ensures TruncatedPair(quotient, remainder, dividend.Value(), divisor.Value())
    ensures fresh(quotient) && fresh(remainder) && FreshPair(quotient, remainder)
    ensures fresh(quotient.bigdigits) && fresh(remainder.bigdigits)
  {
    var negative1, negative2;
    quotient, remainder, negative1, negative2 := LongQuotientAndRemainder(dividend, divisor);
    SValRange(quotient.Digits());
    SignAndNormalize(quotient, negative1 != negative2);
    FinishRemainder(remainder, negative1);
  }

  /** Quotient and remainder together. */
  method BigDivRem(dividend: Big, divisor: Big) returns (result: Result<(Big, Big)>)
    requires dividend.Canonical() && divisor.Canonical()
    ensures result.NumericError? <==> divisor.Value() == 0
    ensures result.Ok? ==> TruncatedPair(result.value.0, result.value.1, dividend.Value(), divisor.Value())
    ensures result.Ok? ==> result.value.0.Value() == TruncDiv(dividend.Value(), divisor.Value())
    ensures result.Ok? ==> result.value.1.Value() == TruncRem(dividend.Value(), divisor.Value())
    ensures result.Ok? ==> FreshPair(result.value.0, result.value.1)
    ensures result.Ok? ==> fresh(result.value.0) && fresh(result.value.1)
    ensures result.Ok? ==> fresh(result.value.0.bigdigits) && fresh(result.value.1.bigdigits)
  {
    var quotient, remainder;
    if divisor.size == 1 {
      SingleDigit(divisor.Digits());
      result := BigDivRem1(dividend, divisor.bigdigits[0]);
    } else if dividend.size < divisor.size {
      quotient, remainder := BigDivRemSizeLess(dividend, divisor);
      result := Ok((quotient, remainder));
    } else {
      quotient, remainder := BigDivRemLong(dividend, divisor);
      result := Ok((quotient, remainder));
    }
  }
}
