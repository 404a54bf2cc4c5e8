/** Powers of big integers, and the cache of divisors base ^ (2 ^ i)
    (src/big_rtl.c). */
module Exponentiation {
  import opened Digits
  import opened Bits
  import opened DivisionLaws
  import opened BigRecord
  import opened BigMultiplication

  ghost function Pow(b: int, e: nat): int {
    if e == 0 then 1 else b * Pow(b, e - 1)
  }

  lemma {:induction false} PowAdd(b: int, d: nat, e: nat)
    ensures Pow(b, d + e) == Pow(b, d) * Pow(b, e)
  {
    if d > 0 {
      PowAdd(b, d - 1, e);
      MulAssoc(b, Pow(b, d - 1), Pow(b, e));
    }
  }

  lemma {:induction false} PowSquare(b: int, e: nat)
    ensures Pow(b * b, e) == Pow(b, 2 * e)
  {
    if e > 0 {
      PowSquare(b, e - 1);
      MulAssoc(b, b, Pow(b, 2 * (e - 1)));
      assert Pow(b, 2 * e - 1) == b * Pow(b, 2 * (e - 1));
    }
  }

  lemma {:induction false} PowPositive(b: int, e: nat)
    ensures b >= 0 ==> Pow(b, e) >= 0
    ensures b >= 1 ==> Pow(b, e) >= 1
  {
    if e > 0 {
      PowPositive(b, e - 1);
      if b >= 1 {
        MulLe(1, b, 1, Pow(b, e - 1));
      } else if b >= 0 {
        MulLe(0, b, 0, Pow(b, e - 1));
      }
    }
  }

  lemma {:induction false} PowGrows(b: int, d: nat, e: nat)
    requires b >= 1 && d <= e
    ensures 1 <= Pow(b, d) <= Pow(b, e)
  {
    PowPositive(b, d);
    if d < e {
      PowGrows(b, d, e - 1);
      MulLe(1, b, Pow(b, e - 1), Pow(b, e - 1));
    }
  }

  lemma {:induction false} PowBaseMono(a: int, b: int, e: nat)
    requires 0 <= a <= b
    ensures 0 <= Pow(a, e) <= Pow(b, e)
  {
    if e > 0 {
      PowBaseMono(a, b, e - 1);
      MulLe(a, b, Pow(a, e - 1), Pow(b, e - 1));
    }
  }

  lemma {:induction false} PowPower(b: int, d: nat, e: nat)
    ensures Pow(Pow(b, d), e) == Pow(b, d * e)
  {
    if e > 0 {
      PowPower(b, d, e - 1);
      MulDistr(e - 1, 1, d);
      PowAdd(b, d, d * (e - 1));
    }
  }

  /** The sign of a power of a negative number. */
  lemma {:induction false} PowNegated(b: int, e: nat)
    ensures Pow(-b, e) == if e % 2 == 1 then -Pow(b, e) else Pow(b, e)
  {
    if e > 0 {
      PowNegated(b, e - 1);
      MulNeg(b, Pow(b, e - 1));
    }
  }

  lemma {:induction false} PowOfTwo(k: nat, e: nat)
    ensures Pow(Pow2(k), e) == Pow2(k * e)
  {
    if e > 0 {
      PowOfTwo(k, e - 1);
      MulDistr(e - 1, 1, k);
      Pow2Add(k, k * (e - 1));
    }
  }

  lemma PowHalf(s: int, e: nat)
    ensures e % 2 == 1 ==> Pow(s, e) == s * Pow(s * s, e / 2)
    ensures e % 2 == 0 ==> Pow(s, e) == Pow(s * s, e / 2)
  {
    PowSquare(s, e / 2);
    if e % 2 == 1 {
      assert e == 2 * (e / 2) + 1;
    }
  }

  /** One round of the loops: the lowest bit of the exponent goes into the power. */
  lemma PowStep(power: int, s: int, e: nat)
    ensures e % 2 == 1 ==> (power * s) * Pow(s * s, e / 2) == power * Pow(s, e)
    ensures e % 2 == 0 ==> power * Pow(s * s, e / 2) == power * Pow(s, e)
  {
    PowHalf(s, e);
    MulAssoc(power, s, Pow(s * s, e / 2));
  }

  // ------------------------------------------------------ powers of two

  /** The digits of 2 ^ lshift. */
  lemma OneShifted(d: seq<Digit>, q: nat, b: nat)
    requires b < 32 && |d| == q + 1 && d[q] == Pow2(b)
    requires forall i :: 0 <= i < q ==> d[i] == 0
    ensures UVal(d) == Pow2(32 * q + b)
  {
    UValPrefix(d, q);
    assert d[..q + 1] == d;
    UValZeros(d[..q]);
    ShlRadix(Pow2(b), q);
    Pow2Radix(q);
    Pow2Add(32 * q, b);
  }

  lemma SingleBit(b: nat)
    requires b < 32
    ensures Pow2(b) <= 0x8000_0000 && (b < 31 ==> Pow2(b) <= 0x4000_0000)
  {
    Pow2Of32();
    Pow2Mono(b, 31);
    if b < 31 {
      Pow2Mono(b, 30);
    }
  }

  lemma BitIsNormal(d: seq<Digit>, q: nat, b: nat)
    requires b < 32 && (|d| == if b == 31 then q + 2 else q + 1) && d[q] == Pow2(b)
    requires b == 31 ==> d[q + 1] == 0
    requires forall i :: 0 <= i < q ==> d[i] == 0
    ensures Normal(d) && SVal(d) == Pow2(32 * q + b)
  {
    SingleBit(b);
    Pow2Of32();
    OneShifted(d[..q + 1], q, b);
    if b == 31 {
      assert d == d[..q + 1] + [0];
      ZeroExtended(d[..q + 1]);
    } else {
      assert d[..q + 1] == d;
    }
  }

  /** 2 ^ lshift, and zero for a negative lshift. */
  method BigLShiftOne(lshift: IntType) returns (result: Big)
    ensures fresh(result) && fresh(result.bigdigits) && result.Canonical()
    ensures result.Value() == if lshift < 0 then 0 else Pow2(lshift)
  {
    if lshift < 0 {
      result := OneDigit(0);
    } else {
      var result_size := (lshift as int + 1) / 32 + 1;
      var bit_pos := lshift % 32;
      ghost var q: nat := lshift / 32;
      assert lshift == 32 * q + bit_pos && result_size == if bit_pos == 31 then q + 2 else q + 1;
      SingleBit(bit_pos);
      result := new Big.Alloc(result_size);
      var d := result.bigdigits;
      if bit_pos == 31 {
        forall i | 0 <= i < result_size - 2 {
          d[i] := 0;
        }
        d[result_size - 2] := Pow2(bit_pos);
        d[result_size - 1] := 0;
      } else {
        forall i | 0 <= i < result_size - 1 {
          d[i] := 0;
        }
        d[result_size - 1] := Pow2(bit_pos);
      }
      BitIsNormal(result.Digits(), q, bit_pos);
    }
  }

  /** TooLarge is the MEMORY_ERROR for a shift that does not fit intType. */
  datatype PowerResult = Power(value: Big) | NegativeArgument | TooLarge

  const MAX_DIV_10: int := 0x0CCC_CCCC_CCCC_CCCC

  /** (2 ^ log2base) ^ exponent */
  method BigLog2BaseIPow(log2base: IntType, exponent: IntType) returns (result: PowerResult)
    ensures result.NegativeArgument? <==> log2base < 0 || exponent < 0
    ensures result.TooLarge? <==> log2base >= 0 && exponent >= 0 && log2base * exponent > INTTYPE_MAX
    ensures result.Power? ==> fresh(result.value) && fresh(result.value.bigdigits) && result.value.Canonical()
    ensures result.Power? ==> result.value.Value() == Pow(Pow2(log2base), exponent)
  {
    var power;
    if log2base < 0 || exponent < 0 {
      return NegativeArgument;
    }
    PowOfTwo(log2base, exponent);
    MulLe(0, log2base, 0, exponent);
    if log2base == 1 {
      power := BigLShiftOne(exponent);
      result := Power(power);
    } else if log2base <= 10 && exponent <= MAX_DIV_10 {
      MulLe(log2base, 10, exponent, MAX_DIV_10);
      power := BigLShiftOne(log2base * exponent);
      result := Power(power);
    } else {
      var shift := (log2base as int) * exponent;
      if shift > INTTYPE_MAX {
        return TooLarge;
      }
      power := BigLShiftOne(shift);
      result := Power(power);
    }
  }

  // --------------------------------------------------- square and multiply

  /** A number that the loops can square and multiply. */
  ghost predicate Positive(big: Big)
    reads big, big.bigdigits
  {
    big.Valid() && !big.Negative()
  }

  lemma PositiveFits(s: seq<Digit>)
    requires |s| > 0 && !IsNegative(s[|s| - 1])
    ensures UVal(s) == SVal(s) <= SignWeight(|s|) && 0 <= SVal(s)
  {
    SValRange(s);
  }

  /** What the loop keeps: power * (square ^ 2) ^ exponent is the result. */
  ghost predicate IsPart(power: int, square: int, exponent: nat, target: int) {
    power * Pow(square * square, exponent) == target
  }

  lemma PartNext(power: int, square: int, exponent: nat, target: int, square': int)
    requires IsPart(power, square, exponent, target) && square' == square * square
    ensures exponent % 2 == 1 ==> IsPart(power * square', square', exponent / 2, target)
    ensures exponent % 2 == 0 ==> IsPart(power, square', exponent / 2, target)
  {
    PowStep(power, square', exponent);
  }

  lemma NonnegativeProduct(a: int, b: int)
    requires a >= 0 && b >= 0
    ensures a * b >= 0
  {
  }

  method SquareOf(square0: Big) returns (square: Big)
    requires Positive(square0)
    ensures Positive(square) && fresh(square) && fresh(square.bigdigits)
    ensures square.Value() == old(square0.Value()) * old(square0.Value())
  {
    PositiveFits(square0.Digits());
    NonnegativeProduct(square0.Value(), square0.Value());
    square := UBigSquareK(square0);
    SValRange(square.Digits());
  }

  method ProductOf(factor1: Big, factor2: Big) returns (product: Big)
    requires Positive(factor1) && Positive(factor2)
    ensures Positive(product) && fresh(product) && fresh(product.bigdigits)
    ensures product.Value() == old(factor1.Value()) * old(factor2.Value())
  {
    PositiveFits(factor1.Digits());
    PositiveFits(factor2.Digits());
    NonnegativeProduct(factor1.Value(), factor2.Value());
    product := UBigMultK(factor1, factor2, false);
    SValRange(product.Digits());
  }

  /** The loop of bigIPow and bigIPowN. */
  method SquareAndMultiply(power0: Big, square0: Big, exponent0: nat, ghost target: int) returns (power: Big)
    requires Positive(power0) && Positive(square0)
    requires IsPart(power0.Value(), square0.Value(), exponent0, target)
    ensures Positive(power) && (power == power0 || (fresh(power) && fresh(power.bigdigits)))
    ensures power.Value() == target
  {
    var square, exponent := square0, exponent0;
    power := power0;
    while exponent != 0
      invariant Positive(power) && Positive(square)
      invariant power == power0 || (fresh(power) && fresh(power.bigdigits))
      invariant IsPart(power.Value(), square.Value(), exponent, target)
      decreases exponent
    {
      ghost var p, s := power.Value(), square.Value();
      square := SquareOf(square);
      PartNext(p, s, exponent, target, square.Value());
      if exponent % 2 == 1 {
        power := ProductOf(power, square);
      }
      exponent := exponent / 2;
    }
  }

  /** The powers of a digit whose top bit is clear. */
  method BigIPowN(base: Digit, exponent: nat) returns (power: Big)
    requires !IsNegative(base) && exponent >= 1
    ensures fresh(power) && fresh(power.bigdigits) && Positive(power)
    ensures power.Value() == Pow(base, exponent)
  {
    var square := OneDigit(base);
    power := OneDigit(if exponent % 2 == 1 then base else 1);
    SValRange(square.Digits());
    SValRange(power.Digits());
    PowHalf(base, exponent);
    power := SquareAndMultiply(power, square, exponent / 2, Pow(base, exponent));
  }

  /** Gives a power its sign. */
  method SignPower(power: Big, negative: bool)
    requires Positive(power)
    modifies power, power.bigdigits
    ensures power.bigdigits == old(power.bigdigits) && power.Canonical()
    ensures power.Value() == if negative then -old(power.Value()) else old(power.Value())
  {
    PositiveFits(power.Digits());
    SValRange(power.Digits());
    SignAndNormalize(power, negative);
  }

  /** The power of a power of two is a shift by more bits than an intType can hold. */
  ghost predicate ShiftTooLarge(base: int, exponent: int) {
    exists k :: 1 <= k <= 31 && Abs(base) == Pow2(k) && k * exponent > INTTYPE_MAX
  }

  lemma ShiftTooLargeMeans(base: int, exponent: int)
    ensures ShiftTooLarge(base, exponent) <==> exists k ::
      1 <= k <= 31 && (base == Pow2(k) || base == -Pow2(k)) && k * exponent > INTTYPE_MAX
  {
    if ShiftTooLarge(base, exponent) {
      var k :| 1 <= k <= 31 && Abs(base) == Pow2(k) && k * exponent > INTTYPE_MAX;
      assert base == Pow2(k) || base == -Pow2(k);
    }
    if k :| 1 <= k <= 31 && (base == Pow2(k) || base == -Pow2(k)) && k * exponent > INTTYPE_MAX {
      assert Abs(base) == Pow2(k);
    }
  }

  lemma ExponentOfTwo(m: int, r: nat, k: nat)
    requires Pow2(r) <= m < Pow2(r + 1) && m == Pow2(k)
    ensures k == r
  {
    if k < r {
      Pow2Mono(k + 1, r);
    } else if k > r {
      Pow2Mono(r + 1, k);
    }
  }

  /** Only the position of the highest bit can be the exponent. */
  lemma ShiftIsTooLarge(base: int, r: nat, exponent: IntType)
    requires r <= 31 && Pow2(r) <= Abs(base) < Pow2(r + 1) && exponent >= 1
    ensures ShiftTooLarge(base, exponent) <==> Abs(base) == Pow2(r) && r * exponent > INTTYPE_MAX
  {
    if Abs(base) == Pow2(r) && r * exponent > INTTYPE_MAX {
      PowerTooLarge(r, exponent);
      assert 1 <= r <= 31;
    }
    if ShiftTooLarge(base, exponent) {
      var k :| 1 <= k <= 31 && Abs(base) == Pow2(k) && k * exponent > INTTYPE_MAX;
      ExponentOfTwo(Abs(base), r, k);
    }
  }

  lemma SmallExponent(base: int, exponent: int)
    requires exponent <= 1
    ensures !ShiftTooLarge(base, exponent)
  {
    if ShiftTooLarge(base, exponent) {
      var k :| 1 <= k <= 31 && Abs(base) == Pow2(k) && k * exponent > INTTYPE_MAX;
      MulLe0(exponent, 1, k);
    }
  }

  /** The powers of a one-digit number, for an exponent of at least 1. */
  method BigIPow1(base: Digit, exponent: IntType) returns (result: PowerResult)
    requires exponent >= 1
    ensures !result.NegativeArgument?
    ensures result.TooLarge? <==> ShiftTooLarge(Signed(base), exponent)
    ensures result.Power? ==> fresh(result.value) && fresh(result.value.bigdigits) && result.value.Canonical()
    ensures result.Power? ==> result.value.Value() == Pow(Signed(base), exponent)
  {
    var power;
    if base == 0 {
      PowOfZero(exponent);
      power := OneDigit(0);
      return Power(power);
    }
    var negative := IsNegative(base) && exponent % 2 == 1;
    var magnitude := DigitMagnitude(base);
    PowNegated(magnitude, exponent);
    var bit_size := MostSignificantBit(magnitude) + 1;
    ShiftIsTooLarge(Signed(base), bit_size - 1, exponent);
    if magnitude == Pow2(bit_size - 1) {
      PowPositive(magnitude, exponent);
      result := BigLog2BaseIPow(bit_size - 1, exponent);
      if result.TooLarge? {
        return;
      }
      power := result.value;
      SValRange(power.Digits());
      if negative {
        SignPower(power, true);
      }
    } else {
      NotSignBit(magnitude, bit_size - 1);
      power := BigIPowN(magnitude, exponent);
      SignPower(power, negative);
    }
    result := Power(power);
  }

  lemma PowOfZero(e: nat)
    requires e >= 1
    ensures Pow(0, e) == 0
  {
  }

  lemma PowerTooLarge(k: nat, exponent: IntType)
    requires exponent >= 1 && k * exponent > INTTYPE_MAX
    ensures k >= 1
  {
  }

  /** A magnitude with the sign bit set is a power of two. */
  lemma NotSignBit(magnitude: Digit, b: nat)
    requires magnitude <= 0x8000_0000 && Pow2(b) <= magnitude < Pow2(b + 1) && magnitude != Pow2(b)
    ensures !IsNegative(magnitude)
  {
    Pow2Of32();
    if magnitude == 0x8000_0000 {
      if b < 31 {
        Pow2Mono(b + 1, 31);
      } else {
        Pow2Mono(31, b);
      }
    }
  }

  /** The magnitude of the base. Its extra digit is taken from the capacity. */
  method BaseMagnitude(base: Big) returns (square: Big)
    requires base.Valid()
    ensures fresh(square) && fresh(square.bigdigits) && Positive(square)
    ensures square.Value() == Abs(base.Value())
  {
    SValRange(base.Digits());
    square := new Big.Alloc(base.size + 1);
    if base.Negative() {
      PositiveCopyOfNegativeBig(square, base);
      SValRange(square.Digits());
    } else {
      square.size := base.size;
      forall i | 0 <= i < base.size {
        square.bigdigits[i] := base.bigdigits[i];
      }
      assert square.Digits() == base.Digits();
    }
  }

  method FirstPower(square: Big, exponent: nat) returns (power: Big)
    requires Positive(square)
    ensures fresh(power) && fresh(power.bigdigits) && Positive(power)
    ensures IsPart(power.Value(), square.Value(), exponent / 2, Pow(square.Value(), exponent))
  {
    PowHalf(square.Value(), exponent);
    if exponent % 2 == 1 {
      power := CopyOf(square);
    } else {
      power := OneDigit(1);
      SValRange(power.Digits());
    }
  }

  method BigIPowLong(base: Big, exponent: nat) returns (power: Big)
    requires base.Canonical() && exponent >= 2
    ensures fresh(power) && fresh(power.bigdigits) && power.Canonical()
    ensures power.Value() == Pow(base.Value(), exponent)
  {
    ghost var b := base.Value();
    SValRange(base.Digits());
    PowNegated(Abs(b), exponent);
    var negative := base.Negative() && exponent % 2 == 1;
    var square := BaseMagnitude(base);
    power := FirstPower(square, exponent);
    power := SquareAndMultiply(power, square, exponent / 2, Pow(Abs(b), exponent));
    SignPower(power, negative);
  }

  /** base ^ exponent. The result is NegativeArgument exactly for a negative exponent. */
  method BigIPow(base: Big, exponent: IntType) returns (result: PowerResult)
    requires base.Canonical()
    ensures result.NegativeArgument? <==> exponent < 0
    ensures result.TooLarge? <==> base.size == 1 && exists k ::
      1 <= k <= 31 && (base.Value() == Pow2(k) || base.Value() == -Pow2(k)) && k * exponent > INTTYPE_MAX
    ensures result.Power? ==> fresh(result.value) && fresh(result.value.bigdigits) && result.value.Canonical()
    ensures result.Power? ==> result.value.Value() == Pow(base.Value(), exponent)
  {
    ShiftTooLargeMeans(base.Value(), exponent);
    var power;
    if exponent <= 1 {
      SmallExponent(base.Value(), exponent);
      if exponent == 0 {
        power := OneDigit(1);
        result := Power(power);
      } else if exponent == 1 {
        power := CopyOf(base);
        result := Power(power);
      } else {
        result := NegativeArgument;
      }
    } else if base.size == 1 {
      SingleDigit(base.Digits());
      result := BigIPow1(base.bigdigits[0], exponent);
    } else {
      power := BigIPowLong(base, exponent);
      result := Power(power);
    }
  }

  // ------------------------------------------------- the divisor cache

  /** conversionDivisorCache for one base: entry i is base ^ (2 ^ i). */
  class DivisorCache {
    const base: Digit
    var divisors: seq<Big>

    ghost function DigitBuffers(): set<object>
      reads this, divisors
    {
      set i | 0 <= i < |divisors| :: divisors[i].bigdigits
    }

    ghost predicate Holds(i: nat)
      requires i < |divisors|
      reads this, divisors[i], divisors[i].bigdigits
    {
      divisors[i].Canonical() && divisors[i].Value() == Pow(base, Pow2(i))
    }

    /** What every reachable state of the cache satisfies. */
    ghost predicate Valid()
      reads this, divisors, DigitBuffers()
    {
      && 2 <= base <= 36
      && (forall i :: 0 <= i < |divisors| ==> divisors[i].bigdigits in DigitBuffers())
      && (forall i :: 0 <= i < |divisors| ==> Holds(i))
    }

    constructor (base: Digit)
      requires 2 <= base <= 36
      ensures Valid() && divisors == [] && this.base == base
    {
      this.base := base;
      divisors := [];
    }

    /** bigFromUInt32 for a number that fits a signed digit. */
    method FirstDivisor() returns (divisor: Big)
      requires 2 <= base <= 36
      ensures fresh(divisor) && fresh(divisor.bigdigits)
      ensures divisor.Canonical() && divisor.Value() == Pow(base, Pow2(0))
    {
      divisor := OneDigit(base);
      assert Pow(base, 1) == base * Pow(base, 0);
    }

    /** The next entry is the square of the last one. */
    method AddDivisor()
      requires Valid() && |divisors| > 0
      modifies this`divisors
      ensures Valid() && old(divisors) <= divisors && |divisors| == |old(divisors)| + 1
      ensures fresh(divisors[|old(divisors)|]) && fresh(divisors[|old(divisors)|].bigdigits)
    {
      var last := |divisors| - 1;
      assert Holds(last);
      SquareOfPower(base, last);
      var divisor := BigSquare(divisors[last]);
      label L:
      divisors := divisors + [divisor];
      assert Holds(last + 1);
      forall i | 0 <= i < |divisors| ensures Holds(i) {
        if i <= last {
          assert old@L(Holds(i));
          assert divisors[i] == old(divisors)[i];
        }
      }
    }

    /** base ^ (2 ^ exponent), which is computed only if it is not in the cache. */
    method GetConversionDivisor(exponent: nat) returns (divisor: Big)
      requires Valid()
      modifies this`divisors
      ensures Valid() && old(divisors) <= divisors
      ensures |divisors| == if exponent < |old(divisors)| then |old(divisors)| else exponent + 1
      ensures forall i :: |old(divisors)| <= i < |divisors| ==> fresh(divisors[i]) && fresh(divisors[i].bigdigits)
      ensures divisor == divisors[exponent] && divisor.Canonical()
      ensures divisor.Value() == Pow(base, Pow2(exponent))
    {
      if exponent >= |divisors| {
        if |divisors| == 0 {
          divisor := FirstDivisor();
          divisors := [divisor];
        }
        var pos := |divisors|;
        while pos <= exponent
          invariant 1 <= pos <= exponent + 1 && pos == |divisors|
          invariant Valid() && old(divisors) <= divisors
          invariant forall i :: |old(divisors)| <= i < |divisors| ==> fresh(divisors[i]) && fresh(divisors[i].bigdigits)
        {
          AddDivisor();
          pos := pos + 1;
        }
      }
      divisor := divisors[exponent];
      assert Holds(exponent);
    }
  }

  lemma SquareOfPower(b: int, i: nat)
    ensures Pow(b, Pow2(i)) * Pow(b, Pow2(i)) == Pow(b, Pow2(i + 1))
  {
    PowAdd(b, Pow2(i), Pow2(i));
  }
}
