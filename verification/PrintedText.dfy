/** What the recursive printer of src/big_rtl.c writes: bigDivRem takes the number
    as signed, the end of the recursion reads its digits as unsigned. */
module PrintedText {
  import opened Digits
  import opened Bits
  import opened DivisionLaws
  import opened Exponentiation
  import opened Numerals

  // ------------------------------------------------ digits read as unsigned

  /** The number of digits in the canonical form of a negative number. */
  ghost function Width(v: int): (n: nat)
    requires v < 0
    ensures n >= 1
    decreases -v
  {
    if v >= -0x8000_0000 then 1 else 1 + Width(v / 0x1_0000_0000)
  }

  /** The canonical digits of v, read as an unsigned number. */
  ghost function Reading(v: int): (u: int)
    ensures u >= v
  {
    if v >= 0 then v else v + Radix(Width(v))
  }

  lemma {:induction false} WidthIsSize(s: seq<Digit>)
    requires Normal(s) && SVal(s) < 0
    ensures Width(SVal(s)) == |s|
  {
    if |s| == 1 {
      SingleDigit(s);
    } else {
      NormalRange(s);
      RadixMono(0, |s| - 2);
      var t := s[1..];
      assert SVal(s) == s[0] + 0x1_0000_0000 * SVal(t);
      if |t| == 1 {
        SingleDigit(t);
      }
      WidthIsSize(t);
    }
  }

  lemma ReadingOfDigits(s: seq<Digit>)
    requires Normal(s)
    ensures Reading(SVal(s)) == UVal(s) >= 0
  {
    SValRange(s);
    if SVal(s) < 0 {
      WidthIsSize(s);
    }
  }

  lemma {:induction false} WidthFits(v: int)
    requires v < 0
    ensures v >= -SignWeight(Width(v))
    decreases -v
  {
    if v < -0x8000_0000 {
      WidthFits(v / 0x1_0000_0000);
    }
  }

  /** A negative number, read as unsigned, is not smaller than its magnitude, and
      equal only if it is the lowest number of its size. */
  lemma ReadingOfNegative(v: int)
    requires v < 0
    ensures Reading(v) >= -v
    ensures Reading(v) == -v <==> v == -SignWeight(Width(v))
  {
    WidthFits(v);
  }

  // ------------------------------------------------------------- the text

  /** The characters that are written for a number whose value is v when its
      digits are read as signed. */
  ghost function WrittenText(v: int, base: int, exponent: nat, zeroPad: bool, upperCase: bool): (t: string)
    requires Base(base)
    ensures |t| >= 1
    decreases exponent
  {
    if exponent > 8 then
      PowPositive(base, Pow2(exponent - 1));
      var d := Pow(base, Pow2(exponent - 1));
      var quotient, remainder := TruncDiv(v, d), TruncRem(v, d);
      if zeroPad || quotient != 0 then
        WrittenText(quotient, base, exponent - 1, zeroPad, upperCase)
        + WrittenText(remainder, base, exponent - 1, true, upperCase)
      else
        WrittenText(remainder, base, exponent - 1, false, upperCase)
    else
      LeafText(v, base, exponent, zeroPad, upperCase)
  }

  /** The end of the recursion: the numeral, with zeros before it. */
  ghost function LeafText(v: int, base: int, exponent: nat, zeroPad: bool, upperCase: bool): (t: string)
    requires Base(base)
    ensures |t| >= 1
  {
    ReadingNonneg(v);
    var n := Numeral(Reading(v), base, upperCase);
    if zeroPad && |n| < Pow2(exponent) then Repeat('0', Pow2(exponent) - |n|) + n else n
  }

  lemma ReadingNonneg(v: int)
    ensures Reading(v) >= 0
  {
    if v < 0 {
      ReadingOfNegative(v);
    }
  }

  // ----------------------------------------------- the text of what is read right

  /** The text that is wanted: the numeral, or as many digits as base ^ (2 ^ exponent)
      has zeros. */
  ghost function Text(m: nat, base: int, exponent: nat, zeroPad: bool, upperCase: bool): string
    requires Base(base)
  {
    if zeroPad then Padded(m, base, Pow2(exponent), upperCase) else Numeral(m, base, upperCase)
  }

  /** Both halves of a text. */
  lemma TextSplit(m: nat, base: int, exponent: nat, zeroPad: bool, upperCase: bool)
    requires Base(base) && (zeroPad ==> m < Pow(base, Pow2(exponent + 1)))
    ensures var d := Pow(base, Pow2(exponent));
      d > 0 && 0 <= m % d < d && m / d >= 0 && (zeroPad ==> m / d < d)
    ensures var d := Pow(base, Pow2(exponent));
      zeroPad || m / d != 0 ==>
        Text(m, base, exponent + 1, zeroPad, upperCase)
        == Text(m / d, base, exponent, zeroPad, upperCase) + Text(m % d, base, exponent, true, upperCase)
    ensures var d := Pow(base, Pow2(exponent)); m / d == 0 ==> m % d == m
  {
    var w := Pow2(exponent);
    var d := Pow(base, w);
    PowPositive(base, w);
    DivMod(m, d);
    if zeroPad {
      PaddedSplit(m, base, w, w, upperCase);
      PowAdd(base, w, w);
      DigitLess(m, d, d);
    } else if m / d != 0 {
      NumeralSplit(m, base, w, upperCase);
    }
  }

  /** A number that is not negative is written as it should be. */
  lemma {:induction false} TextOfNonnegative(v: nat, base: int, exponent: nat, zeroPad: bool, upperCase: bool)
    requires Base(base) && (zeroPad ==> v < Pow(base, Pow2(exponent)))
    ensures WrittenText(v, base, exponent, zeroPad, upperCase) == Text(v, base, exponent, zeroPad, upperCase)
    decreases exponent
  {
    if exponent > 8 {
      var d := Pow(base, Pow2(exponent - 1));
      TextSplit(v, base, exponent - 1, zeroPad, upperCase);
      if zeroPad || v / d != 0 {
        TextOfNonnegative(v / d, base, exponent - 1, zeroPad, upperCase);
        TextOfNonnegative(v % d, base, exponent - 1, true, upperCase);
      } else {
        TextOfNonnegative(v, base, exponent - 1, false, upperCase);
      }
    } else if zeroPad {
      PaddedNumeral(v, base, Pow2(exponent), upperCase);
    }
  }

  lemma {:induction false} Pow2AtLeast(k: nat)
    requires k >= 8
    ensures Pow2(k) >= 256
  {
    assert Pow2(8) == 256;
    Pow2Mono(8, k);
  }

  /** So is a negative number that is its own magnitude, if no division splits it. */
  lemma {:induction false} TextOfSmall(v: int, base: int, exponent: nat, upperCase: bool)
    requires Base(base) && v < 0 && Reading(v) == -v < Pow(base, 256)
    ensures WrittenText(v, base, exponent, false, upperCase) == Numeral(-v, base, upperCase)
    decreases exponent
  {
    if exponent > 8 {
      var d := Pow(base, Pow2(exponent - 1));
      Pow2AtLeast(exponent - 1);
      PowGrows(base, 256, Pow2(exponent - 1));
      RemainderUnique(-v, d, 0, -v);
      TextOfSmall(v, base, exponent - 1, upperCase);
    }
  }

  // ---------------------------------------------------- the number that is written

  lemma {:induction false} ZeroDigits(n: nat, b: int)
    requires Base(b)
    ensures IsDigits(Repeat('0', n), b) && DigitsValue(Repeat('0', n), b) == 0
  {
    if n > 0 {
      ZeroDigits(n - 1, b);
      RepeatSnoc('0', n - 1);
      DigitsSnoc(Repeat('0', n - 1), '0', b);
      assert CharValue('0') == 0 && Repeat('0', n) == Repeat('0', n - 1) + ['0'];
    }
  }

  /** The number that a text of digits stands for. */
  ghost predicate StandsFor(t: string, base: int, value: int) {
    IsDigits(t, base) && DigitsValue(t, base) == value
  }

  lemma LeadingZeros(k: nat, n: string, base: int, value: int)
    requires Base(base) && StandsFor(n, base, value)
    ensures StandsFor(Repeat('0', k) + n, base, value)
  {
    ZeroDigits(k, base);
    DigitsConcat(Repeat('0', k), n, base);
  }

  lemma LeafValue(v: int, base: int, exponent: nat, zeroPad: bool, upperCase: bool)
    requires Base(base)
    ensures StandsFor(LeafText(v, base, exponent, zeroPad, upperCase), base, Reading(v))
    ensures zeroPad ==> |LeafText(v, base, exponent, zeroPad, upperCase)| >= Pow2(exponent)
  {
    ReadingNonneg(v);
    var n := Numeral(Reading(v), base, upperCase);
    NumeralValue(Reading(v), base, upperCase);
    if zeroPad && |n| < Pow2(exponent) {
      LeadingZeros(Pow2(exponent) - |n|, n, base, Reading(v));
    }
  }

  /** The magnitude of a number and those of its truncated quotient and remainder. */
  lemma TruncatedMagnitudes(v: int, d: int)
    requires v <= 0 && d > 0
    ensures TruncDiv(v, d) == -((-v) / d) <= 0 && TruncRem(v, d) == -((-v) % d) <= 0
    ensures -v == (-v) / d * d + (-v) % d && 0 <= (-v) % d < d && (-v) / d >= 0
    ensures (-v) / d == 0 ==> TruncRem(v, d) == v
  {
    DivMod(-v, d);
    if v == 0 {
      RemainderUnique(0, d, 0, 0);
    }
  }

  lemma {:induction false} LeafInCase(v: int, base: int, exponent: nat, zeroPad: bool, upperCase: bool)
    requires Base(base)
    ensures InCase(LeafText(v, base, exponent, zeroPad, upperCase), upperCase)
  {
    ReadingNonneg(v);
    var n := Numeral(Reading(v), base, upperCase);
    NumeralInCase(Reading(v), base, upperCase);
    if zeroPad && |n| < Pow2(exponent) {
      ZerosInCase(Pow2(exponent) - |n|, upperCase);
      JoinedInCase(Repeat('0', Pow2(exponent) - |n|), n, upperCase);
    }
  }

  /** The text has digits of the base only, whatever the number is. */
  lemma {:induction false} WrittenDigits(v: int, base: int, exponent: nat, zeroPad: bool, upperCase: bool)
    requires Base(base)
    ensures IsDigits(WrittenText(v, base, exponent, zeroPad, upperCase), base)
    decreases exponent
  {
    if exponent > 8 {
      PowPositive(base, Pow2(exponent - 1));
      var d := Pow(base, Pow2(exponent - 1));
      if zeroPad || TruncDiv(v, d) != 0 {
        WrittenDigits(TruncDiv(v, d), base, exponent - 1, zeroPad, upperCase);
        WrittenDigits(TruncRem(v, d), base, exponent - 1, true, upperCase);
        DigitsConcat(WrittenText(TruncDiv(v, d), base, exponent - 1, zeroPad, upperCase),
                     WrittenText(TruncRem(v, d), base, exponent - 1, true, upperCase), base);
      } else {
        WrittenDigits(TruncRem(v, d), base, exponent - 1, false, upperCase);
      }
    } else {
      LeafValue(v, base, exponent, zeroPad, upperCase);
    }
  }

  /** The text has letters of one case. */
  lemma {:induction false} WrittenInCase(v: int, base: int, exponent: nat, zeroPad: bool, upperCase: bool)
    requires Base(base)
    ensures InCase(WrittenText(v, base, exponent, zeroPad, upperCase), upperCase)
    decreases exponent
  {
    if exponent > 8 {
      PowPositive(base, Pow2(exponent - 1));
      var d := Pow(base, Pow2(exponent - 1));
      if zeroPad || TruncDiv(v, d) != 0 {
        WrittenInCase(TruncDiv(v, d), base, exponent - 1, zeroPad, upperCase);
        WrittenInCase(TruncRem(v, d), base, exponent - 1, true, upperCase);
        JoinedInCase(WrittenText(TruncDiv(v, d), base, exponent - 1, zeroPad, upperCase),
                     WrittenText(TruncRem(v, d), base, exponent - 1, true, upperCase), upperCase);
      } else {
        WrittenInCase(TruncRem(v, d), base, exponent - 1, false, upperCase);
      }
    } else {
      LeafInCase(v, base, exponent, zeroPad, upperCase);
    }
  }

  lemma PartsAreLarge(q: int, d: int, r: int, vq: int, p: int, vr: int)
    requires 0 <= q <= vq && 0 < d <= p && r <= vr
    ensures q * d + r <= vq * p + vr
    ensures vq * p + vr == q * d + r ==> vr == r
  {
    MulLe(q, vq, d, p);
  }

  lemma LargeText(t: string, high: string, low: string, base: int, m: int, q: int, d: int, r: int, w: nat,
                  zeroPad: bool)
    requires Base(base) && IsDigits(high, base) && IsDigits(low, base) && |low| >= w && d == Pow(base, w) > 0
    requires 0 <= q <= DigitsValue(high, base) && r <= DigitsValue(low, base)
    requires t == high + low && m == q * d + r && (zeroPad ==> |high| >= w)
    ensures IsDigits(t, base) && DigitsValue(t, base) >= m && (zeroPad ==> |t| >= 2 * w)
  {
    DigitsConcat(high, low, base);
    PowGrows(base, w, |low|);
    PartsAreLarge(q, d, r, DigitsValue(high, base), Pow(base, |low|), DigitsValue(low, base));
  }

  /** The text of a number is that of its quotient and that of its remainder. */
  lemma {:induction false} WrittenSplit(v: int, base: int, exponent: nat, zeroPad: bool, upperCase: bool)
    returns (d: int, q: int, r: int, t: string)
    requires Base(base) && exponent >= 8
    ensures d == Pow(base, Pow2(exponent)) > 0 && q == TruncDiv(v, d) && r == TruncRem(v, d)
    ensures t == WrittenText(v, base, exponent + 1, zeroPad, upperCase)
    ensures t == if zeroPad || q != 0 then
                   WrittenText(q, base, exponent, zeroPad, upperCase) + WrittenText(r, base, exponent, true, upperCase)
                 else
                   WrittenText(r, base, exponent, false, upperCase)
  {
    PowPositive(base, Pow2(exponent));
    d := Pow(base, Pow2(exponent));
    q, r := TruncDiv(v, d), TruncRem(v, d);
    t := WrittenText(v, base, exponent + 1, zeroPad, upperCase);
  }

  /** The digits that are written for a number below zero stand for its magnitude
      or for a larger number. */
  lemma {:induction false} WrittenIsLarge(v: int, base: int, exponent: nat, zeroPad: bool, upperCase: bool)
    requires Base(base) && v <= 0
    ensures var t := WrittenText(v, base, exponent, zeroPad, upperCase);
      IsDigits(t, base) && DigitsValue(t, base) >= -v && (zeroPad ==> |t| >= Pow2(exponent))
    decreases exponent, 1
  {
    if exponent > 8 {
      SplitIsLarge(v, base, exponent - 1, zeroPad, upperCase);
    } else {
      LeafValue(v, base, exponent, zeroPad, upperCase);
      if v < 0 {
        ReadingOfNegative(v);
      }
    }
  }

  lemma {:induction false} SplitIsLarge(v: int, base: int, exponent: nat, zeroPad: bool, upperCase: bool)
    requires Base(base) && v <= 0 && exponent >= 8
    ensures var t := WrittenText(v, base, exponent + 1, zeroPad, upperCase);
      IsDigits(t, base) && DigitsValue(t, base) >= -v && (zeroPad ==> |t| >= Pow2(exponent + 1))
    decreases exponent + 1, 0
  {
    var d, q, r, t := WrittenSplit(v, base, exponent, zeroPad, upperCase);
    TruncatedMagnitudes(v, d);
    WrittenIsLarge(r, base, exponent, zeroPad || q != 0, upperCase);
    if zeroPad || q != 0 {
      WrittenIsLarge(q, base, exponent, zeroPad, upperCase);
      LargeText(t, WrittenText(q, base, exponent, zeroPad, upperCase), WrittenText(r, base, exponent, true, upperCase),
                base, -v, (-v) / d, d, (-v) % d, Pow2(exponent), zeroPad);
    }
  }

  /** If they stand for the magnitude, then the part below base ^ 256 is its own
      magnitude. */
  lemma {:induction false} LowestPart(v: int, base: int, exponent: nat, zeroPad: bool, upperCase: bool, b: int)
    requires Base(base) && v <= 0 && exponent >= 8 && -v < Pow(base, Pow2(exponent)) && b == Pow(base, 256) > 0
    requires DigitsValue(WrittenText(v, base, exponent, zeroPad, upperCase), base) == -v
    ensures Reading(-((-v) % b)) == (-v) % b
    decreases exponent
  {
    if exponent == 8 {
      LowestLeaf(v, base, zeroPad, upperCase, b);
    } else {
      PowPositive(base, Pow2(exponent - 1));
      var d := Pow(base, Pow2(exponent - 1));
      var r := TruncRem(v, d);
      LowestStep(v, base, exponent - 1, zeroPad, upperCase, d);
      assert (-r) % b == (-v) % b by {
        TruncatedMagnitudes(v, d);
        assert -r == (-v) % d;
        LowPartOfRemainder(-v, base, d, b, exponent - 1);
      }
      LowestPart(r, base, exponent - 1, zeroPad || TruncDiv(v, d) != 0, upperCase, b);
    }
  }

  lemma LowestLeaf(v: int, base: int, zeroPad: bool, upperCase: bool, b: int)
    requires Base(base) && v <= 0 && -v < Pow(base, Pow2(8)) && b == Pow(base, 256) > 0
    requires DigitsValue(LeafText(v, base, 8, zeroPad, upperCase), base) == -v
    ensures Reading(-((-v) % b)) == (-v) % b
  {
    assert Pow2(8) == 256;
    RemainderUnique(-v, b, 0, -v);
    LeafValue(v, base, 8, zeroPad, upperCase);
  }

  /** What is written for the remainder stands for it, too. */
  lemma LowestStep(v: int, base: int, exponent: nat, zeroPad: bool, upperCase: bool, d: int)
    requires Base(base) && v <= 0 && exponent >= 8 && d == Pow(base, Pow2(exponent)) > 0
    requires DigitsValue(WrittenText(v, base, exponent + 1, zeroPad, upperCase), base) == -v
    ensures var r := TruncRem(v, d);
      -d < r <= 0
      && DigitsValue(WrittenText(r, base, exponent, zeroPad || TruncDiv(v, d) != 0, upperCase), base) == -r
  {
    TruncatedMagnitudes(v, d);
    var q, r := TruncDiv(v, d), TruncRem(v, d);
    if zeroPad || q != 0 {
      LowestOfSplit(v, base, exponent, zeroPad, upperCase, q, r, d);
    }
  }

  lemma LowestOfSplit(v: int, base: int, exponent: nat, zeroPad: bool, upperCase: bool, q: int, r: int, d: int)
    requires Base(base) && d == Pow(base, Pow2(exponent)) > 0 && q <= 0 && r <= 0 && -v == (-q) * d + (-r)
    requires DigitsValue(WrittenText(q, base, exponent, zeroPad, upperCase)
                         + WrittenText(r, base, exponent, true, upperCase), base) == -v
    ensures DigitsValue(WrittenText(r, base, exponent, true, upperCase), base) == -r
  {
    var high := WrittenText(q, base, exponent, zeroPad, upperCase);
    var low := WrittenText(r, base, exponent, true, upperCase);
    WrittenIsLarge(q, base, exponent, zeroPad, upperCase);
    WrittenIsLarge(r, base, exponent, true, upperCase);
    DigitsConcat(high, low, base);
    PowGrows(base, Pow2(exponent), |low|);
    PartsAreLarge(-q, d, -r, DigitsValue(high, base), Pow(base, |low|), DigitsValue(low, base));
  }

  lemma LowPartOfRemainder(m: nat, base: int, d: int, b: int, exponent: nat)
    requires exponent >= 8 && d == Pow(base, Pow2(exponent)) > 0 && b == Pow(base, 256) > 0
    ensures (m % d) % b == m % b
  {
    var w := Pow2(exponent);
    Pow2AtLeast(exponent);
    PowAdd(base, 256, w - 256);
    RemainderOfRemainder(m, d, b, Pow(base, w - 256));
  }

  lemma RemainderOfRemainder(m: int, d: int, b: int, k: int)
    requires d > 0 && b > 0 && d == b * k
    ensures (m % d) % b == m % b
  {
    DivMod(m, d);
    var q, r := m / d, m % d;
    DivMod(r, b);
    MulAssoc(b, k, q);
    MulDistr(k * q, r / b, b);
    RemainderUnique(m, b, k * q + r / b, r % b);
  }
}
