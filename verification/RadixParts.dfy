/** The exact length of what the printers of src/big_rtl.c write for a number below zero, from
    its parts in the radix base ^ 256. */
module RadixParts {
  import opened Digits
  import opened Bits
  import opened ShiftLaws
  import opened DivisionLaws
  import opened Exponentiation
  import opened Numerals
  import opened PrintedText
  import opened RadixText

  /** The characters for one part: e more than there should be, if it is above 2 ^ t. */
  function PartLength(m: int, t: nat, e: nat): nat {
    if m > Pow2(t) then 256 + e else 256
  }

  /** All parts of the base have these lengths. */
  ghost predicate PartLengths(base: int, t: nat, e: nat, upperCase: bool)
    requires Base(base)
  {
    forall v :: v <= 0 && -v < Pow(base, Pow2(8)) ==> |LeafText(v, base, 8, true, upperCase)| == PartLength(-v, t, e)
  }

  /** The characters for the lowest k parts of m. */
  function PartsLength(m: int, d: int, t: nat, e: nat, k: nat): int
    requires d > 1
    decreases k
  {
    if k == 0 then 0 else PartLength(m % d, t, e) + PartsLength(m / d, d, t, e, k - 1)
  }

  lemma Smaller(m: nat, d: int)
    requires d > 1 && m >= d
    ensures 0 < m / d < m
  {
    DivMod(m, d);
    MulLe(2, d, m / d, m / d);
    FloorBound(m, d, 1);
  }

  /** The characters for all parts of m; the first part is not padded. */
  ghost function TextLength(m: int, base: int, d: int, t: nat, e: nat, upperCase: bool): int
    requires Base(base) && d > 1 && m >= 0
    decreases m
  {
    if m < d then
      ReadingNonneg(-m);
      |Numeral(Reading(-m), base, upperCase)|
    else
      Smaller(m, d);
      PartLength(m % d, t, e) + TextLength(m / d, base, d, t, e, upperCase)
  }

  /** p is a power of d. */
  lemma LowestPartOf(q: int, p: int, r: int, d: int)
    requires d > 0 && 0 <= r < d * p
    ensures (q * (d * p) + r) / d == q * p + r / d && (q * (d * p) + r) % d == r % d && 0 <= r / d < p
  {
    DivMod(r, d);
    MulSwap(q, d, p);
    MulDistr(q * p, r / d, d);
    RemainderUnique(q * (d * p) + r, d, q * p + r / d, r % d);
    FloorBound(r, d, p);
  }

  lemma {:induction false} SplitParts(m: int, p: int, q: int, r: int, d: int, t: nat, e: nat, k: nat, n: nat)
    requires d > 1 && p == Pow(d, k) && m == q * p + r && 0 <= r < p
    ensures PartsLength(m, d, t, e, k + n) == PartsLength(r, d, t, e, k) + PartsLength(q, d, t, e, n)
    decreases k
  {
    if k > 0 {
      var p' := Pow(d, k - 1);
      LowestPartOf(q, p', r, d);
      SplitParts(m / d, p', q, r / d, d, t, e, k - 1, n);
    }
  }

  lemma {:induction false} SplitText(m: int, p: int, q: int, r: int, base: int, d: int, t: nat, e: nat, k: nat,
                                     upperCase: bool)
    requires Base(base) && d > 1 && p == Pow(d, k) && m == q * p + r && 0 <= r < p && q > 0 && m >= 0
    ensures TextLength(m, base, d, t, e, upperCase)
         == PartsLength(r, d, t, e, k) + TextLength(q, base, d, t, e, upperCase)
    decreases k
  {
    if k > 0 {
      var p' := Pow(d, k - 1);
      LowestPartOf(q, p', r, d);
      AtLeastRadix(q, p', r, d);
      Smaller(m, d);
      SplitText(m / d, p', q, r / d, base, d, t, e, k - 1, upperCase);
    }
  }

  lemma AtLeastRadix(q: int, p: int, r: int, d: int)
    requires q > 0 && 0 <= r < d * p && d > 0
    ensures q * (d * p) + r >= d
  {
    FloorBound(r, d, p);
    MulLe(1, p, d, d);
    MulLe(1, q, d * p, d * p);
  }

  /** The divisors of the recursion are powers of the radix. */
  lemma {:induction false} DivisorIsPower(base: int, exponent: nat)
    requires exponent >= 8
    ensures Pow(base, Pow2(exponent)) == Pow(Pow(base, Pow2(8)), Pow2(exponent - 8))
  {
    Pow2Add(8, exponent - 8);
    PowPower(base, Pow2(8), Pow2(exponent - 8));
  }

  lemma {:induction false} OnePart(m: int, base: int, d: int, t: nat, e: nat, upperCase: bool)
    requires Base(base) && PartLengths(base, t, e, upperCase) && d == Pow(base, Pow2(8)) > 1 && 0 <= m < d
    ensures |WrittenText(-m, base, 8, true, upperCase)| == PartsLength(m, d, t, e, Pow2(0))
  {
    RemainderUnique(m, d, 0, m);
    assert Pow2(0) == 1;
    assert |LeafText(-m, base, 8, true, upperCase)| == PartLength(m, t, e);
  }

  /** One step of the recursion divides -m by p, which gives -q and -r. */
  lemma {:induction false} OneDivision(m: int, base: int, exponent: nat, d: int, zeroPad: bool, upperCase: bool)
    returns (q: int, p: int, r: int)
    requires Base(base) && exponent >= 8 && d == Pow(base, Pow2(8)) && 0 <= m < Pow(base, Pow2(exponent + 1))
    ensures p == Pow(base, Pow2(exponent)) == Pow(d, Pow2(exponent - 8)) && 0 <= q < p && 0 <= r < p
    ensures m == q * p + r && (q == 0 ==> r == m)
    ensures |WrittenText(-m, base, exponent + 1, zeroPad, upperCase)|
         == |WrittenText(-r, base, exponent, zeroPad || q != 0, upperCase)|
            + if zeroPad || q != 0 then |WrittenText(-q, base, exponent, zeroPad, upperCase)| else 0
  {
    p := Pow(base, Pow2(exponent));
    HalvesFit(-m, base, exponent, p);
    TruncatedMagnitudes(-m, p);
    DivisorIsPower(base, exponent);
    q, r := -TruncDiv(-m, p), -TruncRem(-m, p);
  }

  lemma {:induction false} PaddedParts(m: int, base: int, exponent: nat, d: int, t: nat, e: nat, upperCase: bool)
    requires Base(base) && PartLengths(base, t, e, upperCase) && d == Pow(base, Pow2(8)) > 1
    requires exponent >= 8 && 0 <= m < Pow(base, Pow2(exponent))
    ensures |WrittenText(-m, base, exponent, true, upperCase)| == PartsLength(m, d, t, e, Pow2(exponent - 8))
    decreases exponent
  {
    if exponent == 8 {
      OnePart(m, base, d, t, e, upperCase);
    } else {
      var half := exponent - 1;
      var q, p, r := OneDivision(m, base, half, d, true, upperCase);
      PaddedParts(q, base, half, d, t, e, upperCase);
      PaddedParts(r, base, half, d, t, e, upperCase);
      SplitParts(m, p, q, r, d, t, e, Pow2(half - 8), Pow2(half - 8));
    }
  }

  /** The text of a number below zero. */
  lemma {:induction false} LengthOfText(m: int, base: int, exponent: nat, d: int, t: nat, e: nat, upperCase: bool)
    requires Base(base) && PartLengths(base, t, e, upperCase) && d == Pow(base, Pow2(8)) > 1
    requires exponent >= 8 && 0 <= m < Pow(base, Pow2(exponent))
    ensures |WrittenText(-m, base, exponent, false, upperCase)| == TextLength(m, base, d, t, e, upperCase)
    decreases exponent
  {
    if exponent > 8 {
      var half := exponent - 1;
      var q, p, r := OneDivision(m, base, half, d, false, upperCase);
      if q == 0 {
        LengthOfText(m, base, half, d, t, e, upperCase);
      } else {
        LengthOfText(q, base, half, d, t, e, upperCase);
        PaddedParts(r, base, half, d, t, e, upperCase);
        SplitText(m, p, q, r, base, d, t, e, Pow2(half - 8), upperCase);
      }
    }
  }
}
