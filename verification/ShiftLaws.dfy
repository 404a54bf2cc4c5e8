/** What the digits of a shifted number stand for. */
module ShiftLaws {
  import opened Digits
  import opened Bits
  import opened ShortDivision
  import opened AddSubtract
  import opened IncrementDecrement

  // ------------------------------------------------------- shifted digits

  function NextDigit(s: seq<Digit>, i: nat, e: Digit): Digit
    requires i < |s|
  {
    if i + 1 < |s| then s[i + 1] else e
  }

  /** The digits of s shifted right by r bits, where the bits of e come in on top. */
  ghost function Shifted(s: seq<Digit>, e: Digit, r: nat): (t: seq<Digit>)
    requires 0 < r < 32
    ensures |t| == |s|
  {
    if s == [] then [] else [JoinedDigit(s[0], NextDigit(s, 0, e), r)] + Shifted(s[1..], e, r)
  }

  lemma {:induction false} ShiftedAt(s: seq<Digit>, e: Digit, r: nat, i: nat)
    requires i < |s| && 0 < r < 32
    ensures Shifted(s, e, r)[i] == JoinedDigit(s[i], NextDigit(s, i, e), r)
  {
    if i > 0 {
      ShiftedAt(s[1..], e, r, i - 1);
    }
  }

  lemma {:induction false} ShiftedValue(s: seq<Digit>, e: Digit, r: nat)
    requires |s| > 0 && 0 < r < 32
    ensures UVal(Shifted(s, e, r)) * Pow2(r) + s[0] % Pow2(r) == UVal(s) + Shl(e % Pow2(r), |s|)
  {
    var t, p := Shifted(s, e, r), Pow2(r);
    JoinedDigitMeans(s[0], NextDigit(s, 0, e), r);
    if |s| == 1 {
      SingleDigit(t);
      SingleDigit(s);
      ShlRadix(e % p, 1);
    } else {
      assert t[1..] == Shifted(s[1..], e, r);
      ShiftedValue(s[1..], e, r);
      MulDistr(t[0], 0x1_0000_0000 * UVal(t[1..]), p);
      MulAssoc(0x1_0000_0000, UVal(t[1..]), p);
    }
  }

  /** s, extended by sign digits e, shifted right by r < 32 bits. */
  lemma ShiftedRight(s: seq<Digit>, r: nat)
    requires |s| > 0 && 0 < r < 32
    ensures SVal(Shifted(s, SignDigit(s[|s| - 1]), r)) == SVal(s) / Pow2(r)
  {
    var n, p, e := |s|, Pow2(r), SignDigit(s[|s| - 1]);
    var t := Shifted(s, e, r);
    ShiftedValue(s, e, r);
    DivMod(s[0], p);
    SignModulo(e, r);
    SValRange(s);
    var k := if e == 0 then 0 else -1;
    FloorOfShift(UVal(t), p, s[0] % p, UVal(s), SVal(s), n, e, e % p, SignWeight(n));
    ModuloValue(t, SVal(s) / p, k);
  }

  lemma FloorOfShift(u: int, p: int, low: int, us: int, ss: int, n: nat, e: Digit, ep: int, w: int)
    requires u * p + low == us + Shl(ep, n) && 0 <= low < p && -w <= ss < w && 0 < w
    requires e == 0 ==> ep == 0 && ss == us
    requires e != 0 ==> ep == p - 1 && ss == us - Radix(n)
    ensures u + Shl(if e == 0 then 0 else -1, n) == ss / p && -w <= ss / p < w
  {
    SignOverShift(u, p, low, us, ss, n, e, ep);
    var v := u + Shl(if e == 0 then 0 else -1, n);
    RemainderUnique(ss, p, v, low);
    ShrinkRange(ss, p, v, low, w);
  }

  lemma SignModulo(e: Digit, r: nat)
    requires 0 < r < 32 && (e == 0 || e == 0xFFFF_FFFF)
    ensures e % Pow2(r) == if e == 0 then 0 else Pow2(r) - 1
  {
    var p := Pow2(r);
    SplitPow2Of32(r);
    if e == 0 {
      RemainderUnique(0, p, 0, 0);
    } else {
      MulDistr(Pow2(32 - r), 1, p);
      RemainderUnique(e, p, Pow2(32 - r) - 1, p - 1);
    }
  }

  lemma SignOverShift(u: int, p: int, low: int, us: int, ss: int, n: nat, e: Digit, ep: int)
    requires u * p + low == us + Shl(ep, n)
    requires e == 0 ==> ep == 0 && ss == us
    requires e != 0 ==> ep == p - 1 && ss == us - Radix(n)
    ensures (u + Shl(if e == 0 then 0 else -1, n)) * p + low == ss
  {
    ShlOne(n);
    ShlRadix(-1, n);
    ShlAdd(p, 1, n);
    ShlRadix(p, n);
    MulDistr(u, Radix(n), p);
  }

  lemma ShrinkRange(x: int, p: int, q: int, r: int, w: int)
    requires x == p * q + r && 0 <= r < p && -w <= x < w && w > 0
    ensures -w <= q < w
  {
    if q >= w {
      MulLe(1, p, q, q);
      assert false;
    }
    if q < -w {
      MulLe(1, p, -q - 1, -q - 1);
      MulDistr(-q, 1, p);
      assert false;
    }
  }

  // --------------------------------------------------- shifts by digits

  lemma {:induction false} SValSplit(s: seq<Digit>, q: nat)
    requires q < |s|
    ensures SVal(s) == UVal(s[..q]) + Shl(SVal(s[q..]), q)
  {
    UValSplit(s, q);
    ShlAdd(UVal(s[q..]), Radix(|s| - q), q);
    RadixShl(|s| - q, q);
  }

  /** Dropping the lowest q digits divides by Radix(q). */
  lemma DigitsDropped(s: seq<Digit>, q: nat)
    requires q < |s|
    ensures SVal(s[q..]) == SVal(s) / Radix(q)
  {
    SValSplit(s, q);
    UValBound(s[..q]);
    ShlRadix(SVal(s[q..]), q);
    RemainderUnique(SVal(s), Radix(q), SVal(s[q..]), UVal(s[..q]));
  }

  ghost function Zeros(n: nat): (r: seq<Digit>)
    ensures |r| == n && forall i :: 0 <= i < n ==> r[i] == 0
  {
    if n == 0 then [] else [0] + Zeros(n - 1)
  }

  lemma DigitsInserted(s: seq<Digit>, q: nat)
    requires |s| > 0
    ensures SVal(Zeros(q) + s) == Shl(SVal(s), q)
  {
    UValConcat(Zeros(q), s);
    UValZeros(Zeros(q));
    ShlAdd(UVal(s), Radix(|s|), q);
    RadixShl(|s|, q);
  }

  /** Numbers that fit into fewer digits have a redundant top digit. */
  lemma RedundantByRange(s: seq<Digit>)
    requires |s| >= 2
    ensures Redundant(s, |s| - 1) <==> -SignWeight(|s| - 1) <= SVal(s) < SignWeight(|s| - 1)
  {
    if Redundant(s, |s| - 1) {
      DropSign(s);
      SValRange(s[..|s| - 1]);
    } else {
      NormalRange(s);
    }
  }

  /** The value of the top digit bounds the number. */
  lemma TopBounds(s: seq<Digit>, w: int)
    requires |s| > 0
    ensures Signed(s[|s| - 1]) >= w ==> SVal(s) >= w * Radix(|s| - 1)
    ensures Signed(s[|s| - 1]) < w ==> SVal(s) < w * Radix(|s| - 1)
  {
    var n, t := |s| - 1, Signed(s[|s| - 1]);
    SValTop(s);
    UValBound(s[..n]);
    ShlRadix(t, n);
    if t >= w {
      MulLe0(w, t, Radix(n));
    } else {
      MulLe0(t + 1, w, Radix(n));
      MulDistr(t, 1, Radix(n));
    }
  }

  // ------------------------------------------------------ canonical form

  lemma FloorBound(y: int, p: int, w: int)
    requires p > 0
    ensures y / p >= w <==> y >= w * p
  {
    DivMod(y, p);
    if y / p >= w {
      MulLe0(w, y / p, p);
    } else {
      MulLe0(y / p + 1, w, p);
      MulDistr(y / p, 1, p);
    }
  }

  /** The test for a top digit that the shift makes redundant. */
  predicate LosesDigit(top: Digit, r: nat)
    requires 0 < r < 32
  {
    var mask := ShlDigit(0xFFFF_FFFF, r - 1);
    if IsNegative(top) then And(top, mask) == mask else Shr(top, r - 1) == 0
  }

  lemma LosesDigitMeans(top: Digit, r: nat)
    requires 0 < r < 32
    ensures LosesDigit(top, r) <==> -Pow2(r - 1) <= Signed(top) < Pow2(r - 1)
  {
    var p, t := Pow2(r - 1), Pow2(33 - r);
    Pow2Mono(r - 1, 31);
    Pow2Of32();
    SplitPow2Of32(r - 1);
    ShlDigitMeans(0xFFFF_FFFF, r - 1);
    ShrMeans(top, r - 1);
    MaskDigit(p);
    if IsNegative(top) {
      AndHighMask(top, r - 1, 32);
      MaskReached(top, p, t);
    } else {
      FloorBound(top, p, 1);
    }
  }

  lemma MaskDigit(p: int)
    requires 0 < p <= 0x1_0000_0000
    ensures 0xFFFF_FFFF * p % 0x1_0000_0000 == 0x1_0000_0000 - p
  {
    assert 0xFFFF_FFFF * p == 0x1_0000_0000 * (p - 1) + (0x1_0000_0000 - p);
  }

  lemma MaskReached(x: int, p: int, t: int)
    requires p > 0 && p * t == 0x1_0000_0000 && 0 <= x < 0x1_0000_0000
    ensures x - x % p == 0x1_0000_0000 - p <==> x >= 0x1_0000_0000 - p
  {
    DivMod(x, p);
    MulDistr(t, 1, p);
    if x >= 0x1_0000_0000 - p {
      RemainderUnique(x, p, t - 1, x - (t - 1) * p);
    }
  }

  /** What a right shift by r < 32 bits makes of s. */
  ghost function RightShifted(s: seq<Digit>, r: nat): (t: seq<Digit>)
    requires |s| > 0 && 0 < r < 32
    ensures |t| == |s|
  {
    Shifted(s, SignDigit(s[|s| - 1]), r)
  }

  lemma HalfWeights(m: nat, r: nat)
    requires 0 < r < 32 && m >= 2
    ensures SignWeight(m - 1) * Pow2(r) == Pow2(r - 1) * Radix(m - 1)
  {
    var p, x := Pow2(r - 1), Radix(m - 2);
    MulSwap(p, 0x1_0000_0000, x);
    MulAssoc(0x8000_0000, x, 2 * p);
    MulSwap(x, 2, p);
  }

  /** The test decides whether the top digit is redundant after the shift. */
  lemma ReductionTest(s: seq<Digit>, r: nat)
    requires |s| >= 2 && 0 < r < 32
    ensures LosesDigit(s[|s| - 1], r) <==> Redundant(RightShifted(s, r), |s| - 1)
  {
    var m, p, w := |s|, Pow2(r), SignWeight(|s| - 1);
    ShiftedRight(s, r);
    RedundantByRange(RightShifted(s, r));
    LosesDigitMeans(s[m - 1], r);
    HalfWeights(m, r);
    TopBounds(s, Pow2(r - 1));
    TopBounds(s, -Pow2(r - 1));
    FloorBound(SVal(s), p, w);
    FloorBound(SVal(s), p, -w);
    NegatedProducts(w, p, Pow2(r - 1), Radix(m - 1));
  }

  lemma NegatedProducts(a: int, b: int, c: int, d: int)
    requires a * b == c * d
    ensures (-a) * b == (-c) * d
  {
  }

  /** At most one digit becomes redundant by the shift of a canonical number. */
  lemma RightNormal(s: seq<Digit>, r: nat)
    requires Normal(s) && 0 < r < 32
    ensures var t := RightShifted(s, r);
      if |t| >= 2 && Redundant(t, |t| - 1) then Normal(t[..|t| - 1]) && SVal(t[..|t| - 1]) == SVal(t) else Normal(t)
  {
    var t, m := RightShifted(s, r), |s|;
    if m >= 2 && Redundant(t, m - 1) {
      DropSign(t);
      if m >= 3 {
        ShiftedRight(s, r);
        NormalRange(s);
        StaysLarge(SVal(s), m, r);
        NormalByRange(t[..m - 1]);
      }
    }
  }

  /** A shift by less than a digit cannot make two digits redundant. */
  lemma StaysLarge(x: int, m: nat, r: nat)
    requires m >= 3 && 0 < r < 32 && (x >= SignWeight(m - 1) || x < -SignWeight(m - 1))
    ensures x / Pow2(r) >= SignWeight(m - 2) || x / Pow2(r) < -SignWeight(m - 2)
  {
    Pow2Mono(r, 31);
    Pow2Of32();
    WeightTimesShift(m, Pow2(r));
    LargeQuotient(x, Pow2(r), SignWeight(m - 2), SignWeight(m - 1));
  }

  lemma LargeQuotient(x: int, p: int, w: int, bound: int)
    requires p > 0 && w * p <= bound && (x >= bound || x < -bound)
    ensures x / p >= w || x / p < -w
  {
    FloorBound(x, p, w);
    FloorBound(x, p, -w);
    NegatedProducts(w, p, w, p);
  }

  lemma WeightTimesShift(m: nat, p: int)
    requires m >= 3 && 0 < p <= 0x8000_0000
    ensures 0 <= SignWeight(m - 2) * p <= SignWeight(m - 1)
  {
    MulLe(SignWeight(m - 2), SignWeight(m - 2), p, 0x1_0000_0000);
  }

  /** A left shift is the right shift of the number with a zero digit below. */
  lemma LeftIsRight(s: seq<Digit>, l: nat)
    requires |s| > 0 && 0 < l < 32
    ensures SVal(RightShifted([0] + s, 32 - l)) == SVal(s) * Pow2(l)
  {
    var p := Pow2(32 - l);
    ShiftedRight([0] + s, 32 - l);
    DigitsInserted(s, 1);
    assert Zeros(1) + s == [0] + s;
    SplitPow2Of32(l);
    QuotientOfMultiple(SVal(s), Pow2(l), p);
  }

  lemma QuotientOfMultiple(x: int, a: int, b: int)
    requires a * b == 0x1_0000_0000 && b > 0
    ensures (0x1_0000_0000 * x) / b == x * a
  {
    MulAssoc(x, a, b);
    RemainderUnique(0x1_0000_0000 * x, b, x * a, 0);
  }

  lemma ZeroBelow(s: seq<Digit>)
    requires Normal(s) && SVal(s) != 0
    ensures Normal([0] + s)
  {
    if |s| == 1 {
      SingleDigit(s);
    }
  }

  lemma ZerosBelow(s: seq<Digit>, q: nat)
    requires Normal(s) && SVal(s) != 0
    ensures Normal(Zeros(q) + s)
  {
    if |s| == 1 {
      SingleDigit(s);
    }
  }

  // --------------------------------------------------------------- laws

  lemma DivDiv(x: int, a: int, b: int)
    requires a > 0 && b > 0
    ensures a * b > 0 && (x / a) / b == x / (a * b)
  {
    MulLe(1, a, 1, b);
    DivMod(x, a);
    var y := x / a;
    DivMod(y, b);
    MulDistr(y / b * b, y % b, a);
    MulAssoc(y / b, b, a);
    MulLe(0, y % b, a, a);
    MulLe(y % b, b - 1, a, a);
    MulDistr(b, 1, a);
    RemainderUnique(x, a * b, y / b, (y % b) * a + x % a);
  }

  /** A right shift undoes a left shift. */
  lemma ShiftRoundTrip(x: int, k: nat)
    ensures (x * Pow2(k)) / Pow2(k) == x
  {
    RemainderUnique(x * Pow2(k), Pow2(k), x, 0);
  }

  /** Shifting twice is shifting by the sum. */
  lemma ShiftsAdd(x: int, j: nat, k: nat)
    ensures (x * Pow2(j)) * Pow2(k) == x * Pow2(j + k)
    ensures (x / Pow2(j)) / Pow2(k) == x / Pow2(j + k)
  {
    Pow2Add(j, k);
    MulAssoc(x, Pow2(j), Pow2(k));
    DivDiv(x, Pow2(j), Pow2(k));
  }
}
