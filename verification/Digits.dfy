/** Digit sequences in base 2^32, least significant digit first, and the two
    ways of reading them: as an unsigned number and in two's complement. */
module Digits {

  // BIGDIGIT_SIZE is 32. BIGDIGIT_MASK and BIGDIGIT_SIGN are written as literals,
  // so that division and remainder by the base stay linear for the verifier.

  /** bigDigitType: uint32. */
  type Digit = d: int | 0 <= d <= 0xFFFF_FFFF

  /** doubleBigDigitType: uint64. Every accumulator of the carry loops has this
      type, so the verifier shows that none of them overflows. */
  type Double = d: int | 0 <= d <= 0xFFFF_FFFF_FFFF_FFFF

  /** intType: int64. */
  type IntType = x: int | -0x8000_0000_0000_0000 <= x <= 0x7FFF_FFFF_FFFF_FFFF

  const INTTYPE_MIN: int := -0x8000_0000_0000_0000
  const INTTYPE_MAX: int := 0x7FFF_FFFF_FFFF_FFFF

  predicate IsNegative(d: Digit) {
    d >= 0x8000_0000
  }

  /** The digit as a 32-bit two's complement number. */
  function Signed(d: Digit): (r: int)
    ensures -0x8000_0000 <= r < 0x8000_0000
  {
    if IsNegative(d) then d - 0x1_0000_0000 else d
  }

  // -------------------------------------------------------------- weights

  /** x shifted left by n digits: x * 2^(32 n). A recursive function instead of
      a product keeps the arithmetic of the carry loops linear. */
  ghost function Shl(x: int, n: nat): int {
    if n == 0 then x else 0x1_0000_0000 * Shl(x, n - 1)
  }

  /** The weight 2^(32 n) of digit n. */
  ghost function Radix(n: nat): (r: int)
    ensures r > 0
  {
    if n == 0 then 1 else 0x1_0000_0000 * Radix(n - 1)
  }

  lemma {:induction false} ShlAdd(x: int, y: int, n: nat)
    ensures Shl(x + y, n) == Shl(x, n) + Shl(y, n)
    ensures Shl(x - y, n) == Shl(x, n) - Shl(y, n)
  {
    if n > 0 {
      ShlAdd(x, y, n - 1);
    }
  }

  lemma {:induction false} ShlStep(x: int, n: nat)
    ensures Shl(0x1_0000_0000 * x, n) == Shl(x, n + 1)
  {
    if n > 0 {
      ShlStep(x, n - 1);
    }
  }

  lemma {:induction false} ShlMul(x: int, y: int, n: nat)
    ensures Shl(x * y, n) == x * Shl(y, n)
  {
    if n > 0 {
      ShlMul(x, y, n - 1);
      MulSwap(x, 0x1_0000_0000, Shl(y, n - 1));
    }
  }

  lemma {:induction false} ShlOne(n: nat)
    ensures Shl(1, n) == Radix(n) && Shl(0, n) == 0
  {
    if n > 0 {
      ShlOne(n - 1);
    }
  }

  lemma ShlRadix(x: int, n: nat)
    ensures Shl(x, n) == x * Radix(n)
  {
    ShlMul(x, 1, n);
    ShlOne(n);
  }

  lemma {:induction false} ShlMask(n: nat)
    ensures Shl(0xFFFF_FFFF, n) == Radix(n + 1) - Radix(n)
  {
    if n > 0 {
      ShlMask(n - 1);
    }
  }

  lemma {:induction false} ShlShl(x: int, m: nat, n: nat)
    ensures Shl(Shl(x, m), n) == Shl(x, m + n)
  {
    if n > 0 {
      ShlShl(x, m, n - 1);
    }
  }

  lemma {:induction false} ShlMono(x: int, y: int, n: nat)
    ensures x <= y <==> Shl(x, n) <= Shl(y, n)
  {
    if n > 0 {
      ShlMono(x, y, n - 1);
    }
  }

  lemma RadixShl(m: nat, n: nat)
    ensures Shl(Radix(m), n) == Radix(m + n)
  {
    ShlOne(m);
    ShlOne(m + n);
    ShlShl(1, m, n);
  }

  lemma RadixAdd(m: nat, n: nat)
    ensures Radix(m + n) == Radix(m) * Radix(n) == Shl(Radix(m), n)
  {
    RadixShl(m, n);
    ShlRadix(Radix(m), n);
  }

  lemma {:induction false} RadixMono(m: nat, n: nat)
    requires m <= n
    ensures Radix(m) <= Radix(n)
  {
    if m < n {
      RadixMono(m, n - 1);
    }
  }

  // ------------------------------------------------- nonlinear arithmetic

  lemma MulSwap(x: int, k: int, r: int)
    ensures x * (k * r) == k * (x * r)
  {
  }

  lemma MulLe(a: int, b: int, x: int, y: int)
    requires 0 <= a <= b && 0 <= x <= y
    ensures 0 <= a * x <= b * y
  {
  }

  lemma MulLe0(a: int, b: int, x: int)
    requires a <= b && 0 <= x
    ensures a * x <= b * x
  {
  }

  lemma DivMod(t: int, d: int)
    requires d > 0
    ensures t == t / d * d + t % d && 0 <= t % d < d
    ensures t >= 0 ==> t / d >= 0
  {
  }

  /** Quotient and remainder are determined by their equation and range. */
  lemma RemainderUnique(x: int, d: int, q: int, r: int)
    requires d > 0 && 0 <= r < d && x == d * q + r
    ensures q == x / d && r == x % d
  {
    DivMod(x, d);
    var q', r' := x / d, x % d;
    assert d * q + r == q' * d + r';
    if q < q' {
      MulLe0(q + 1, q', d);
      MulDistr(q, 1, d);
      assert false;
    }
    if q' < q {
      MulLe0(q' + 1, q, d);
      MulDistr(q', 1, d);
      assert false;
    }
  }

  lemma MulDistr(a: int, b: int, x: int)
    ensures (a + b) * x == a * x + b * x
    ensures (a - b) * x == a * x - b * x
    ensures x * (a + b) == x * a + x * b
    ensures x * (a - b) == x * a - x * b
  {
  }

  lemma MulAssoc(a: int, b: int, c: int)
    ensures a * (b * c) == (a * b) * c
  {
  }

  lemma MulStrict(a: int, b: int, x: int)
    requires a < b && 0 < x
    ensures a * x < b * x
  {
  }

  // -------------------------------------------------------- unsigned values

  ghost function UVal(s: seq<Digit>): (r: int)
    ensures r >= 0
  {
    if |s| == 0 then 0 else s[0] + 0x1_0000_0000 * UVal(s[1..])
  }

  lemma {:induction false} UValSnoc(s: seq<Digit>, d: Digit)
    ensures UVal(s + [d]) == UVal(s) + Shl(d, |s|)
  {
    if |s| == 0 {
      assert s + [d] == [d];
    } else {
      assert (s + [d])[1..] == s[1..] + [d];
      UValSnoc(s[1..], d);
    }
  }

  /** One more digit of a region of a buffer. */
  lemma UValExtend(s: seq<Digit>, lo: nat, i: nat)
    requires lo <= i < |s|
    ensures UVal(s[lo..i + 1]) == UVal(s[lo..i]) + Shl(s[i], i - lo)
  {
    assert s[lo..i + 1] == s[lo..i] + [s[i]];
    UValSnoc(s[lo..i], s[i]);
  }

  lemma UValPrefix(s: seq<Digit>, i: nat)
    requires i < |s|
    ensures UVal(s[..i + 1]) == UVal(s[..i]) + Shl(s[i], i)
  {
    UValExtend(s, 0, i);
    assert s[0..i] == s[..i] && s[0..i + 1] == s[..i + 1];
  }

  lemma {:induction false} UValConcat(s: seq<Digit>, t: seq<Digit>)
    ensures UVal(s + t) == UVal(s) + Shl(UVal(t), |s|)
  {
    if |s| == 0 {
      assert s + t == t;
    } else {
      assert (s + t)[1..] == s[1..] + t;
      UValConcat(s[1..], t);
    }
  }

  lemma UValSplit(s: seq<Digit>, k: nat)
    requires k <= |s|
    ensures UVal(s) == UVal(s[..k]) + Shl(UVal(s[k..]), k)
  {
    assert s == s[..k] + s[k..];
    UValConcat(s[..k], s[k..]);
  }

  /** Splitting a region of a buffer. */
  lemma UValSplitAt(s: seq<Digit>, lo: nat, k: nat, hi: nat)
    requires lo <= k <= hi <= |s|
    ensures UVal(s[lo..hi]) == UVal(s[lo..k]) + Shl(UVal(s[k..hi]), k - lo)
  {
    assert s[lo..hi] == s[lo..k] + s[k..hi];
    UValConcat(s[lo..k], s[k..hi]);
  }

  lemma {:induction false} UValBound(s: seq<Digit>)
    ensures UVal(s) < Radix(|s|)
  {
    if |s| > 0 {
      UValBound(s[1..]);
    }
  }

  lemma {:induction false} UValZeros(s: seq<Digit>)
    ensures UVal(s) == 0 <==> forall i :: 0 <= i < |s| ==> s[i] == 0
  {
    if |s| > 0 {
      UValZeros(s[1..]);
      if forall i :: 0 <= i < |s| ==> s[i] == 0 {
        assert forall i :: 0 <= i < |s[1..]| ==> s[1..][i] == 0;
      } else {
        var i :| 0 <= i < |s| && s[i] != 0;
        if i > 0 {
          assert s[1..][i - 1] != 0;
        }
      }
    }
  }

  /** Digit strings of one length are determined by their value. */
  lemma {:induction false} UValInjective(s: seq<Digit>, t: seq<Digit>)
    requires |s| == |t| && UVal(s) == UVal(t)
    ensures s == t
  {
    if |s| > 0 {
      UValInjective(s[1..], t[1..]);
      assert s == [s[0]] + s[1..] && t == [t[0]] + t[1..];
    }
  }

  /** A value below Radix(k) has only zero digits from position k on. */
  lemma UValSmall(s: seq<Digit>, k: nat)
    requires k <= |s| && UVal(s) < Radix(k)
    ensures UVal(s[k..]) == 0 && UVal(s) == UVal(s[..k])
    ensures forall i :: k <= i < |s| ==> s[i] == 0
  {
    UValSplit(s, k);
    ShlOne(k);
    ShlMono(1, UVal(s[k..]), k);
    UValZeros(s[k..]);
    forall i | k <= i < |s| ensures s[i] == 0 {
      assert s[k..][i - k] == 0;
    }
  }

  // -------------------------------------------------------- signed values

  ghost function SVal(s: seq<Digit>): int
    requires |s| > 0
  {
    if IsNegative(s[|s| - 1]) then UVal(s) - Radix(|s|) else UVal(s)
  }

  /** Half of Radix(n): the weight of the sign bit of n digits. */
  ghost function SignWeight(n: nat): (r: int)
    requires n > 0
    ensures r > 0 && 2 * r == Radix(n)
  {
    0x8000_0000 * Radix(n - 1)
  }

  /** Digit k only repeats the sign of the digits below it. */
  predicate Redundant(s: seq<Digit>, k: nat)
    requires 0 < k < |s|
  {
    (s[k] == 0 && !IsNegative(s[k - 1])) || (s[k] == 0xFFFF_FFFF && IsNegative(s[k - 1]))
  }

  /** The canonical form: the top digit is not a redundant sign extension. */
  predicate Normal(s: seq<Digit>) {
    |s| > 0 && (|s| >= 2 ==> !Redundant(s, |s| - 1))
  }

  lemma ShlSigned(d: Digit, n: nat)
    ensures Shl(Signed(d), n) == Shl(d, n) - (if IsNegative(d) then Radix(n + 1) else 0)
  {
    ShlAdd(d, 0x1_0000_0000, n);
    ShlStep(1, n);
    ShlOne(n + 1);
  }

  /** Only the top digit carries the sign. */
  lemma SValSnoc(low: seq<Digit>, d: Digit)
    ensures SVal(low + [d]) == UVal(low) + Shl(Signed(d), |low|)
  {
    UValSnoc(low, d);
    ShlSigned(d, |low|);
  }

  lemma SValTop(s: seq<Digit>)
    requires |s| > 0
    ensures SVal(s) == UVal(s[..|s| - 1]) + Shl(Signed(s[|s| - 1]), |s| - 1)
  {
    SValSnoc(s[..|s| - 1], s[|s| - 1]);
    assert s == s[..|s| - 1] + [s[|s| - 1]];
  }

  lemma SingleDigit(s: seq<Digit>)
    requires |s| == 1
    ensures SVal(s) == Signed(s[0]) && UVal(s) == s[0] && Normal(s)
  {
    SValTop(s);
  }

  /** The range of n digits in two's complement, and what the sign bit means. */
  lemma SValRange(s: seq<Digit>)
    requires |s| > 0
    ensures -SignWeight(|s|) <= SVal(s) < SignWeight(|s|)
    ensures IsNegative(s[|s| - 1]) <==> SVal(s) < 0
    ensures IsNegative(s[|s| - 1]) <==> UVal(s) >= SignWeight(|s|)
  {
    SValTop(s);
    var n, t := |s|, Signed(s[|s| - 1]);
    UValBound(s[..n - 1]);
    UValBound(s);
    SignedBounds(t, n - 1);
  }

  lemma SignedBounds(t: int, n: nat)
    ensures t >= -0x8000_0000 ==> Shl(t, n) >= -0x8000_0000 * Radix(n)
    ensures t <= -2 ==> Shl(t, n) <= -2 * Radix(n)
    ensures t <= -1 ==> Shl(t, n) <= -Radix(n)
    ensures t >= 0 ==> Shl(t, n) >= 0
    ensures t >= 1 ==> Shl(t, n) >= Radix(n)
    ensures t <= 0x7FFF_FFFF ==> Shl(t, n) <= 0x7FFF_FFFF * Radix(n)
  {
    ShlRadix(t, n);
    ShlRadix(-0x8000_0000, n);
    ShlRadix(-2, n);
    ShlRadix(-1, n);
    ShlRadix(0x7FFF_FFFF, n);
    ShlOne(n);
    ShlMono(t, -1, n);
    ShlMono(t, -2, n);
    ShlMono(0, t, n);
    ShlMono(1, t, n);
    ShlMono(t, 0x7FFF_FFFF, n);
    ShlMono(-0x8000_0000, t, n);
  }

  /** Dropping a redundant sign digit keeps the value. */
  lemma DropSign(s: seq<Digit>)
    requires |s| >= 2 && Redundant(s, |s| - 1)
    ensures SVal(s[..|s| - 1]) == SVal(s)
  {
    SValTop(s);
    ShlRadix(Signed(s[|s| - 1]), |s| - 1);
  }

  /** Dropping a run of sign digits keeps the value. */
  lemma {:induction false} DropSigns(s: seq<Digit>, k: nat)
    requires 0 < k <= |s|
    requires k < |s| ==> Redundant(s, k)
    requires forall i :: k <= i < |s| ==> s[i] == s[k]
    ensures SVal(s[..k]) == SVal(s)
    decreases |s|
  {
    if k == |s| {
      assert s[..k] == s;
    } else {
      var t := s[..|s| - 1];
      DropSign(s);
      DropSigns(t, k);
      assert t[..k] == s[..k];
    }
  }

  /** A normal number of at least two digits does not fit in one digit less. */
  lemma NormalRange(s: seq<Digit>)
    requires Normal(s) && |s| >= 2
    ensures SVal(s) >= SignWeight(|s| - 1) || SVal(s) < -SignWeight(|s| - 1)
  {
    var n := |s|;
    var low := s[..n - 1];
    SValTop(s);
    SValRange(low);
    UValBound(low);
    SignedBounds(Signed(s[n - 1]), n - 1);
    ShlRadix(Signed(s[n - 1]), n - 1);
  }

  /** The longer of two numbers has the larger absolute value if it is normal. */
  lemma NormalLonger(s: seq<Digit>, t: seq<Digit>)
    requires Normal(s) && |t| > 0
    ensures |s| > |t| && SVal(s) >= 0 ==> SVal(s) > SVal(t)
    ensures |s| > |t| && SVal(s) < 0 ==> SVal(s) < SVal(t)
  {
    if |s| > |t| {
      NormalRange(s);
      SValRange(t);
      RadixMono(|t|, |s| - 1);
    }
  }

  /** No other digits with the same value are fewer. */
  lemma NormalIsShortest(s: seq<Digit>, t: seq<Digit>)
    requires Normal(s) && |t| > 0 && SVal(s) == SVal(t)
    ensures |s| <= |t|
  {
    NormalLonger(s, t);
  }

  /** The canonical form is unique: equal values have equal digits. */
  lemma NormalUnique(s: seq<Digit>, t: seq<Digit>)
    requires Normal(s) && Normal(t) && SVal(s) == SVal(t)
    ensures s == t
  {
    NormalLonger(s, t);
    NormalLonger(t, s);
    SValRange(s);
    SValRange(t);
    UValInjective(s, t);
  }

  lemma ZeroExtended(s: seq<Digit>)
    ensures UVal(s + [0]) == UVal(s)
  {
    UValSnoc(s, 0);
    ShlOne(|s|);
  }

  /** The digits of SignWeight(n), the magnitude that needs an extra digit. */
  lemma SpecialMagnitude(t: seq<Digit>, n: nat)
    requires n > 0 && |t| == n + 1 && UVal(t) == SignWeight(n)
    ensures t[n] == 0 && t[n - 1] == 0x8000_0000
  {
    UValSmall(t, n);
    assert t[..n][..n - 1] == t[..n - 1];
    UValPrefix(t[..n], n - 1);
    UValBound(t[..n - 1]);
    assert t[..n][..n] == t[..n];
    var d, r := t[n - 1], Radix(n - 1);
    ShlRadix(d, n - 1);
    if d > 0x8000_0000 {
      MulLe0(0x8000_0001, d, r);
      assert false;
    }
    if d < 0x8000_0000 {
      MulLe0(d, 0x7FFF_FFFF, r);
      assert false;
    }
  }

  /** The digits of SignWeight(n) are n - 1 zeros below 0x80000000. */
  lemma SignWeightDigits(t: seq<Digit>)
    requires |t| > 0
    ensures UVal(t) == SignWeight(|t|)
       <==> t[|t| - 1] == 0x8000_0000 && forall i :: 0 <= i < |t| - 1 ==> t[i] == 0
  {
    var n := |t| - 1;
    UValPrefix(t, n);
    assert t[..n + 1] == t;
    UValZeros(t[..n]);
    ShlRadix(t[n], n);
    if UVal(t) == SignWeight(|t|) {
      ZeroExtended(t);
      SpecialMagnitude(t + [0], n + 1);
    } else if t[n] == 0x8000_0000 {
      assert UVal(t[..n]) != 0;
      assert exists i :: 0 <= i < n && t[..n][i] != 0;
    }
    if forall i :: 0 <= i < n ==> t[i] == 0 {
      assert forall i :: 0 <= i < n ==> t[..n][i] == 0;
    }
  }
}
