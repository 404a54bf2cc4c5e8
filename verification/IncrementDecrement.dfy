/** Successor and predecessor, also in place as a transaction (src/big_rtl.c). */
module IncrementDecrement {
  import opened Digits
  import opened Carries
  import opened BigRecord
  import opened AddSubtract

  /** A number outside the range of one digit less is in canonical form. */
  lemma NormalByRange(s: seq<Digit>)
    requires |s| >= 2 && (SVal(s) >= SignWeight(|s| - 1) || SVal(s) < -SignWeight(|s| - 1))
    ensures Normal(s)
  {
    if Redundant(s, |s| - 1) {
      DropSign(s);
      SValRange(s[..|s| - 1]);
    }
  }

  /** A canonical number is neither all masks nor all zeros, unless it has one digit. */
  lemma StopsLoops(s: seq<Digit>)
    requires Normal(s)
    ensures |s| == 1 || exists i :: 0 <= i < |s| && s[i] != 0xFFFF_FFFF
    ensures |s| == 1 || exists i :: 0 <= i < |s| && s[i] != 0
  {
    if |s| >= 2 {
      assert s[|s| - 1] != 0xFFFF_FFFF || s[|s| - 2] != 0xFFFF_FFFF;
      assert s[|s| - 1] != 0 || s[|s| - 2] != 0;
    }
  }

  /** d are the digits after an increment of s that was done modulo Radix(n). */
  ghost predicate Incremented(s: seq<Digit>, d: seq<Digit>) {
    && |s| == |d| > 0 && Normal(s)
    && UVal(d) == if UVal(s) + 1 == Radix(|s|) then 0 else UVal(s) + 1
  }

  /** The number has to be enlarged exactly for the largest value of n digits, and
      can lose one digit exactly if it comes to -Radix(n - 1)/2. */
  lemma IncrementCases(s: seq<Digit>, d: seq<Digit>)
    requires Incremented(s, d)
    ensures var n := |s|;
      && (SVal(s) == SignWeight(n) - 1 <==> IsNegative(d[n - 1]) && !IsNegative(s[n - 1]))
      && (SVal(s) == SignWeight(n) - 1 ==> SVal(d + [0]) == SVal(s) + 1 && Normal(d + [0]))
      && (SVal(s) != SignWeight(n) - 1 ==> SVal(d) == SVal(s) + 1)
    ensures SVal(s) != SignWeight(|s|) - 1 && !(|s| >= 2 && Redundant(d, |s| - 1)) ==> Normal(d)
    ensures |s| >= 2 && SVal(s) != SignWeight(|s|) - 1 && Redundant(d, |s| - 1)
        ==> d[|s| - 1] == 0xFFFF_FFFF && Normal(d[..|s| - 1]) && SVal(d[..|s| - 1]) == SVal(s) + 1
  {
    var n := |s|;
    SValRange(s);
    SValRange(d);
    UValBound(s);
    UValSnoc(d, 0);
    ShlOne(n);
    SValRange(d + [0]);
    UValBound(d);
    if n >= 2 {
      NormalRange(s);
      if SVal(s) != SignWeight(n) - 1 && Redundant(d, n - 1) {
        DropSign(d);
        SValRange(d[..n - 1]);
        if n >= 3 {
          RadixMono(n - 3, n - 2);
          NormalByRange(d[..n - 1]);
        }
      }
    }
  }

  /** The size of the number after an increment of s. */
  method AfterIncrement(big1: Big, negative: bool, ghost s: seq<Digit>)
    requires big1.Valid() && Incremented(s, big1.Digits()) && (negative <==> IsNegative(s[|s| - 1]))
    modifies big1
    ensures big1.bigdigits == old(big1.bigdigits) || fresh(big1.bigdigits)
    ensures big1.Canonical() && big1.Value() == SVal(s) + 1
  {
    ghost var d := big1.Digits();
    IncrementCases(s, d);
    var pos := big1.size;
    if IsNegative(big1.bigdigits[pos - 1]) {
      if !negative {
        Enlarge(big1, 0);
      } else if big1.bigdigits[pos - 1] == 0xFFFF_FFFF && pos >= 2 && IsNegative(big1.bigdigits[pos - 2]) {
        big1.size := big1.size - 1;
        assert big1.Digits() == d[..pos - 1];
      }
    }
  }

  /** big1 += 1. If the number has to be enlarged and there is no memory for it,
      the old digits are restored. */
  method BigIncr(big1: Big, memory: bool) returns (memoryError: bool)
    requires big1.Canonical()
    modifies big1, big1.bigdigits
    ensures big1.bigdigits == old(big1.bigdigits) || fresh(big1.bigdigits)
    ensures big1.Canonical()
    ensures memoryError <==> !memory && old(big1.Value()) == SignWeight(old(big1.size)) - 1
    ensures memoryError ==> big1.size == old(big1.size) && big1.Digits() == old(big1.Digits())
    ensures !memoryError ==> big1.Value() == old(big1.Value()) + 1
  {
    ghost var s := big1.Digits();
    StopsLoops(s);
    assert forall i :: 0 <= i < |s| ==> s[i] == big1.bigdigits[i];
    var negative := big1.Negative();
    IncrementDigits(big1.bigdigits, big1.bigdigits, big1.size);
    IncrementCases(s, big1.Digits());
    memoryError := IsNegative(big1.bigdigits[big1.size - 1]) && !negative && !memory;
    if memoryError {
      Restore(big1, 0xFFFF_FFFF, 0x7FFF_FFFF, s);
    } else {
      AfterIncrement(big1, negative, s);
    }
  }

  /** The loop that undoes an increment or decrement: one pattern for the top
      digit and one for all others. */
  method Restore(big1: Big, low: Digit, top: Digit, ghost s: seq<Digit>)
    requires big1.Valid() && |s| == big1.size && Normal(s)
    requires low == 0 || low == 0xFFFF_FFFF
    requires low == 0 ==> top == 0x8000_0000 && SVal(s) == -SignWeight(|s|)
    requires low != 0 ==> top == 0x7FFF_FFFF && SVal(s) == SignWeight(|s|) - 1
    modifies big1.bigdigits
    ensures big1.Digits() == s
  {
    var pos := big1.size - 1;
    big1.bigdigits[pos] := top;
    while pos != 0
      invariant 0 <= pos < big1.size && big1.bigdigits[big1.size - 1] == top
      invariant forall i :: pos <= i < big1.size - 1 ==> big1.bigdigits[i] == low
    {
      pos := pos - 1;
      big1.bigdigits[pos] := low;
    }
    ghost var r := big1.Digits();
    SValRange(s);
    if low == 0 {
      SignWeightDigits(r);
    } else {
      ComplementSigned(r);
      SignWeightDigits(Complement(r));
      SValRange(Complement(r));
      SValRange(r);
    }
    UValInjective(r, s);
  }

  /** d are the digits after a decrement of s that was done modulo Radix(n). */
  ghost predicate Decremented(s: seq<Digit>, d: seq<Digit>) {
    && |s| == |d| > 0 && Normal(s)
    && UVal(d) == if UVal(s) == 0 then Radix(|s|) - 1 else UVal(s) - 1
  }

  /** The number has to be enlarged exactly for the smallest value of n digits, and
      can lose one digit exactly if it comes to Radix(n - 1)/2 - 1. */
  lemma DecrementCases(s: seq<Digit>, d: seq<Digit>)
    requires Decremented(s, d)
    ensures var n := |s|;
      && (SVal(s) == -SignWeight(n) <==> !IsNegative(d[n - 1]) && IsNegative(s[n - 1]))
      && (SVal(s) == -SignWeight(n) ==> SVal(d + [0xFFFF_FFFF]) == SVal(s) - 1 && Normal(d + [0xFFFF_FFFF]))
      && (SVal(s) != -SignWeight(n) ==> SVal(d) == SVal(s) - 1)
    ensures SVal(s) != -SignWeight(|s|) && !(|s| >= 2 && Redundant(d, |s| - 1)) ==> Normal(d)
    ensures |s| >= 2 && SVal(s) != -SignWeight(|s|) && Redundant(d, |s| - 1)
        ==> d[|s| - 1] == 0 && Normal(d[..|s| - 1]) && SVal(d[..|s| - 1]) == SVal(s) - 1
  {
    var n := |s|;
    SValRange(s);
    SValRange(d);
    UValBound(s);
    UValSnoc(d, 0xFFFF_FFFF);
    ShlMask(n);
    SValRange(d + [0xFFFF_FFFF]);
    UValBound(d);
    if n >= 2 {
      NormalRange(s);
      if SVal(s) != -SignWeight(n) && Redundant(d, n - 1) {
        DropSign(d);
        SValRange(d[..n - 1]);
        if n >= 3 {
          RadixMono(n - 3, n - 2);
          LargestIsNormal(d[..n - 1]);
        }
      }
    }
  }

  lemma LargestIsNormal(s: seq<Digit>)
    requires |s| >= 2 && SVal(s) == SignWeight(|s|) - 1
    ensures Normal(s)
  {
    RadixMono(0, |s| - 2);
    NormalByRange(s);
  }

  /** The size of the number after a decrement of s. */
  method AfterDecrement(big1: Big, negative: bool, ghost s: seq<Digit>)
    requires big1.Valid() && Decremented(s, big1.Digits()) && (negative <==> IsNegative(s[|s| - 1]))
    modifies big1
    ensures big1.bigdigits == old(big1.bigdigits) || fresh(big1.bigdigits)
    ensures big1.Canonical() && big1.Value() == SVal(s) - 1
  {
    ghost var d := big1.Digits();
    DecrementCases(s, d);
    var pos := big1.size;
    if !IsNegative(big1.bigdigits[pos - 1]) {
      if negative {
        Enlarge(big1, 0xFFFF_FFFF);
      } else if big1.bigdigits[pos - 1] == 0 && pos >= 2 && !IsNegative(big1.bigdigits[pos - 2]) {
        big1.size := big1.size - 1;
        assert big1.Digits() == d[..pos - 1];
      }
    }
  }

  /** big1 -= 1, with the same behaviour when there is no memory. */
  method BigDecr(big1: Big, memory: bool) returns (memoryError: bool)
    requires big1.Canonical()
    modifies big1, big1.bigdigits
    ensures big1.bigdigits == old(big1.bigdigits) || fresh(big1.bigdigits)
    ensures big1.Canonical()
    ensures memoryError <==> !memory && old(big1.Value()) == -SignWeight(old(big1.size))
    ensures memoryError ==> big1.size == old(big1.size) && big1.Digits() == old(big1.Digits())
    ensures !memoryError ==> big1.Value() == old(big1.Value()) - 1
  {
    ghost var s := big1.Digits();
    StopsLoops(s);
    assert forall i :: 0 <= i < |s| ==> s[i] == big1.bigdigits[i];
    var negative := big1.Negative();
    DecrementDigits(big1.bigdigits, big1.bigdigits, big1.size);
    DecrementCases(s, big1.Digits());
    memoryError := !IsNegative(big1.bigdigits[big1.size - 1]) && negative && !memory;
    if memoryError {
      Restore(big1, 0, 0x8000_0000, s);
    } else {
      AfterDecrement(big1, negative, s);
    }
  }

  method BigSucc(big1: Big) returns (successor: Big)
    requires big1.Canonical()
    ensures fresh(successor) && fresh(successor.bigdigits) && successor.Canonical()
    ensures successor.Value() == old(big1.Value()) + 1
  {
    ghost var s := big1.Digits();
    StopsLoops(s);
    assert forall i :: 0 <= i < |s| ==> s[i] == big1.bigdigits[i];
    successor := new Big.Alloc(big1.size);
    IncrementDigits(successor.bigdigits, big1.bigdigits, big1.size);
    AfterIncrement(successor, big1.Negative(), s);
  }

  method BigPred(big1: Big) returns (predecessor: Big)
    requires big1.Canonical()
    ensures fresh(predecessor) && fresh(predecessor.bigdigits) && predecessor.Canonical()
    ensures predecessor.Value() == old(big1.Value()) - 1
  {
    ghost var s := big1.Digits();
    StopsLoops(s);
    assert forall i :: 0 <= i < |s| ==> s[i] == big1.bigdigits[i];
    predecessor := new Big.Alloc(big1.size);
    DecrementDigits(predecessor.bigdigits, big1.bigdigits, big1.size);
    AfterDecrement(predecessor, big1.Negative(), s);
  }

  // ------------------------------------------------------ a delta of one digit

  /** What is added for delta: its low digit, and sign digits if it is negative. */
  function DigitDelta(delta: int): int {
    delta % 0x1_0000_0000 - (if delta < 0 then 0x1_0000_0000 else 0)
  }

  /** The number with the lowest 32 bits and the sign of delta. */
  lemma DigitDeltaMeans(delta: int)
    ensures (DigitDelta(delta) - delta) % 0x1_0000_0000 == 0
    ensures delta >= 0 ==> 0 <= DigitDelta(delta) < 0x1_0000_0000
    ensures delta < 0 ==> -0x1_0000_0000 <= DigitDelta(delta) < 0
  {
  }

  /** That is the delta itself exactly for 33-bit numbers. */
  lemma DigitDeltaExact(delta: int)
    ensures DigitDelta(delta) == delta <==> -0x1_0000_0000 <= delta < 0x1_0000_0000
  {
  }

  /** The digits of the sum, with the sign digits of a negative delta. */
  lemma DeltaSum(s: seq<Digit>, d: seq<Digit>, h: seq<Digit>, delta: int, carry1: int, carry: int)
    requires |d| == |s| == |h| > 0
    requires d[0] + 0x1_0000_0000 * carry1 == s[0] as int + delta % 0x1_0000_0000
    requires forall j :: 1 <= j < |s| ==> h[j] == s[j]
    requires Stands(d[1..], carry, PlusSign(h, 1, |s|, if delta < 0 then 0xFFFF_FFFF else 0) + carry1)
    ensures UVal(d) + carry * Radix(|s|) == UVal(s) + DigitDelta(delta) + (if delta < 0 then Radix(|s|) else 0)
  {
    var n := |s|;
    var sign: Digit := if delta < 0 then 0xFFFF_FFFF else 0;
    assert h[1..n] == s[1..];
    ShlPlusSign(h, 1, n, sign);
    assert Stands(d[..1], carry1, s[0] + delta % 0x1_0000_0000) by {
      SingleDigit(d[..1]);
      ShlRadix(carry1, 1);
    }
    StandsJoin(d[..1], carry1, s[0] + delta % 0x1_0000_0000, d[1..], carry, PlusSign(h, 1, n, sign));
    assert d == d[..1] + d[1..];
    assert UVal(s) == s[0] + Shl(UVal(s[1..]), 1) by {
      UValSplit(s, 1);
      SingleDigit(s[..1]);
    }
    assert Radix(1) == 0x1_0000_0000;
    ShlRadix(carry, n);
  }

  /** The extension digit of a sum with delta. */
  lemma {:induction false} DeltaExtension(s: seq<Digit>, d: seq<Digit>, delta: int, carry: int, top: Digit)
    requires |d| == |s| > 0 && 0 <= carry <= 1
    requires UVal(d) + carry * Radix(|s|) == UVal(s) + DigitDelta(delta) + (if delta < 0 then Radix(|s|) else 0)
    requires top == (carry + (if delta < 0 then 0xFFFF_FFFF else 0) + SignDigit(s[|s| - 1])) % 0x1_0000_0000
    ensures top <= 1 || top >= 0xFFFF_FFFE
    ensures SVal(d + [top]) == SVal(s) + DigitDelta(delta)
  {
    SValSnoc(d, top);
    ShlRadix(Signed(top), |s|);
    var a, b := if delta < 0 then 1 else 0, if IsNegative(s[|s| - 1]) then 1 else 0;
    assert Signed(top) == carry - a - b;
    TopOfDelta(carry, a, b, Radix(|s|));
  }

  lemma TopOfDelta(carry: int, a: int, b: int, r: int)
    requires 0 <= a <= 1 && 0 <= b <= 1
    ensures (carry - a - b) * r == carry * r - (if a == 1 then r else 0) - (if b == 1 then r else 0)
  {
    MulDistr(carry, 1, r);
    MulDistr(carry, 2, r);
  }

  /** big1 += delta. The source wants delta to be a signed digit; this is what it
      does for every delta. */
  method BigAddAssignSignedDigit(big1: Big, delta: IntType)
    requires big1.Valid()
    modifies big1, big1.bigdigits
    ensures big1.bigdigits == old(big1.bigdigits) || fresh(big1.bigdigits)
    ensures big1.Canonical() && big1.Value() == old(big1.Value()) + DigitDelta(delta)
  {
    ghost var s := big1.Digits();
    var d, n := big1.bigdigits, big1.size;
    var big1_sign := SignDigit(d[n - 1]);
    var sign: Digit := if delta < 0 then 0xFFFF_FFFF else 0;
    var carry: Double := d[0] as Double + delta % 0x1_0000_0000;
    d[0] := carry % 0x1_0000_0000;
    carry := carry / 0x1_0000_0000;
    ghost var h, carry1 := d[..n], carry;
    PlusSignPrefix(d[..], h, 1, n, sign);
    carry := PropagateSign(d, 1, n, carry, sign);
    assert d[..n][1..] == d[1..n];
    var top := (carry + sign + big1_sign) % 0x1_0000_0000;
    DeltaSum(s, d[..n], h, delta, carry1, carry);
    DeltaExtension(s, d[..n], delta, carry, top);
    ExtendInPlace(big1, top, SVal(s) + DigitDelta(delta));
  }

  lemma PlusSignPrefix(s: seq<Digit>, h: seq<Digit>, m: nat, n: nat, sign: Digit)
    requires m <= n <= |s| && h == s[..n]
    ensures PlusSign(s, m, n, sign) == PlusSign(h, m, n, sign)
  {
    assert s[m..n] == h[m..n];
  }
}
