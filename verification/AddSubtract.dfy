/** Addition and subtraction of signed big integers (src/big_rtl.c). A difference
    is the sum with the complement and a carry of 1. */
module AddSubtract {
  import opened Digits
  import opened Carries
  import opened BigRecord

  // ---------------------------------------------------------- signed sums

  /** A digit string that is congruent to a value in range has that value. */
  lemma ModuloValue(s: seq<Digit>, x: int, k: int)
    requires |s| > 0 && -SignWeight(|s|) <= x < SignWeight(|s|)
    requires UVal(s) + Shl(k, |s|) == x
    ensures SVal(s) == x
  {
    SValRange(s);
    UValBound(s);
    var n := |s|;
    ShlOne(n);
    ShlRadix(-1, n);
    ShlMono(k, 0, n);
    ShlMono(k, -1, n);
    ShlMono(k, -2, n);
    ShlRadix(-2, n);
    ShlMono(1, k, n);
  }

  /** Sign digits from position m to n are worth Radix(n) - Radix(m). */
  lemma ShlPlusSign(s: seq<Digit>, m: nat, n: nat, sign: Digit)
    requires m <= n <= |s|
    ensures Shl(PlusSign(s, m, n, sign), m)
         == Shl(UVal(s[m..n]), m) + (if sign == 0 then 0 else Radix(n) - Radix(m))
  {
    var u, i := UVal(s[m..n]), n - m;
    if sign == 0 {
      assert PlusSign(s, m, n, sign) == u;
    } else {
      assert PlusSign(s, m, n, sign) == u + (Radix(i) - 1);
      ShlSignDigits(u, i, m);
      assert i + m == n;
    }
  }

  lemma ShlSignDigits(u: int, i: nat, m: nat)
    ensures Shl(u + (Radix(i) - 1), m) == Shl(u, m) + (Radix(i + m) - Radix(m))
  {
    ShlAdd(u, Radix(i) - 1, m);
    ShlAdd(Radix(i), 1, m);
    ShlOne(m);
    RadixShl(i, m);
  }

  /** The sum of the digit strings and of c0 is the sum of the signed values,
      up to a multiple of Radix(n). */
  lemma {:induction false} SignedSum(s: seq<Digit>, t: seq<Digit>, d: seq<Digit>, c0: int, carry1: int, carry: int,
                                     sign: Digit)
    requires 0 < |t| <= |s| == |d|
    requires sign == if IsNegative(t[|t| - 1]) then 0xFFFF_FFFF else 0
    requires Stands(d[..|t|], carry1, UVal(s[..|t|]) + UVal(t) + c0)
    requires Stands(d[|t|..], carry, PlusSign(s, |t|, |s|, sign) + carry1)
    ensures UVal(d) + Shl(carry - SignBits(s, t), |s|) == SVal(s) + SVal(t) + c0
  {
    var n, m := |s|, |t|;
    StandsJoin(d[..m], carry1, UVal(s[..m]) + UVal(t) + c0, d[m..], carry, PlusSign(s, m, n, sign));
    assert d == d[..m] + d[m..] && s[m..n] == s[m..];
    ShlPlusSign(s, m, n, sign);
    UValSplit(s, m);
    ShlAdd(carry, SignBits(s, t), n);
    ShlRadix(SignBits(s, t), n);
  }

  ghost function SignBits(s: seq<Digit>, t: seq<Digit>): int
    requires |s| > 0 && |t| > 0
  {
    (if IsNegative(s[|s| - 1]) then 1 else 0) + (if IsNegative(t[|t| - 1]) then 1 else 0)
  }

  /** 'd' and a carry stand for s + t + c0, where the shorter summand t has been
      continued with its sign digit. */
  ghost predicate Represents(d: seq<Digit>, carry: int, s: seq<Digit>, t: seq<Digit>, c0: int) {
    && 0 < |t| <= |s| == |d|
    && UVal(d) + Shl(carry - SignBits(s, t), |s|) == SVal(s) + SVal(t) + c0
  }

  function SignDigit(d: Digit): Digit {
    if IsNegative(d) then 0xFFFF_FFFF else 0
  }

  /** The result buffer is h1 after the loop over the digits of both summands,
      and h2 after the loop over the digits of the longer one, which reads 'a'. */
  lemma TwoLoops(h1: seq<Digit>, h2: seq<Digit>, a: seq<Digit>, s: seq<Digit>, t: seq<Digit>, c0: int, carry1: int,
                 carry: int)
    requires 0 < |t| <= |s| <= |h1| == |h2| && |s| <= |a|
    requires forall j :: 0 <= j < |t| ==> h2[j] == h1[j]
    requires forall j :: |t| <= j < |s| ==> a[j] == s[j]
    requires Stands(h1[..|t|], carry1, UVal(s[..|t|]) + UVal(t) + c0)
    requires Stands(h2[|t|..|s|], carry, PlusSign(a, |t|, |s|, SignDigit(t[|t| - 1])) + carry1)
    ensures Represents(h2[..|s|], carry, s, t, c0)
  {
    var d := h2[..|s|];
    assert d[..|t|] == h1[..|t|] && d[|t|..] == h2[|t|..|s|];
    assert a[|t|..|s|] == s[|t|..|s|];
    SignedSum(s, t, d, c0, carry1, carry, SignDigit(t[|t| - 1]));
  }

  /** Sums of n-digit numbers fit into one more digit. */
  lemma SumFits(s: seq<Digit>, t: seq<Digit>, c0: int)
    requires 0 < |t| <= |s| && 0 <= c0 <= 1
    ensures -Radix(|s|) <= SVal(s) + SVal(t) <= Radix(|s|) - 2
    ensures -SignWeight(|s| + 1) <= SVal(s) + SVal(t) + c0 < SignWeight(|s| + 1)
  {
    SValRange(s);
    SValRange(t);
    RadixMono(|t| - 1, |s| - 1);
  }

  /** The digit above the sum: what is left of the carry and the sign digits. */
  lemma ExtensionDigit(d: seq<Digit>, carry: int, s: seq<Digit>, t: seq<Digit>, c0: int, top: Digit)
    requires Represents(d, carry, s, t, c0) && 0 <= c0 <= 1
    requires top == (carry - SignBits(s, t)) % 0x1_0000_0000
    ensures SVal(d + [top]) == SVal(s) + SVal(t) + c0
  {
    var n, k := |s|, carry - SignBits(s, t);
    var j := k / 0x1_0000_0000;
    UValSnoc(d, top);
    ShlAdd(top, 0x1_0000_0000 * j, n);
    ShlStep(j, n);
    ShlAdd(0, j, n + 1);
    ShlOne(n + 1);
    SumFits(s, t, c0);
    ModuloValue(d + [top], SVal(s) + SVal(t) + c0, j);
  }

  // ------------------------------------------------------- result digits

  /** r = s + t in the digits of the longer summand. The buffers can be the same. */
  method AddDigits(r: array<Digit>, a: array<Digit>, n: nat, b: array<Digit>, m: nat) returns (carry: Double)
    requires 0 < m <= n && n <= r.Length && n <= a.Length && m <= b.Length
    modifies r
    ensures carry <= 1 && OnlyChanged(r, 0, n)
    ensures Represents(r[..n], carry, old(a[..n]), old(b[..m]), 0)
  {
    ghost var s, t := a[..n], b[..m];
    assert a[..m] == s[..m];
    var sign := SignDigit(b[m - 1]);
    carry := AddInto(r, a, b, m);
    ghost var h1, a1, carry1 := r[..], a[..], carry;
    carry := AddSign(r, a, m, n, carry, sign);
    TwoLoops(h1, r[..], a1, s, t, 0, carry1, carry);
  }

  // ------------------------------------------------------- add in place

  /** Adds the signed number big2 to big1, in the digits that big1 has. */
  method BigAddTo(big1: Big, big2: Big)
    requires big1.Valid() && big2.Valid() && big1.bigdigits != big2.bigdigits && big1.size >= big2.size
    requires -SignWeight(big1.size) <= big1.Value() + big2.Value() < SignWeight(big1.size)
    modifies big1.bigdigits
    ensures OnlyChanged(big1.bigdigits, 0, big1.size)
    ensures big1.Value() == old(big1.Value()) + big2.Value()
  {
    ghost var s, t := big1.Digits(), big2.Digits();
    var carry := AddDigits(big1.bigdigits, big1.bigdigits, big1.size, big2.bigdigits, big2.size);
    ModuloValue(big1.Digits(), SVal(s) + SVal(t), carry as int - SignBits(s, t));
  }

  // ------------------------------------------------------------- addition

  /** Writes the extension digit of a sum, and removes leading sign digits. */
  method Extend(sum: Big, n: nat, top: Digit, ghost carry: int, ghost s: seq<Digit>, ghost t: seq<Digit>, ghost c0: int)
    requires 0 < n == |s| && n + 1 <= sum.bigdigits.Length && 0 <= c0 <= 1
    requires Represents(sum.bigdigits[..n], carry, s, t, c0)
    requires top == (carry - SignBits(s, t)) % 0x1_0000_0000
    modifies sum, sum.bigdigits
    ensures sum.bigdigits == old(sum.bigdigits) && sum.Canonical()
    ensures sum.Value() == SVal(s) + SVal(t) + c0
  {
    ghost var d := sum.bigdigits[..n];
    ExtensionDigit(d, carry, s, t, c0, top);
    sum.bigdigits[n] := top;
    sum.size := n + 1;
    assert sum.Digits() == d + [top];
    Normalize(sum);
  }

  /** The digit that bigAdd and bigSbtr write above a sum. */
  function ExtensionOf(carry: Double, sign1: Digit, sign2: Digit): Digit
    requires carry <= 1
  {
    (carry + sign2 + sign1) % 0x1_0000_0000
  }

  lemma ExtensionMeans(carry: Double, s: seq<Digit>, t: seq<Digit>)
    requires 0 < |s| && 0 < |t| && carry <= 1
    ensures ExtensionOf(carry, SignDigit(s[|s| - 1]), SignDigit(t[|t| - 1])) == (carry - SignBits(s, t)) % 0x1_0000_0000
  {
  }

  method BigAdd(big1: Big, big2: Big) returns (sum: Big)
    requires big1.Valid() && big2.Valid()
    ensures fresh(sum) && fresh(sum.bigdigits) && sum.Canonical()
    ensures sum.Value() == old(big1.Value()) + old(big2.Value())
  {
    var summand1, summand2 := big1, big2;
    if summand2.size > summand1.size {
      summand1, summand2 := big2, big1;
    }
    ghost var s, t := summand1.Digits(), summand2.Digits();
    var n := summand1.size;
    sum := new Big.Alloc(n + 1);
    var carry := AddDigits(sum.bigdigits, summand1.bigdigits, n, summand2.bigdigits, summand2.size);
    ExtensionMeans(carry, s, t);
    var top := ExtensionOf(carry, SignDigit(summand1.bigdigits[n - 1]),
                           SignDigit(summand2.bigdigits[summand2.size - 1]));
    Extend(sum, n, top, carry, s, t, 0);
  }

  // ---------------------------------------------------------- subtraction

  /** The difference of the low digits, as a sum with the complement. */
  lemma DifferenceIsSum(d: seq<Digit>, carry: int, u: int, t: seq<Digit>, t': seq<Digit>)
    requires Stands(d, carry, u - UVal(t) + Radix(|t|)) && t' == Complement(t)
    ensures Stands(d, carry, u + UVal(t') + 1)
  {
    ComplementValue(t);
  }

  /** r = s - t, where the subtrahend t is not longer. The buffers can be the same. */
  method SbtrDigits(r: array<Digit>, a: array<Digit>, n: nat, b: array<Digit>, m: nat) returns (carry: Double)
    requires 0 < m <= n && n <= r.Length && n <= a.Length && m <= b.Length
    modifies r
    ensures carry <= 1 && OnlyChanged(r, 0, n)
    ensures Represents(r[..n], carry, old(a[..n]), Complement(old(b[..m])), 1)
  {
    ghost var s, t := a[..n], Complement(b[..m]);
    assert a[..m] == s[..m];
    var sign: Digit := if IsNegative(b[m - 1]) then 0 else 0xFFFF_FFFF;
    carry := SubInto(r, a, b, m);
    ghost var h1, a1, carry1 := r[..], a[..], carry;
    DifferenceIsSum(h1[..m], carry1, UVal(s[..m]), old(b[..m]), t);
    carry := AddSign(r, a, m, n, carry, sign);
    TwoLoops(h1, r[..], a1, s, t, 1, carry1, carry);
  }

  lemma ComplementSlice(b: seq<Digit>, n: nat)
    requires n <= |b|
    ensures Complement(b[..n]) == Complement(b)[..n]
  {
  }

  /** r = s - t, where the minuend s is the shorter one. */
  method SbtrDigitsShort(r: array<Digit>, a: array<Digit>, m: nat, b: array<Digit>, n: nat) returns (carry: Double)
    requires 0 < m <= n && n <= r.Length && m <= a.Length && n <= b.Length && r != b
    modifies r
    ensures carry <= 1 && OnlyChanged(r, 0, n)
    ensures Represents(r[..n], carry, Complement(old(b[..n])), old(a[..m]), 1)
  {
    ghost var s, t := Complement(b[..n]), a[..m];
    ComplementSlice(b[..n], m);
    ComplementSlice(b[..], n);
    assert b[..n][..m] == b[..m];
    var sign := SignDigit(a[m - 1]);
    carry := SubInto(r, a, b, m);
    ghost var h1, carry1 := r[..], carry;
    DifferenceIsSum(h1[..m], carry1, UVal(t), b[..m], s[..m]);
    carry := SignMinus(r, b, m, n, carry, sign);
    TwoLoops(h1, r[..], Complement(b[..]), s, t, 1, carry1, carry);
  }

  method BigSbtr(minuend: Big, subtrahend: Big) returns (difference: Big)
    requires minuend.Valid() && subtrahend.Valid()
    ensures fresh(difference) && fresh(difference.bigdigits) && difference.Canonical()
    ensures difference.Value() == old(minuend.Value()) - old(subtrahend.Value())
  {
    ghost var s, t := minuend.Digits(), Complement(subtrahend.Digits());
    ComplementSigned(subtrahend.Digits());
    var sign1 := SignDigit(minuend.bigdigits[minuend.size - 1]);
    var sign2: Digit := if IsNegative(subtrahend.bigdigits[subtrahend.size - 1]) then 0 else 0xFFFF_FFFF;
    var n, carry;
    if minuend.size >= subtrahend.size {
      n := minuend.size;
      difference := new Big.Alloc(n + 1);
      carry := SbtrDigits(difference.bigdigits, minuend.bigdigits, n, subtrahend.bigdigits, subtrahend.size);
      ExtensionMeans(carry, s, t);
      Extend(difference, n, ExtensionOf(carry, sign1, sign2), carry, s, t, 1);
    } else {
      n := subtrahend.size;
      difference := new Big.Alloc(n + 1);
      carry := SbtrDigitsShort(difference.bigdigits, minuend.bigdigits, minuend.size, subtrahend.bigdigits, n);
      ExtensionMeans(carry, t, s);
      Extend(difference, n, ExtensionOf(carry, sign2, sign1), carry, t, s, 1);
    }
  }

  // ------------------------------------------------------------- in place

  /** realloc: a larger buffer that starts with the same digits. */
  method Resize(big1: Big, capacity: nat)
    requires big1.Valid() && capacity >= big1.size
    modifies big1`bigdigits
    ensures fresh(big1.bigdigits) && big1.bigdigits.Length == capacity && big1.Valid()
    ensures big1.Digits() == old(big1.Digits())
  {
    var d := new Digit[capacity];
    forall i | 0 <= i < big1.size {
      d[i] := big1.bigdigits[i];
    }
    big1.bigdigits := d;
  }

  /** Enlarges the number by one digit above the others. */
  method Enlarge(big1: Big, top: Digit)
    requires big1.Valid()
    modifies big1
    ensures fresh(big1.bigdigits) && big1.Valid() && big1.size == old(big1.size) + 1
    ensures big1.Digits() == old(big1.Digits()) + [top]
  {
    Resize(big1, big1.size + 1);
    big1.size := big1.size + 1;
    big1.bigdigits[big1.size - 1] := top;
  }

  /** A borrow that is propagated is the addition of sign digits. */
  lemma BorrowIsSign(d: seq<Digit>, carry: int, s: seq<Digit>, m: nat, n: nat, carryIn: int)
    requires m <= n <= |s| && |d| == n - m
    requires Stands(d, carry - 1, UVal(s[m..n]) + carryIn - 1)
    ensures Stands(d, carry, PlusSign(s, m, n, 0xFFFF_FFFF) + carryIn)
  {
    ShlAdd(carry, 1, n - m);
    ShlOne(n - m);
  }

  /** The digits above the shorter operand, with an early exit. */
  method PropagateSign(r: array<Digit>, m: nat, n: nat, carryIn: Double, sign: Digit) returns (carry: Double)
    requires m <= n <= r.Length && carryIn <= 1 && (sign == 0 || sign == 0xFFFF_FFFF)
    modifies r
    ensures carry <= 1 && OnlyChanged(r, m, n)
    ensures Stands(r[m..n], carry, PlusSign(old(r[..]), m, n, sign) + carryIn)
  {
    ghost var s := r[..];
    if sign != 0 {
      carry := PropagateBorrow(r, m, n, carryIn);
      BorrowIsSign(r[m..n], carry, s, m, n, carryIn);
    } else {
      carry := PropagateCarry(r, m, n, carryIn);
    }
  }

  /** The extension digit is a sign digit. */
  lemma ExtensionIsSign(d: seq<Digit>, carry: int, s: seq<Digit>, t: seq<Digit>, c0: int, top: Digit)
    requires Represents(d, carry, s, t, c0) && 0 <= c0 <= 1
    requires top == (carry - SignBits(s, t)) % 0x1_0000_0000
    ensures top == 0 || top == 0xFFFF_FFFF
    ensures (top == 0xFFFF_FFFF) == IsNegative(d[|d| - 1]) ==> SVal(d) == SVal(s) + SVal(t) + c0
    ensures (top == 0xFFFF_FFFF) != IsNegative(d[|d| - 1]) ==> Normal(d + [top])
  {
    var n, k := |s|, carry - SignBits(s, t);
    SumFits(s, t, c0);
    UValBound(d);
    SignedBounds(k, n);
    ShlRadix(k, n);
  }

  /** A digit string with an extension digit that only repeats its sign. */
  lemma ExtensionRepeats(d: seq<Digit>, top: Digit)
    requires |d| > 0
    requires if IsNegative(d[|d| - 1]) then top == 0xFFFF_FFFF else top == 0
    ensures SVal(d) == SVal(d + [top])
  {
    DropSign(d + [top]);
    assert (d + [top])[..|d|] == d;
  }

  /** The end of the in-place additions: the number is enlarged only if the sum x
      does not fit. */
  method ExtendInPlace(big1: Big, carry: Digit, ghost x: int)
    requires big1.Valid() && SVal(big1.Digits() + [carry]) == x
    requires carry <= 1 || carry >= 0xFFFF_FFFE
    modifies big1, big1.bigdigits
    ensures big1.bigdigits == old(big1.bigdigits) || fresh(big1.bigdigits)
    ensures big1.Canonical() && big1.Value() == x
  {
    var big1_size := big1.size;
    ghost var d := big1.Digits();
    if (carry != 0 || IsNegative(big1.bigdigits[big1_size - 1]))
       && (carry != 0xFFFF_FFFF || !IsNegative(big1.bigdigits[big1_size - 1])) {
      Enlarge(big1, carry);
    } else {
      ExtensionRepeats(d, carry);
      Normalize(big1);
    }
  }

  /** The extension digit of a sum that has been computed in place. */
  method ExtendSum(big1: Big, carry: Double, sign1: Digit, sign2: Digit, ghost s: seq<Digit>, ghost t: seq<Digit>,
                   ghost c0: int)
    requires big1.Valid() && Represents(big1.Digits(), carry, s, t, c0) && 0 <= c0 <= 1 && carry <= 1
    requires sign1 == SignDigit(s[|s| - 1]) && sign2 == SignDigit(t[|t| - 1])
    modifies big1, big1.bigdigits
    ensures big1.bigdigits == old(big1.bigdigits) || fresh(big1.bigdigits)
    ensures big1.Canonical() && big1.Value() == SVal(s) + SVal(t) + c0
  {
    ExtensionMeans(carry, s, t);
    var top := ExtensionOf(carry, sign1, sign2);
    ExtensionIsSign(big1.Digits(), carry, s, t, c0, top);
    ExtensionDigit(big1.Digits(), carry, s, t, c0, top);
    ExtendInPlace(big1, top, SVal(s) + SVal(t) + c0);
  }

  /** big1 += delta, if delta does not have more digits. */
  method AddShorter(big1: Big, delta: Big)
    requires big1.Valid() && delta.Valid() && delta.size <= big1.size
    requires big1 == delta || big1.bigdigits != delta.bigdigits
    modifies big1, big1.bigdigits
    ensures big1.bigdigits == old(big1.bigdigits) || fresh(big1.bigdigits)
    ensures big1.Canonical() && big1.Value() == old(big1.Value()) + old(delta.Value())
  {
    ghost var s, t := big1.Digits(), delta.Digits();
    var n, m := big1.size, delta.size;
    var big1_sign := SignDigit(big1.bigdigits[n - 1]);
    var delta_sign := SignDigit(delta.bigdigits[m - 1]);
    var carry := AddInto(big1.bigdigits, big1.bigdigits, delta.bigdigits, m);
    ghost var h1, carry1 := big1.bigdigits[..], carry;
    assert old(big1.bigdigits[..m]) == s[..m];
    carry := PropagateSign(big1.bigdigits, m, n, carry, delta_sign);
    TwoLoops(h1, big1.bigdigits[..], h1, s, t, 0, carry1, carry);
    ExtendSum(big1, carry, big1_sign, delta_sign, s, t, 0);
  }

  /** big1 += delta, if delta has more digits. */
  method AddLonger(big1: Big, delta: Big)
    requires big1.Valid() && delta.Valid() && big1.size < delta.size && big1.bigdigits != delta.bigdigits
    modifies big1, big1.bigdigits
    ensures fresh(big1.bigdigits)
    ensures big1.Canonical() && big1.Value() == old(big1.Value()) + old(delta.Value())
  {
    ghost var s, t := big1.Digits(), delta.Digits();
    var n, m := big1.size, delta.size;
    var big1_sign := SignDigit(big1.bigdigits[n - 1]);
    var delta_sign := SignDigit(delta.bigdigits[m - 1]);
    Resize(big1, m + 1);
    var carry := AddDigits(big1.bigdigits, delta.bigdigits, m, big1.bigdigits, n);
    ExtensionMeans(carry, t, s);
    Extend(big1, m, ExtensionOf(carry, delta_sign, big1_sign), carry, t, s, 0);
  }

  /** big1 += delta. Both can be the same object. */
  method BigAddAssign(big1: Big, delta: Big)
    requires big1.Valid() && delta.Valid() && (big1 == delta || big1.bigdigits != delta.bigdigits)
    modifies big1, big1.bigdigits
    ensures big1.bigdigits == old(big1.bigdigits) || fresh(big1.bigdigits)
    ensures big1.Canonical() && big1.Value() == old(big1.Value()) + old(delta.Value())
  {
    if big1.size >= delta.size {
      AddShorter(big1, delta);
    } else {
      AddLonger(big1, delta);
    }
  }

  /** big1 -= delta, if delta does not have more digits. */
  method SubtractShorter(big1: Big, delta: Big)
    requires big1.Valid() && delta.Valid() && delta.size <= big1.size
    requires big1 == delta || big1.bigdigits != delta.bigdigits
    modifies big1, big1.bigdigits
    ensures big1.bigdigits == old(big1.bigdigits) || fresh(big1.bigdigits)
    ensures big1.Canonical() && big1.Value() == old(big1.Value()) - old(delta.Value())
  {
    ghost var s, t := big1.Digits(), Complement(delta.Digits());
    ComplementSigned(delta.Digits());
    var n, m := big1.size, delta.size;
    var big1_sign := SignDigit(big1.bigdigits[n - 1]);
    var delta_sign: Digit := if IsNegative(delta.bigdigits[m - 1]) then 0 else 0xFFFF_FFFF;
    var carry := SubInto(big1.bigdigits, big1.bigdigits, delta.bigdigits, m);
    ghost var h1, carry1 := big1.bigdigits[..], carry;
    assert old(big1.bigdigits[..m]) == s[..m];
    DifferenceIsSum(h1[..m], carry1, UVal(s[..m]), old(delta.Digits()), t);
    carry := PropagateSign(big1.bigdigits, m, n, carry, delta_sign);
    TwoLoops(h1, big1.bigdigits[..], h1, s, t, 1, carry1, carry);
    ExtendSum(big1, carry, big1_sign, delta_sign, s, t, 1);
  }

  /** big1 -= delta, if delta has more digits. */
  method SubtractLonger(big1: Big, delta: Big)
    requires big1.Valid() && delta.Valid() && big1.size < delta.size && big1.bigdigits != delta.bigdigits
    modifies big1, big1.bigdigits
    ensures fresh(big1.bigdigits)
    ensures big1.Canonical() && big1.Value() == old(big1.Value()) - old(delta.Value())
  {
    ghost var s, t := big1.Digits(), Complement(delta.Digits());
    ComplementSigned(delta.Digits());
    var n, m := big1.size, delta.size;
    var big1_sign := SignDigit(big1.bigdigits[n - 1]);
    var delta_sign: Digit := if IsNegative(delta.bigdigits[m - 1]) then 0 else 0xFFFF_FFFF;
    Resize(big1, m + 1);
    var carry := SbtrDigitsShort(big1.bigdigits, big1.bigdigits, n, delta.bigdigits, m);
    ExtensionMeans(carry, t, s);
    Extend(big1, m, ExtensionOf(carry, delta_sign, big1_sign), carry, t, s, 1);
  }

  /** big1 -= delta. Both can be the same object. */
  method BigSbtrAssign(big1: Big, delta: Big)
    requires big1.Valid() && delta.Valid() && (big1 == delta || big1.bigdigits != delta.bigdigits)
    modifies big1, big1.bigdigits
    ensures big1.bigdigits == old(big1.bigdigits) || fresh(big1.bigdigits)
    ensures big1.Canonical() && big1.Value() == old(big1.Value()) - old(delta.Value())
  {
    if big1.size >= delta.size {
      SubtractShorter(big1, delta);
    } else {
      SubtractLonger(big1, delta);
    }
  }
}
