/** Shifts of big integers by any number of bits (src/big_rtl.c). */
module BigShift {
  import opened Digits
  import opened Carries
  import opened Bits
  import opened ShortDivision
  import opened BigRecord
  import opened FlooredDivision
  import opened AddSubtract
  import opened ShiftLaws

  /** x * 2^k, rounded towards negative infinity for negative k. */
  function ShiftLeft(x: int, k: int): int {
    if k >= 0 then x * Pow2(k) else x / Pow2(-k)
  }

  /** What that means: a product, or a quotient rounded down. */
  lemma ShiftedMeans(x: int, k: int, y: int)
    requires y == ShiftLeft(x, k)
    ensures k >= 0 ==> y == x * Pow2(k)
    ensures k <= 0 ==> y * Pow2(-k) <= x < (y + 1) * Pow2(-k)
  {
    if k < 0 {
      FloorBound(x, Pow2(-k), y);
      FloorBound(x, Pow2(-k), y + 1);
    } else if k == 0 {
      assert Pow2(0) == 1;
    }
  }

  // ----------------------------------------------------------- right shift

  /** The loop of the right shifts, from the lowest digit up. Source and
      destination can be the same buffer. */
  method RShiftDigits(dest: array<Digit>, src: array<Digit>, q: nat, n: nat, r: nat)
    returns (low_digit: Digit, high_digit: Digit)
    requires 0 < r < 32 && q < n <= src.Length && n - q - 1 <= dest.Length
    modifies dest
    ensures forall i :: 0 <= i < n - q - 1 ==> dest[i] == JoinedDigit(old(src[q + i]), old(src[q + i + 1]), r)
    ensures OnlyChanged(dest, 0, n - q - 1)
    ensures high_digit == old(src[n - 1]) && low_digit == Shr(high_digit, r)
  {
    high_digit := src[q];
    low_digit := Shr(high_digit, r);
    var i := 0;
    while i < n - q - 1
      invariant 0 <= i <= n - q - 1
      invariant high_digit == old(src[q + i]) && low_digit == Shr(high_digit, r)
      invariant OnlyChanged(dest, 0, i) && (src != dest ==> forall j :: 0 <= j < n ==> src[j] == old(src[j]))
      invariant forall j :: 0 <= j < i ==> dest[j] == JoinedDigit(old(src[q + j]), old(src[q + j + 1]), r)
    {
      high_digit := src[q + i + 1];
      dest[i] := JoinBits(low_digit, high_digit, r, old(src[q + i]));
      low_digit := Shr(high_digit, r);
      i := i + 1;
    }
  }

  /** low_digit | ((high_digit << (32 - r)) & MASK), where low_digit has been shifted. */
  function JoinBits(low_digit: Digit, high_digit: Digit, r: nat, ghost low: Digit): (d: Digit)
    requires 0 < r < 32 && low_digit == Shr(low, r)
    ensures d == JoinedDigit(low, high_digit, r)
  {
    JoinedDigitBounds(low, high_digit, r);
    Or(low_digit, ShlDigit(high_digit, 32 - r))
  }

  lemma NoHighBits(low: Digit, r: nat)
    requires 0 < r < 32
    ensures JoinedDigit(low, 0, r) == Shr(low, r)
  {
    JoinedDigitBounds(low, 0, r);
    ShlOfZero(32 - r);
  }

  /** Floor of the quotient by a power of two, from the digits that are left. */
  lemma RightShiftMeans(s: seq<Digit>, q: nat, r: nat)
    requires |s| > q && r < 32
    ensures r == 0 ==> SVal(s[q..]) == SVal(s) / Pow2(32 * q + r)
    ensures r != 0 ==> SVal(RightShifted(s[q..], r)) == SVal(s) / Pow2(32 * q + r)
  {
    DigitsDropped(s, q);
    Pow2Radix(q);
    if r != 0 {
      ShiftedRight(s[q..], r);
      Pow2Add(32 * q, r);
      DivDiv(SVal(s), Radix(q), Pow2(r));
    }
  }

  /** Nothing but sign bits is left. */
  lemma AllShiftedOut(s: seq<Digit>, rshift: nat)
    requires 0 < |s| <= rshift / 32
    ensures SVal(s) / Pow2(rshift) == if IsNegative(s[|s| - 1]) then -1 else 0
  {
    SValRange(s);
    Pow2Radix(|s|);
    Pow2Mono(32 * |s|, rshift);
    var p := Pow2(rshift);
    if SVal(s) < 0 {
      RemainderUnique(SVal(s), p, -1, SVal(s) + p);
    } else {
      RemainderUnique(SVal(s), p, 0, SVal(s));
    }
  }

  lemma NormalSuffix(s: seq<Digit>, q: nat)
    requires Normal(s) && q < |s|
    ensures Normal(s[q..])
  {
  }

  // ------------------------------------------------------------ left shift

  /** The digits of a left shift by q digits and l > 0 bits. The lowest n digits of
      s are shifted, and e is the digit above them. */
  ghost function LeftShifted(s: seq<Digit>, q: nat, n: nat, e: Digit, l: nat): (d: seq<Digit>)
    requires 0 < l < 32 && n <= |s|
    ensures |d| == q + n + 1 && forall i :: 0 <= i < q ==> d[i] == 0
  {
    Zeros(q) + Shifted([0] + s[..n], e, 32 - l)
  }

  lemma LeftDigit(s: seq<Digit>, q: nat, n: nat, e: Digit, l: nat, i: nat)
    requires 0 < l < 32 && n <= |s| && i <= n
    ensures LeftShifted(s, q, n, e, l)[q + i]
         == JoinedDigit(if i == 0 then 0 else s[i - 1], if i == n then e else s[i], 32 - l)
  {
    var t := [0] + s[..n];
    ShiftedAt(t, e, 32 - l, i);
    assert LeftShifted(s, q, n, e, l)[q + i] == Shifted(t, e, 32 - l)[i];
  }

  /** The loop of the left shifts, from the top digit down. Source and destination
      can be the same buffer. */
  method LShiftDigits(dest: array<Digit>, src: array<Digit>, q: nat, n: nat, e: Digit, l: nat)
    requires 0 < l < 32 && n <= src.Length && q + n < dest.Length
    modifies dest
    ensures dest[..q + n + 1] == LeftShifted(old(src[..]), q, n, e, l)
    ensures OnlyChanged(dest, 0, q + n + 1)
  {
    ghost var s, d := src[..], LeftShifted(src[..], q, n, e, l);
    var low_digit := e;
    var high_digit: Digit := ShlDigit(low_digit, l);
    var pos := n;
    while pos != 0
      invariant 0 <= pos <= n && high_digit == ShlDigit(low_digit, l)
      invariant low_digit == if pos == n then e else s[pos]
      invariant OnlyChanged(dest, q + pos + 1, q + n + 1)
      invariant forall j :: 0 <= j < pos ==> src[j] == s[j]
      invariant forall j :: q + pos < j <= q + n ==> dest[j] == d[j]
    {
      LeftDigit(s, q, n, e, l, pos);
      var before := low_digit;
      low_digit := src[pos - 1];
      dest[q + pos] := HighBits(before, low_digit, high_digit, l);
      high_digit := ShlDigit(low_digit, l);
      pos := pos - 1;
    }
    LeftDigit(s, q, n, e, l, 0);
    HighBitsOnly(low_digit, l);
    dest[q] := high_digit;
    forall i | 0 <= i < q {
      dest[i] := 0;
    }
  }

  /** high_digit | (low_digit >> (32 - l)) */
  function HighBits(ghost before: Digit, low_digit: Digit, high_digit: Digit, l: nat): (d: Digit)
    requires 0 < l < 32 && high_digit == ShlDigit(before, l)
    ensures d == JoinedDigit(low_digit, before, 32 - l)
  {
    JoinedDigitBounds(low_digit, before, 32 - l);
    Or(Shr(low_digit, 32 - l), high_digit)
  }

  lemma {:induction false} ShrOfZero(n: nat)
    ensures Shr(0, n) == 0
  {
    if n > 0 {
      ShrOfZero(n - 1);
    }
  }

  lemma {:induction false} ShlOfZero(n: nat)
    ensures ShlDigit(0, n) == 0
  {
    if n > 0 {
      ShlOfZero(n - 1);
    }
  }

  lemma HighBitsOnly(digit: Digit, l: nat)
    requires 0 < l < 32
    ensures JoinedDigit(0, digit, 32 - l) == ShlDigit(digit, l)
  {
    ShrOfZero(32 - l);
  }

  /** The right shift, by at most 31 bits more than whole digits. */
  method BigRShiftBits(big1: Big, rshift: nat) returns (result: Big)
    requires big1.Canonical() && big1.size > rshift / 32 && rshift % 32 != 0
    ensures fresh(result) && fresh(result.bigdigits) && result.Canonical()
    ensures result.Value() == old(big1.Value()) / Pow2(rshift)
  {
    ghost var s := big1.Digits();
    var size_reduction, digit_rshift := rshift / 32, rshift % 32;
    var m := big1.size - size_reduction;
    ghost var t := s[size_reduction..];
    var result_size := m;
    if result_size > 1 {
      if LosesDigit(big1.bigdigits[big1.size - 1], digit_rshift) {
        result_size := result_size - 1;
      }
      ReductionTest(t, digit_rshift);
    }
    NormalSuffix(s, size_reduction);
    RightNormal(t, digit_rshift);
    RightShiftMeans(s, size_reduction, digit_rshift);
    result := new Big.Alloc(result_size);
    RShiftInto(result.bigdigits, big1.bigdigits, size_reduction, big1.size, digit_rshift, result_size, t);
    assert result.Digits() == RightShifted(t, digit_rshift)[..result_size];
    assert RightShifted(t, digit_rshift)[..m] == RightShifted(t, digit_rshift);
  }

  /** All digits of a right shift but a top digit that there is no room for. */
  method RShiftInto(dest: array<Digit>, src: array<Digit>, q: nat, n: nat, r: nat, result_size: nat,
                    ghost t: seq<Digit>)
    requires 0 < r < 32 && q < n <= src.Length && t == src[q..n]
    requires n - q - 1 <= result_size <= n - q && result_size <= dest.Length
    modifies dest
    ensures dest[..result_size] == RightShifted(t, r)[..result_size]
  {
    var m := n - q;
    var low_digit, high_digit := RShiftDigits(dest, src, q, n, r);
    if m - 1 < result_size {
      NoHighBits(high_digit, r);
      dest[m - 1] := JoinBits(low_digit, SignDigit(high_digit), r, high_digit);
    }
    forall i | 0 <= i < result_size ensures dest[i] == RightShifted(t, r)[i] {
      ShiftedAt(t, SignDigit(t[|t| - 1]), r, i);
    }
  }

  lemma ShiftedPrefix(s: seq<Digit>, m: nat, e: Digit, r: nat)
    requires m < |s| && 0 < r < 32
    ensures Shifted(s[..m], s[m], r) == Shifted(s, e, r)[..m]
  {
    forall i | 0 <= i < m ensures Shifted(s[..m], s[m], r)[i] == Shifted(s, e, r)[i] {
      ShiftedAt(s[..m], s[m], r, i);
      ShiftedAt(s, e, r, i);
    }
  }

  /** The digits that bigLShift leaves, without the zeros below them. */
  ghost function LeftPart(s: seq<Digit>, l: nat): seq<Digit>
    requires |s| > 0 && 0 < l < 32
  {
    var t := RightShifted([0] + s, 32 - l);
    if LosesDigit(s[|s| - 1], 32 - l) then t[..|s|] else t
  }

  lemma LeftPartMeans(s: seq<Digit>, l: nat)
    requires Normal(s) && SVal(s) != 0 && 0 < l < 32
    ensures Normal(LeftPart(s, l)) && SVal(LeftPart(s, l)) == SVal(s) * Pow2(l) != 0
  {
    var t, r := [0] + s, 32 - l;
    ZeroBelow(s);
    assert |t| == |s| + 1 && t[|s|] == s[|s| - 1];
    ReductionTest(t, r);
    RightNormal(t, r);
    LeftIsRight(s, l);
    var u := RightShifted(t, r);
    assert SVal(LeftPart(s, l)) == SVal(u) && Normal(LeftPart(s, l));
    NonzeroProduct(SVal(s), Pow2(l));
  }

  lemma NonzeroProduct(x: int, p: int)
    requires x != 0 && p > 0
    ensures x * p != 0
  {
  }

  /** The loop leaves these digits above q zeros. */
  lemma LeftShiftedMeans(s: seq<Digit>, src: seq<Digit>, q: nat, l: nat)
    requires Normal(s) && SVal(s) != 0 && 0 < l < 32 && |s| <= |src| && src[..|s|] == s
    ensures var top := s[|s| - 1];
      LeftShifted(src, q, if LosesDigit(top, 32 - l) then |s| - 1 else |s|,
                  if LosesDigit(top, 32 - l) then top else SignDigit(top), l) == Zeros(q) + LeftPart(s, l)
  {
    var n, top := |s|, s[|s| - 1];
    if LosesDigit(top, 32 - l) {
      ShiftedPrefix([0] + s, n, SignDigit(top), 32 - l);
      assert ([0] + s)[..n] == [0] + src[..n - 1];
    } else {
      assert [0] + src[..n] == [0] + s;
    }
  }

  lemma DigitShiftValue(s: seq<Digit>, q: nat)
    requires Normal(s) && SVal(s) != 0
    ensures Normal(Zeros(q) + s) && SVal(Zeros(q) + s) == SVal(s) * Pow2(32 * q)
  {
    Pow2Radix(q);
    ZerosBelow(s, q);
    DigitsInserted(s, q);
    ShlRadix(SVal(s), q);
  }

  lemma LeftShiftValue(s: seq<Digit>, q: nat, l: nat)
    requires Normal(s) && SVal(s) != 0 && 0 < l < 32
    ensures Normal(Zeros(q) + LeftPart(s, l))
    ensures SVal(Zeros(q) + LeftPart(s, l)) == SVal(s) * Pow2(32 * q + l)
  {
    LeftPartMeans(s, l);
    DigitShiftValue(LeftPart(s, l), q);
    ShiftsAdd(SVal(s), l, 32 * q);
  }

  lemma {:induction false} ZerosAre(d: seq<Digit>)
    requires forall i :: 0 <= i < |d| ==> d[i] == 0
    ensures d == Zeros(|d|)
  {
    if |d| > 0 {
      ZerosAre(d[1..]);
    }
  }

  /** n digits of src above q zeros. */
  method CopyAboveZeros(dest: array<Digit>, src: array<Digit>, q: nat, n: nat)
    requires n <= src.Length && q + n <= dest.Length && dest != src
    modifies dest
    ensures dest[..q + n] == Zeros(q) + src[..n]
  {
    forall i | 0 <= i < n {
      dest[q + i] := src[i];
    }
    forall i | 0 <= i < q {
      dest[i] := 0;
    }
    ghost var d := dest[..q + n];
    ZerosAre(d[..q]);
    assert d[q..] == src[..n];
    assert d == d[..q] + d[q..];
  }

  /** The left shift of a number other than zero by whole digits. */
  method BigLShiftDigits(big1: Big, q: nat) returns (result: Big)
    requires big1.Canonical() && big1.Value() != 0
    ensures fresh(result) && fresh(result.bigdigits) && result.Canonical()
    ensures result.Value() == old(big1.Value()) * Pow2(32 * q)
  {
    ghost var s := big1.Digits();
    DigitShiftValue(s, q);
    result := new Big.Alloc(big1.size + q);
    CopyAboveZeros(result.bigdigits, big1.bigdigits, q, big1.size);
  }

  /** The size of the result, and where the shift of the digits starts. */
  method LeftShiftPlan(big1: Big, l: nat) returns (n: nat, e: Digit)
    requires big1.Valid() && 0 < l < 32
    ensures var top := big1.bigdigits[big1.size - 1];
      && n == (if LosesDigit(top, 32 - l) then big1.size - 1 else big1.size)
      && e == (if LosesDigit(top, 32 - l) then top else SignDigit(top))
  {
    n, e := big1.size, big1.bigdigits[big1.size - 1];
    if LosesDigit(e, 32 - l) {
      n := n - 1;
    } else {
      e := SignDigit(e);
    }
  }

  method BigLShiftBits(big1: Big, q: nat, l: nat) returns (result: Big)
    requires big1.Canonical() && big1.Value() != 0 && 0 < l < 32
    ensures fresh(result) && fresh(result.bigdigits) && result.Canonical()
    ensures result.Value() == old(big1.Value()) * Pow2(32 * q + l)
  {
    ghost var s, src := big1.Digits(), big1.bigdigits[..];
    LeftShiftValue(s, q, l);
    LeftShiftedMeans(s, src, q, l);
    var n, e := LeftShiftPlan(big1, l);
    result := new Big.Alloc(q + n + 1);
    LShiftDigits(result.bigdigits, big1.bigdigits, q, n, e, l);
  }

  // ----------------------------------------------------- shifts by any amount

  method BigLShift(big1: Big, lshift: IntType) returns (result: Big)
    requires big1.Canonical()
    ensures fresh(result) && fresh(result.bigdigits) && result.Canonical()
    ensures result.Value() == ShiftLeft(old(big1.Value()), lshift)
    ensures lshift >= 0 ==> result.Value() == old(big1.Value()) * Pow2(lshift)
    ensures lshift < 0
        ==> result.Value() * Pow2(-(lshift as int)) <= old(big1.Value()) < (result.Value() + 1) * Pow2(-(lshift as int))
    decreases if lshift < 0 then 1 else 0
  {
    ghost var x := big1.Value();
    ZeroIsOneDigit(big1);
    if lshift < 0 {
      if lshift == INTTYPE_MIN {
        result := BigRShift(big1, INTTYPE_MAX);
        BigRShiftAssign(result, 1);
        ShiftsAdd(x, INTTYPE_MAX, 1);
      } else {
        result := BigRShift(big1, -lshift);
      }
    } else if big1.IsZero() {
      result := OneDigit(0);
    } else if lshift % 32 == 0 {
      result := BigLShiftDigits(big1, lshift / 32);
    } else {
      result := BigLShiftBits(big1, lshift / 32, lshift % 32);
    }
    ShiftedMeans(x, lshift, result.Value());
  }

  /** n digits from q on, to the lowest position. Both can be the same buffer. */
  method MoveDigits(dest: array<Digit>, src: array<Digit>, q: nat, n: nat)
    requires q + n <= src.Length && n <= dest.Length
    modifies dest
    ensures dest[..n] == old(src[q..q + n])
  {
    forall i | 0 <= i < n {
      dest[i] := src[q + i];
    }
  }

  method BigRShift(big1: Big, rshift: IntType) returns (result: Big)
    requires big1.Canonical()
    ensures fresh(result) && fresh(result.bigdigits) && result.Canonical()
    ensures result.Value() == ShiftLeft(old(big1.Value()), -(rshift as int))
    ensures rshift >= 0 ==> result.Value() * Pow2(rshift) <= old(big1.Value()) < (result.Value() + 1) * Pow2(rshift)
    ensures rshift < 0 ==> result.Value() == old(big1.Value()) * Pow2(-(rshift as int))
    decreases if rshift < 0 then 1 else 0
  {
    ghost var x, s := big1.Value(), big1.Digits();
    if rshift < 0 {
      if rshift == INTTYPE_MIN {
        result := BigLShift(big1, INTTYPE_MAX);
        BigLShiftAssign(result, 1);
        ShiftsAdd(x, INTTYPE_MAX, 1);
      } else {
        result := BigLShift(big1, -rshift);
      }
    } else if big1.size <= rshift / 32 {
      AllShiftedOut(s, rshift);
      result := OneDigit(if big1.Negative() then 0xFFFF_FFFF else 0);
    } else if rshift % 32 == 0 {
      RightShiftMeans(s, rshift / 32, 0);
      NormalSuffix(s, rshift / 32);
      result := new Big.Alloc(big1.size - rshift / 32);
      MoveDigits(result.bigdigits, big1.bigdigits, rshift / 32, result.size);
    } else {
      result := BigRShiftBits(big1, rshift);
    }
    ShiftedMeans(x, -(rshift as int), result.Value());
  }

  method BigLShiftAssign(big1: Big, lshift: IntType)
    requires big1.Canonical()
    modifies big1, big1.bigdigits
    ensures big1.bigdigits == old(big1.bigdigits) || fresh(big1.bigdigits)
    ensures big1.Canonical() && big1.Value() == ShiftLeft(old(big1.Value()), lshift)
    ensures lshift >= 0 ==> big1.Value() == old(big1.Value()) * Pow2(lshift)
    ensures lshift < 0
        ==> big1.Value() * Pow2(-(lshift as int)) <= old(big1.Value()) < (big1.Value() + 1) * Pow2(-(lshift as int))
    decreases if lshift < 0 then 1 else 0
  {
    ghost var x := big1.Value();
    if lshift < 0 {
      if lshift == INTTYPE_MIN {
        BigRShiftAssign(big1, INTTYPE_MAX);
        BigRShiftAssign(big1, 1);
        ShiftsAdd(x, INTTYPE_MAX, 1);
      } else {
        BigRShiftAssign(big1, -lshift);
      }
    } else if lshift != 0 {
      LShiftUpAssign(big1, lshift);
    }
    ShiftedMeans(x, lshift, big1.Value());
  }

  method LShiftUpAssign(big1: Big, lshift: IntType)
    requires big1.Canonical() && lshift > 0
    modifies big1, big1.bigdigits
    ensures big1.bigdigits == old(big1.bigdigits) || fresh(big1.bigdigits)
    ensures big1.Canonical() && big1.Value() == old(big1.Value()) * Pow2(lshift)
  {
    ZeroIsOneDigit(big1);
    var result;
    if big1.IsZero() {
      result := OneDigit(0);
      Assign(big1, result);
    } else if lshift % 32 == 0 {
      result := BigLShiftDigits(big1, lshift / 32);
      Assign(big1, result);
    } else {
      LShiftBitsAssign(big1, lshift / 32, lshift % 32);
    }
  }

  /** *big_variable := result */
  method Assign(big1: Big, result: Big)
    requires result.Valid()
    modifies big1
    ensures big1.bigdigits == old(result.bigdigits) && big1.size == old(result.size)
    ensures big1.Valid() && big1.Digits() == old(result.Digits())
  {
    big1.bigdigits, big1.size := result.bigdigits, result.size;
  }

  /** The buffer is reused if the result has as many digits as the number. */
  method LShiftBitsAssign(big1: Big, q: nat, l: nat)
    requires big1.Canonical() && big1.Value() != 0 && 0 < l < 32
    modifies big1, big1.bigdigits
    ensures big1.bigdigits == old(big1.bigdigits) || fresh(big1.bigdigits)
    ensures big1.Canonical() && big1.Value() == old(big1.Value()) * Pow2(32 * q + l)
  {
    ghost var s, src := big1.Digits(), big1.bigdigits[..];
    LeftShiftValue(s, q, l);
    LeftShiftedMeans(s, src, q, l);
    var n, e := LeftShiftPlan(big1, l);
    var result_size := q + n + 1;
    if result_size != big1.size {
      var d := new Digit[result_size];
      LShiftDigits(d, big1.bigdigits, q, n, e, l);
      big1.bigdigits := d;
      big1.size := result_size;
    } else {
      LShiftDigits(big1.bigdigits, big1.bigdigits, q, n, e, l);
    }
    assert big1.Digits() == Zeros(q) + LeftPart(s, l);
  }

  /** The digits from q on, moved to the front. */
  method DropDigits(big1: Big, q: nat)
    requires big1.Canonical() && q < big1.size
    modifies big1, big1.bigdigits
    ensures big1.bigdigits == old(big1.bigdigits)
    ensures big1.Canonical() && big1.Digits() == old(big1.Digits())[q..]
  {
    ghost var s := big1.Digits();
    NormalSuffix(s, q);
    MoveDigits(big1.bigdigits, big1.bigdigits, q, big1.size - q);
    big1.size := big1.size - q;
  }

  method BigRShiftAssign(big1: Big, rshift: IntType)
    requires big1.Canonical()
    modifies big1, big1.bigdigits
    ensures big1.bigdigits == old(big1.bigdigits) || fresh(big1.bigdigits)
    ensures big1.Canonical() && big1.Value() == ShiftLeft(old(big1.Value()), -(rshift as int))
    ensures rshift >= 0 ==> big1.Value() * Pow2(rshift) <= old(big1.Value()) < (big1.Value() + 1) * Pow2(rshift)
    ensures rshift < 0 ==> big1.Value() == old(big1.Value()) * Pow2(-(rshift as int))
    decreases if rshift < 0 then 1 else 0
  {
    ghost var x := big1.Value();
    if rshift < 0 {
      if rshift == INTTYPE_MIN {
        BigLShiftAssign(big1, INTTYPE_MAX);
        BigLShiftAssign(big1, 1);
        ShiftsAdd(x, INTTYPE_MAX, 1);
      } else {
        BigLShiftAssign(big1, -rshift);
      }
    } else {
      RShiftDownAssign(big1, rshift);
    }
    ShiftedMeans(x, -(rshift as int), big1.Value());
  }

  method RShiftDownAssign(big1: Big, rshift: IntType)
    requires big1.Canonical() && rshift >= 0
    modifies big1, big1.bigdigits
    ensures big1.bigdigits == old(big1.bigdigits) || fresh(big1.bigdigits)
    ensures big1.Canonical() && big1.Value() == old(big1.Value()) / Pow2(rshift)
  {
    ghost var s := big1.Digits();
    if big1.size <= rshift / 32 {
      AllShiftedOut(s, rshift);
      var result := OneDigit(if big1.Negative() then 0xFFFF_FFFF else 0);
      Assign(big1, result);
    } else if rshift % 32 == 0 {
      if rshift != 0 {
        RightShiftMeans(s, rshift / 32, 0);
        DropDigits(big1, rshift / 32);
      } else {
        assert Pow2(rshift) == 1;
      }
    } else {
      RShiftBitsAssign(big1, rshift / 32, rshift % 32);
    }
  }

  /** The shift within the buffer, and the removal of the digits that are left over. */
  method RShiftBitsAssign(big1: Big, q: nat, r: nat)
    requires big1.Canonical() && q < big1.size && 0 < r < 32
    modifies big1, big1.bigdigits
    ensures big1.bigdigits == old(big1.bigdigits)
    ensures big1.Canonical() && big1.Value() == old(big1.Value()) / Pow2(32 * q + r)
  {
    ghost var s := big1.Digits();
    ghost var t := s[q..];
    ghost var res := RightShifted(t, r);
    NormalSuffix(s, q);
    RightNormal(t, r);
    RightShiftMeans(s, q, r);
    var d, n, negative := big1.bigdigits, big1.size, big1.Negative();
    SValRange(t);
    SValRange(res);
    FloorBound(SVal(t), Pow2(r), 0);
    ShiftedRight(t, r);
    RShiftInto(d, d, q, n, r, n - q, t);
    assert d[..n - q] == res;
    DropLeftOver(big1, q, n - q, negative, res);
  }

  /** Removes the digits that the shift left over, and a redundant top digit. */
  method DropLeftOver(big1: Big, q: nat, size: nat, negative: bool, ghost res: seq<Digit>)
    requires big1.Valid() && 0 < size == big1.size - q && big1.bigdigits[..size] == res
    requires negative <==> IsNegative(res[size - 1])
    requires if size >= 2 && Redundant(res, size - 1) then Normal(res[..size - 1]) && SVal(res[..size - 1]) == SVal(res)
             else Normal(res)
    modifies big1`size
    ensures big1.Canonical() && big1.Value() == SVal(res)
  {
    var d, pos := big1.bigdigits, size;
    var top := d[pos - 1];
    assert top == res[pos - 1] && (pos >= 2 ==> d[pos - 2] == res[pos - 2]);
    if (negative && top == 0xFFFF_FFFF) || (!negative && top == 0) {
      if q == 0 {
        Normalize(big1);
      } else {
        if pos >= 2 && IsNegative(d[pos - 2]) == negative {
          pos := pos - 1;
        }
        big1.size := pos;
        assert big1.Digits() == res[..pos];
        assert res[..size] == res;
      }
    } else {
      big1.size := pos;
    }
  }

  // ------------------------------------------------------------ round trip

  lemma SameQuotient(x: int, y: int, p: int)
    requires p > 0 && y * p <= x * p < (y + 1) * p
    ensures x == y
  {
    if y < x {
      MulLe0(y + 1, x, p);
    } else if x < y {
      MulLe0(x + 1, y, p);
      MulDistr(x, 1, p);
    }
  }

  /** A right shift undoes a left shift, digit by digit. */
  method ShiftThereAndBack(big1: Big, lshift: IntType) returns (back: Big)
    requires big1.Canonical() && lshift >= 0
    ensures back.Canonical() && back.Digits() == big1.Digits()
  {
    ghost var x, s := big1.Value(), big1.Digits();
    var shifted := BigLShift(big1, lshift);
    back := BigRShift(shifted, lshift);
    SameQuotient(x, back.Value(), Pow2(lshift));
    NormalUnique(back.Digits(), s);
  }
}
