/** The greatest common divisor of big integers (src/big_rtl.c). */
module BigGcd {
  import opened Digits
  import opened Carries
  import opened Bits
  import opened DivisionLaws
  import opened BigRecord
  import opened ShortDivision
  import opened SignedDivision
  import opened FlooredDivision
  import opened AddSubtract
  import opened IncrementDecrement
  import opened BigShift
  import opened GcdLaws

  /** The number of lowest-order zero bits. */
  function LeastSignificantBit(d: nat): nat
    requires d > 0
  {
    if d % 2 == 1 then 0 else 1 + LeastSignificantBit(d / 2)
  }

  /** x is 2 ^ k times an odd number. */
  ghost predicate OddTimes(x: int, k: nat, odd: int) {
    x == Pow2(k) * odd && odd % 2 == 1
  }

  lemma {:induction false} DigitOddPart(d: nat) returns (odd: nat)
    requires d > 0
    ensures OddTimes(d, LeastSignificantBit(d), odd) && odd > 0
  {
    if d % 2 == 1 {
      odd := d;
    } else {
      odd := DigitOddPart(d / 2);
      MulAssoc(2, Pow2(LeastSignificantBit(d / 2)), odd);
    }
  }

  lemma LowestBitOfDigit(d: Digit, odd: nat)
    requires d > 0 && odd > 0 && d == Pow2(LeastSignificantBit(d)) * odd
    ensures LeastSignificantBit(d) <= 31
  {
    var r := LeastSignificantBit(d);
    if r > 31 {
      Pow2Mono(32, r);
      Pow2Of32();
      MulLe(1, odd, Pow2(r), Pow2(r));
      assert false;
    }
  }

  /** Zero digits and the lowest nonzero digit determine the odd part. */
  lemma OddPart(s: seq<Digit>, q: nat) returns (odd: int)
    requires q < |s| && s[q] > 0 && forall i :: 0 <= i < q ==> s[i] == 0
    ensures OddTimes(UVal(s), 32 * q + LeastSignificantBit(s[q]), odd)
  {
    var r, t := LeastSignificantBit(s[q]), UVal(s[q + 1..]);
    var o := DigitOddPart(s[q]);
    LowestBitOfDigit(s[q], o);
    UValSplit(s, q);
    UValZeros(s[..q]);
    assert s[q..][1..] == s[q + 1..];
    SplitPow2Of32(r);
    assert Pow2(32 - r) == 2 * Pow2(31 - r);
    OddSum(s[q], t, Pow2(r), o, Pow2(32 - r), Pow2(31 - r));
    odd := o + Pow2(32 - r) * t;
    WholeOddPart(UVal(s), UVal(s[q..]), q, r, odd);
  }

  lemma WholeOddPart(x: int, y: int, q: nat, r: nat, odd: int)
    requires x == Shl(y, q) && y == Pow2(r) * odd && odd % 2 == 1
    ensures OddTimes(x, 32 * q + r, odd)
  {
    ShlRadix(y, q);
    Pow2Radix(q);
    Pow2Add(32 * q, r);
    MulAssoc(Radix(q), Pow2(r), odd);
  }

  lemma {:induction false} OddSum(d: int, t: int, p: int, o: int, c: int, h: int)
    requires d == p * o && o % 2 == 1 && p * c == 0x1_0000_0000 && c == 2 * h
    ensures d + 0x1_0000_0000 * t == p * (o + c * t)
    ensures (o + c * t) % 2 == 1
  {
    MulDistr(o, c * t, p);
    MulAssoc(p, c, t);
    EvenProduct(c, t, h);
    OddPlusEven(o, c * t, h * t);
  }

  lemma OddPlusEven(o: int, x: int, y: int)
    requires o % 2 == 1 && x == 2 * y
    ensures (o + x) % 2 == 1
  {
  }

  lemma EvenProduct(c: int, t: int, h: int)
    requires c == 2 * h
    ensures c * t == 2 * (h * t)
  {
  }

  // ------------------------------------------------------------- methods

  /** Only numbers of at least 2 ^ 58 digits have bits that intType cannot number. */
  const RANGE_SIZE: nat := 0x400_0000_0000_0000

  /** A canonical number of at most n digits that is not negative. */
  ghost predicate Operand(big: Big, n: nat)
    reads big, big.bigdigits
  {
    0 < n && big.Canonical() && 0 <= big.Value() < SignWeight(n)
  }

  lemma SizeByValue(s: seq<Digit>, n: nat)
    requires Normal(s) && 0 < n && 0 <= SVal(s) < SignWeight(n)
    ensures |s| <= n
  {
    if |s| > n {
      NormalRange(s);
      RadixMono(n - 1, |s| - 2);
    }
  }

  lemma EvenDifference(p: int, odd: int, h: int)
    requires odd % 2 == 1
    ensures p * odd - p * (2 * h) == p * (odd - 2 * h) && (odd - 2 * h) % 2 == 1
  {
    MulDistr(odd, 2 * h, p);
  }

  /** The sign does not change the lowest bit that is set. */
  lemma SignedOddPart(s: seq<Digit>, k: nat, odd: int) returns (odd': int)
    requires |s| > 0 && k < 32 * |s| && OddTimes(UVal(s), k, odd)
    ensures OddTimes(SVal(s), k, odd')
  {
    odd' := odd;
    if IsNegative(s[|s| - 1]) {
      var h := Pow2(32 * |s| - k - 1);
      assert Radix(|s|) == Pow2(k) * (2 * h) by {
        Pow2Radix(|s|);
        Pow2Add(k, 32 * |s| - k);
        assert Pow2(32 * |s| - k) == 2 * h;
      }
      EvenDifference(Pow2(k), odd, h);
      odd' := odd - 2 * h;
    }
  }

  /** The exception RANGE_ERROR is a result here. */
  datatype BitPosition = Position(bit: IntType) | RangeError

  method BigLowestSetBit(big1: Big) returns (result: BitPosition, ghost k: nat, ghost odd: int)
    requires big1.Canonical()
    ensures big1.Value() == 0 ==> result == Position(-1)
    ensures big1.Value() != 0 ==> OddTimes(big1.Value(), k, odd)
    ensures big1.Value() != 0 ==> big1.Value() == Pow2(k) * odd && odd % 2 == 1
    ensures big1.Value() != 0 ==> result == if k <= INTTYPE_MAX then Position(k) else RangeError
    ensures k < 32 * big1.size
  {
    ghost var s := big1.Digits();
    SValRange(s);
    UValZeros(s);
    k, odd := 0, 0;
    var pos := 0;
    while pos < big1.size && big1.bigdigits[pos] == 0
      invariant 0 <= pos <= big1.size
      invariant forall i :: 0 <= i < pos ==> s[i] == 0
    {
      pos := pos + 1;
    }
    if pos < big1.size {
      var bit := LeastSignificantBit(big1.bigdigits[pos]);
      ghost var o := DigitOddPart(s[pos]);
      LowestBitOfDigit(s[pos], o);
      odd := OddPart(s, pos);
      k := 32 * pos + bit;
      odd := SignedOddPart(s, k, odd);
      NotZero(SVal(s), k, odd);
      if pos > (INTTYPE_MAX - bit) / 32 {
        result := RangeError;
      } else {
        result := Position(bit + 32 * pos);
      }
    } else {
      result := Position(-1);
    }
  }

  lemma NotZero(x: int, k: nat, odd: int)
    requires OddTimes(x, k, odd)
    ensures x != 0
  {
    if odd > 0 {
      MulStrict(0, odd, Pow2(k));
    } else {
      MulStrict(odd, 0, Pow2(k));
    }
  }

  /** The digits of a magnitude, and an extra digit for -SignWeight(n). */
  lemma AbsNormal(s: seq<Digit>, d: seq<Digit>)
    requires Normal(s) && SVal(s) < 0 && |d| == |s| && UVal(d) == -SVal(s)
    ensures IsNegative(d[|d| - 1]) ==> Normal(d + [0]) && SVal(d + [0]) == -SVal(s)
    ensures !IsNegative(d[|d| - 1]) ==> Normal(d) && SVal(d) == -SVal(s)
    ensures IsNegative(d[|d| - 1]) <==> SVal(s) == -SignWeight(|s|)
  {
    SValRange(d);
    SValRange(s);
    ZeroExtended(d);
    if |s| >= 2 {
      NormalRange(s);
      if !IsNegative(d[|d| - 1]) {
        NormalByRange(d);
      }
    }
  }

  /** The absolute value needs one digit more for the lowest number of a size. */
  ghost function AbsSize(big: Big): nat
    requires big.Valid()
    reads big, big.bigdigits
  {
    if big.Value() == -SignWeight(big.size) then big.size + 1 else big.size
  }

  method BigAbs(big1: Big) returns (absoluteValue: Big)
    requires big1.Canonical()
    ensures fresh(absoluteValue) && fresh(absoluteValue.bigdigits) && absoluteValue.Canonical()
    ensures absoluteValue.Value() == Abs(big1.Value()) && absoluteValue.size == AbsSize(big1)
  {
    ghost var s := big1.Digits();
    SValRange(s);
    if big1.Negative() {
      var n := big1.size;
      absoluteValue := new Big.Alloc(n);
      Negate(absoluteValue.bigdigits, big1.bigdigits, n);
      ghost var d := absoluteValue.Digits();
      AbsNormal(s, d);
      if IsNegative(absoluteValue.bigdigits[n - 1]) {
        Enlarge(absoluteValue, 0);
      }
    } else {
      absoluteValue := CopyOf(big1);
    }
  }

  /** The Euclidean algorithm, for operands of very different sizes. */
  method EuclideanGcd(big1: Big, big2: Big, ghost a: nat, ghost b: nat) returns (gcd: Big)
    requires big1.Canonical() && big2.Canonical() && big1.Value() == a && big2.Value() == b
    ensures gcd.Canonical() && gcd.Value() == Gcd(a, b)
    ensures (gcd == big1 || gcd == big2) || (fresh(gcd) && fresh(gcd.bigdigits))
  {
    var big1_help, big2_help := big1, big2;
    ghost var x: nat, y: nat := a, b;
    ZeroIsOneDigit(big1_help);
    while !big1_help.IsZero()
      invariant big1_help.Canonical() && big2_help.Canonical() && big1_help.Value() == x && big2_help.Value() == y
      invariant big1_help.IsZero() <==> x == 0
      invariant Gcd(x, y) == Gcd(a, b)
      invariant big1_help in {big1, big2} || (fresh(big1_help) && fresh(big1_help.bigdigits))
      invariant big2_help in {big1, big2} || (fresh(big2_help) && fresh(big2_help.bigdigits))
      decreases x
    {
      var help_big := BigRem(big2_help, big1_help);
      GcdRemainder(x, y);
      big2_help := big1_help;
      big1_help := help_big.value;
      x, y := y % x, x;
      ZeroIsOneDigit(big1_help);
    }
    GcdZero(y);
    gcd := big2_help;
  }

  // ------------------------------------------------ zeros that can be counted

  ghost function WithoutZeros(x: nat): int
    requires x > 0
  {
    x / Pow2(LeastSignificantBit(x))
  }

  lemma {:induction false} ZerosOf(x: nat, k: nat, odd: int)
    requires OddTimes(x, k, odd) && x > 0
    ensures LeastSignificantBit(x) == k && WithoutZeros(x) == odd && odd % 2 == 1 && 0 < odd <= x
  {
    ShiftedOut(x, k, odd);
    ZerosFrom(x, k, odd);
  }

  lemma {:induction false} ZerosFrom(x: nat, k: nat, odd: int)
    requires OddTimes(x, k, odd) && x > 0
    ensures LeastSignificantBit(x) == k
  {
    if k > 0 {
      MulAssoc(2, Pow2(k - 1), odd);
      ZerosFrom(x / 2, k - 1, odd);
    }
  }

  lemma {:induction false} ZerosDivide(x: nat)
    requires x > 0
    ensures 0 < WithoutZeros(x) <= x && WithoutZeros(x) % 2 == 1 && OddTimes(x, LeastSignificantBit(x), WithoutZeros(x))
  {
    if x % 2 == 1 {
      RemainderUnique(x, 1, x, 0);
    } else {
      ZerosDivide(x / 2);
      var k, odd := LeastSignificantBit(x / 2), WithoutZeros(x / 2);
      MulAssoc(2, Pow2(k), odd);
      RemainderUnique(x, Pow2(k + 1), odd, 0);
    }
  }

  /** The lowest bit that is set is at a position above the largest intType. */
  ghost predicate CannotCount(x: nat) {
    x > 0 && LeastSignificantBit(x) > INTTYPE_MAX
  }

  /** Some number that the loop of the binary algorithm comes to has too many zeros. */
  ghost predicate LoopFails(a: nat, b: nat)
    requires a % 2 == 1
    decreases a + b
  {
    if b == 0 then false
    else if CannotCount(b) then true
    else
      ZerosDivide(b);
      var odd := WithoutZeros(b);
      if a < odd then LoopFails(a, odd - a) else LoopFails(odd, a - odd)
  }

  /** One of the numbers, or one in the loop. */
  ghost predicate BinaryFails(x: nat, y: nat)
    requires x > 0
  {
    ZerosDivide(x);
    CannotCount(x) || CannotCount(y) || LoopFails(WithoutZeros(x), y)
  }

  // ------------------------------------------------------ the binary algorithm

  /** What the loop of the binary algorithm keeps. */
  ghost predicate BinaryState(big1: Big, big2: Big, a: nat, b: nat, g: nat, n: nat)
    reads big1, big1.bigdigits, big2, big2.bigdigits
  {
    && Operand(big1, n) && Operand(big2, n) && big1.bigdigits != big2.bigdigits && big1 != big2
    && big1.Value() == a && big2.Value() == b && a % 2 == 1 && Gcd(a, b) == g
  }

  lemma ShiftedOut(x: nat, k: nat, odd: int)
    requires OddTimes(x, k, odd)
    ensures x / Pow2(k) == odd && 0 <= odd <= x
  {
    RemainderUnique(x, Pow2(k), odd, 0);
    if odd < 0 {
      MulLe0(odd, -1, Pow2(k));
      assert false;
    }
    MulLe(1, Pow2(k), odd, odd);
  }

  /** big := big / 2 ^ k, which is odd. */
  method ShiftOut(big: Big, k: IntType, ghost odd: int, ghost n: nat)
    requires Operand(big, n) && k >= 0 && OddTimes(big.Value(), k, odd)
    modifies big, big.bigdigits
    ensures big.bigdigits == old(big.bigdigits) || fresh(big.bigdigits)
    ensures Operand(big, n) && big.Value() == odd
  {
    ShiftedOut(big.Value(), k, odd);
    BigRShiftAssign(big, k);
  }

  /** big without its lowest zero bits, unless they are too many to be counted. */
  method ShiftOutZeros(big: Big, ghost n: nat) returns (result: BitPosition, ghost k: nat, ghost odd: int)
    requires Operand(big, n) && big.Value() > 0
    modifies big, big.bigdigits
    ensures big.bigdigits == old(big.bigdigits) || fresh(big.bigdigits)
    ensures OddTimes(old(big.Value()), k, odd) && (result.RangeError? ==> n > RANGE_SIZE)
    ensures result.RangeError? <==> CannotCount(old(big.Value()))
    ensures result.Position? ==> result.bit == k && Operand(big, n) && big.Value() == odd
  {
    SizeByValue(big.Digits(), n);
    result, k, odd := BigLowestSetBit(big);
    ZerosOf(big.Value(), k, odd);
    if result.Position? {
      ShiftOut(big, result.bit, odd, n);
    }
  }

  /** One round: the larger number is replaced by the difference. */
  method BinaryStep(big1: Big, big2: Big, ghost a: nat, ghost b: nat, ghost g: nat, ghost n: nat)
    returns (okay: bool, big1': Big, big2': Big, ghost a': nat, ghost b': nat)
    requires BinaryState(big1, big2, a, b, g, n) && b > 0
    modifies big1, big1.bigdigits, big2, big2.bigdigits
    ensures !okay ==> n > RANGE_SIZE && LoopFails(a, b)
    ensures okay ==> BinaryState(big1', big2', a', b', g, n) && a' + b' < a + b
    ensures okay ==> LoopFails(a', b') == LoopFails(a, b)
    ensures big1' in {big1, big2} || fresh(big1')
    ensures big2' in {big1, big2} || fresh(big2')
    ensures big1'.bigdigits in {old(big1.bigdigits), old(big2.bigdigits)} || fresh(big1'.bigdigits)
    ensures big2'.bigdigits in {old(big1.bigdigits), old(big2.bigdigits)} || fresh(big2'.bigdigits)
  {
    ghost var k: nat, odd: int;
    var position;
    position, k, odd := ShiftOutZeros(big2, n);
    okay, big1', big2', a', b' := position.Position?, big1, big2, a, b;
    if okay {
      ZerosOf(b, k, odd);
      GcdShift(a, odd, k);
      big1', big2', a', b' := SubtractSmaller(big1, big2, a, odd, g, n);
    }
  }

  method SubtractSmaller(big1: Big, big2: Big, ghost a: nat, ghost b: nat, ghost g: nat, ghost n: nat)
    returns (big1': Big, big2': Big, ghost a': nat, ghost b': nat)
    requires BinaryState(big1, big2, a, b, g, n) && b % 2 == 1
    modifies big1, big1.bigdigits, big2, big2.bigdigits
    ensures BinaryState(big1', big2', a', b', g, n) && a' + b' < a + b
    ensures if a < b then a' == a && b' == b - a else a' == b && b' == a - b
    ensures big1' in {big1, big2} || fresh(big1')
    ensures big2' in {big1, big2} || fresh(big2')
    ensures big1'.bigdigits in {old(big1.bigdigits), old(big2.bigdigits)} || fresh(big1'.bigdigits)
    ensures big2'.bigdigits in {old(big1.bigdigits), old(big2.bigdigits)} || fresh(big2'.bigdigits)
  {
    var signum := BigCmp(big1, big2);
    if signum < 0 {
      GcdSubtract(a, b);
      BigSbtrAssign(big2, big1);
      big1', big2', a', b' := big1, big2, a, b - a;
    } else {
      GcdSwap(a, b);
      GcdSubtract(b, a);
      var help_big := BigSbtr(big1, big2);
      big1', big2', a', b' := big2, help_big, b, a - b;
    }
  }

  /** The loop of the binary algorithm. It works on its own copies. */
  method BinaryLoop(big1: Big, big2: Big, ghost a: nat, ghost b: nat, ghost g: nat, ghost n: nat)
    returns (okay: bool, gcd: Big)
    requires BinaryState(big1, big2, a, b, g, n) && b > 0
    modifies big1, big1.bigdigits, big2, big2.bigdigits
    ensures (!okay <==> LoopFails(a, b)) && (!okay ==> n > RANGE_SIZE)
    ensures okay ==> gcd.Canonical() && gcd.Value() == g
    ensures gcd in {big1, big2} || fresh(gcd)
    ensures gcd.bigdigits in {old(big1.bigdigits), old(big2.bigdigits)} || fresh(gcd.bigdigits)
  {
    var big1_help, big2_help := big1, big2;
    ghost var x, y := a, b;
    okay := true;
    ZeroIsOneDigit(big2_help);
    while okay && !big2_help.IsZero()
      invariant !okay ==> n > RANGE_SIZE && LoopFails(a, b)
      invariant okay ==> BinaryState(big1_help, big2_help, x, y, g, n) && LoopFails(x, y) == LoopFails(a, b)
      invariant okay ==> (big2_help.IsZero() <==> y == 0)
      invariant big1_help in {big1, big2} || fresh(big1_help)
      invariant big2_help in {big1, big2} || fresh(big2_help)
      invariant big1_help.bigdigits in {old(big1.bigdigits), old(big2.bigdigits)} || fresh(big1_help.bigdigits)
      invariant big2_help.bigdigits in {old(big1.bigdigits), old(big2.bigdigits)} || fresh(big2_help.bigdigits)
      decreases okay, x + y
    {
      okay, big1_help, big2_help, x, y := BinaryStep(big1_help, big2_help, x, y, g, n);
      if okay {
        ZeroIsOneDigit(big2_help);
      }
    }
    GcdZero(x);
    gcd := big1_help;
  }

  lemma OddGcd(a: nat, b: nat, i: nat, j: nat, oddA: int, oddB: int)
    requires OddTimes(a, i, oddA) && OddTimes(b, j, oddB)
    ensures oddA >= 0
    ensures Gcd(a, b) == Gcd(oddA, b) * Pow2(if i < j then i else j)
  {
    ShiftedOut(a, i, oddA);
    ShiftedOut(b, j, oddB);
    GcdOddParts(oddA, oddB, i, j);
    GcdShift(oddA, oddB, j);
  }

  /** Makes big1 odd. The common power of two is 2 ^ shift. */
  method OddFirst(big1: Big, big2: Big, ghost n: nat)
    returns (okay: bool, shift: IntType, ghost a: nat, ghost b: nat, ghost g: nat)
    requires Operand(big1, n) && Operand(big2, n) && big1.Value() > 0 && big2.Value() > 0
    requires big1 != big2 && big1.bigdigits != big2.bigdigits
    modifies big1, big1.bigdigits
    ensures big1.bigdigits == old(big1.bigdigits) || fresh(big1.bigdigits)
    ensures !okay ==> n > RANGE_SIZE
    ensures !okay <==> CannotCount(old(big1.Value())) || CannotCount(old(big2.Value()))
    ensures okay ==> BinaryState(big1, big2, a, b, g, n) && b > 0
    ensures okay ==> a == WithoutZeros(old(big1.Value())) && b == old(big2.Value())
    ensures okay ==> shift >= 0 && Gcd(old(big1.Value()), old(big2.Value())) == ShiftLeft(g, shift)
  {
    ghost var i: nat, j: nat, oddA: int, oddB: int;
    var lowestSetBitA, lowestSetBitB;
    SizeByValue(big1.Digits(), n);
    SizeByValue(big2.Digits(), n);
    lowestSetBitA, i, oddA := BigLowestSetBit(big1);
    lowestSetBitB, j, oddB := BigLowestSetBit(big2);
    ZerosOf(big1.Value(), i, oddA);
    ZerosOf(big2.Value(), j, oddB);
    okay, shift, a, b, g := lowestSetBitA.Position? && lowestSetBitB.Position?, 0, 0, 0, 0;
    if okay {
      shift := lowestSetBitB.bit;
      OddGcd(big1.Value(), big2.Value(), i, j, oddA, oddB);
      a, b := oddA, big2.Value();
      g := Gcd(a, b);
      if lowestSetBitA.bit < shift {
        shift := lowestSetBitA.bit;
      }
      ShiftOut(big1, lowestSetBitA.bit, oddA, n);
    }
  }

  /** The binary algorithm: the common power of two is restored in the end. */
  method BinaryGcd(big1: Big, big2: Big, ghost n: nat) returns (okay: bool, gcd: Big)
    requires Operand(big1, n) && Operand(big2, n) && big1.Value() > 0 && big2.Value() > 0
    requires big1 != big2 && big1.bigdigits != big2.bigdigits
    modifies big1, big1.bigdigits, big2, big2.bigdigits
    ensures !okay ==> n > RANGE_SIZE
    ensures !okay <==> BinaryFails(old(big1.Value()), old(big2.Value()))
    ensures okay ==> gcd.Canonical() && gcd.Value() == Gcd(old(big1.Value()), old(big2.Value()))
    ensures gcd in {big1, big2} || fresh(gcd)
    ensures gcd.bigdigits in {old(big1.bigdigits), old(big2.bigdigits)} || fresh(gcd.bigdigits)
  {
    ghost var a, b, g;
    var shift;
    gcd := big1;
    ZerosDivide(big1.Value());
    okay, shift, a, b, g := OddFirst(big1, big2, n);
    if okay {
      okay, gcd := BinaryLoop(big1, big2, a, b, g, n);
      if okay {
        BigLShiftAssign(gcd, shift);
      }
    }
  }

  /** The sizes for which the Euclidean algorithm is used. */
  predicate VeryDifferent(size1: nat, size2: nat) {
    (size1 > size2 && size1 - size2 > 10) || (size1 < size2 && size2 - size1 > 10)
  }

  datatype GcdResult = Divisor(value: Big) | GcdRangeError

  /** The divisor of two numbers that are not zero, by the algorithm that suits their sizes. */
  method GcdOfAbs(big1: Big, big2: Big) returns (okay: bool, gcd: Big)
    requires big1.Canonical() && big2.Canonical() && big1.Value() != 0 && big2.Value() != 0
    ensures fresh(gcd) && fresh(gcd.bigdigits)
    ensures okay ==> gcd.Canonical() && gcd.Value() == Gcd(Abs(big1.Value()), Abs(big2.Value()))
    ensures !okay <==> !VeryDifferent(AbsSize(big1), AbsSize(big2))
                       && BinaryFails(Abs(big1.Value()), Abs(big2.Value()))
    ensures !okay ==> big1.size >= RANGE_SIZE || big2.size >= RANGE_SIZE
  {
    ghost var a: nat, b: nat := Abs(big1.Value()), Abs(big2.Value());
    var big1_help := BigAbs(big1);
    var big2_help := BigAbs(big2);
    if VeryDifferent(big1_help.size, big2_help.size) {
      gcd := EuclideanGcd(big1_help, big2_help, a, b);
      okay := true;
    } else {
      ghost var n := if big1.size > big2.size then big1.size + 1 else big2.size + 1;
      AbsFits(big1.Digits(), n);
      AbsFits(big2.Digits(), n);
      okay, gcd := BinaryGcd(big1_help, big2_help, n);
    }
  }

  /** The greatest common divisor, which is never negative. */
  method BigGcd(big1: Big, big2: Big) returns (result: GcdResult)
    requires big1.Canonical() && big2.Canonical()
    ensures result.Divisor? ==> fresh(result.value) && fresh(result.value.bigdigits) && result.value.Canonical()
    ensures result.Divisor? ==> result.value.Value() == Gcd(Abs(big1.Value()), Abs(big2.Value()))
    ensures result.GcdRangeError? <==>
      big1.Value() != 0 && big2.Value() != 0
      && AbsSize(big1) <= AbsSize(big2) + 10 && AbsSize(big2) <= AbsSize(big1) + 10
      && BinaryFails(Abs(big1.Value()), Abs(big2.Value()))
    ensures result.GcdRangeError? ==> big1.size >= RANGE_SIZE || big2.size >= RANGE_SIZE
  {
    ZeroIsOneDigit(big1);
    ZeroIsOneDigit(big2);
    GcdZero(Abs(big1.Value()));
    GcdZero(Abs(big2.Value()));
    var okay, gcd := true, big1;
    if big1.IsZero() {
      gcd := BigAbs(big2);
    } else if big2.IsZero() {
      gcd := BigAbs(big1);
    } else {
      okay, gcd := GcdOfAbs(big1, big2);
    }
    result := if okay then Divisor(gcd) else GcdRangeError;
  }

  lemma AbsFits(s: seq<Digit>, n: nat)
    requires 0 < |s| < n
    ensures Abs(SVal(s)) < SignWeight(n)
  {
    SValRange(s);
    RadixMono(|s|, n - 1);
  }
}
