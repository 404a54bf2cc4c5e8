/** Bitwise and, or and exclusive or of big integers (src/big_rtl.c): the digits
    of the shorter number are continued with its sign. */
module Bitwise {
  import opened Digits
  import opened Bits
  import opened DivisionLaws
  import opened BigRecord
  import opened AddSubtract
  import opened ShiftLaws

  datatype BitOp = And | Or | Xor

  function OpBit(op: BitOp, x: int, y: int): (b: int)
    requires 0 <= x <= 1 && 0 <= y <= 1
    ensures 0 <= b <= 1
  {
    match op
    case And => if x == 1 && y == 1 then 1 else 0
    case Or => if x == 1 || y == 1 then 1 else 0
    case Xor => if x != y then 1 else 0
  }

  // ---------------------------------------------------------- specification

  /** Bit i of the two's complement representation, which has no end. */
  ghost function Bit(x: int, i: nat): (b: int)
    ensures 0 <= b <= 1
    decreases i
  {
    if i == 0 then x % 2 else Bit(x / 2, i - 1)
  }

  /** It is the lowest bit of x shifted right by i. */
  lemma {:induction false} BitMeans(x: int, i: nat)
    ensures Bit(x, i) == x / Pow2(i) % 2
    decreases i
  {
    if i > 0 {
      BitMeans(x / 2, i - 1);
      DivDiv(x, 2, Pow2(i - 1));
    }
  }

  /** r is made of the bits of x and y. */
  ghost predicate IsBitwise(op: BitOp, x: int, y: int, r: int) {
    forall i: nat :: Bit(r, i) == OpBit(op, Bit(x, i), Bit(y, i))
  }

  /** Numbers with the same bits are equal. */
  lemma {:induction false} BitsDetermine(x: int, y: int)
    requires forall i: nat :: Bit(x, i) == Bit(y, i)
    ensures x == y
    decreases Abs(x) + Abs(y)
  {
    assert Bit(x, 0) == Bit(y, 0);
    if (x != 0 && x != -1) || (y != 0 && y != -1) {
      forall i: nat ensures Bit(x / 2, i) == Bit(y / 2, i) {
        assert Bit(x, i + 1) == Bit(y, i + 1);
      }
      BitsDetermine(x / 2, y / 2);
    }
  }

  lemma Halves(op: BitOp, x: int, y: int, r: int)
    requires IsBitwise(op, x, y, r)
    ensures IsBitwise(op, x / 2, y / 2, r / 2)
    ensures r % 2 == OpBit(op, x % 2, y % 2)
  {
    assert Bit(r, 0) == OpBit(op, Bit(x, 0), Bit(y, 0));
    forall i: nat ensures Bit(r / 2, i) == OpBit(op, Bit(x / 2, i), Bit(y / 2, i)) {
      assert Bit(r, i + 1) == OpBit(op, Bit(x, i + 1), Bit(y, i + 1));
    }
  }

  lemma {:induction false} ConstantBits(x: int, i: nat)
    requires x == 0 || x == -1
    ensures Bit(x, i) == if x == 0 then 0 else 1
    decreases i
  {
    if i > 0 {
      ConstantBits(x / 2, i - 1);
    }
  }

  /** Operands without other bits than their sign. */
  lemma SignsOnly(op: BitOp, x: int, y: int, r: int)
    requires IsBitwise(op, x, y, r) && (x == 0 || x == -1) && (y == 0 || y == -1)
    ensures r == -OpBit(op, -x, -y)
  {
    var c := -OpBit(op, -x, -y);
    forall i: nat ensures Bit(r, i) == Bit(c, i) {
      ConstantBits(x, i);
      ConstantBits(y, i);
      ConstantBits(c, i);
    }
    BitsDetermine(r, c);
  }

  /** And and or together have the bits of both operands; exclusive or has those
      of or that are not in and. */
  lemma {:induction false} AndOrXor(x: int, y: int, a: int, o: int, e: int)
    requires IsBitwise(And, x, y, a) && IsBitwise(Or, x, y, o) && IsBitwise(Xor, x, y, e)
    ensures a + o == x + y && e == o - a
    decreases Abs(x) + Abs(y)
  {
    if (x == 0 || x == -1) && (y == 0 || y == -1) {
      SignsOnly(And, x, y, a);
      SignsOnly(Or, x, y, o);
      SignsOnly(Xor, x, y, e);
    } else {
      Halves(And, x, y, a);
      Halves(Or, x, y, o);
      Halves(Xor, x, y, e);
      AndOrXor(x / 2, y / 2, a / 2, o / 2, e / 2);
    }
  }

  // -------------------------------------------------------------- digits

  /** The operation on the lowest n bits. */
  function OpBits(op: BitOp, x: nat, y: nat, n: nat): (r: nat)
    ensures r < Pow2(n)
  {
    if n == 0 then 0 else OpBit(op, x % 2, y % 2) + 2 * OpBits(op, x / 2, y / 2, n - 1)
  }

  /** The operation on two digits. */
  function DigitOp(op: BitOp, x: Digit, y: Digit): Digit {
    Pow2Of32();
    OpBits(op, x, y, 32)
  }

  lemma {:induction false} OpHalves(op: BitOp, x: nat, y: nat, n: nat)
    requires n > 0
    ensures OpBits(op, x, y, n) % 2 == OpBit(op, x % 2, y % 2)
    ensures OpBits(op, x, y, n) / 2 == OpBits(op, x / 2, y / 2, n - 1)
  {
    var b, h := OpBit(op, x % 2, y % 2), OpBits(op, x / 2, y / 2, n - 1);
    assert OpBits(op, x, y, n) == b + 2 * h;
  }

  lemma {:induction false} BitOfOp(op: BitOp, x: nat, y: nat, n: nat, i: nat)
    requires i < n
    ensures Bit(OpBits(op, x, y, n), i) == OpBit(op, Bit(x, i), Bit(y, i))
    decreases n
  {
    OpHalves(op, x, y, n);
    if i > 0 {
      BitOfOp(op, x / 2, y / 2, n - 1, i - 1);
    }
  }

  /** The bits of a number that is put together from d and v. */
  lemma {:induction false} JoinedBits(d: int, v: int, k: nat, i: nat)
    requires 0 <= d < Pow2(k)
    ensures Bit(d + Pow2(k) * v, i) == if i < k then Bit(d, i) else Bit(v, i - k)
    decreases k
  {
    if k > 0 {
      var h := Pow2(k - 1) * v;
      MulAssoc(2, Pow2(k - 1), v);
      assert d + Pow2(k) * v == d + 2 * h;
      if i > 0 {
        JoinedBits(d / 2, v, k - 1, i - 1);
      }
    }
  }

  lemma BitsOfTwo(d: Digit, v: int, i: nat)
    ensures Bit(d + 0x1_0000_0000 * v, i) == if i < 32 then Bit(d, i) else Bit(v, i - 32)
  {
    Pow2Of32();
    JoinedBits(d, v, 32, i);
  }

  /** Bit i of a digit string: the digits, and above them the sign. */
  ghost function DigitsBit(s: seq<Digit>, i: nat): int
    requires |s| > 0
  {
    if i < 32 * |s| then Bit(s[i / 32], i % 32) else if IsNegative(s[|s| - 1]) then 1 else 0
  }

  /** The bits of the value are those of the digits. */
  lemma {:induction false} BitOfDigits(s: seq<Digit>, i: nat)
    requires |s| > 0
    ensures Bit(SVal(s), i) == DigitsBit(s, i)
    decreases |s|
  {
    if |s| == 1 {
      SingleDigit(s);
      BitsOfTwo(s[0], if IsNegative(s[0]) then -1 else 0, i);
      if i >= 32 {
        ConstantBits(if IsNegative(s[0]) then -1 else 0, i - 32);
      }
    } else {
      assert SVal(s) == s[0] + 0x1_0000_0000 * SVal(s[1..]);
      BitsOfTwo(s[0], SVal(s[1..]), i);
      if i >= 32 {
        BitOfDigits(s[1..], i - 32);
      }
    }
  }

  /** The digit of a number at position i, which can be above its last digit. */
  function DigitOrSign(s: seq<Digit>, i: nat): Digit
    requires |s| > 0
  {
    if i < |s| then s[i] else SignDigit(s[|s| - 1])
  }

  lemma SignBit(d: Digit)
    ensures Bit(d, 31) == if IsNegative(d) then 1 else 0
  {
    Pow2Of32();
    JoinedBits(d % 0x8000_0000, d / 0x8000_0000, 31, 31);
  }

  lemma {:induction false} SignDigitBits(d: Digit, i: nat)
    requires i < 32
    ensures Bit(SignDigit(d), i) == if IsNegative(d) then 1 else 0
  {
    BitsOfTwo(0xFFFF_FFFF, -1, i);
    ConstantBits(-1, i);
    ConstantBits(0, i);
  }

  /** The bits of a number in terms of digits that may be above its last one. */
  lemma ExtendedBits(s: seq<Digit>, i: nat)
    requires |s| > 0
    ensures Bit(SVal(s), i) == Bit(DigitOrSign(s, i / 32), i % 32)
  {
    BitOfDigits(s, i);
    if i / 32 >= |s| {
      SignDigitBits(s[|s| - 1], i % 32);
    }
  }

  /** The digits of the operation on two numbers, and its sign. */
  lemma {:induction false} BitwiseDigits(op: BitOp, s: seq<Digit>, t: seq<Digit>, r: seq<Digit>)
    requires 0 < |t| <= |s| == |r|
    requires forall i :: 0 <= i < |r| ==> r[i] == DigitOp(op, s[i], DigitOrSign(t, i))
    ensures IsBitwise(op, SVal(s), SVal(t), SVal(r))
  {
    forall i: nat ensures Bit(SVal(r), i) == OpBit(op, Bit(SVal(s), i), Bit(SVal(t), i)) {
      BitwiseAt(op, s, t, r, i);
    }
  }

  lemma {:induction false} BitwiseAt(op: BitOp, s: seq<Digit>, t: seq<Digit>, r: seq<Digit>, i: nat)
    requires 0 < |t| <= |s| == |r|
    requires forall i :: 0 <= i < |r| ==> r[i] == DigitOp(op, s[i], DigitOrSign(t, i))
    ensures Bit(SVal(r), i) == OpBit(op, Bit(SVal(s), i), Bit(SVal(t), i))
  {
    var p, n := i / 32, |s| - 1;
    ExtendedBits(s, i);
    ExtendedBits(t, i);
    ExtendedBits(r, i);
    if p <= n {
      BitOfOp(op, s[p], DigitOrSign(t, p), 32, i % 32);
    } else {
      BitOfOp(op, s[n], DigitOrSign(t, n), 32, 31);
      SignBit(s[n]);
      SignBit(DigitOrSign(t, n));
      SignBit(r[n]);
      SignDigitBits(s[n], i % 32);
      SignDigitBits(t[|t| - 1], i % 32);
      SignDigitBits(r[n], i % 32);
    }
  }

  lemma Commutes(op: BitOp, x: int, y: int, r: int)
    requires IsBitwise(op, y, x, r)
    ensures IsBitwise(op, x, y, r)
  {
  }

  // ------------------------------------------------------------- methods

  /** The loops over the digits of both numbers and over those of the longer one. */
  method OpDigits(d: array<Digit>, op: BitOp, big1: Big, big2: Big)
    requires big1.Valid() && big2.Valid() && big2.size <= big1.size <= d.Length
    requires d != big1.bigdigits && d != big2.bigdigits
    modifies d
    ensures forall i :: 0 <= i < big1.size ==> d[i] == DigitOp(op, big1.Digits()[i], DigitOrSign(big2.Digits(), i))
  {
    ghost var s, t := big1.Digits(), big2.Digits();
    var pos := 0;
    while pos < big2.size
      invariant 0 <= pos <= big2.size
      invariant forall i :: 0 <= i < pos ==> d[i] == DigitOp(op, s[i], DigitOrSign(t, i))
    {
      d[pos] := DigitOp(op, big1.bigdigits[pos], big2.bigdigits[pos]);
      pos := pos + 1;
    }
    var big2_sign := SignDigit(big2.bigdigits[pos - 1]);
    while pos < big1.size
      invariant big2.size <= pos <= big1.size
      invariant forall i :: 0 <= i < pos ==> d[i] == DigitOp(op, s[i], DigitOrSign(t, i))
    {
      d[pos] := DigitOp(op, big1.bigdigits[pos], big2_sign);
      pos := pos + 1;
    }
  }

  method CombineDigits(op: BitOp, big1: Big, big2: Big) returns (result: Big)
    requires big1.Valid() && big2.Valid() && big2.size <= big1.size
    ensures fresh(result) && fresh(result.bigdigits) && result.Canonical()
    ensures IsBitwise(op, big1.Value(), big2.Value(), result.Value())
  {
    result := new Big.Alloc(big1.size);
    OpDigits(result.bigdigits, op, big1, big2);
    BitwiseDigits(op, big1.Digits(), big2.Digits(), result.Digits());
    Normalize(result);
  }

  method Combine(op: BitOp, big1: Big, big2: Big) returns (result: Big)
    requires big1.Valid() && big2.Valid()
    ensures fresh(result) && fresh(result.bigdigits) && result.Canonical()
    ensures IsBitwise(op, big1.Value(), big2.Value(), result.Value())
  {
    if big2.size > big1.size {
      result := CombineDigits(op, big2, big1);
      Commutes(op, big1.Value(), big2.Value(), result.Value());
    } else {
      result := CombineDigits(op, big1, big2);
    }
  }

  method BigAnd(big1: Big, big2: Big) returns (result: Big)
    requires big1.Valid() && big2.Valid()
    ensures fresh(result) && fresh(result.bigdigits) && result.Canonical()
    ensures IsBitwise(And, big1.Value(), big2.Value(), result.Value())
    ensures forall i: nat ::
      Bit(result.Value(), i) == 1 <==> Bit(old(big1.Value()), i) == 1 && Bit(old(big2.Value()), i) == 1
  {
    result := Combine(And, big1, big2);
  }

  method BigOr(big1: Big, big2: Big) returns (result: Big)
    requires big1.Valid() && big2.Valid()
    ensures fresh(result) && fresh(result.bigdigits) && result.Canonical()
    ensures IsBitwise(Or, big1.Value(), big2.Value(), result.Value())
    ensures forall i: nat ::
      Bit(result.Value(), i) == 1 <==> Bit(old(big1.Value()), i) == 1 || Bit(old(big2.Value()), i) == 1
  {
    result := Combine(Or, big1, big2);
  }

  method BigXor(big1: Big, big2: Big) returns (result: Big)
    requires big1.Valid() && big2.Valid()
    ensures fresh(result) && fresh(result.bigdigits) && result.Canonical()
    ensures IsBitwise(Xor, big1.Value(), big2.Value(), result.Value())
    ensures forall i: nat ::
      Bit(result.Value(), i) == 1 <==> Bit(old(big1.Value()), i) != Bit(old(big2.Value()), i)
  {
    result := Combine(Xor, big1, big2);
  }
}
