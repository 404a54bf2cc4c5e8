/** Squares of digit strings: each product of two different digits is computed
    once and doubled (src/big_rtl.c). */
module Squaring {
  import opened Digits
  import opened Carries
  import opened RawDigits
  import opened Multiplication
  import opened Karatsuba

  const KARATSUBA_SQUARE_THRESHOLD: nat := 32

  /** carry += digit + 2 * product, of which the low digit is stored. The double
      product can have 65 bits, so its halves are added one after the other. */
  method AddDouble(carryIn: Double, digit: Digit, product: Double) returns (low: Digit, carry: Double)
    requires carryIn <= 0x1_FFFF_FFFF && product <= 0xFFFF_FFFE_0000_0001
    ensures low + 0x1_0000_0000 * carry as int == carryIn + (digit as int + 2 * product as int)
    ensures carry <= 0x1_FFFF_FFFF
  {
    carry := carryIn + digit + product as int * 2 % 0x1_0000_0000;
    low := carry % 0x1_0000_0000;
    carry := carry / 0x1_0000_0000 + product / 0x8000_0000;
  }

  /** Row d of a square has the digits b..b + i behind it: d * d and twice the
      other products. The base is what was there before. */
  ghost function RowValue(base: int, d: int, v: int): int {
    base + d * (2 * v - d)
  }

  lemma RowValueNext(base: int, d: int, v: int, digit: int, p: int, i: nat)
    ensures RowValue(base + Shl(digit, i), d, v + Shl(p, i)) == RowValue(base, d, v) + Shl(digit + 2 * (d * p), i)
  {
    MulDistr(2 * v - d, 2 * Shl(p, i), d);
    ShlMul(d, p, i);
    ShlMul(2, d * p, i);
    ShlAdd(digit, 2 * (d * p), i);
  }

  /** The first i digits of a row are done. In the first row nothing is added to. */
  ghost predicate RowDone(h0: seq<Digit>, h: seq<Digit>, b: nat, r: nat, first: bool, i: nat, carry: int) {
    && 1 <= i && b + i <= |h0| && r + i <= |h0| && 0 <= carry <= 0x1_FFFF_FFFF
    && Rounds(h0, h, r, i, carry, RowValue(if first then 0 else Val(h0, r, i), h0[b], Val(h0, b, i)))
  }

  lemma RowNext(h0: seq<Digit>, h: seq<Digit>, b: nat, n: nat, r: nat, first: bool, i: nat, carry: int,
                low: Digit, carry': int)
    requires RowDone(h0, h, b, r, first, i, carry) && i < n
    requires b + n <= |h0| && r + n < |h0| && Apart(b, n, r, n + 1) && 0 <= carry' <= 0x1_FFFF_FFFF
    requires low + 0x1_0000_0000 * carry'
        == carry + ((if first then 0 else h[r + i]) as int + 2 * Product(h[b], h[b + i]) as int)
    ensures RowDone(h0, h[r + i := low], b, r, first, i + 1, carry')
  {
    var d: int, p: int, digit: int := h0[b], h0[b + i], if first then 0 else h0[r + i];
    var total := carry + (digit + 2 * (d * p));
    assert low == total % 0x1_0000_0000 && carry' == total / 0x1_0000_0000;
    NextRound(h0, h, r, i, carry, RowValue(if first then 0 else Val(h0, r, i), d, Val(h0, b, i)),
              digit + 2 * (d * p), total, h[r + i := low]);
    ValNext(h0, b, i);
    ValNext(h0, r, i);
    ShlOne(i);
    RowValueNext(if first then 0 else Val(h0, r, i), d, Val(h0, b, i), digit, p, i);
  }

  lemma RowStart(h0: seq<Digit>, b: nat, r: nat, first: bool)
    requires b < |h0| && r < |h0| && b != r
    ensures var acc: int := (if first then 0 else h0[r]) + Product(h0[b], h0[b]);
      RowDone(h0, h0[r := acc % 0x1_0000_0000], b, r, first, 1, acc / 0x1_0000_0000)
  {
    var d: int := h0[b];
    DigitProduct(h0[b], h0[b]);
    var base: int := if first then 0 else h0[r];
    var acc: int := base + d * d;
    assert UVal(h0[r..r]) == 0;
    ShlOne(0);
    NextRound(h0, h0, r, 0, 0, 0, acc, acc, h0[r := acc % 0x1_0000_0000]);
    FirstDigitValue(h0, b);
    FirstDigitValue(h0, r);
    assert d * (2 * d - d) == d * d;
  }

  method FirstOfRow(mem: array<Digit>, b: nat, r: nat, first: bool) returns (carry: Double)
    requires Room(mem, b, 1) && Room(mem, r, 1) && b != r
    modifies mem
    ensures RowDone(old(mem[..]), mem[..], b, r, first, 1, carry) && carry <= 0xFFFF_FFFF
  {
    RowStart(mem[..], b, r, first);
    carry := (if first then 0 else mem[r]) + Product(mem[b], mem[b]);
    mem[r] := carry % 0x1_0000_0000;
    carry := carry / 0x1_0000_0000;
  }

  /** The digits of a row, without its last carry. */
  method SquareRow(mem: array<Digit>, b: nat, n: nat, r: nat, first: bool) returns (carry: Double)
    requires 1 <= n && Room(mem, b, n) && Room(mem, r, n + 1) && Apart(b, n, r, n + 1)
    modifies mem
    ensures RowDone(old(mem[..]), mem[..], b, r, first, n, carry)
    ensures n == 1 ==> carry <= 0xFFFF_FFFF
  {
    ghost var h0 := mem[..];
    carry := FirstOfRow(mem, b, r, first);
    var i := 1;
    while i < n
      invariant 1 <= i <= n
      invariant RowDone(h0, mem[..], b, r, first, i, carry)
      invariant i == 1 ==> carry <= 0xFFFF_FFFF
    {
      var low, c := AddDouble(carry, if first then 0 else mem[r + i], Product(mem[b], mem[b + i]));
      RowNext(h0, mem[..], b, n, r, first, i, carry, low, c);
      mem[r + i] := low;
      carry := c;
      i := i + 1;
    }
  }

  /** The digit above a row gets what is left of the carry. */
  lemma RowEnd(h0: seq<Digit>, h: seq<Digit>, b: nat, n: nat, r: nat, first: bool, carry: int, low: Digit, carry': int)
    requires RowDone(h0, h, b, r, first, n, carry) && r + n < |h0|
    requires low + 0x1_0000_0000 * carry' == carry + (if first then 0 else h[r + n] as int)
    ensures Rounds(h0, h[r + n := low], r, n + 1, carry',
                   RowValue(if first then 0 else Val(h0, r, n + 1), h0[b], Val(h0, b, n)))
  {
    var x: int := if first then 0 else h0[r + n];
    NextRound(h0, h, r, n, carry, RowValue(if first then 0 else Val(h0, r, n), h0[b], Val(h0, b, n)), x, carry + x,
              h[r + n := low]);
    ValNext(h0, r, n);
    ShlOne(n);
  }

  lemma TopDigit(h0: seq<Digit>, h: seq<Digit>, r: nat, n: nat, carry: Digit, sum: int)
    requires Rounds(h0, h, r, n, carry, sum) && r + n < |h0|
    ensures Frame(h0, h[r + n := carry], r, r + n + 1) && Val(h[r + n := carry], r, n + 1) == sum
  {
    var h' := h[r + n := carry];
    assert h'[r..r + n] == h[r..r + n];
    LastDigit(h', r, n, carry, sum);
  }

  /** The first row has nothing below it to add to. */
  method FirstSquareRow(mem: array<Digit>, big1: nat, size: nat, square: nat)
    requires 1 <= size && Room(mem, big1, size) && Room(mem, square, 2 * size) && Apart(big1, size, square, 2 * size)
    modifies mem
    ensures Frame(old(mem[..]), mem[..], square, square + RowLength(size, 1))
    ensures Val(mem[..], square, RowLength(size, 1))
         == RowValue(0, old(mem[big1]), Val(old(mem[..]), big1, size))
  {
    ghost var h0 := mem[..];
    var carry := SquareRow(mem, big1, size, square, true);
    ghost var h := mem[..];
    if size == 1 {
      TopDigit(h0, h, square, 1, carry, RowValue(0, h0[big1], Val(h0, big1, 1)));
      mem[square + 1] := carry;
    } else {
      RowEnd(h0, h, big1, size, square, true, carry, carry % 0x1_0000_0000, carry / 0x1_0000_0000);
      mem[square + size] := carry % 0x1_0000_0000;
      TopDigit(h0, mem[..], square, size + 1, carry / 0x1_0000_0000, RowValue(0, h0[big1], Val(h0, big1, size)));
      mem[square + size + 1] := carry / 0x1_0000_0000;
    }
  }

  /** How many digits of the square have been written after 'rows' rows. */
  function RowLength(size: nat, rows: nat): nat {
    if rows < size then rows + size + 1 else 2 * size
  }

  /** The digits above a row get its carry. The last row has only one of them. */
  method EndRow(mem: array<Digit>, b: nat, m: nat, r: nat, last: bool, carry0: Double, ghost h0: seq<Digit>)
    returns (ghost carryOut: int)
    requires r + m + (if last then 1 else 2) <= mem.Length && RowDone(h0, mem[..], b, r, false, m, carry0)
    modifies mem
    ensures Frame(h0, mem[..], r, r + m + (if last then 1 else 2)) && (!last ==> carryOut == 0)
    ensures Stands(mem[..][r..r + m + (if last then 1 else 2)], carryOut,
                   RowValue(Val(h0, r, m + 1), h0[b], Val(h0, b, m)))
  {
    ghost var h := mem[..];
    var carry: Double := carry0 + mem[r + m];
    var low, top: Digit := carry % 0x1_0000_0000, carry / 0x1_0000_0000;
    RowEnd(h0, h, b, m, r, false, carry0, low, top);
    mem[r + m] := low;
    carryOut := top;
    if !last {
      TopDigit(h0, mem[..], r, m + 1, top, RowValue(Val(h0, r, m + 1), h0[b], Val(h0, b, m)));
      mem[r + m + 1] := top;
      carryOut := 0;
      ShlOne(m + 2);
    }
  }

  /** Row pos1 >= 1 of the square. The last row drops its carry. */
  method NextSquareRow(mem: array<Digit>, big1: nat, size: nat, square: nat, pos1: nat) returns (ghost carryOut: int)
    requires 1 <= pos1 < size && Room(mem, big1, size) && Room(mem, square, 2 * size)
    requires Apart(big1, size, square, 2 * size)
    modifies mem
    ensures Frame(old(mem[..]), mem[..], square + 2 * pos1, square + RowLength(size, pos1 + 1))
    ensures pos1 < size - 1 ==> carryOut == 0
    ensures Stands(mem[..][square + 2 * pos1..square + RowLength(size, pos1 + 1)], carryOut,
                   RowValue(Val(old(mem[..]), square + 2 * pos1, size - pos1 + 1), old(mem[big1 + pos1]),
                            Val(old(mem[..]), big1 + pos1, size - pos1)))
  {
    ghost var h0 := mem[..];
    var b, m, r, last := big1 + pos1, size - pos1, square + 2 * pos1, pos1 == size - 1;
    assert square + RowLength(size, pos1 + 1) == r + m + if last then 1 else 2;
    var carry: Double := SquareRow(mem, b, m, r, false);
    carryOut := EndRow(mem, b, m, r, last, carry, h0);
  }

  /** The digits from k on, which the rows that are still to come multiply. */
  ghost function LaterDigits(h0: seq<Digit>, big1: nat, size: nat, k: nat): (r: int)
    requires k <= size && big1 + size <= |h0|
    ensures r >= 0
  {
    Val(h0, big1 + k, size - k)
  }

  lemma LaterDigitsNext(h0: seq<Digit>, big1: nat, size: nat, k: nat)
    requires k < size && big1 + size <= |h0|
    ensures LaterDigits(h0, big1, size, k) == h0[big1 + k] + 0x1_0000_0000 * LaterDigits(h0, big1, size, k + 1)
  {
    var s := h0[big1 + k..big1 + size];
    assert s[1..] == h0[big1 + k + 1..big1 + size];
  }

  /** Row k makes the difference between two squares. */
  lemma SquareDifference(n: int, d: int, n': int, i: nat)
    requires n == d + 0x1_0000_0000 * n'
    ensures Shl(d * (2 * n - d), i) == Shl(n * n, i) - Shl(n' * n', i + 2)
  {
    var b := 0x1_0000_0000 * n';
    FourProducts(d, b, d, b);
    MulDistr(d, 2 * b, d);
    assert d * (2 * n - d) == d * d + d * (2 * b);
    MulSwap(d, 2, b);
    assert n * n == d * (2 * n - d) + b * b;
    BaseSquare(n');
    ShlAdd(d * (2 * n - d), b * b, i);
    ShlStep(0x1_0000_0000 * (n' * n'), i);
    ShlStep(n' * n', i + 1);
  }

  lemma FourProducts(a: int, b: int, c: int, d: int)
    ensures (a + b) * (c + d) == a * c + a * d + b * c + b * d
  {
    MulDistr(a, b, c + d);
    MulDistr(c, d, a);
    MulDistr(c, d, b);
  }

  lemma BaseSquare(n: int)
    ensures (0x1_0000_0000 * n) * (0x1_0000_0000 * n) == 0x1_0000_0000 * (0x1_0000_0000 * (n * n))
  {
  }

  /** What the square of the digits up to k is, without the rest. */
  ghost function Partial(h0: seq<Digit>, big1: nat, size: nat, k: nat): int
    requires k <= size && big1 + size <= |h0|
  {
    Val(h0, big1, size) * Val(h0, big1, size)
        - Shl(LaterDigits(h0, big1, size, k) * LaterDigits(h0, big1, size, k), 2 * k)
  }

  /** After k rows everything is there but the square of the digits from k on. */
  ghost predicate SquaresDone(h0: seq<Digit>, h: seq<Digit>, big1: nat, size: nat, square: nat, k: nat) {
    && 1 <= k <= size && big1 + size <= |h0| && square + 2 * size <= |h0|
    && Frame(h0, h, square, square + 2 * size)
    && Val(h, square, RowLength(size, k)) == Partial(h0, big1, size, k)
  }

  lemma SquaresStart(h0: seq<Digit>, h: seq<Digit>, big1: nat, size: nat, square: nat)
    requires 1 <= size && big1 + size <= |h0| && square + 2 * size <= |h0|
    requires Frame(h0, h, square, square + RowLength(size, 1))
    requires Val(h, square, RowLength(size, 1)) == RowValue(0, h0[big1], Val(h0, big1, size))
    ensures SquaresDone(h0, h, big1, size, square, 1)
  {
    LaterDigitsNext(h0, big1, size, 0);
    SquareDifference(LaterDigits(h0, big1, size, 0), h0[big1], LaterDigits(h0, big1, size, 1), 0);
  }

  lemma PartialNext(h0: seq<Digit>, big1: nat, size: nat, k: nat)
    requires k < size && big1 + size <= |h0|
    ensures Partial(h0, big1, size, k + 1)
         == Partial(h0, big1, size, k) + Shl(h0[big1 + k] * (2 * LaterDigits(h0, big1, size, k) - h0[big1 + k]), 2 * k)
  {
    LaterDigitsNext(h0, big1, size, k);
    SquareDifference(LaterDigits(h0, big1, size, k), h0[big1 + k], LaterDigits(h0, big1, size, k + 1), 2 * k);
  }

  /** The memory after a row has been added at digit 2 k. */
  lemma {:induction false} RowPlacedAt(h: seq<Digit>, h': seq<Digit>, size: nat, square: nat, k: nat, carry: int,
                                       row: int)
    requires 1 <= k < size && square + 2 * size <= |h|
    requires Frame(h, h', square + 2 * k, square + RowLength(size, k + 1))
    requires Stands(h'[square + 2 * k..square + RowLength(size, k + 1)], carry,
                    Val(h, square + 2 * k, size - k + 1) + row)
    ensures Stands(h'[square..square + RowLength(size, k + 1)], carry,
                   Val(h, square, RowLength(size, k)) + Shl(row, 2 * k))
  {
    var r, end := square + 2 * k, square + RowLength(size, k + 1);
    Kept(h, h', r, end, square, 2 * k);
    UValSplitAt(h, square, r, square + k + size + 1);
    RowAdded(h'[square..r], h'[r..end], carry, Val(h, r, size - k + 1), row, 2 * k);
    assert h'[square..end] == h'[square..r] + h'[r..end];
  }

  lemma SquaresNext(h0: seq<Digit>, h: seq<Digit>, h': seq<Digit>, big1: nat, size: nat, square: nat, k: nat,
                    carry: int)
    requires SquaresDone(h0, h, big1, size, square, k) && k < size && Apart(big1, size, square, 2 * size)
    requires Frame(h, h', square + 2 * k, square + RowLength(size, k + 1))
    requires k < size - 1 ==> carry == 0
    requires Stands(h'[square + 2 * k..square + RowLength(size, k + 1)], carry,
                    RowValue(Val(h, square + 2 * k, size - k + 1), h[big1 + k], Val(h, big1 + k, size - k)))
    ensures SquaresDone(h0, h', big1, size, square, k + 1)
  {
    var n, d := LaterDigits(h0, big1, size, k), h0[big1 + k];
    Kept(h0, h, square, square + 2 * size, big1 + k, size - k);
    assert h[big1 + k] == d;
    RowPlacedAt(h, h', size, square, k, carry, d * (2 * n - d));
    PartialNext(h0, big1, size, k);
    SquareEnd(h0, h', big1, size, square, k + 1, carry);
  }

  /** Adding a row above digit i. */
  lemma {:induction false} RowAdded(low: seq<Digit>, high: seq<Digit>, carry: int, x: int, row: int, i: nat)
    requires |low| == i && Stands(high, carry, x + row)
    ensures Stands(low + high, carry, UVal(low) + Shl(x, i) + Shl(row, i))
  {
    ShlAdd(x, row, i);
    ShlOne(i);
    StandsJoin(low, 0, UVal(low), high, carry, x + row);
  }

  /** The last row leaves no carry. */
  lemma SquareEnd(h0: seq<Digit>, h: seq<Digit>, big1: nat, size: nat, square: nat, k: nat, carry: int)
    requires 1 <= k <= size && big1 + size <= |h0| && square + 2 * size <= |h|
    requires k < size ==> carry == 0
    requires Stands(h[square..square + RowLength(size, k)], carry, Partial(h0, big1, size, k))
    ensures Val(h, square, RowLength(size, k)) == Partial(h0, big1, size, k)
  {
    if k == size {
      ShlOne(2 * k);
      UValBound(h0[big1..big1 + size]);
      ProductBound(Val(h0, big1, size), Val(h0, big1, size), size, size);
      NoCarryOut(h[square..square + 2 * size], carry, Val(h0, big1, size) * Val(h0, big1, size));
    } else {
      ShlOne(RowLength(size, k));
    }
  }

  /** square = big1 * big1. */
  method UBigDigitSquare(mem: array<Digit>, big1: nat, size: nat, square: nat)
    requires 1 <= size && Room(mem, big1, size) && Room(mem, square, 2 * size) && Apart(big1, size, square, 2 * size)
    modifies mem
    ensures Frame(old(mem[..]), mem[..], square, square + 2 * size)
    ensures Val(mem[..], square, 2 * size) == Val(old(mem[..]), big1, size) * Val(old(mem[..]), big1, size)
  {
    ghost var h0 := mem[..];
    FirstSquareRow(mem, big1, size, square);
    SquaresStart(h0, mem[..], big1, size, square);
    var pos1 := 1;
    while pos1 < size
      invariant 1 <= pos1 <= size
      invariant SquaresDone(h0, mem[..], big1, size, square, pos1)
    {
      ghost var h := mem[..];
      ghost var carry := NextSquareRow(mem, big1, size, square, pos1);
      SquaresNext(h0, h, mem[..], big1, size, square, pos1, carry);
      pos1 := pos1 + 1;
    }
    ShlOne(2 * size);
  }

  // -------------------------------------------------------------- Karatsuba

  /** A square of a number with a known value. */
  method SquarePart(mem: array<Digit>, big1: nat, size: nat, square: nat, temp: nat, ghost a: int, ghost value: int)
    requires 0 < size && Buffers(mem.Length, big1, big1, size, square, temp)
    requires Val(mem[..], big1, size) == a && value == a * a
    modifies mem
    ensures Touched(old(mem[..]), mem[..], square, 2 * size, temp, 4 * size)
    ensures Val(mem[..], square, 2 * size) == value
    decreases size, 4
  {
    UBigKaratsubaSquare(mem, big1, size, square, temp);
  }

  /** The squares of the sum and of the lower half. */
  method LowerSquares(mem: array<Digit>, big1: nat, lo: nat, hi: nat, square: nat, temp: nat,
                      ghost a: (int, int, int), ghost low: int, ghost sums: int)
    requires 16 <= hi <= lo <= hi + 1 && Buffers(mem.Length, big1, big1, lo + hi, square, temp)
    requires Val(mem[..], big1, lo) == a.0 && low == a.0 * a.0
    requires Val(mem[..], square, lo + 1) == a.2 && sums == a.2 * a.2
    modifies mem
    ensures Touched(old(mem[..]), mem[..], square, 2 * lo, temp, 6 * (lo + 1))
    ensures Val(mem[..], big1 + lo, hi) == Val(old(mem[..]), big1 + lo, hi)
    ensures Val(mem[..], temp, 2 * (lo + 1)) == sums && Val(mem[..], square, 2 * lo) == low
    decreases lo + hi, 0
  {
    BuffersForParts(mem.Length, big1, big1, lo, hi, square, temp);
    ghost var h2 := mem[..];
    SquarePart(mem, square, lo + 1, temp, temp + 2 * (lo + 1), a.2, sums);
    ghost var h3 := mem[..];
    FactorsSurvive(h2, h3, big1, lo, hi, square, temp);
    SquarePart(mem, big1, lo, square, temp + 2 * (lo + 1), a.0, low);
    UpperFactorSurvives(h3, mem[..], big1, lo, hi, square, temp);
    LowerStaged(h2, h3, mem[..], lo, hi, square, temp);
  }

  /** The three recursive squares. */
  method ThreeSquares(mem: array<Digit>, big1: nat, lo: nat, hi: nat, square: nat, temp: nat,
                      ghost a: (int, int, int), ghost low: int, ghost high: int, ghost sums: int)
    requires 16 <= hi <= lo <= hi + 1 && Buffers(mem.Length, big1, big1, lo + hi, square, temp)
    requires Val(mem[..], big1, lo) == a.0 && low == a.0 * a.0
    requires Val(mem[..], big1 + lo, hi) == a.1 && high == a.1 * a.1
    requires Val(mem[..], square, lo + 1) == a.2 && sums == a.2 * a.2
    modifies mem
    ensures Touched(old(mem[..]), mem[..], square, 2 * (lo + hi), temp, 4 * (lo + hi))
    ensures Staged(mem[..], lo, hi, square, temp, low, high, sums)
    decreases lo + hi, 1
  {
    BuffersForParts(mem.Length, big1, big1, lo, hi, square, temp);
    ghost var h2 := mem[..];
    LowerSquares(mem, big1, lo, hi, square, temp, a, low, sums);
    ghost var h4 := mem[..];
    SquarePart(mem, big1 + lo, hi, square + 2 * lo, temp + 2 * (lo + 1), a.1, high);
    ProductsStaged(h2, h4, mem[..], lo, hi, square, temp, low, high, sums);
  }

  method UBigKaratsubaSquare(mem: array<Digit>, big1: nat, size: nat, square: nat, temp: nat)
    requires 0 < size && Buffers(mem.Length, big1, big1, size, square, temp)
    modifies mem
    ensures Touched(old(mem[..]), mem[..], square, 2 * size, temp, 4 * size)
    ensures Val(mem[..], square, 2 * size) == Val(old(mem[..]), big1, size) * Val(old(mem[..]), big1, size)
    decreases size, 3
  {
    if size < KARATSUBA_SQUARE_THRESHOLD {
      UBigDigitSquare(mem, big1, size, square);
    } else {
      SquareHalves(mem, big1, size - size / 2, size / 2, square, temp);
    }
  }

  /** The squares of the halves, and of their sum. */
  method SquareHalves(mem: array<Digit>, big1: nat, sizeLo: nat, sizeHi: nat, square: nat, temp: nat)
    requires 16 <= sizeHi <= sizeLo <= sizeHi + 1 && Buffers(mem.Length, big1, big1, sizeLo + sizeHi, square, temp)
    modifies mem
    ensures Touched(old(mem[..]), mem[..], square, 2 * (sizeLo + sizeHi), temp, 4 * (sizeLo + sizeHi))
    ensures Val(mem[..], square, 2 * (sizeLo + sizeHi))
         == Val(old(mem[..]), big1, sizeLo + sizeHi) * Val(old(mem[..]), big1, sizeLo + sizeHi)
    decreases sizeLo + sizeHi, 2
  {
    ghost var h0 := mem[..];
    UBigDigitAdd(mem, big1, sizeLo, big1 + sizeLo, sizeHi, square);
    ghost var h2 := mem[..];
    FactorsKept(h0, h2, big1, big1, sizeLo, sizeHi, square);
    ghost var a, a0, a1 := Val(h0, big1, sizeLo + sizeHi), Val(h0, big1, sizeLo), Val(h0, big1 + sizeLo, sizeHi);
    FactorHalves(h0, big1, sizeLo, sizeHi);
    ghost var low, high, sums := a0 * a0, a1 * a1, (a0 + a1) * (a0 + a1);
    HalvesProduct(a, a0, a1, a, a0, a1, sizeLo, sizeHi, low, high, sums);
    ThreeSquares(mem, big1, sizeLo, sizeHi, square, temp, (a0, a1, a0 + a1), low, high, sums);
    KaratsubaCombine(mem, sizeLo, sizeHi, square, temp, low, high, sums);
  }
}
