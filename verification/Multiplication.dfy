/** Schoolbook and Karatsuba multiplication of digit strings (src/big_rtl.c). */
module Multiplication {
  import opened Digits
  import opened Carries
  import opened RawDigits

  // ------------------------------------------------- schoolbook products

  lemma DigitTimes(h: seq<Digit>, factor: nat, pos: nat, digit: Digit)
    requires factor + pos < |h|
    ensures digit * Val(h, factor, pos + 1) == digit * Val(h, factor, pos) + Shl(h[factor + pos] * digit, pos)
  {
    ValNext(h, factor, pos);
    MulDistr(Val(h, factor, pos), Shl(h[factor + pos], pos), digit);
    ShlMul(digit, h[factor + pos], pos);
  }

  /** The lowest pos digits of factor * digit, added to those of 'base'. */
  ghost predicate RowUpTo(h0: seq<Digit>, base: int, factor: nat, digit: Digit, product: nat, h: seq<Digit>, pos: nat,
                          carry: int)
  {
    && 0 <= carry <= 0xFFFF_FFFF && factor + pos <= |h0|
    && Rounds(h0, h, product, pos, carry, base + digit * Val(h0, factor, pos))
  }

  /** One round: 'old' is what the product digit was before, if it is read. */
  lemma MultRowNext(h0: seq<Digit>, base: int, factor: nat, size: nat, digit: Digit, product: nat, h: seq<Digit>,
                pos: nat, carry: int, before: Digit, acc: int)
    requires RowUpTo(h0, base, factor, digit, product, h, pos, carry) && pos < size
    requires factor + size <= |h0| && product + size <= |h0| && Apart(factor, size, product, size)
    requires acc == carry + (before + h[factor + pos] * digit)
    ensures 0 <= acc <= 0xFFFF_FFFF_FFFF_FFFF
    ensures RowUpTo(h0, base + Shl(before, pos), factor, digit, product,
                    h[product + pos := acc % 0x1_0000_0000], pos + 1, acc / 0x1_0000_0000)
  {
    var x := h[factor + pos] * digit;
    DigitProduct(h[factor + pos], digit);
    NextRound(h0, h, product, pos, carry, base + digit * Val(h0, factor, pos), before + x, acc,
              h[product + pos := acc % 0x1_0000_0000]);
    DigitTimes(h0, factor, pos, digit);
    ShlAdd(before, x, pos);
  }

  /** product = factor * digit, with a digit for the carry. */
  method FirstRow(mem: array<Digit>, factor: nat, size: nat, digit: Digit, product: nat)
    requires Room(mem, factor, size) && Room(mem, product, size + 1) && Apart(factor, size, product, size + 1)
    modifies mem
    ensures Frame(old(mem[..]), mem[..], product, product + size + 1)
    ensures Val(mem[..], product, size + 1) == digit * Val(old(mem[..]), factor, size)
  {
    ghost var h0 := mem[..];
    var pos := 0;
    var carry: Double := 0;
    while pos < size
      invariant 0 <= pos <= size && RowUpTo(h0, 0, factor, digit, product, mem[..], pos, carry)
    {
      DigitProduct(mem[factor + pos], digit);
      var acc: Double := carry + mem[factor + pos] * digit;
      MultRowNext(h0, 0, factor, size, digit, product, mem[..], pos, carry, 0, acc);
      assert Shl(0, pos) == 0 by {
        ShlOne(pos);
      }
      mem[product + pos] := acc % 0x1_0000_0000;
      carry := acc / 0x1_0000_0000;
      pos := pos + 1;
    }
    mem[product + size] := carry;
    LastDigit(mem[..], product, size, carry, digit * Val(h0, factor, size));
  }

  /** product += factor * digit over 'size' digits. The digit above them gets
      the carry: its old value is not read. */
  method AddRow(mem: array<Digit>, factor: nat, size: nat, digit: Digit, product: nat)
    requires Room(mem, factor, size) && Room(mem, product, size + 1) && Apart(factor, size, product, size + 1)
    modifies mem
    ensures Frame(old(mem[..]), mem[..], product, product + size + 1)
    ensures Val(mem[..], product, size + 1)
        == Val(old(mem[..]), product, size) + digit * Val(old(mem[..]), factor, size)
  {
    ghost var h0 := mem[..];
    var pos := 0;
    var carry: Double := 0;
    while pos < size
      invariant 0 <= pos <= size
      invariant RowUpTo(h0, Val(h0, product, pos), factor, digit, product, mem[..], pos, carry)
    {
      DigitProduct(mem[factor + pos], digit);
      ghost var before := h0[product + pos];
      var acc: Double := carry + (mem[product + pos] + mem[factor + pos] * digit);
      MultRowNext(h0, Val(h0, product, pos), factor, size, digit, product, mem[..], pos, carry, before, acc);
      ValNext(h0, product, pos);
      mem[product + pos] := acc % 0x1_0000_0000;
      carry := acc / 0x1_0000_0000;
      pos := pos + 1;
    }
    mem[product + size] := carry;
    LastDigit(mem[..], product, size, carry, Val(h0, product, size) + digit * Val(h0, factor, size));
  }

  /** The product of the digits outer..outer + pos and all n digits of 'inner'. */
  ghost predicate RowsDone(h0: seq<Digit>, h: seq<Digit>, outer: nat, inner: nat, n: nat, product: nat, pos: nat) {
    && outer + pos <= |h0| && inner + n <= |h0| && product + pos + n <= |h0|
    && Frame(h0, h, product, product + pos + n)
    && Val(h, product, pos + n) == Val(h0, outer, pos) * Val(h0, inner, n)
  }

  /** The memory after the row for digit pos of 'outer'. */
  lemma {:induction false} RowPlaced(h: seq<Digit>, h': seq<Digit>, n: nat, product: nat, pos: nat, x: int)
    requires product + pos + n < |h| && Frame(h, h', product + pos, product + pos + n + 1)
    requires Val(h', product + pos, n + 1) == Val(h, product + pos, n) + x
    ensures Val(h', product, pos + n + 1) == Val(h, product, pos + n) + Shl(x, pos)
  {
    Kept(h, h', product + pos, product + pos + n + 1, product, pos);
    UValSplitAt(h, product, product + pos, product + pos + n);
    UValSplitAt(h', product, product + pos, product + pos + n + 1);
    ShlAdd(Val(h, product + pos, n), x, pos);
  }

  lemma NextRow(h0: seq<Digit>, h: seq<Digit>, h': seq<Digit>, outer: nat, inner: nat, n: nat, product: nat, pos: nat)
    requires RowsDone(h0, h, outer, inner, n, product, pos)
    requires outer + pos < |h0| && product + pos + n < |h0|
    requires Apart(outer, pos + 1, product, pos + n + 1) && Apart(inner, n, product, pos + n + 1)
    requires Frame(h, h', product + pos, product + pos + n + 1)
    requires Val(h', product + pos, n + 1) == Val(h, product + pos, n) + h[outer + pos] * Val(h, inner, n)
    ensures RowsDone(h0, h', outer, inner, n, product, pos + 1)
  {
    var t, d := Val(h0, inner, n), h0[outer + pos];
    Kept(h0, h, product, product + pos + n, inner, n);
    RowPlaced(h, h', n, product, pos, d * t);
    ValNext(h0, outer, pos);
    TimesNext(Val(h0, outer, pos), d, t, pos);
  }

  lemma TimesNext(v: int, d: int, t: int, i: nat)
    ensures (v + Shl(d, i)) * t == v * t + Shl(d * t, i)
  {
    ShlMul(t, d, i);
    MulDistr(v, Shl(d, i), t);
  }

  lemma FirstDigitValue(h: seq<Digit>, p: nat)
    requires p < |h|
    ensures Val(h, p, 1) == h[p]
  {
    SingleDigit(h[p..p + 1]);
  }

  /** product = outer * inner: one row for each digit of 'outer'. */
  method MultRows(mem: array<Digit>, outer: nat, m: nat, inner: nat, n: nat, product: nat)
    requires 0 < m && 0 < n && Room(mem, outer, m) && Room(mem, inner, n) && Room(mem, product, m + n)
    requires Apart(outer, m, product, m + n) && Apart(inner, n, product, m + n)
    modifies mem
    ensures Frame(old(mem[..]), mem[..], product, product + m + n)
    ensures Val(mem[..], product, m + n) == Val(old(mem[..]), outer, m) * Val(old(mem[..]), inner, n)
  {
    ghost var h0 := mem[..];
    FirstDigitValue(h0, outer);
    FirstRow(mem, inner, n, mem[outer], product);
    var pos := 1;
    while pos < m
      invariant 1 <= pos <= m
      invariant RowsDone(h0, mem[..], outer, inner, n, product, pos)
    {
      ghost var h := mem[..];
      AddRow(mem, inner, n, mem[outer + pos], product + pos);
      NextRow(h0, h, mem[..], outer, inner, n, product, pos);
      pos := pos + 1;
    }
  }

  method UBigDigitMult(mem: array<Digit>, factor1: nat, factor2: nat, size: nat, product: nat)
    requires 0 < size && Room(mem, factor1, size) && Room(mem, factor2, size) && Room(mem, product, 2 * size)
    requires Apart(factor1, size, product, 2 * size) && Apart(factor2, size, product, 2 * size)
    modifies mem
    ensures Frame(old(mem[..]), mem[..], product, product + 2 * size)
    ensures Val(mem[..], product, 2 * size) == Val(old(mem[..]), factor1, size) * Val(old(mem[..]), factor2, size)
  {
    MultRows(mem, factor1, size, factor2, size, product);
  }
}
