/** The functions of src/big_rtl.c that work on pointers to digits. A pointer is
    a position in the memory 'mem', and no pointer owns a buffer of its own. */
module RawDigits {
  import opened Digits
  import opened Carries

  /** n digits at position p of the memory. */
  predicate Room(mem: array<Digit>, p: nat, n: nat) {
    p + n <= mem.Length
  }

  /** n digits at p and m digits at q do not overlap. */
  predicate Apart(p: nat, n: nat, q: nat, m: nat) {
    p + n <= q || q + m <= p
  }

  /** The value of the n digits at p. */
  ghost function Val(h: seq<Digit>, p: nat, n: nat): int
    requires p + n <= |h|
  {
    UVal(h[p..p + n])
  }

  /** Only digits lo..hi of the memory h changed. */
  ghost predicate Frame(h: seq<Digit>, h': seq<Digit>, lo: nat, hi: nat) {
    |h'| == |h| && forall j :: 0 <= j < |h| && !(lo <= j < hi) ==> h'[j] == h[j]
  }

  lemma Kept(h: seq<Digit>, h': seq<Digit>, lo: nat, hi: nat, p: nat, n: nat)
    requires Frame(h, h', lo, hi) && p + n <= |h| && (p + n <= lo || hi <= p)
    ensures h'[p..p + n] == h[p..p + n]
  {
  }

  /** A carry loop has written the digits r..r + pos of the memory h0, which
      together with the carry stand for 'sum'. */
  ghost predicate Rounds(h0: seq<Digit>, h: seq<Digit>, r: nat, pos: nat, carry: int, sum: int) {
    r + pos <= |h0| && Frame(h0, h, r, r + pos) && Stands(h[r..r + pos], carry, sum)
  }

  lemma NextRound(h0: seq<Digit>, h: seq<Digit>, r: nat, pos: nat, carry: int, sum: int, x: int, acc: int,
                  h': seq<Digit>)
    requires Rounds(h0, h, r, pos, carry, sum) && r + pos < |h0| && acc == carry + x
    requires h' == h[r + pos := acc % 0x1_0000_0000]
    ensures Rounds(h0, h', r, pos + 1, acc / 0x1_0000_0000, sum + Shl(x, pos))
  {
    Round(h[r..r + pos], carry, sum, x);
    assert h'[r..r + pos + 1] == h[r..r + pos] + [acc % 0x1_0000_0000];
  }

  lemma ValNext(h: seq<Digit>, p: nat, n: nat)
    requires p + n < |h|
    ensures Val(h, p, n + 1) == Val(h, p, n) + Shl(h[p + n], n)
  {
    UValExtend(h, p, p + n);
  }

  ghost predicate AddingTo(h0: seq<Digit>, big1: nat, big2: nat, result: nat, h: seq<Digit>, pos: nat, carry: int) {
    && 0 <= carry <= 1 && big1 + pos <= |h0| && big2 + pos <= |h0|
    && Rounds(h0, h, result, pos, carry, Val(h0, big1, pos) + Val(h0, big2, pos))
  }

  lemma AddingNext(h0: seq<Digit>, big1: nat, big2: nat, result: nat, n: nat, h: seq<Digit>, pos: nat, carry: int)
    requires AddingTo(h0, big1, big2, result, h, pos, carry) && pos < n
    requires big1 + n <= |h0| && big2 + n <= |h0| && result + n <= |h0|
    requires (result == big1 || Apart(big1, n, result, n)) && Apart(big2, n, result, n)
    ensures var acc := carry + h[big1 + pos] + h[big2 + pos];
      AddingTo(h0, big1, big2, result, h[result + pos := acc % 0x1_0000_0000], pos + 1, acc / 0x1_0000_0000)
  {
    var d1, d2 := h[big1 + pos], h[big2 + pos];
    var acc := carry + d1 + d2;
    NextRound(h0, h, result, pos, carry, Val(h0, big1, pos) + Val(h0, big2, pos), d1 as int + d2 as int, acc,
              h[result + pos := acc % 0x1_0000_0000]);
    ValNext(h0, big1, pos);
    ValNext(h0, big2, pos);
    ShlAdd(d1, d2, pos);
  }

  /** result = big1 + big2 over n digits, as far as both summands have digits. */
  method AddAt(mem: array<Digit>, big1: nat, big2: nat, n: nat, result: nat) returns (carry: Double)
    requires Room(mem, big1, n) && Room(mem, big2, n) && Room(mem, result, n)
    requires Apart(big1, n, result, n) && Apart(big2, n, result, n)
    modifies mem
    ensures AddingTo(old(mem[..]), big1, big2, result, mem[..], n, carry)
  {
    ghost var h0 := mem[..];
    var pos := 0;
    carry := 0;
    while pos < n
      invariant 0 <= pos <= n
      invariant AddingTo(h0, big1, big2, result, mem[..], pos, carry)
    {
      AddingNext(h0, big1, big2, result, n, mem[..], pos, carry);
      var acc: Double := carry + mem[big1 + pos] + mem[big2 + pos];
      mem[result + pos] := acc % 0x1_0000_0000;
      carry := acc / 0x1_0000_0000;
      pos := pos + 1;
    }
  }

  /** big1 += big2 over n digits. */
  method AddToDigits(mem: array<Digit>, big1: nat, big2: nat, n: nat) returns (carry: Double)
    requires Room(mem, big1, n) && Room(mem, big2, n) && Apart(big2, n, big1, n)
    modifies mem
    ensures AddingTo(old(mem[..]), big1, big2, big1, mem[..], n, carry)
  {
    ghost var h0 := mem[..];
    var pos := 0;
    carry := 0;
    while pos < n
      invariant 0 <= pos <= n
      invariant AddingTo(h0, big1, big2, big1, mem[..], pos, carry)
    {
      AddingNext(h0, big1, big2, big1, n, mem[..], pos, carry);
      var acc: Double := carry + mem[big1 + pos] + mem[big2 + pos];
      mem[big1 + pos] := acc % 0x1_0000_0000;
      carry := acc / 0x1_0000_0000;
      pos := pos + 1;
    }
  }

  /** result = big1 + carry over n digits, where the other summand has ended. */
  method CarryDigits(mem: array<Digit>, big1: nat, n: nat, result: nat, carryIn: Double) returns (carry: Double)
    requires Room(mem, big1, n) && Room(mem, result, n) && Apart(big1, n, result, n) && carryIn <= 1
    modifies mem
    ensures carry <= 1 && Frame(old(mem[..]), mem[..], result, result + n)
    ensures Stands(mem[result..result + n], carry, Val(old(mem[..]), big1, n) + carryIn)
  {
    ghost var s := mem[big1..big1 + n];
    var r, at := mem, result;
    var pos := 0;
    carry := carryIn;
    while pos < n
      invariant 0 <= pos <= n && carry <= 1
      invariant OnlyChanged(r, at, at + pos)
      invariant Stands(r[at..at + pos], carry, UVal(s[..pos]) + carryIn)
    {
      var d1 := mem[big1 + pos];
      assert d1 == s[pos];
      UValPrefix(s, pos);
      carry := Put(r, at, at + pos, carry + d1, carry, d1, UVal(s[..pos]) + carryIn);
      pos := pos + 1;
    }
    assert s[..n] == s;
  }

  /** The complement of big2 has been added to big1, and a carry of 1. */
  ghost predicate Subtracting(h0: seq<Digit>, big1: nat, big2: nat, h: seq<Digit>, pos: nat, carry: int) {
    && 0 <= carry <= 1 && big1 + pos <= |h0| && big2 + pos <= |h0|
    && Rounds(h0, h, big1, pos, carry, Val(h0, big1, pos) - Val(h0, big2, pos) + Radix(pos))
  }

  lemma {:induction false} SubtractingNext(h0: seq<Digit>, big1: nat, big2: nat, n: nat, h: seq<Digit>, pos: nat,
                                           carry: int, acc: int)
    requires Subtracting(h0, big1, big2, h, pos, carry) && pos < n
    requires big1 + n <= |h0| && big2 + n <= |h0| && Apart(big2, n, big1, n)
    requires acc == carry + h[big1 + pos] as int + (0xFFFF_FFFF - h[big2 + pos] as int)
    ensures 0 <= acc <= 0x1_FFFF_FFFF
    ensures Subtracting(h0, big1, big2, h[big1 + pos := acc % 0x1_0000_0000], pos + 1, acc / 0x1_0000_0000)
  {
    var d1: int, d2: int := h[big1 + pos], h[big2 + pos];
    NextRound(h0, h, big1, pos, carry, Val(h0, big1, pos) - Val(h0, big2, pos) + Radix(pos),
              d1 + (0xFFFF_FFFF - d2), acc, h[big1 + pos := acc % 0x1_0000_0000]);
    ValNext(h0, big1, pos);
    ValNext(h0, big2, pos);
    ShlAdd(d1, 0xFFFF_FFFF - d2, pos);
    ShlAdd(0xFFFF_FFFF, d2, pos);
    ShlMask(pos);
  }

  /** big1 -= big2 over n digits. The carry is 0 when the subtraction borrowed. */
  method SubtractAt(mem: array<Digit>, big1: nat, big2: nat, n: nat) returns (carry: Double)
    requires Room(mem, big1, n) && Room(mem, big2, n) && Apart(big2, n, big1, n)
    modifies mem
    ensures carry <= 1 && Frame(old(mem[..]), mem[..], big1, big1 + n)
    ensures Stands(mem[big1..big1 + n], carry - 1, Val(old(mem[..]), big1, n) - Val(old(mem[..]), big2, n))
  {
    ghost var h0 := mem[..];
    var pos := 0;
    carry := 1;
    while pos < n
      invariant 0 <= pos <= n
      invariant Subtracting(h0, big1, big2, mem[..], pos, carry)
    {
      var acc: Double := carry as int + mem[big1 + pos] as int + (0xFFFF_FFFF - mem[big2 + pos] as int);
      SubtractingNext(h0, big1, big2, n, mem[..], pos, carry, acc);
      mem[big1 + pos] := acc % 0x1_0000_0000;
      carry := acc / 0x1_0000_0000;
      pos := pos + 1;
    }
    SubtractingEnd(h0, big1, big2, n, mem[..], carry);
  }

  lemma SubtractingEnd(h0: seq<Digit>, big1: nat, big2: nat, n: nat, h: seq<Digit>, carry: int)
    requires Subtracting(h0, big1, big2, h, n, carry)
    ensures Frame(h0, h, big1, big1 + n) && Stands(h[big1..big1 + n], carry - 1, Val(h0, big1, n) - Val(h0, big2, n))
  {
    BorrowDone(h[big1..big1 + n], carry, Val(h0, big1, n) - Val(h0, big2, n));
  }

  /** The carry becomes the top digit. */
  lemma LastDigit(d: seq<Digit>, at: nat, n: nat, carry: Digit, sum: int)
    requires at + n < |d| && d[at + n] == carry
    requires Stands(d[at..at + n], carry, sum)
    ensures UVal(d[at..at + n + 1]) == sum
  {
    UValExtend(d, at, at + n);
  }

  /** The digits that both operands have, and those that only big1 has. */
  lemma {:induction false} UnequalSum(h: seq<Digit>, h1: seq<Digit>, h2: seq<Digit>, big1: nat, size1: nat, size2: nat,
                   result: nat, delta: int, carry1: int, carry: int)
    requires size2 <= size1 && big1 + size1 <= |h| && result + size1 <= |h|
    requires result == big1 || Apart(big1, size1, result, size1)
    requires Frame(h, h1, result, result + size2) && Frame(h1, h2, result + size2, result + size1)
    requires Stands(h1[result..result + size2], carry1, Val(h, big1, size2) + delta)
    requires Stands(h2[result + size2..result + size1], carry, Val(h1, big1 + size2, size1 - size2) + carry1)
    ensures Frame(h, h2, result, result + size1)
    ensures Stands(h2[result..result + size1], carry, Val(h, big1, size1) + delta)
  {
    Kept(h, h1, result, result + size2, big1 + size2, size1 - size2);
    Kept(h1, h2, result + size2, result + size1, result, size2);
    StandsJoin(h1[result..result + size2], carry1, Val(h, big1, size2) + delta,
               h2[result + size2..result + size1], carry, Val(h, big1 + size2, size1 - size2));
    assert h2[result..result + size1] == h2[result..result + size2] + h2[result + size2..result + size1];
    UValSplitAt(h, big1, big1 + size2, big1 + size1);
  }

  /** result = big1 + big2, with a digit for the carry. */
  method UBigDigitAdd(mem: array<Digit>, big1: nat, size1: nat, big2: nat, size2: nat, result: nat)
    requires 0 < size2 <= size1 && Room(mem, big1, size1) && Room(mem, big2, size2) && Room(mem, result, size1 + 1)
    requires Apart(big1, size1, result, size1 + 1) && Apart(big2, size2, result, size1 + 1)
    modifies mem
    ensures Frame(old(mem[..]), mem[..], result, result + size1 + 1)
    ensures Val(mem[..], result, size1 + 1) == Val(old(mem[..]), big1, size1) + Val(old(mem[..]), big2, size2)
  {
    ghost var h := mem[..];
    var carry := AddAt(mem, big1, big2, size2, result);
    ghost var h1, carry1 := mem[..], carry;
    carry := CarryDigits(mem, big1 + size2, size1 - size2, result + size2, carry);
    ghost var h2 := mem[..];
    UnequalSum(h, h1, h2, big1, size1, size2, result, Val(h, big2, size2), carry1, carry);
    mem[result + size1] := carry;
    ghost var h3 := mem[..];
    Kept(h2, h3, result + size1, result + size1 + 1, result, size1);
    LastDigit(h3, result, size1, carry, Val(h, big1, size1) + Val(h, big2, size2));
  }

  /** big1 -= big2. The final carry, which the source drops, is -1 if the
      subtraction borrowed. */
  method UBigDigitSbtrFrom(mem: array<Digit>, big1: nat, size1: nat, big2: nat, size2: nat) returns (ghost carry: int)
    requires 0 < size2 <= size1 && Room(mem, big1, size1) && Room(mem, big2, size2) && Apart(big2, size2, big1, size1)
    modifies mem
    ensures Frame(old(mem[..]), mem[..], big1, big1 + size1)
    ensures Stands(mem[..][big1..big1 + size1], carry, Val(old(mem[..]), big1, size1) - Val(old(mem[..]), big2, size2))
  {
    ghost var h := mem[..];
    var noBorrow := SubtractAt(mem, big1, big2, size2);
    ghost var h1, carry1 := mem[..], noBorrow as int - 1;
    noBorrow := PropagateBorrow(mem, big1 + size2, big1 + size1, noBorrow);
    carry := noBorrow as int - 1;
    UnequalSum(h, h1, mem[..], big1, size1, size2, big1, -Val(h, big2, size2), carry1, carry);
  }

  /** big1 += big2. The source drops the final carry. */
  method UBigDigitAddTo(mem: array<Digit>, big1: nat, size1: nat, big2: nat, size2: nat) returns (ghost carry: int)
    requires 0 < size2 <= size1 && Room(mem, big1, size1) && Room(mem, big2, size2) && Apart(big2, size2, big1, size1)
    modifies mem
    ensures Frame(old(mem[..]), mem[..], big1, big1 + size1)
    ensures Stands(mem[..][big1..big1 + size1], carry, Val(old(mem[..]), big1, size1) + Val(old(mem[..]), big2, size2))
  {
    ghost var h := mem[..];
    var c := AddToDigits(mem, big1, big2, size2);
    ghost var h1, carry1 := mem[..], c;
    c := PropagateCarry(mem, big1 + size2, big1 + size1, c);
    carry := c;
    UnequalSum(h, h1, mem[..], big1, size1, size2, big1, Val(h, big2, size2), carry1, carry);
  }

  /** A value that fits leaves no carry. */
  lemma NoCarryOut(out: seq<Digit>, carry: int, x: int)
    requires Stands(out, carry, x) && 0 <= x < Radix(|out|)
    ensures carry == 0 && UVal(out) == x
  {
    var n := |out|;
    UValBound(out);
    ShlOne(n);
    ShlMono(1, carry, n);
    ShlMono(carry, -1, n);
    ShlRadix(-1, n);
  }
}
