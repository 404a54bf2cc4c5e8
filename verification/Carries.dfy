/** The carry loops that the functions of src/big_rtl.c are made of, each with
    its meaning as an equation between unsigned values. */
module Carries {
  import opened Digits

  /** 'out' and a carry of the weight above it stand for 'sum'. */
  ghost predicate Stands(out: seq<Digit>, carry: int, sum: int) {
    UVal(out) + Shl(carry, |out|) == sum
  }

  lemma ShlCarry(carry: int, x: int, digit: int, carry': int, n: nat)
    requires carry + x == digit + 0x1_0000_0000 * carry'
    ensures Shl(digit, n) + Shl(carry', n + 1) == Shl(carry, n) + Shl(x, n)
  {
    ShlAdd(carry, x, n);
    ShlAdd(digit, 0x1_0000_0000 * carry', n);
    ShlStep(carry', n);
  }

  /** One round of a carry loop: x is what the round adds to the carry. */
  lemma Round(out: seq<Digit>, carry: int, sum: int, x: int)
    requires Stands(out, carry, sum)
    ensures Stands(out + [(carry + x) % 0x1_0000_0000], (carry + x) / 0x1_0000_0000, sum + Shl(x, |out|))
  {
    var digit, carry' := (carry + x) % 0x1_0000_0000, (carry + x) / 0x1_0000_0000;
    UValSnoc(out, digit);
    ShlCarry(carry, x, digit, carry', |out|);
  }

  /** Two adjacent regions: the carry out of the low one goes into the high one. */
  lemma StandsJoin(low: seq<Digit>, carry: int, a: int, high: seq<Digit>, carry': int, b: int)
    requires Stands(low, carry, a) && Stands(high, carry', b + carry)
    ensures Stands(low + high, carry', a + Shl(b, |low|))
  {
    UValConcat(low, high);
    JoinCarries(|low|, |high|, carry, UVal(high), carry', b);
  }

  lemma JoinCarries(i: nat, j: nat, carry: int, high: int, carry': int, b: int)
    requires high + Shl(carry', j) == b + carry
    ensures Shl(high, i) + Shl(carry', i + j) == Shl(b, i) + Shl(carry, i)
  {
    ShlAdd(high, Shl(carry', j), i);
    ShlAdd(b, carry, i);
    ShlShl(carry', j, i);
  }

  /** Joining the regions lo..mid and mid..hi of a buffer. */
  lemma RegionsJoin(d: seq<Digit>, s: seq<Digit>, lo: nat, mid: nat, hi: nat, carry: int, delta: int, carry': int)
    requires lo <= mid <= hi <= |d| == |s|
    requires Stands(d[lo..mid], carry, UVal(s[lo..mid]) + delta)
    requires Stands(d[mid..hi], carry', UVal(s[mid..hi]) + carry)
    ensures Stands(d[lo..hi], carry', UVal(s[lo..hi]) + delta)
  {
    StandsJoin(d[lo..mid], carry, UVal(s[lo..mid]) + delta, d[mid..hi], carry', UVal(s[mid..hi]));
    assert d[lo..hi] == d[lo..mid] + d[mid..hi];
    UValSplitAt(s, lo, mid, hi);
  }

  ghost function Plus(s: seq<Digit>, t: seq<Digit>, i: nat): int
    requires i <= |s| && i <= |t|
  {
    UVal(s[..i]) + UVal(t[..i])
  }

  lemma PlusNext(s: seq<Digit>, t: seq<Digit>, i: nat)
    requires i < |s| && i < |t|
    ensures Plus(s, t, i + 1) == Plus(s, t, i) + Shl(s[i] as int + t[i] as int, i)
  {
    UValPrefix(s, i);
    UValPrefix(t, i);
    ShlAdd(s[i], t[i], i);
  }

  /** Subtraction is the addition of the complement and of a carry of 1. */
  ghost function Minus(s: seq<Digit>, t: seq<Digit>, i: nat): int
    requires i <= |s| && i <= |t|
  {
    UVal(s[..i]) - UVal(t[..i]) + Radix(i)
  }

  lemma MinusNext(s: seq<Digit>, t: seq<Digit>, i: nat)
    requires i < |s| && i < |t|
    ensures Minus(s, t, i + 1) == Minus(s, t, i) + Shl(s[i] as int + (0xFFFF_FFFF - t[i] as int), i)
  {
    UValPrefix(s, i);
    UValPrefix(t, i);
    ShlAdd(s[i], 0xFFFF_FFFF - t[i] as int, i);
    ShlAdd(0xFFFF_FFFF, t[i], i);
    ShlMask(i);
  }

  /** Only digits lo..hi of r changed. */
  twostate predicate OnlyChanged(r: array<Digit>, lo: nat, hi: nat)
    reads r
  {
    forall j :: 0 <= j < r.Length && !(lo <= j < hi) ==> r[j] == old(r[j])
  }

  /** The end of a round: 'acc' leaves its low digit at r[pos], and the rest of
      it is the next carry. */
  method Put(r: array<Digit>, lo: nat, pos: nat, acc: Double, ghost carryIn: int, ghost x: int, ghost sum: int)
    returns (carry: Double)
    requires lo <= pos < r.Length
    requires acc == carryIn + x && Stands(r[lo..pos], carryIn, sum)
    modifies r
    ensures forall j :: 0 <= j < r.Length && j != pos ==> r[j] == old(r[j])
    ensures carry == acc / 0x1_0000_0000
    ensures Stands(r[lo..pos + 1], carry, sum + Shl(x, pos - lo))
  {
    ghost var out := r[lo..pos];
    Round(out, carryIn, sum, x);
    r[pos] := acc % 0x1_0000_0000;
    carry := acc / 0x1_0000_0000;
    assert r[lo..pos + 1] == out + [r[pos]];
  }

  /** r += b over n digits from position ro on; r and b may be one buffer. */
  method AddTo(r: array<Digit>, ro: nat, b: array<Digit>, n: nat) returns (carry: Double)
    requires ro + n <= r.Length && n <= b.Length
    requires r != b || ro == 0
    modifies r
    ensures carry <= 1 && OnlyChanged(r, ro, ro + n)
    ensures Stands(r[ro..ro + n], carry, old(UVal(r[ro..ro + n]) + UVal(b[..n])))
  {
    ghost var s, t := r[ro..ro + n], b[..n];
    var pos := 0;
    carry := 0;
    while pos < n
      invariant 0 <= pos <= n && carry <= 1
      invariant OnlyChanged(r, ro, ro + pos)
      invariant r != b ==> b[..n] == t
      invariant Stands(r[ro..ro + pos], carry, Plus(s, t, pos))
    {
      assert r[ro + pos] == s[pos] && b[pos] == t[pos];
      PlusNext(s, t, pos);
      carry := Put(r, ro, ro + pos, carry + r[ro + pos] + b[pos], carry, s[pos] as int + t[pos] as int,
                   Plus(s, t, pos));
      pos := pos + 1;
    }
    assert s[..n] == s && t[..n] == t;
  }

  /** r = a + b over n digits; a, b and r may be the same buffers. */
  method AddInto(r: array<Digit>, a: array<Digit>, b: array<Digit>, n: nat) returns (carry: Double)
    requires n <= r.Length && n <= a.Length && n <= b.Length
    modifies r
    ensures carry <= 1 && OnlyChanged(r, 0, n)
    ensures Stands(r[..n], carry, old(UVal(a[..n]) + UVal(b[..n])))
  {
    ghost var s, t := a[..n], b[..n];
    var pos := 0;
    carry := 0;
    while pos < n
      invariant 0 <= pos <= n && carry <= 1
      invariant OnlyChanged(r, 0, pos)
      invariant Stands(r[0..pos], carry, Plus(s, t, pos))
    {
      var d1, d2 := a[pos], b[pos];
      assert d1 == s[pos] == old(a[pos]) && d2 == t[pos] == old(b[pos]);
      PlusNext(s, t, pos);
      carry := Put(r, 0, pos, carry + d1 + d2, carry, d1 as int + d2 as int, Plus(s, t, pos));
      pos := pos + 1;
    }
    assert r[0..n] == r[..n] && s[..n] == s && t[..n] == t;
  }

  /** r = a - b over n digits; a, b and r may be the same buffers. The final
      carry is 0 when the subtraction borrowed. */
  method SubInto(r: array<Digit>, a: array<Digit>, b: array<Digit>, n: nat) returns (carry: Double)
    requires n <= r.Length && n <= a.Length && n <= b.Length
    modifies r
    ensures carry <= 1 && OnlyChanged(r, 0, n)
    ensures Stands(r[..n], carry, old(UVal(a[..n]) - UVal(b[..n])) + Radix(n))
  {
    ghost var s, t := a[..n], b[..n];
    var pos := 0;
    carry := 1;
    while pos < n
      invariant 0 <= pos <= n && carry <= 1
      invariant OnlyChanged(r, 0, pos)
      invariant Stands(r[0..pos], carry, Minus(s, t, pos))
    {
      var d1, d2 := a[pos], b[pos];
      assert d1 == s[pos] == old(a[pos]) && d2 == t[pos] == old(b[pos]);
      MinusNext(s, t, pos);
      carry := Put(r, 0, pos, carry + d1 + (0xFFFF_FFFF - d2),
                   carry, d1 as int + (0xFFFF_FFFF - d2 as int), Minus(s, t, pos));
      pos := pos + 1;
    }
    assert r[0..n] == r[..n] && s[..n] == s && t[..n] == t;
  }

  // ------------------------------------------------------- complements

  ghost function Complement(s: seq<Digit>): (r: seq<Digit>)
    ensures |r| == |s|
    ensures forall i :: 0 <= i < |s| ==> r[i] as int == 0xFFFF_FFFF - s[i] as int
  {
    seq(|s|, i requires 0 <= i < |s| => 0xFFFF_FFFF - s[i])
  }

  lemma {:induction false} ComplementValue(s: seq<Digit>)
    ensures UVal(Complement(s)) == Radix(|s|) - 1 - UVal(s)
  {
    if |s| > 0 {
      ComplementValue(s[1..]);
      assert Complement(s)[1..] == Complement(s[1..]);
    }
  }

  lemma ComplementSigned(s: seq<Digit>)
    requires |s| > 0
    ensures SVal(Complement(s)) == -1 - SVal(s)
    ensures IsNegative(Complement(s)[|s| - 1]) <==> !IsNegative(s[|s| - 1])
  {
    ComplementValue(s);
  }

  /** What digits lo..i of s plus that many digits 'sign' amount to. */
  ghost function PlusSign(s: seq<Digit>, lo: nat, i: nat, sign: Digit): int
    requires lo <= i <= |s|
  {
    UVal(s[lo..i]) + (if sign == 0 then 0 else Radix(i - lo) - 1)
  }

  lemma PlusSignNext(s: seq<Digit>, lo: nat, i: nat, sign: Digit)
    requires lo <= i < |s| && (sign == 0 || sign == 0xFFFF_FFFF)
    ensures PlusSign(s, lo, i + 1, sign) == PlusSign(s, lo, i, sign) + Shl(s[i] as int + sign as int, i - lo)
  {
    UValExtend(s, lo, i);
    ShlAdd(s[i], sign, i - lo);
    ShlOne(i - lo);
    ShlMask(i - lo);
  }

  /** r = a + carry over digits lo..hi, where the shorter summand continues with
      its sign digit. r and a may be one buffer. */
  method AddSign(r: array<Digit>, a: array<Digit>, lo: nat, hi: nat, carryIn: Double, sign: Digit)
    returns (carry: Double)
    requires lo <= hi <= r.Length && hi <= a.Length && carryIn <= 1
    requires sign == 0 || sign == 0xFFFF_FFFF
    modifies r
    ensures carry <= 1 && OnlyChanged(r, lo, hi)
    ensures Stands(r[lo..hi], carry, old(PlusSign(a[..], lo, hi, sign)) + carryIn)
  {
    ghost var s := a[..];
    var pos := lo;
    carry := carryIn;
    while pos < hi
      invariant lo <= pos <= hi && carry <= 1
      invariant OnlyChanged(r, lo, pos)
      invariant r != a ==> a[..] == s
      invariant Stands(r[lo..pos], carry, PlusSign(s, lo, pos, sign) + carryIn)
    {
      assert a[pos] == s[pos];
      PlusSignNext(s, lo, pos, sign);
      carry := Put(r, lo, pos, carry + a[pos] + sign,
                   carry, s[pos] as int + sign as int, PlusSign(s, lo, pos, sign) + carryIn);
      pos := pos + 1;
    }
  }

  /** r = carry + sign - b - 1 over digits lo..hi: the shorter minuend continues
      with its sign digit. */
  method SignMinus(r: array<Digit>, b: array<Digit>, lo: nat, hi: nat, carryIn: Double, sign: Digit)
    returns (carry: Double)
    requires lo <= hi <= r.Length && hi <= b.Length && carryIn <= 1 && r != b
    requires sign == 0 || sign == 0xFFFF_FFFF
    modifies r
    ensures carry <= 1 && OnlyChanged(r, lo, hi)
    ensures Stands(r[lo..hi], carry, old(PlusSign(Complement(b[..]), lo, hi, sign)) + carryIn)
  {
    ghost var s := Complement(b[..]);
    var pos := lo;
    carry := carryIn;
    while pos < hi
      invariant lo <= pos <= hi && carry <= 1
      invariant OnlyChanged(r, lo, pos)
      invariant Stands(r[lo..pos], carry, PlusSign(s, lo, pos, sign) + carryIn)
    {
      PlusSignNext(s, lo, pos, sign);
      carry := Put(r, lo, pos, carry + sign + (0xFFFF_FFFF - b[pos]),
                   carry, s[pos] as int + sign as int, PlusSign(s, lo, pos, sign) + carryIn);
      pos := pos + 1;
    }
  }

  /** Digits above 'pos' that did not change do not change a difference. */
  lemma SameTail(d: seq<Digit>, s: seq<Digit>, lo: nat, pos: nat, hi: nat, delta: int)
    requires |d| == |s| && lo <= pos <= hi <= |d| && d[pos..] == s[pos..]
    requires UVal(d[lo..pos]) == UVal(s[lo..pos]) + delta
    ensures UVal(d[lo..hi]) == UVal(s[lo..hi]) + delta
  {
    assert d[pos..hi] == d[pos..][..hi - pos] && s[pos..hi] == s[pos..][..hi - pos];
    UValSplitAt(d, lo, pos, hi);
    UValSplitAt(s, lo, pos, hi);
  }

  /** The digits that an early exit leaves alone need no work. */
  lemma StandsToEnd(d: seq<Digit>, s: seq<Digit>, lo: nat, pos: nat, hi: nat, carry: int, delta: int)
    requires |d| == |s| && lo <= pos <= hi <= |d| && d[pos..] == s[pos..]
    requires carry == 0 || pos == hi
    requires Stands(d[lo..pos], carry, UVal(s[lo..pos]) + delta)
    ensures Stands(d[lo..hi], carry, UVal(s[lo..hi]) + delta)
  {
    if pos < hi {
      ShlOne(pos - lo);
      ShlOne(hi - lo);
      SameTail(d, s, lo, pos, hi, delta);
    }
  }

  /** Adds a carry to the digits lo..hi and stops as soon as it is consumed. */
  method PropagateCarry(r: array<Digit>, lo: nat, hi: nat, carryIn: Double) returns (carry: Double)
    requires lo <= hi <= r.Length && carryIn <= 1
    modifies r
    ensures carry <= 1 && OnlyChanged(r, lo, hi)
    ensures Stands(r[lo..hi], carry, old(UVal(r[lo..hi])) + carryIn)
  {
    ghost var s := r[..];
    var pos := lo;
    carry := carryIn;
    while carry != 0 && pos < hi
      invariant lo <= pos <= hi && carry <= 1
      invariant OnlyChanged(r, lo, pos)
      invariant Stands(r[lo..pos], carry, UVal(s[lo..pos]) + carryIn)
    {
      UValExtend(s, lo, pos);
      carry := Put(r, lo, pos, carry + r[pos], carry, s[pos], UVal(s[lo..pos]) + carryIn);
      pos := pos + 1;
    }
    StandsToEnd(r[..], s, lo, pos, hi, carry, carryIn);
  }

  /** Subtracts a borrow (carryIn == 0) from the digits lo..hi and stops as soon
      as it is consumed. */
  method PropagateBorrow(r: array<Digit>, lo: nat, hi: nat, carryIn: Double) returns (carry: Double)
    requires lo <= hi <= r.Length && carryIn <= 1
    modifies r
    ensures carry <= 1 && OnlyChanged(r, lo, hi)
    ensures Stands(r[lo..hi], carry - 1, old(UVal(r[lo..hi])) + carryIn - 1)
  {
    ghost var s, sum := r[..], carryIn as int;
    var pos := lo;
    carry := carryIn;
    ShlOne(0);
    while carry == 0 && pos < hi
      invariant lo <= pos <= hi && carry <= 1
      invariant OnlyChanged(r, lo, pos)
      invariant Stands(r[lo..pos], carry, sum)
      invariant sum == UVal(s[lo..pos]) + carryIn - 1 + Radix(pos - lo)
    {
      BorrowRound(s, lo, pos);
      ghost var x := s[pos] as int + 0xFFFF_FFFF;
      carry := Put(r, lo, pos, r[pos] as Double + 0xFFFF_FFFF, 0, x, sum);
      sum := sum + Shl(x, pos - lo);
      pos := pos + 1;
    }
    BorrowDone(r[lo..pos], carry, UVal(s[lo..pos]) + carryIn - 1);
    StandsToEnd(r[..], s, lo, pos, hi, carry - 1, carryIn - 1);
  }

  lemma BorrowRound(s: seq<Digit>, lo: nat, pos: nat)
    requires lo <= pos < |s|
    ensures UVal(s[lo..pos]) + Radix(pos - lo) + Shl(s[pos] as int + 0xFFFF_FFFF, pos - lo)
         == UVal(s[lo..pos + 1]) + Radix(pos + 1 - lo)
  {
    UValExtend(s, lo, pos);
    ShlAdd(s[pos], 0xFFFF_FFFF, pos - lo);
    ShlMask(pos - lo);
  }

  lemma BorrowDone(out: seq<Digit>, carry: int, sum: int)
    requires Stands(out, carry, sum + Radix(|out|))
    ensures Stands(out, carry - 1, sum)
  {
    ShlOne(|out|);
    ShlAdd(carry, 1, |out|);
  }

  /** The n-digit two's complement of u. */
  ghost function Negated(n: nat, u: int): int {
    if u == 0 then 0 else Radix(n) - u
  }

  lemma ComplementNext(s: seq<Digit>, i: nat)
    requires i < |s|
    ensures Radix(i + 1) - UVal(s[..i + 1]) == Radix(i) - UVal(s[..i]) + Shl(0xFFFF_FFFF - s[i] as int, i)
  {
    UValPrefix(s, i);
    ShlAdd(0xFFFF_FFFF, s[i], i);
    ShlMask(i);
  }

  /** r = -a over n digits; r and a may be one buffer. */
  method Negate(r: array<Digit>, a: array<Digit>, n: nat)
    requires n <= r.Length && n <= a.Length
    modifies r
    ensures UVal(r[..n]) == Negated(n, old(UVal(a[..n]))) && OnlyChanged(r, 0, n)
  {
    ghost var s := a[..n];
    var pos := 0;
    var carry: Double := 1;
    while pos < n
      invariant 0 <= pos <= n && carry <= 1
      invariant OnlyChanged(r, 0, pos)
      invariant r != a ==> a[..n] == s
      invariant Stands(r[0..pos], carry, Radix(pos) - UVal(s[..pos]))
    {
      assert a[pos] == s[pos];
      ComplementNext(s, pos);
      carry := Put(r, 0, pos, carry + (0xFFFF_FFFF - a[pos]),
                   carry, 0xFFFF_FFFF - s[pos] as int, Radix(pos) - UVal(s[..pos]));
      pos := pos + 1;
    }
    assert r[0..n] == r[..n] && s[..n] == s;
    NegateEnd(r[..n], carry, s);
  }

  /** The last carry of a negation is 1 exactly for zero. */
  lemma NegateEnd(out: seq<Digit>, carry: int, s: seq<Digit>)
    requires 0 <= carry <= 1 && |out| == |s|
    requires Stands(out, carry, Radix(|s|) - UVal(s))
    ensures UVal(out) == Negated(|s|, UVal(s))
  {
    ShlOne(|s|);
    UValBound(out);
    UValBound(s);
  }

  // ------------------------------------------------------------- products

  lemma DigitProduct(a: Digit, b: Digit)
    ensures 0 <= a * b <= 0xFFFF_FFFE_0000_0001
  {
    MulLe(a, 0xFFFF_FFFF, b, 0xFFFF_FFFF);
  }

  /** The product of two digits fits a double digit. */
  function Product(a: Digit, b: Digit): (r: Double)
    ensures r <= 0xFFFF_FFFE_0000_0001
  {
    DigitProduct(a, b);
    (a as int) * b
  }

  lemma MulPrefix(m: int, v: seq<Digit>, i: nat)
    requires i < |v|
    ensures m * UVal(v[..i + 1]) == m * UVal(v[..i]) + Shl(v[i] * m, i)
  {
    UValPrefix(v, i);
    MulDistr(UVal(v[..i]), Shl(v[i], i), m);
    ShlMul(m, v[i], i);
  }

  /** Digits with a carry that stand for a number of as many digits: there is no carry. */
  lemma NoCarry(s: seq<Digit>, carry: int)
    requires carry >= 0 && UVal(s) + Shl(carry, |s|) < Radix(|s|)
    ensures carry == 0 && Shl(carry, |s|) == 0
  {
    ShlOne(|s|);
    ShlMono(1, carry, |s|);
  }
}
