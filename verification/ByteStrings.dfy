/** Big integers as strings of bytes (src/big_rtl.c): the shortest binary
    representation, signed or unsigned, in both byte orders. */
module ByteStrings {
  import opened Digits
  import opened Bits
  import opened BigRecord

  type Byte = b: int | 0 <= b <= 0xFF

  // ------------------------------------------------------------------ values

  /** x shifted left by n bytes. */
  ghost function ByteShl(x: int, n: nat): int {
    if n == 0 then x else 0x100 * ByteShl(x, n - 1)
  }

  lemma {:induction false} ByteShlAdd(x: int, y: int, n: nat)
    ensures ByteShl(x + y, n) == ByteShl(x, n) + ByteShl(y, n)
    ensures ByteShl(x - y, n) == ByteShl(x, n) - ByteShl(y, n)
  {
    if n > 0 {
      ByteShlAdd(x, y, n - 1);
    }
  }

  lemma {:induction false} ByteShlStep(x: int, n: nat)
    ensures ByteShl(0x100 * x, n) == ByteShl(x, n + 1)
  {
    if n > 0 {
      ByteShlStep(x, n - 1);
    }
  }

  lemma {:induction false} ByteShlTwice(x: int, m: nat, n: nat)
    ensures ByteShl(ByteShl(x, m), n) == ByteShl(x, m + n)
  {
    if n > 0 {
      ByteShlTwice(x, m, n - 1);
    }
  }

  lemma {:induction false} ByteShlMono(x: int, y: int, n: nat)
    ensures x <= y <==> ByteShl(x, n) <= ByteShl(y, n)
    ensures ByteShl(0, n) == 0
  {
    if n > 0 {
      ByteShlMono(x, y, n - 1);
    }
  }

  lemma FourBytes(x: int, n: nat)
    ensures ByteShl(x, n + 4) == 0x1_0000_0000 * ByteShl(x, n)
  {
    assert ByteShl(x, n + 2) == 0x100 * ByteShl(x, n + 1) == 0x1_0000 * ByteShl(x, n);
    assert ByteShl(x, n + 4) == 0x100 * ByteShl(x, n + 3) == 0x1_0000 * ByteShl(x, n + 2);
  }

  /** Four bytes are a digit. */
  lemma {:induction false} DigitShift(x: int, n: nat)
    ensures ByteShl(x, 4 * n) == Shl(x, n)
  {
    if n > 0 {
      DigitShift(x, n - 1);
      FourBytes(x, 4 * (n - 1));
    }
  }

  /** The bytes of an unsigned number, lowest byte first. */
  ghost function BVal(b: seq<Byte>): (r: int)
    ensures r >= 0
  {
    if |b| == 0 then 0 else b[0] + 0x100 * BVal(b[1..])
  }

  /** The value of n bytes u, of which 'top' is the highest, in two's complement. */
  ghost function TwosComplement(u: int, top: Byte, n: nat): int {
    if top > 0x7F then u - ByteShl(1, n) else u
  }

  /** The bytes of a number in two's complement, lowest byte first. */
  ghost function SBVal(b: seq<Byte>): int
    requires |b| > 0
  {
    TwosComplement(BVal(b), b[|b| - 1], |b|)
  }

  lemma {:induction false} BValConcat(a: seq<Byte>, b: seq<Byte>)
    ensures BVal(a + b) == BVal(a) + ByteShl(BVal(b), |a|)
  {
    if |a| == 0 {
      assert a + b == b;
    } else {
      assert (a + b)[1..] == a[1..] + b;
      BValConcat(a[1..], b);
    }
  }

  lemma HigherBytes(x: int, u: int, top: Byte, n: nat, m: nat)
    ensures TwosComplement(x + ByteShl(u, m), top, n + m) == x + ByteShl(TwosComplement(u, top, n), m)
  {
    if top > 0x7F {
      ByteShlTwice(1, n, m);
      ByteShlAdd(u, ByteShl(1, n), m);
    }
  }

  lemma TopByte(a: seq<Byte>, b: seq<Byte>)
    requires |b| > 0
    ensures (a + b)[|a + b| - 1] == b[|b| - 1] && |a + b| == |b| + |a|
  {
  }

  lemma {:induction false} SameSign(a: seq<Byte>, b: seq<Byte>, s: seq<Byte>)
    requires |b| > 0 && |s| == |b| + |a| && s[|s| - 1] == b[|b| - 1]
    requires BVal(s) == BVal(a) + ByteShl(BVal(b), |a|)
    ensures SBVal(s) == BVal(a) + ByteShl(SBVal(b), |a|)
  {
    HigherBytes(BVal(a), BVal(b), b[|b| - 1], |b|, |a|);
  }

  /** Only the highest byte carries the sign. */
  lemma {:induction false} SBValConcat(a: seq<Byte>, b: seq<Byte>)
    requires |b| > 0
    ensures SBVal(a + b) == BVal(a) + ByteShl(SBVal(b), |a|)
  {
    TopByte(a, b);
    BValConcat(a, b);
    SameSign(a, b, a + b);
  }

  lemma {:induction false} BValBound(b: seq<Byte>)
    ensures BVal(b) < ByteShl(1, |b|)
  {
    if |b| > 0 {
      BValBound(b[1..]);
    }
  }

  lemma {:induction false} BValInjective(a: seq<Byte>, b: seq<Byte>)
    requires |a| == |b| && BVal(a) == BVal(b)
    ensures a == b
  {
    if |a| > 0 {
      BValInjective(a[1..], b[1..]);
      assert a == [a[0]] + a[1..] && b == [b[0]] + b[1..];
    }
  }

  // ------------------------------------------------------- shortest encodings

  /** The highest byte is needed. */
  ghost predicate Shortest(b: seq<Byte>, isSigned: bool) {
    |b| > 0 && (|b| >= 2 ==>
      if isSigned then
        !(b[|b| - 1] == 0 && b[|b| - 2] <= 0x7F) && !(b[|b| - 1] == 0xFF && b[|b| - 2] > 0x7F)
      else
        b[|b| - 1] != 0)
  }

  ghost function BytesValue(b: seq<Byte>, isSigned: bool): int
    requires |b| > 0
  {
    if isSigned then SBVal(b) else BVal(b)
  }

  lemma {:induction false} OneByte(t: Byte)
    ensures BVal([t]) == t && SBVal([t]) == SignedByte(t)
  {
    assert [t][1..] == [];
    assert ByteShl(1, 1) == 0x100 * ByteShl(1, 0);
  }

  lemma {:induction false} SplitTop(b: seq<Byte>)
    requires |b| > 0
    ensures BVal(b) == BVal(b[..|b| - 1]) + ByteShl(b[|b| - 1], |b| - 1)
    ensures SBVal(b) == BVal(b[..|b| - 1]) + ByteShl(SignedByte(b[|b| - 1]), |b| - 1)
  {
    var low, top := b[..|b| - 1], b[|b| - 1];
    assert b == low + [top];
    BValConcat(low, [top]);
    SBValConcat(low, [top]);
    OneByte(top);
  }

  function SignedByte(b: Byte): int {
    if b > 0x7F then b - 0x100 else b
  }

  /** The range of n bytes, in multiples of half the weight of the highest byte. */
  lemma BytesRange(b: seq<Byte>, isSigned: bool)
    requires |b| > 0
    ensures isSigned ==> ByteShl(-0x80, |b| - 1) <= SBVal(b) < ByteShl(0x80, |b| - 1)
    ensures !isSigned ==> 0 <= BVal(b) < ByteShl(1, |b|)
  {
    var n, t := |b| - 1, SignedByte(b[|b| - 1]);
    SplitTop(b);
    BValBound(b);
    BValBound(b[..n]);
    ByteShlMono(-0x80, t, n);
    ByteShlMono(t, 0x7F, n);
    ByteShlAdd(0x7F, 1, n);
  }

  /** A shortest encoding does not fit into one byte less. */
  lemma ShortestRange(b: seq<Byte>, isSigned: bool)
    requires Shortest(b, isSigned) && |b| >= 2
    ensures isSigned ==> SBVal(b) >= ByteShl(0x80, |b| - 2) || SBVal(b) < ByteShl(-0x80, |b| - 2)
    ensures !isSigned ==> BVal(b) >= ByteShl(1, |b| - 1)
  {
    var n, t := |b| - 1, SignedByte(b[|b| - 1]);
    var low := b[..n];
    SplitTop(b);
    if isSigned {
      SplitTop(low);
      BytesRange(low, true);
      BValBound(low);
      ByteShlMono(0, t, n);
      ByteShlMono(1, t, n);
      ByteShlMono(t, -1, n);
      ByteShlMono(t, -2, n);
      ByteShlAdd(-1, 1, n);
      ByteShlAdd(-2, 1, n);
      ByteShlStep(1, n - 1);
      ByteShlAdd(0x80, 0x80, n - 1);
      ByteShlAdd(-0x80, -0x80, n - 1);
      ByteShlStep(-1, n - 1);
      ByteShlMono(0x80, b[n - 1], n - 1);
      ByteShlMono(b[n - 1], 0x7F, n - 1);
      ByteShlAdd(0x7F, 1, n - 1);
      BValBound(low[..n - 1]);
    } else {
      ByteShlMono(1, b[n], n);
    }
  }

  /** No other encoding of the number is shorter, and none of the same length is
      different. */
  lemma ShortestIsUnique(a: seq<Byte>, b: seq<Byte>, isSigned: bool)
    requires Shortest(a, isSigned) && |b| > 0 && BytesValue(a, isSigned) == BytesValue(b, isSigned)
    ensures |a| <= |b| && (Shortest(b, isSigned) ==> a == b)
  {
    NotShorter(a, b, isSigned);
    if Shortest(b, isSigned) {
      NotShorter(b, a, isSigned);
      SameBytes(a, b, isSigned);
    }
  }

  lemma NotShorter(a: seq<Byte>, b: seq<Byte>, isSigned: bool)
    requires Shortest(a, isSigned) && |b| > 0 && BytesValue(a, isSigned) == BytesValue(b, isSigned)
    ensures |a| <= |b|
  {
    if |a| > |b| {
      ShortestRange(a, isSigned);
      BytesRange(b, isSigned);
      WiderRange(0x80, |b| - 1, |a| - 2);
      WiderRange(1, |b|, |a| - 1);
      ByteShlNegated(0x80, |b| - 1);
      ByteShlNegated(0x80, |a| - 2);
    }
  }

  lemma {:induction false} WiderRange(x: nat, m: nat, n: nat)
    requires m <= n
    ensures 0 <= ByteShl(x, m) <= ByteShl(x, n)
  {
    ByteShlMono(0, x, m);
    if m < n {
      WiderRange(x, m, n - 1);
    }
  }

  lemma ByteShlNegated(x: int, n: nat)
    ensures ByteShl(-x, n) == -ByteShl(x, n)
  {
    ByteShlAdd(0, x, n);
    ByteShlMono(0, x, n);
  }

  lemma SameBytes(a: seq<Byte>, b: seq<Byte>, isSigned: bool)
    requires |a| == |b| > 0 && BytesValue(a, isSigned) == BytesValue(b, isSigned)
    ensures a == b
  {
    BValBound(a);
    BValBound(b);
    BValInjective2(a, b);
  }

  /** The unsigned values are equal, because they are equal modulo 256 ^ n. */
  lemma BValInjective2(a: seq<Byte>, b: seq<Byte>)
    requires |a| == |b| > 0 && (BVal(a) == BVal(b) || SBVal(a) == SBVal(b))
    ensures a == b
  {
    BValBound(a);
    BValBound(b);
    BValInjective(a, if BVal(a) == BVal(b) then b else a);
    if BVal(a) != BVal(b) {
      assert false;
    }
  }

  // ------------------------------------------------------------ bytes of digits

  /** (d >> 8 n) & 0xFF */
  function ByteAt(d: Digit, n: nat): Byte
    requires n < 4
  {
    if n == 0 then d % 0x100
    else if n == 1 then d / 0x100 % 0x100
    else if n == 2 then d / 0x1_0000 % 0x100
    else d / 0x100_0000
  }

  lemma ByteMeans(d: Digit, k: nat, p: int)
    requires p == Pow2(k)
    ensures And(Shr(d, k), 0xFF) == d / p % 0x100
  {
    ShrMeans(d, k);
    assert Pow2(8) == 0x100;
    AndLowMask(Shr(d, k), 8);
  }

  lemma ByteAtMeans(d: Digit, n: nat)
    requires n < 4
    ensures ByteAt(d, n) == And(Shr(d, 8 * n), 0xFF)
  {
    assert Pow2(0) == 1 && Pow2(8) == 0x100;
    Pow2Add(8, 8);
    Pow2Add(16, 8);
    ByteMeans(d, 8 * n, if n == 0 then 1 else if n == 1 then 0x100 else if n == 2 then 0x1_0000 else 0x100_0000);
  }

  /** The lowest k bytes of a digit. */
  ghost function DigitBytes(d: Digit, k: nat): (b: seq<Byte>)
    requires k <= 4
    ensures |b| == k
  {
    [ByteAt(d, 0), ByteAt(d, 1), ByteAt(d, 2), ByteAt(d, 3)][..k]
  }

  lemma BValFour(b: seq<Byte>)
    requires |b| <= 4
    ensures |b| == 1 ==> BVal(b) == b[0]
    ensures |b| == 2 ==> BVal(b) == b[0] as int + 0x100 * b[1] as int
    ensures |b| == 3 ==> BVal(b) == b[0] as int + 0x100 * b[1] as int + 0x1_0000 * b[2] as int
    ensures |b| == 4
        ==> BVal(b) == b[0] as int + 0x100 * b[1] as int + 0x1_0000 * b[2] as int + 0x100_0000 * b[3] as int
    decreases |b|
  {
    if |b| > 1 {
      BValFour(b[1..]);
    }
  }

  lemma DigitParts(d: Digit)
    ensures ByteAt(d, 0) as int + 0x100 * ByteAt(d, 1) as int + 0x1_0000 * ByteAt(d, 2) as int
          + 0x100_0000 * ByteAt(d, 3) as int == d
  {
    var q := d / 0x100;
    var r := q / 0x100;
    assert d / 0x1_0000 == r && d / 0x100_0000 == r / 0x100;
  }

  lemma DigitValue(d: Digit)
    ensures BVal(DigitBytes(d, 4)) == d
  {
    BValFour(DigitBytes(d, 4));
    DigitParts(d);
  }

  /** The bytes of a digit string, lowest byte first. */
  ghost function AllBytes(s: seq<Digit>): (b: seq<Byte>)
    ensures |b| == 4 * |s|
  {
    if |s| == 0 then [] else DigitBytes(s[0], 4) + AllBytes(s[1..])
  }

  lemma {:induction false} AllBytesValue(s: seq<Digit>)
    ensures BVal(AllBytes(s)) == UVal(s)
  {
    if |s| > 0 {
      AllBytesValue(s[1..]);
      DigitValue(s[0]);
      BValConcat(DigitBytes(s[0], 4), AllBytes(s[1..]));
      FourBytes(UVal(s[1..]), 0);
    }
  }

  lemma {:induction false} AllBytesAt(s: seq<Digit>, i: nat, j: nat)
    requires i < |s| && j < 4
    ensures AllBytes(s)[4 * i + j] == ByteAt(s[i], j)
  {
    if i > 0 {
      AllBytesAt(s[1..], i - 1, j);
    }
  }

  lemma {:induction false} AllBytesSnoc(s: seq<Digit>, d: Digit)
    ensures AllBytes(s + [d]) == AllBytes(s) + DigitBytes(d, 4)
  {
    if |s| == 0 {
      assert s + [d] == [d] && [d][1..] == [];
    } else {
      assert (s + [d])[1..] == s[1..] + [d];
      AllBytesSnoc(s[1..], d);
      assert (DigitBytes(s[0], 4) + AllBytes(s[1..])) + DigitBytes(d, 4)
          == DigitBytes(s[0], 4) + (AllBytes(s[1..]) + DigitBytes(d, 4));
    }
  }

  // ---------------------------------------------------------------- encoding

  /** The byte that a sign extension consists of. */
  function SignByte(d: Digit): Byte {
    if IsNegative(d) then 0xFF else 0
  }

  /** The bytes above byte k only repeat the sign of it, and byte k is needed. */
  ghost predicate TopByteAt(d: Digit, k: nat) {
    && k < 4
    && (forall j :: k < j < 4 ==> ByteAt(d, j) == SignByte(d))
    && (ByteAt(d, k) > 0x7F <==> IsNegative(d))
    && (k >= 1 && ByteAt(d, k) == SignByte(d) ==> (ByteAt(d, k - 1) > 0x7F <==> !IsNegative(d)))
  }

  /** The highest byte of a digit that a signed encoding needs. */
  method SignedTop(digit: Digit, size0: nat) returns (byteNum: nat, result_size: nat)
    requires size0 >= 4
    ensures TopByteAt(digit, byteNum) && result_size == size0 - 3 + byteNum
  {
    byteNum, result_size := 3, size0;
    if IsNegative(digit) {
      while byteNum > 0 && ByteAt(digit, byteNum) == 0xFF
        invariant byteNum < 4 && result_size == size0 - 3 + byteNum
        invariant forall j :: byteNum < j < 4 ==> ByteAt(digit, j) == 0xFF
      {
        result_size, byteNum := result_size - 1, byteNum - 1;
      }
      if byteNum < 3 && ByteAt(digit, byteNum) <= 0x7F {
        result_size, byteNum := result_size + 1, byteNum + 1;
      }
    } else {
      while byteNum > 0 && ByteAt(digit, byteNum) == 0
        invariant byteNum < 4 && result_size == size0 - 3 + byteNum
        invariant forall j :: byteNum < j < 4 ==> ByteAt(digit, j) == 0
      {
        result_size, byteNum := result_size - 1, byteNum - 1;
      }
      if byteNum < 3 && ByteAt(digit, byteNum) > 0x7F {
        result_size, byteNum := result_size + 1, byteNum + 1;
      }
    }
  }

  lemma {:induction false} ByteWeights()
    ensures ByteShl(1, 1) == 0x100 && ByteShl(1, 2) == 0x1_0000
    ensures ByteShl(1, 3) == 0x100_0000 && ByteShl(1, 4) == 0x1_0000_0000
  {
    assert ByteShl(1, 0) == 1;
  }

  /** The lowest bytes of a digit as a number in two's complement. */
  lemma SignedPart(d: Digit, k: nat)
    requires TopByteAt(d, k)
    ensures SBVal(DigitBytes(d, k + 1)) == Signed(d)
  {
    BValFour(DigitBytes(d, k + 1));
    DigitParts(d);
    ByteWeights();
    assert k < 1 ==> ByteAt(d, 1) == SignByte(d);
    assert k < 2 ==> ByteAt(d, 2) == SignByte(d);
    assert k < 3 ==> ByteAt(d, 3) == SignByte(d);
  }

  /** The bytes up to byte k of digit pos. */
  lemma {:induction false} BytesUpTo(s: seq<Digit>, pos: nat, k: nat)
    requires pos < |s| && k < 4
    ensures AllBytes(s)[..4 * pos + k + 1] == AllBytes(s[..pos]) + DigitBytes(s[pos], k + 1)
  {
    var n := 4 * pos + k + 1;
    assert s[..pos + 1] == s[..pos] + [s[pos]] && s == s[..pos + 1] + s[pos + 1..];
    AllBytesSnoc(s[..pos], s[pos]);
    AllBytesConcat(s[..pos + 1], s[pos + 1..]);
    var all := (AllBytes(s[..pos]) + DigitBytes(s[pos], 4)) + AllBytes(s[pos + 1..]);
    assert all[..n] == AllBytes(s[..pos]) + DigitBytes(s[pos], 4)[..k + 1];
  }

  lemma {:induction false} AllBytesConcat(s: seq<Digit>, t: seq<Digit>)
    ensures AllBytes(s + t) == AllBytes(s) + AllBytes(t)
  {
    if |s| == 0 {
      assert s + t == t;
    } else {
      assert (s + t)[1..] == s[1..] + t;
      AllBytesConcat(s[1..], t);
    }
  }

  /** The bytes are the shortest encoding of x. */
  ghost predicate Encodes(b: seq<Byte>, x: int, isSigned: bool) {
    Shortest(b, isSigned) && BytesValue(b, isSigned) == x
  }

  lemma {:induction false} SignedEncoding(s: seq<Digit>, k: nat)
    requires Normal(s) && TopByteAt(s[|s| - 1], k)
    ensures Encodes(AllBytes(s)[..4 * (|s| - 1) + k + 1], SVal(s), true)
  {
    var n := |s| - 1;
    var low, top := AllBytes(s[..n]), DigitBytes(s[n], k + 1);
    BytesUpTo(s, n, k);
    SBValConcat(low, top);
    SignedPart(s[n], k);
    AllBytesValue(s[..n]);
    DigitShift(Signed(s[n]), n);
    SValTop(s);
    SignedTopNeeded(s, k, low + top);
  }

  lemma {:induction false} SignedTopNeeded(s: seq<Digit>, k: nat, b: seq<Byte>)
    requires Normal(s) && TopByteAt(s[|s| - 1], k)
    requires b == AllBytes(s[..|s| - 1]) + DigitBytes(s[|s| - 1], k + 1)
    ensures Shortest(b, true)
  {
    var n := |s| - 1;
    assert b[|b| - 1] == ByteAt(s[n], k);
    if k >= 1 {
      assert b[|b| - 2] == ByteAt(s[n], k - 1);
    } else if n >= 1 {
      AllBytesAt(s[..n], n - 1, 3);
      assert b[|b| - 2] == ByteAt(s[n - 1], 3);
      SignExtended(s[n]);
    }
  }

  /** A digit of which only the lowest byte is needed. */
  lemma SignExtended(d: Digit)
    requires TopByteAt(d, 0)
    ensures ByteAt(d, 0) == SignByte(d) ==> d == if IsNegative(d) then 0xFFFF_FFFF else 0
  {
    DigitParts(d);
    assert ByteAt(d, 1) == SignByte(d) && ByteAt(d, 2) == SignByte(d) && ByteAt(d, 3) == SignByte(d);
  }

  /** The highest byte of a digit that an unsigned encoding needs. */
  method UnsignedTop(digit: Digit, size0: nat) returns (byteNum: nat, result_size: nat)
    requires size0 >= 4
    ensures byteNum < 4 && result_size == size0 - 3 + byteNum
    ensures forall j :: byteNum < j < 4 ==> ByteAt(digit, j) == 0
    ensures byteNum > 0 ==> ByteAt(digit, byteNum) != 0
  {
    byteNum, result_size := 3, size0;
    while byteNum > 0 && ByteAt(digit, byteNum) == 0
      invariant byteNum < 4 && result_size == size0 - 3 + byteNum
      invariant forall j :: byteNum < j < 4 ==> ByteAt(digit, j) == 0
    {
      result_size, byteNum := result_size - 1, byteNum - 1;
    }
  }

  lemma UnsignedPart(d: Digit, k: nat)
    requires k < 4 && forall j :: k < j < 4 ==> ByteAt(d, j) == 0
    ensures BVal(DigitBytes(d, k + 1)) == d
    ensures ByteAt(d, k) == 0 && k == 0 ==> d == 0
  {
    BValFour(DigitBytes(d, k + 1));
    DigitParts(d);
    assert k < 1 ==> ByteAt(d, 1) == 0;
    assert k < 2 ==> ByteAt(d, 2) == 0;
    assert k < 3 ==> ByteAt(d, 3) == 0;
  }

  /** Digit pos is the highest one that is not zero, if there is one. */
  lemma {:induction false} UnsignedEncoding(s: seq<Digit>, pos: nat, k: nat)
    requires pos < |s| && k < 4 && UVal(s) == UVal(s[..pos + 1]) && (pos > 0 ==> s[pos] != 0)
    requires forall j :: k < j < 4 ==> ByteAt(s[pos], j) == 0
    requires k > 0 ==> ByteAt(s[pos], k) != 0
    ensures Encodes(AllBytes(s)[..4 * pos + k + 1], UVal(s), false)
  {
    var low, top := AllBytes(s[..pos]), DigitBytes(s[pos], k + 1);
    BytesUpTo(s, pos, k);
    BValConcat(low, top);
    UnsignedPart(s[pos], k);
    AllBytesValue(s[..pos]);
    DigitShift(s[pos], pos);
    UValPrefix(s, pos);
    assert (low + top)[4 * pos + k] == ByteAt(s[pos], k);
  }

  /** The first part of bigToBStriBe and bigToBStriLe: how many bytes there are. */
  method EncodingEnd(big1: Big, isSigned: bool) returns (okay: bool, pos: nat, byteNum: nat, result_size: nat)
    requires big1.Canonical()
    ensures okay <==> isSigned || big1.Value() >= 0
    ensures okay ==> pos < big1.size && byteNum < 4 && result_size == 4 * pos + byteNum + 1
    ensures okay ==> Encodes(AllBytes(big1.Digits())[..result_size], big1.Value(), isSigned)
  {
    ghost var s := big1.Digits();
    SValRange(s);
    result_size := big1.size * 4;
    pos := big1.size - 1;
    var digit: Digit := big1.bigdigits[pos];
    okay, byteNum := true, 3;
    if isSigned {
      byteNum, result_size := SignedTop(digit, result_size);
      SignedEncoding(s, byteNum);
    } else if IsNegative(digit) {
      okay := false;
    } else {
      assert s[..|s|] == s;
      if digit == 0 && pos > 0 {
        UValPrefix(s, pos);
        ShlOne(pos);
        result_size := result_size - 4;
        pos := pos - 1;
        digit := big1.bigdigits[pos];
      }
      byteNum, result_size := UnsignedTop(digit, result_size);
      UnsignedEncoding(s, pos, byteNum);
    }
  }

  ghost function Backwards(b: seq<Byte>): (r: seq<Byte>)
    ensures |r| == |b|
  {
    seq(|b|, i requires 0 <= i < |b| => b[|b| - 1 - i])
  }

  /** The exception RANGE_ERROR is a result here. */
  datatype EncodeResult = Encoded(bytes: seq<Byte>) | NegativeNumber

  lemma {:induction false} ByteShlMeans(x: int, n: nat)
    ensures ByteShl(x, n) == x * Pow2(8 * n)
  {
    if n > 0 {
      ByteShlMeans(x, n - 1);
      assert Pow2(8) == 0x100;
      Pow2Add(8, 8 * (n - 1));
      MulSwap(x, 0x100, Pow2(8 * (n - 1)));
    }
  }

  /** Lowest byte first: the last byte is the most significant one, and has the sign. */
  lemma {:induction false} LittleEndian(b: seq<Byte>, top: Byte)
    ensures BytesValue([top], false) == top
    ensures |b| > 0 ==> BytesValue(b + [top], false) == BytesValue(b, false) + top * Pow2(8 * |b|)
    ensures BytesValue(b + [top], true)
         == BytesValue(b + [top], false) - if top >= 0x80 then Pow2(8 * (|b| + 1)) else 0
  {
    OneByte(top);
    BValConcat(b, [top]);
    ByteShlMeans(top, |b|);
    ByteShlMeans(1, |b| + 1);
  }

  /** Highest byte first: each byte that follows counts less. */
  lemma {:induction false} BigEndian(b: seq<Byte>, low: Byte)
    requires |b| > 0
    ensures BytesValue(Backwards(b + [low]), false) == 0x100 * BytesValue(Backwards(b), false) + low
    ensures BytesValue(Backwards(b), true)
         == BytesValue(Backwards(b), false) - if b[0] >= 0x80 then Pow2(8 * |b|) else 0
  {
    assert Backwards(b + [low]) == [low] + Backwards(b);
    assert ([low] + Backwards(b))[1..] == Backwards(b);
    var r := Backwards(b);
    assert r == r[..|r| - 1] + [b[0]];
    LittleEndian(r[..|r| - 1], b[0]);
  }

  /** The bytes byteNum0 to 0 of a digit, written towards higher indices. */
  method PutBytesBe(mem: array<Byte>, charIndex0: nat, digit: Digit, byteNum0: nat) returns (charIndex: nat)
    requires byteNum0 < 4 && charIndex0 + byteNum0 < mem.Length
    modifies mem
    ensures charIndex == charIndex0 + byteNum0 + 1
    ensures forall j :: 0 <= j <= byteNum0 ==> mem[charIndex0 + byteNum0 - j] == ByteAt(digit, j)
    ensures forall i :: 0 <= i < mem.Length && !(charIndex0 <= i < charIndex) ==> mem[i] == old(mem[i])
  {
    charIndex := charIndex0;
    var byteNum: int := byteNum0;
    while byteNum >= 0
      invariant -1 <= byteNum <= byteNum0 && charIndex == charIndex0 + byteNum0 - byteNum
      invariant forall j :: byteNum < j <= byteNum0 ==> mem[charIndex0 + byteNum0 - j] == ByteAt(digit, j)
      invariant forall i :: 0 <= i < mem.Length && !(charIndex0 <= i < charIndex) ==> mem[i] == old(mem[i])
    {
      mem[charIndex] := ByteAt(digit, byteNum);
      charIndex := charIndex + 1;
      byteNum := byteNum - 1;
    }
  }

  /** The bytes byteNum0 to 0 of a digit, written towards lower indices. */
  method PutBytesLe(mem: array<Byte>, charIndex0: int, digit: Digit, byteNum0: nat) returns (charIndex: int)
    requires byteNum0 < 4 && byteNum0 <= charIndex0 < mem.Length
    modifies mem
    ensures charIndex == charIndex0 - byteNum0 - 1
    ensures forall j :: 0 <= j <= byteNum0 ==> mem[charIndex0 - byteNum0 + j] == ByteAt(digit, j)
    ensures forall i :: 0 <= i < mem.Length && !(charIndex < i <= charIndex0) ==> mem[i] == old(mem[i])
  {
    charIndex := charIndex0;
    var byteNum: int := byteNum0;
    while byteNum >= 0
      invariant -1 <= byteNum <= byteNum0 && charIndex == charIndex0 - byteNum0 + byteNum
      invariant forall j :: byteNum < j <= byteNum0 ==> mem[charIndex0 - byteNum0 + j] == ByteAt(digit, j)
      invariant forall i :: 0 <= i < mem.Length && !(charIndex < i <= charIndex0) ==> mem[i] == old(mem[i])
    {
      mem[charIndex] := ByteAt(digit, byteNum);
      charIndex := charIndex - 1;
      byteNum := byteNum - 1;
    }
  }

  /** The bytes of the digit at pos, up to byte k. */
  lemma BytesOfDigit(s: seq<Digit>, pos: nat, k: nat)
    requires pos < |s| && k < 4
    ensures forall j :: 0 <= j <= k ==> AllBytes(s)[4 * pos + j] == ByteAt(s[pos], j)
  {
    forall j | 0 <= j <= k ensures AllBytes(s)[4 * pos + j] == ByteAt(s[pos], j) {
      AllBytesAt(s, pos, j);
    }
  }

  /** The first n cells hold the highest bytes, the highest one first. */
  ghost predicate FilledBe(h: seq<Byte>, all: seq<Byte>, n: nat) {
    n <= |h| <= |all| && forall i :: 0 <= i < n ==> h[i] == all[|h| - 1 - i]
  }

  /** The cells from n on hold the bytes from n on. */
  ghost predicate FilledLe(h: seq<Byte>, all: seq<Byte>, n: nat) {
    n <= |h| <= |all| && forall i :: n <= i < |h| ==> h[i] == all[i]
  }

  lemma FilledNextBe(h: seq<Byte>, h': seq<Byte>, all: seq<Byte>, n: nat, d: Digit, k: nat)
    requires FilledBe(h, all, n) && |h'| == |h| && k < 4 && n + k < |h|
    requires forall j :: 0 <= j <= k ==> h'[n + k - j] == ByteAt(d, j)
    requires forall i :: 0 <= i < n ==> h'[i] == h[i]
    requires forall j :: 0 <= j <= k ==> all[|h| - 1 - n - k + j] == ByteAt(d, j)
    ensures FilledBe(h', all, n + k + 1)
  {
    forall i | 0 <= i < n + k + 1 ensures h'[i] == all[|h| - 1 - i] {
      if i >= n {
        var j := n + k - i;
        assert h'[n + k - j] == ByteAt(d, j) && all[|h| - 1 - n - k + j] == ByteAt(d, j);
      }
    }
  }

  lemma FilledNextLe(h: seq<Byte>, h': seq<Byte>, all: seq<Byte>, n: nat, d: Digit, k: nat)
    requires FilledLe(h, all, n) && |h'| == |h| && k < n && k < 4
    requires forall j :: 0 <= j <= k ==> h'[n - 1 - k + j] == ByteAt(d, j)
    requires forall i :: n <= i < |h| ==> h'[i] == h[i]
    requires forall j :: 0 <= j <= k ==> all[n - 1 - k + j] == ByteAt(d, j)
    ensures FilledLe(h', all, n - 1 - k)
  {
    forall i | n - 1 - k <= i < |h| ensures h'[i] == all[i] {
      if i < n {
        var j := i - (n - 1 - k);
        assert h'[n - 1 - k + j] == ByteAt(d, j) && all[n - 1 - k + j] == ByteAt(d, j);
      }
    }
  }

  /** Writes digit 'pos' up to byte k at the end of what has been written. */
  method PutDigitBe(mem: array<Byte>, charIndex0: nat, big1: Big, pos: nat, k: nat) returns (charIndex: nat)
    requires big1.Valid() && pos < big1.size && k < 4
    requires charIndex0 + 4 * pos + k + 1 == mem.Length
    requires FilledBe(mem[..], AllBytes(big1.Digits()), charIndex0)
    modifies mem
    ensures charIndex == charIndex0 + k + 1
    ensures FilledBe(mem[..], AllBytes(big1.Digits()), charIndex)
  {
    ghost var h := mem[..];
    charIndex := PutBytesBe(mem, charIndex0, big1.bigdigits[pos], k);
    BytesOfDigit(big1.Digits(), pos, k);
    FilledNextBe(h, mem[..], AllBytes(big1.Digits()), charIndex0, big1.bigdigits[pos], k);
  }

  method PutDigitLe(mem: array<Byte>, charIndex0: int, big1: Big, pos: nat, k: nat) returns (charIndex: int)
    requires big1.Valid() && pos < big1.size && k < 4
    requires charIndex0 == 4 * pos + k && charIndex0 < mem.Length
    requires FilledLe(mem[..], AllBytes(big1.Digits()), charIndex0 + 1)
    modifies mem
    ensures charIndex == 4 * pos - 1
    ensures FilledLe(mem[..], AllBytes(big1.Digits()), 4 * pos)
  {
    ghost var h := mem[..];
    charIndex := PutBytesLe(mem, charIndex0, big1.bigdigits[pos], k);
    BytesOfDigit(big1.Digits(), pos, k);
    FilledNextLe(h, mem[..], AllBytes(big1.Digits()), charIndex0 + 1, big1.bigdigits[pos], k);
  }

  method BigToBStriBe(big1: Big, isSigned: bool) returns (result: EncodeResult)
    requires big1.Canonical()
    ensures result.Encoded? <==> isSigned || big1.Value() >= 0
    ensures result.Encoded? ==> Encodes(Backwards(result.bytes), big1.Value(), isSigned)
  {
    var okay, pos, byteNum, result_size := EncodingEnd(big1, isSigned);
    if !okay {
      return NegativeNumber;
    }
    var mem := new Byte[result_size];
    ghost var all := AllBytes(big1.Digits());
    var charIndex := PutDigitBe(mem, 0, big1, pos, byteNum);
    while pos > 0
      invariant 0 <= pos < big1.size && charIndex + 4 * pos == mem.Length
      invariant FilledBe(mem[..], all, charIndex)
    {
      pos := pos - 1;
      charIndex := PutDigitBe(mem, charIndex, big1, pos, 3);
    }
    result := Encoded(mem[..]);
    assert Backwards(mem[..]) == all[..result_size];
  }

  method BigToBStriLe(big1: Big, isSigned: bool) returns (result: EncodeResult)
    requires big1.Canonical()
    ensures result.Encoded? <==> isSigned || big1.Value() >= 0
    ensures result.Encoded? ==> Encodes(result.bytes, big1.Value(), isSigned)
  {
    var okay, pos, byteNum, result_size := EncodingEnd(big1, isSigned);
    if !okay {
      return NegativeNumber;
    }
    var mem := new Byte[result_size];
    ghost var all := AllBytes(big1.Digits());
    var charIndex := PutDigitLe(mem, result_size - 1, big1, pos, byteNum);
    while pos > 0
      invariant 0 <= pos < big1.size && charIndex == 4 * pos - 1 && FilledLe(mem[..], all, 4 * pos)
    {
      pos := pos - 1;
      charIndex := PutDigitLe(mem, charIndex, big1, pos, 3);
    }
    result := Encoded(mem[..]);
    assert mem[..] == all[..result_size];
  }

  /** The little-endian string is the big-endian one read backwards. */
  lemma OrdersAgree(be: seq<Byte>, le: seq<Byte>, x: int, isSigned: bool)
    requires Encodes(Backwards(be), x, isSigned) && Encodes(le, x, isSigned)
    ensures le == Backwards(be)
  {
    ShortestIsUnique(le, Backwards(be), isSigned);
  }

  // ---------------------------------------------------------------- decoding

  function FromBytes(b0: Byte, b1: Byte, b2: Byte, b3: Byte): Digit {
    b0 as int + 0x100 * b1 as int + 0x1_0000 * b2 as int + 0x100_0000 * b3 as int
  }

  lemma FromBytesMeans(b0: Byte, b1: Byte, b2: Byte, b3: Byte)
    ensures DigitBytes(FromBytes(b0, b1, b2, b3), 4) == [b0, b1, b2, b3]
  {
    var d := FromBytes(b0, b1, b2, b3);
    BValFour([b0, b1, b2, b3]);
    DigitValue(d);
    BValInjective(DigitBytes(d, 4), [b0, b1, b2, b3]);
  }

  /** Bytes of the sign do not change the value of a number in two's complement. */
  lemma {:induction false} SignExtension(b: seq<Byte>, pad: seq<Byte>)
    requires |b| > 0 && forall i :: 0 <= i < |pad| ==> pad[i] == if b[|b| - 1] > 0x7F then 0xFF else 0
    ensures SBVal(b + pad) == SBVal(b)
    decreases |pad|
  {
    if |pad| == 0 {
      assert b + pad == b;
    } else {
      var n := |pad| - 1;
      var c := b + pad[..n];
      SignExtension(b, pad[..n]);
      assert b + pad == c + [pad[n]];
      assert c[|c| - 1] > 0x7F <==> b[|b| - 1] > 0x7F;
      SplitTop(b + pad);
      assert (b + pad)[..|b + pad| - 1] == c;
      SignByteAdded(BVal(c), c[|c| - 1], |c|);
    }
  }

  lemma SignByteAdded(u: int, top: Byte, n: nat)
    ensures TwosComplement(u, top, n) == u + (if top > 0x7F then ByteShl(-1, n) else 0)
    ensures ByteShl(0, n) == 0
  {
    ByteShlNegated(1, n);
    ByteShlMono(0, 0, n);
  }

  lemma {:induction false} ZeroExtension(b: seq<Byte>, pad: seq<Byte>)
    requires forall i :: 0 <= i < |pad| ==> pad[i] == 0
    ensures BVal(b + pad) == BVal(b)
  {
    BValConcat(b, pad);
    ZeroBytes(pad);
    ByteShlMono(0, 0, |b|);
  }

  lemma {:induction false} ZeroBytes(b: seq<Byte>)
    requires forall i :: 0 <= i < |b| ==> b[i] == 0
    ensures BVal(b) == 0
  {
    if |b| > 0 {
      ZeroBytes(b[1..]);
    }
  }

  /** The signed value of digits is that of their bytes. */
  lemma {:induction false} AllBytesSigned(s: seq<Digit>)
    requires |s| > 0
    ensures SBVal(AllBytes(s)) == SVal(s)
  {
    var n := |s| - 1;
    AllBytesValue(s);
    AllBytesAt(s, n, 3);
    DigitShift(1, |s|);
    ShlOne(|s|);
  }

  /** n bytes that repeat the sign, or zeros. */
  function Padding(n: nat, b: Byte): (pad: seq<Byte>)
    ensures |pad| == n && forall i :: 0 <= i < n ==> pad[i] == b
  {
    seq(n, _ => b)
  }

  /** The byte that is put above the highest byte of the buffer. */
  function PaddingByte(top: Byte, isSigned: bool): Byte {
    if isSigned && top > 0x7F then 0xFF else 0
  }

  lemma {:induction false} OneMoreDigit(s: seq<Digit>, b: seq<Byte>, d: Digit)
    requires |b| >= 4 * |s| + 4 && AllBytes(s) == b[..4 * |s|]
    requires d == FromBytes(b[4 * |s|], b[4 * |s| + 1], b[4 * |s| + 2], b[4 * |s| + 3])
    ensures AllBytes(s + [d]) == b[..4 * |s| + 4]
  {
    var n := 4 * |s|;
    var next := [b[n], b[n + 1], b[n + 2], b[n + 3]];
    AllBytesSnoc(s, d);
    FromBytesMeans(b[n], b[n + 1], b[n + 2], b[n + 3]);
    FourMore(b, n, next);
  }

  lemma {:induction false} FourMore(b: seq<Byte>, n: nat, next: seq<Byte>)
    requires n + 4 <= |b| && next == [b[n], b[n + 1], b[n + 2], b[n + 3]]
    ensures b[..n + 4] == b[..n] + next
  {
  }

  /** The digits stand for the bytes of the buffer. If their sign bit is set by an
      unsigned number, there is a zero digit above them. */
  lemma {:induction false} DecodedValue(s: seq<Digit>, buffer: seq<Byte>, isSigned: bool, pad: seq<Byte>, extra: bool)
    requires |s| > 0 && |buffer| > 0 && AllBytes(s) == buffer + pad
    requires forall i :: 0 <= i < |pad| ==> pad[i] == PaddingByte(buffer[|buffer| - 1], isSigned)
    requires extra ==> !isSigned
    requires !isSigned && |pad| == 0 && buffer[|buffer| - 1] > 0x7F ==> extra
    ensures SVal(if extra then s + [0] else s) == BytesValue(buffer, isSigned)
  {
    AllBytesSigned(s);
    if isSigned {
      SignExtension(buffer, pad);
    } else {
      AllBytesValue(s);
      ZeroExtension(buffer, pad);
      SValSnoc(s, 0);
      ShlOne(|s|);
      assert !extra ==> (buffer + pad)[|buffer + pad| - 1] <= 0x7F;
    }
  }

  datatype DecodeResult = Decoded(value: Big) | EmptyBuffer

  /** The last digit, the extra digit and the canonical form. */
  method FinishDecoding(big1: Big, num_bigdigits: nat, last: Digit, ghost buffer: seq<Byte>, isSigned: bool,
                        ghost pad: seq<Byte>)
    requires big1.Valid() && 0 < num_bigdigits <= big1.size <= num_bigdigits + 1 && |buffer| > 0
    requires AllBytes(big1.bigdigits[..num_bigdigits - 1] + [last]) == buffer + pad
    requires forall i :: 0 <= i < |pad| ==> pad[i] == PaddingByte(buffer[|buffer| - 1], isSigned)
    requires isSigned ==> big1.size == num_bigdigits
    requires !isSigned && |pad| == 0 && buffer[|buffer| - 1] > 0x7F ==> big1.size == num_bigdigits + 1
    modifies big1, big1.bigdigits
    ensures big1.bigdigits == old(big1.bigdigits) && big1.Canonical() && big1.Value() == BytesValue(buffer, isSigned)
  {
    ghost var s := big1.bigdigits[..num_bigdigits - 1] + [last];
    big1.bigdigits[num_bigdigits - 1] := last;
    if num_bigdigits != big1.size {
      big1.bigdigits[num_bigdigits] := 0;
    }
    DecodedValue(s, buffer, isSigned, pad, num_bigdigits != big1.size);
    assert big1.Digits() == if num_bigdigits != big1.size then s + [0] else s;
    Normalize(big1);
  }

  /** The digits that are in the buffer as a whole, from the end of it. */
  method FullDigitsBe(d: array<Digit>, count: nat, buffer: seq<Byte>) returns (byteIndex: nat)
    requires count <= d.Length && 4 * count <= |buffer|
    modifies d
    ensures byteIndex == |buffer| - 4 * count && AllBytes(d[..count]) == Backwards(buffer)[..4 * count]
  {
    byteIndex := |buffer|;
    var pos := 0;
    while pos < count
      invariant 0 <= pos <= count && byteIndex == |buffer| - 4 * pos
      invariant AllBytes(d[..pos]) == Backwards(buffer)[..4 * pos]
    {
      ghost var low := d[..pos];
      var digit := FromBytes(buffer[byteIndex - 1], buffer[byteIndex - 2], buffer[byteIndex - 3],
                             buffer[byteIndex - 4]);
      OneMoreDigit(low, Backwards(buffer), digit);
      d[pos] := digit;
      assert d[..pos + 1] == low + [digit];
      byteIndex := byteIndex - 4;
      pos := pos + 1;
    }
  }

  /** The digits that are in the buffer as a whole, from the start of it. */
  method FullDigitsLe(d: array<Digit>, count: nat, buffer: seq<Byte>) returns (byteIndex: nat)
    requires count <= d.Length && 4 * count <= |buffer|
    modifies d
    ensures byteIndex == 4 * count && AllBytes(d[..count]) == buffer[..4 * count]
  {
    byteIndex := 0;
    var pos := 0;
    while pos < count
      invariant 0 <= pos <= count && byteIndex == 4 * pos && AllBytes(d[..pos]) == buffer[..4 * pos]
    {
      ghost var low := d[..pos];
      var digit := FromBytes(buffer[byteIndex], buffer[byteIndex + 1], buffer[byteIndex + 2], buffer[byteIndex + 3]);
      OneMoreDigit(low, buffer, digit);
      d[pos] := digit;
      assert d[..pos + 1] == low + [digit];
      byteIndex := byteIndex + 4;
      pos := pos + 1;
    }
  }

  /** The last digit: what is left of the bytes (lowest byte first), and padding. */
  lemma {:induction false} TopDigitBytes(s: seq<Digit>, le: seq<Byte>, pad: seq<Byte>, buffer2: seq<Byte>)
    requires |le| + |pad| == 4 * |s| + 4 && |pad| < 4 && AllBytes(s) == le[..4 * |s|]
    requires buffer2 == le[4 * |s|..] + pad
    ensures AllBytes(s + [FromBytes(buffer2[0], buffer2[1], buffer2[2], buffer2[3])]) == le + pad
  {
    var b, n := le + pad, 4 * |s|;
    assert b[..n] == le[..n] && b[n..] == buffer2 && b[..n + 4] == b;
    assert b[n] == buffer2[0] && b[n + 1] == buffer2[1] && b[n + 2] == buffer2[2] && b[n + 3] == buffer2[3];
    OneMoreDigit(s, b, FromBytes(buffer2[0], buffer2[1], buffer2[2], buffer2[3]));
  }

  /** The bytes of the last digit, highest byte first, are those behind the full digits. */
  lemma {:induction false} TopBytesBackwards(buffer: seq<Byte>, rest: nat, b: Byte, pad: seq<Byte>, buffer2: seq<Byte>)
    requires 1 <= rest <= 4 && rest <= |buffer| && pad == Padding(4 - rest, b) && buffer2 == pad + buffer[..rest]
    ensures [buffer2[3], buffer2[2], buffer2[1], buffer2[0]] == Backwards(buffer)[|buffer| - rest..] + pad
  {
    var low := Backwards(buffer)[|buffer| - rest..];
    forall k | 0 <= k < 4 ensures buffer2[3 - k] == (low + pad)[k] {
      if k < rest {
        assert low[k] == Backwards(buffer)[|buffer| - rest + k] == buffer[rest - 1 - k];
      }
    }
  }

  method BigFromByteBufferBe(buffer: seq<Byte>, isSigned: bool) returns (result: DecodeResult)
    ensures result.Decoded? <==> |buffer| > 0
    ensures result.Decoded? ==> fresh(result.value) && fresh(result.value.bigdigits) && result.value.Canonical()
    ensures result.Decoded? ==> result.value.Value() == BytesValue(Backwards(buffer), isSigned)
  {
    var size := |buffer|;
    if size == 0 {
      return EmptyBuffer;
    }
    var num_bigdigits := (size + 3) / 4;
    var result_size := num_bigdigits;
    if !isSigned && size % 4 == 0 && buffer[0] > 0x7F {
      result_size := result_size + 1;
    }
    var big1 := new Big.Alloc(result_size);
    var byteIndex := FullDigitsBe(big1.bigdigits, num_bigdigits - 1, buffer);
    var pad := Padding(4 - byteIndex, PaddingByte(buffer[0], isSigned));
    var buffer2 := pad + buffer[..byteIndex];
    var last := FromBytes(buffer2[3], buffer2[2], buffer2[1], buffer2[0]);
    TopBytesBackwards(buffer, byteIndex, PaddingByte(buffer[0], isSigned), pad, buffer2);
    TopDigitBytes(big1.bigdigits[..num_bigdigits - 1], Backwards(buffer), pad,
                  [buffer2[3], buffer2[2], buffer2[1], buffer2[0]]);
    FinishDecoding(big1, num_bigdigits, last, Backwards(buffer), isSigned, pad);
    result := Decoded(big1);
  }

  method BigFromByteBufferLe(buffer: seq<Byte>, isSigned: bool) returns (result: DecodeResult)
    ensures result.Decoded? <==> |buffer| > 0
    ensures result.Decoded? ==> fresh(result.value) && fresh(result.value.bigdigits) && result.value.Canonical()
    ensures result.Decoded? ==> result.value.Value() == BytesValue(buffer, isSigned)
  {
    var size := |buffer|;
    if size == 0 {
      return EmptyBuffer;
    }
    var num_bigdigits := (size + 3) / 4;
    var result_size := num_bigdigits;
    if !isSigned && buffer[size - 1] > 0x7F {
      result_size := result_size + 1;
    }
    var big1 := new Big.Alloc(result_size);
    var byteIndex := FullDigitsLe(big1.bigdigits, num_bigdigits - 1, buffer);
    var pad := Padding(4 - (size - byteIndex), PaddingByte(buffer[size - 1], isSigned));
    var buffer2 := buffer[byteIndex..] + pad;
    var last := FromBytes(buffer2[0], buffer2[1], buffer2[2], buffer2[3]);
    TopDigitBytes(big1.bigdigits[..num_bigdigits - 1], buffer, pad, buffer2);
    FinishDecoding(big1, num_bigdigits, last, buffer, isSigned, pad);
    result := Decoded(big1);
  }

  // -------------------------------------------------------------- round trip

  /** Decoding what has been encoded gives the number back, digit by digit, in both
      byte orders, and the orders are each other's reverse. */
  method EncodeAndDecode(big1: Big, isSigned: bool)
    returns (be: EncodeResult, le: EncodeResult, fromBe: Big, fromLe: Big)
    requires big1.Canonical() && (isSigned || big1.Value() >= 0)
    ensures be.Encoded? && le.Encoded? && le.bytes == Backwards(be.bytes)
    ensures fromBe.Canonical() && fromBe.Digits() == big1.Digits()
    ensures fromLe.Canonical() && fromLe.Digits() == big1.Digits()
  {
    be := BigToBStriBe(big1, isSigned);
    le := BigToBStriLe(big1, isSigned);
    OrdersAgree(be.bytes, le.bytes, big1.Value(), isSigned);
    var decodedBe := BigFromByteBufferBe(be.bytes, isSigned);
    var decodedLe := BigFromByteBufferLe(le.bytes, isSigned);
    fromBe, fromLe := decodedBe.value, decodedLe.value;
    NormalUnique(fromBe.Digits(), big1.Digits());
    NormalUnique(fromLe.Digits(), big1.Digits());
  }
}
