/** Multiplication of big integers (src/big_rtl.c). */
module BigMultiplication {
  import opened Digits
  import opened Carries
  import opened BigRecord
  import opened DivisionLaws
  import opened RawDigits
  import opened Multiplication
  import opened Karatsuba
  import opened Squaring

  // ------------------------------------------- buffers in the flat memory

  /** memcpy of the digits of big1 to position p. */
  method LoadDigits(mem: array<Digit>, p: nat, big1: Big)
    requires big1.Valid() && big1.bigdigits != mem && Room(mem, p, big1.size)
    modifies mem
    ensures Frame(old(mem[..]), mem[..], p, p + big1.size)
    ensures Val(mem[..], p, big1.size) == big1.Unsigned()
  {
    forall i | 0 <= i < big1.size {
      mem[p + i] := big1.bigdigits[i];
    }
    assert mem[..][p..p + big1.size] == big1.Digits();
  }

  lemma ZeroPadded(h: seq<Digit>, p: nat, n: nat, m: nat)
    requires n <= m && p + m <= |h| && forall i :: p + n <= i < p + m ==> h[i] == 0
    ensures Val(h, p, m) == Val(h, p, n)
  {
    UValSplitAt(h, p, p + n, p + m);
    UValZeros(h[p + n..p + m]);
    ShlOne(n);
  }

  /** The digits of big1 and m - big1.size zeros. */
  method LoadPadded(mem: array<Digit>, p: nat, big1: Big, m: nat)
    requires big1.Valid() && big1.bigdigits != mem && big1.size <= m && Room(mem, p, m)
    modifies mem
    ensures Frame(old(mem[..]), mem[..], p, p + m)
    ensures forall k :: big1.size <= k <= m ==> Val(mem[..], p, k) == big1.Unsigned()
  {
    ghost var h0 := mem[..];
    LoadDigits(mem, p, big1);
    ghost var h1 := mem[..];
    ClearDigits(mem, p + big1.size, m - big1.size);
    ghost var h := mem[..];
    Kept(h1, h, p + big1.size, p + m, p, big1.size);
    forall k | big1.size <= k <= m ensures Val(h, p, k) == big1.Unsigned() {
      ZeroPadded(h, p, big1.size, k);
    }
  }

  /** memset with zero. */
  method ClearDigits(mem: array<Digit>, p: nat, n: nat)
    requires Room(mem, p, n)
    modifies mem
    ensures Frame(old(mem[..]), mem[..], p, p + n)
    ensures forall i :: p <= i < p + n ==> mem[..][i] == 0
  {
    forall i | p <= i < p + n {
      mem[i] := 0;
    }
  }

  /** The big integer whose digits are the n digits at position p. */
  method StoreDigits(mem: array<Digit>, p: nat, n: nat) returns (big1: Big)
    requires 0 < n && Room(mem, p, n)
    ensures fresh(big1) && fresh(big1.bigdigits) && big1.Valid() && big1.size == n
    ensures big1.Unsigned() == Val(mem[..], p, n)
  {
    big1 := new Big.Alloc(n);
    forall i | 0 <= i < n {
      big1.bigdigits[i] := mem[p + i];
    }
    assert big1.Digits() == mem[..][p..p + n];
  }

  // ------------------------------------------------------ unsigned products

  /** A memory that starts with the digits of factor1 and of factor2, the latter
      padded with zeros to m digits. */
  method LoadFactors(factor1: Big, factor2: Big, m: nat, extra: nat) returns (mem: array<Digit>)
    requires factor1.Valid() && factor2.Valid() && factor2.size <= m
    ensures fresh(mem) && mem.Length == factor1.size + m + extra
    ensures Val(mem[..], 0, factor1.size) == old(factor1.Unsigned())
    ensures forall k :: factor2.size <= k <= m ==> Val(mem[..], factor1.size, k) == old(factor2.Unsigned())
  {
    var n := factor1.size;
    mem := new Digit[n + m + extra];
    LoadDigits(mem, 0, factor1);
    ghost var h1 := mem[..];
    LoadPadded(mem, n, factor2, m);
    Kept(h1, mem[..], n, n + m, 0, n);
  }

  // ------------------------------------------------------ unsigned products

  /** The schoolbook product (uBigMult). */
  method UBigMult(factor1: Big, factor2: Big) returns (product: Big)
    requires factor1.Valid() && factor2.Valid()
    ensures fresh(product) && fresh(product.bigdigits) && product.Valid()
    ensures product.size == factor1.size + factor2.size
    ensures product.Unsigned() == old(factor1.Unsigned()) * old(factor2.Unsigned())
  {
    var n, m := factor1.size, factor2.size;
    var mem := LoadFactors(factor1, factor2, m, n + m);
    MultRows(mem, n, m, 0, n, n + m);
    product := StoreDigits(mem, n + m, n + m);
  }

  /** Both factors have about the same size: the smaller one is padded. */
  method MultBalanced(factor1: Big, factor2: Big) returns (product: Big)
    requires factor1.Valid() && factor2.Valid() && factor2.size <= factor1.size
    ensures fresh(product) && fresh(product.bigdigits) && product.Valid()
    ensures product.size == 2 * factor1.size
    ensures product.Unsigned() == old(factor1.Unsigned()) * old(factor2.Unsigned())
  {
    var n := factor1.size;
    var mem := LoadFactors(factor1, factor2, n, 6 * n);
    UBigKaratsubaMult(mem, 0, n, n, 2 * n, 4 * n);
    product := StoreDigits(mem, 2 * n, 2 * n);
  }

  /** The larger factor is split in two halves. */
  method MultUnbalanced(factor1: Big, factor2: Big) returns (product: Big)
    requires factor1.Valid() && factor2.Valid() && 3 <= factor1.size && 2 * factor2.size <= factor1.size
    ensures fresh(product) && fresh(product.bigdigits) && product.Valid()
    ensures product.size >= factor1.size + factor2.size
    ensures product.Unsigned() == old(factor1.Unsigned()) * old(factor2.Unsigned())
  {
    var n, half := factor1.size, factor1.size / 2;
    var pad := n - half;
    UValBound(factor2.Digits());
    RadixMono(factor2.size, pad);
    var mem := LoadFactors(factor1, factor2, pad, half + 2 * pad + 4 * n);
    MultHalves(mem, half, pad, factor2.Unsigned());
    product := StoreDigits(mem, half + 2 * pad, half + 2 * pad);
  }

  /** The two products of the halves, and their sum. */
  method MultHalves(mem: array<Digit>, half: nat, pad: nat, ghost factor2: int)
    requires 0 < half <= pad <= half + 1 && 6 * pad <= 4 * (half + pad)
    requires mem.Length == 2 * half + 4 * pad + 4 * (half + pad)
    requires Val(mem[..], half + pad, half) == Val(mem[..], half + pad, pad) == factor2 < Radix(pad)
    modifies mem
    ensures Val(mem[..], half + 2 * pad, half + 2 * pad) == Val(old(mem[..]), 0, half + pad) * factor2
  {
    var product, temp := half + 2 * pad, 2 * half + 4 * pad;
    ghost var h2 := mem[..];
    ghost var low, high := Val(h2, 0, half) * factor2, Val(h2, half, pad) * factor2;
    UpperHalf(h2, half, pad, factor2);
    TwoProducts(mem, half, pad, factor2, low, high);
    ghost var h5 := mem[..];
    ghost var carry := UBigDigitAddTo(mem, product + half, 2 * pad, temp, 2 * pad);
    HalvesAdded(h5, mem[..], half, pad, low, high, carry);
  }

  /** The products of the halves. The digits above the lower one are cleared. */
  method TwoProducts(mem: array<Digit>, half: nat, pad: nat, ghost factor2: int, ghost low: int, ghost high: int)
    requires 0 < half <= pad <= half + 1 && 6 * pad <= 4 * (half + pad)
    requires mem.Length == 2 * half + 4 * pad + 4 * (half + pad)
    requires Val(mem[..], half + pad, half) == Val(mem[..], half + pad, pad) == factor2
    requires low == Val(mem[..], 0, half) * factor2 && high == Val(mem[..], half, pad) * factor2
    modifies mem
    ensures Val(mem[..], half + 2 * pad, half + 2 * pad) == low && Val(mem[..], 2 * half + 4 * pad, 2 * pad) == high
  {
    var factor2_at, product, temp := half + pad, half + 2 * pad, 2 * half + 4 * pad;
    ghost var h2 := mem[..];
    UBigKaratsubaMult(mem, 0, factor2_at, half, product, temp);
    ghost var h3 := mem[..];
    Untouched(h2, h3, product, 2 * half, temp, 4 * half, half, pad);
    Untouched(h2, h3, product, 2 * half, temp, 4 * half, half + pad, pad);
    UBigKaratsubaMult(mem, half, factor2_at, pad, temp, temp + 2 * pad);
    ghost var h4 := mem[..];
    ClearDigits(mem, product + 2 * half, 2 * pad - half);
    HalvesStaged(h3, h4, mem[..], half, pad, low, high);
  }

  lemma HalvesStaged(h3: seq<Digit>, h4: seq<Digit>, h5: seq<Digit>, half: nat, pad: nat, low: int, high: int)
    requires 0 < half <= pad <= half + 1 && |h3| == 2 * half + 4 * pad + 4 * (half + pad) && 6 * pad <= 4 * (half + pad)
    requires Val(h3, half + 2 * pad, 2 * half) == low
    requires Touched(h3, h4, 2 * half + 4 * pad, 2 * pad, 2 * half + 6 * pad, 4 * pad)
    requires Val(h4, 2 * half + 4 * pad, 2 * pad) == high
    requires Frame(h4, h5, 3 * half + 2 * pad, 2 * half + 4 * pad)
    requires forall i :: 3 * half + 2 * pad <= i < 2 * half + 4 * pad ==> h5[i] == 0
    ensures Val(h5, half + 2 * pad, half + 2 * pad) == low && Val(h5, 2 * half + 4 * pad, 2 * pad) == high
  {
    var product, temp := half + 2 * pad, 2 * half + 4 * pad;
    Untouched(h3, h4, temp, 2 * pad, temp + 2 * pad, 4 * pad, product, 2 * half);
    Kept(h4, h5, product + 2 * half, temp, product, 2 * half);
    Kept(h4, h5, product + 2 * half, temp, temp, 2 * pad);
    ZeroPadded(h5, product, 2 * half, half + 2 * pad);
  }

  lemma {:induction false} HalvesAdded(h5: seq<Digit>, h6: seq<Digit>, half: nat, pad: nat, low: int, high: int,
                                       carry: int)
    requires 0 < half && 2 * half + 6 * pad <= |h5| && 0 <= low + Shl(high, half) < Radix(half + 2 * pad)
    requires Val(h5, half + 2 * pad, half + 2 * pad) == low && Val(h5, 2 * half + 4 * pad, 2 * pad) == high
    requires Frame(h5, h6, 2 * half + 2 * pad, 2 * half + 4 * pad)
    requires Stands(h6[2 * half + 2 * pad..2 * half + 4 * pad], carry,
                    Val(h5, 2 * half + 2 * pad, 2 * pad) + Val(h5, 2 * half + 4 * pad, 2 * pad))
    ensures Val(h6, half + 2 * pad, half + 2 * pad) == low + Shl(high, half)
  {
    SumInPlace(h5, h6, half + 2 * pad, half, 2 * pad, low, high, carry);
  }

  /** The n digits above i digits have got the sum with x. */
  lemma {:induction false} SumInPlace(h: seq<Digit>, h': seq<Digit>, p: nat, i: nat, n: nat, low: int, x: int,
                                      carry: int)
    requires p + i + n <= |h| && Frame(h, h', p + i, p + i + n) && Val(h, p, i + n) == low
    requires Stands(h'[p + i..p + i + n], carry, Val(h, p + i, n) + x)
    requires 0 <= low + Shl(x, i) < Radix(i + n)
    ensures Val(h', p, i + n) == low + Shl(x, i)
  {
    Kept(h, h', p + i, p + i + n, p, i);
    UValSplitAt(h, p, p + i, p + i + n);
    RowAdded(h'[p..p + i], h'[p + i..p + i + n], carry, Val(h, p + i, n), x, i);
    assert h'[p..p + i + n] == h'[p..p + i] + h'[p + i..p + i + n];
    NoCarryOut(h'[p..p + i + n], carry, low + Shl(x, i));
  }

  lemma UpperHalf(h: seq<Digit>, half: nat, pad: nat, factor2: int)
    requires half + pad <= |h| && 0 <= factor2 < Radix(pad)
    ensures Val(h, 0, half) * factor2 + Shl(Val(h, half, pad) * factor2, half) == Val(h, 0, half + pad) * factor2
    ensures 0 <= Val(h, 0, half + pad) * factor2 < Radix(half + 2 * pad)
  {
    UValSplitAt(h, 0, half, half + pad);
    TimesNext(Val(h, 0, half), Val(h, half, pad), factor2, half);
    UValBound(h[0..half + pad]);
    ProductBound(Val(h, 0, half + pad), factor2, half + pad, pad);
  }

  /** Magnitudes below or at the sign weight have a product with a clear sign bit. */
  lemma ProductFits(a: int, b: int, n: nat, m: nat, k: nat)
    requires 0 < n && 0 < m && n + m <= k
    requires 0 <= a <= SignWeight(n) && 0 <= b <= SignWeight(m)
    ensures 0 <= a * b < SignWeight(k)
  {
    var u, v := SignWeight(n), SignWeight(m);
    MulLe(a, u, b, v);
    MulAssoc(2, u, v);
    MulSwap(2 * u, 2, v);
    RadixAdd(n, m);
    RadixMono(n + m, k);
  }

  /** The product of two magnitudes, with a sign. */
  method UBigMultK(big1: Big, big2: Big, negative: bool) returns (product: Big)
    requires big1.Valid() && big1.Unsigned() <= SignWeight(big1.size)
    requires big2.Valid() && big2.Unsigned() <= SignWeight(big2.size)
    ensures fresh(product) && fresh(product.bigdigits) && product.Canonical()
    ensures product.Value() == if negative then -(old(big1.Unsigned()) * old(big2.Unsigned()))
                               else old(big1.Unsigned()) * old(big2.Unsigned())
  {
    var factor1, factor2 := big1, big2;
    if factor2.size > factor1.size {
      factor1, factor2 := big2, big1;
    }
    ghost var a, b := factor1.Unsigned(), factor2.Unsigned();
    assert a * b == big1.Unsigned() * big2.Unsigned();
    if factor1.size >= KARATSUBA_MULT_THRESHOLD && factor2.size >= KARATSUBA_MULT_THRESHOLD {
      if factor2.size * 2 <= factor1.size {
        product := MultUnbalanced(factor1, factor2);
      } else {
        product := MultBalanced(factor1, factor2);
      }
    } else {
      product := UBigMult(factor1, factor2);
    }
    ProductFits(a, b, factor1.size, factor2.size, product.size);
    SignAndNormalize(product, negative);
  }

  method UBigSquareK(big1: Big) returns (square: Big)
    requires big1.Valid() && big1.Unsigned() <= SignWeight(big1.size)
    ensures fresh(square) && fresh(square.bigdigits) && square.Canonical()
    ensures square.Value() == old(big1.Unsigned()) * old(big1.Unsigned())
  {
    ghost var a := big1.Unsigned();
    var n := big1.size;
    var mem;
    if n >= KARATSUBA_SQUARE_THRESHOLD {
      mem := new Digit[7 * n];
      LoadDigits(mem, 0, big1);
      UBigKaratsubaSquare(mem, 0, n, n, 3 * n);
    } else {
      mem := new Digit[3 * n];
      LoadDigits(mem, 0, big1);
      UBigDigitSquare(mem, 0, n, n);
    }
    square := StoreDigits(mem, n, 2 * n);
    ProductFits(a, a, n, n, 2 * n);
    SignAndNormalize(square, false);
  }

  // -------------------------------------------------------- signed products

  lemma MagnitudeFits(s: seq<Digit>)
    requires |s| > 0
    ensures Abs(SVal(s)) <= SignWeight(|s|)
  {
    SValRange(s);
  }

  lemma SignedProduct(x: int, y: int)
    ensures x * y == if (x < 0) != (y < 0) then -(Abs(x) * Abs(y)) else Abs(x) * Abs(y)
  {
    MulNeg(Abs(x), Abs(y));
  }

  method BigMult(factor1: Big, factor2: Big) returns (product: Big)
    requires factor1.Valid() && factor2.Valid()
    ensures fresh(product) && fresh(product.bigdigits) && product.Canonical()
    ensures product.Value() == old(factor1.Value()) * old(factor2.Value())
  {
    ghost var x, y := factor1.Value(), factor2.Value();
    MagnitudeFits(factor1.Digits());
    MagnitudeFits(factor2.Digits());
    var help1, negative1 := UnsignedMagnitude(factor1);
    var help2, negative2 := UnsignedMagnitude(factor2);
    SignedProduct(x, y);
    product := UBigMultK(help1, help2, negative1 != negative2);
  }

  method BigSquare(big1: Big) returns (square: Big)
    requires big1.Valid()
    ensures fresh(square) && fresh(square.bigdigits) && square.Canonical()
    ensures square.Value() == old(big1.Value()) * old(big1.Value())
  {
    ghost var x := big1.Value();
    MagnitudeFits(big1.Digits());
    SignedProduct(x, x);
    var help, negative := UnsignedMagnitude(big1);
    square := UBigSquareK(help);
  }

  /** The unsigned product with one digit. */
  method UBigMult1(big1: Big, digit: Digit) returns (product: Big)
    requires big1.Valid()
    ensures fresh(product) && fresh(product.bigdigits) && product.Valid() && product.size == big1.size + 1
    ensures product.Unsigned() == digit * old(big1.Unsigned())
  {
    var n := big1.size;
    var mem := new Digit[2 * n + 1];
    LoadDigits(mem, 0, big1);
    FirstRow(mem, 0, n, digit, n);
    product := StoreDigits(mem, n, n + 1);
  }

  lemma DigitFits(x: int, n: nat, factor_digit: Digit)
    requires 0 < n && Abs(x) <= SignWeight(n)
    ensures 0 <= Abs(Signed(factor_digit)) * Abs(x) < SignWeight(n + 1)
    ensures x * Signed(factor_digit)
         == if (x < 0) != (Signed(factor_digit) < 0) then -(Abs(Signed(factor_digit)) * Abs(x))
            else Abs(Signed(factor_digit)) * Abs(x)
  {
    ProductFits(Abs(x), Abs(Signed(factor_digit)), n, 1, n + 1);
    SignedProduct(x, Signed(factor_digit));
  }

  /** The product with one digit, which replaces the number in big_variable. */
  method BigMultAssign1(big_variable: Big, factor_digit: Digit) returns (product: Big)
    requires big_variable.Valid()
    ensures fresh(product) && fresh(product.bigdigits) && product.Canonical()
    ensures product.Value() == old(big_variable.Value()) * Signed(factor_digit)
  {
    MagnitudeFits(big_variable.Digits());
    DigitFits(big_variable.Value(), big_variable.size, factor_digit);
    var big1, negative := UnsignedMagnitude(big_variable);
    if IsNegative(factor_digit) {
      negative := !negative;
    }
    product := UBigMult1(big1, DigitMagnitude(factor_digit));
    SignAndNormalize(product, negative);
  }

  method BigMultAssign(big_variable: Big, factor: Big) returns (product: Big)
    requires big_variable.Valid() && factor.Valid()
    ensures fresh(product) && fresh(product.bigdigits) && product.Canonical()
    ensures product.Value() == old(big_variable.Value()) * old(factor.Value())
  {
    if factor.size == 1 {
      SingleDigit(factor.Digits());
      product := BigMultAssign1(big_variable, factor.bigdigits[0]);
    } else {
      product := BigMult(big_variable, factor);
    }
  }
}
