/** Karatsuba multiplication and squaring (src/big_rtl.c). The half sums are
    staged in the product, and recursive calls share one scratch region. */
module Karatsuba {
  import opened Digits
  import opened Carries
  import opened RawDigits
  import opened Multiplication

  const KARATSUBA_MULT_THRESHOLD: nat := 32

  /** Only n digits at p and m digits at t changed. */
  ghost predicate Touched(h: seq<Digit>, h': seq<Digit>, p: nat, n: nat, t: nat, m: nat) {
    |h'| == |h| && forall j :: 0 <= j < |h| && !(p <= j < p + n) && !(t <= j < t + m) ==> h'[j] == h[j]
  }

  lemma Untouched(h: seq<Digit>, h': seq<Digit>, p: nat, n: nat, t: nat, m: nat, x: nat, k: nat)
    requires Touched(h, h', p, n, t, m) && x + k <= |h| && Apart(x, k, p, n) && Apart(x, k, t, m)
    ensures h'[x..x + k] == h[x..x + k] && Val(h', x, k) == Val(h, x, k)
  {
  }

  lemma TimesSum(x: int, c: int, d: int, n: nat)
    ensures x * (c + Shl(d, n)) == x * c + Shl(x * d, n)
  {
    ShlMul(x, d, n);
    MulDistr(c, Shl(d, n), x);
  }

  lemma ShlSum(p: int, q: int, n: nat)
    ensures Shl(p + Shl(q, n), n) == Shl(p, n) + Shl(q, 2 * n)
  {
    ShlAdd(p, Shl(q, n), n);
    ShlShl(q, n, n);
  }

  lemma {:induction false} SplitLeft(a0: int, a1: int, b: int, lo: nat, p00: int, p01: int, p10: int, p11: int)
    requires a0 * b == p00 + Shl(p01, lo) && a1 * b == p10 + Shl(p11, lo)
    ensures (a0 + Shl(a1, lo)) * b == p00 + Shl(p01, lo) + Shl(p10, lo) + Shl(p11, 2 * lo)
  {
    TimesNext(a0, a1, b, lo);
    ShlSum(p10, p11, lo);
  }

  lemma SplitProduct(a0: int, a1: int, b0: int, b1: int, lo: nat)
    ensures (a0 + Shl(a1, lo)) * (b0 + Shl(b1, lo))
         == a0 * b0 + Shl(a0 * b1, lo) + Shl(a1 * b0, lo) + Shl(a1 * b1, 2 * lo)
  {
    TimesSum(a0, b0, b1, lo);
    TimesSum(a1, b0, b1, lo);
    SplitLeft(a0, a1, b0 + Shl(b1, lo), lo, a0 * b0, a0 * b1, a1 * b0, a1 * b1);
  }

  /** The product of a0 + a1 * 2^(32 lo) and b0 + b1 * 2^(32 lo) from three products. */
  lemma KaratsubaIdentity(a0: int, a1: int, b0: int, b1: int, lo: nat)
    requires a0 >= 0 && a1 >= 0 && b0 >= 0 && b1 >= 0
    ensures (a0 + Shl(a1, lo)) * (b0 + Shl(b1, lo))
         == a0 * b0 + Shl((a0 + a1) * (b0 + b1) - a0 * b0 - a1 * b1, lo) + Shl(a1 * b1, 2 * lo)
    ensures 0 <= a0 * b0 && 0 <= a1 * b1 && a0 * b0 + a1 * b1 <= (a0 + a1) * (b0 + b1)
  {
    SplitProduct(a0, a1, b0, b1, lo);
    ShlAdd(a0 * b1, a1 * b0, lo);
    MiddleProduct(a0, a1, b0, b1);
  }

  lemma MiddleProduct(a0: int, a1: int, b0: int, b1: int)
    requires a0 >= 0 && a1 >= 0 && b0 >= 0 && b1 >= 0
    ensures (a0 + a1) * (b0 + b1) - a0 * b0 - a1 * b1 == a0 * b1 + a1 * b0 >= 0
    ensures a0 * b0 >= 0 && a1 * b1 >= 0
  {
    MulDistr(b0, b1, a0 + a1);
    MulDistr(a0, a1, b0);
    MulDistr(a0, a1, b1);
    MulLe(0, a0, 0, b1);
    MulLe(0, a1, 0, b0);
    MulLe(0, a0, 0, b0);
    MulLe(0, a1, 0, b1);
  }

  /** The three products are in place: low in the product, high above it, and
      the product of the sums in temp. */
  ghost predicate Staged(h: seq<Digit>, lo: nat, hi: nat, product: nat, temp: nat, low: int, high: int, sums: int) {
    && product + 2 * lo + 2 * hi <= |h| && temp + 2 * (lo + 1) <= |h|
    && Apart(product, 2 * (lo + hi), temp, 2 * (lo + 1))
    && Val(h, product, 2 * lo) == low && Val(h, product + 2 * lo, 2 * hi) == high
    && Val(h, temp, 2 * (lo + 1)) == sums
  }

  lemma Subtracted(h: seq<Digit>, h1: seq<Digit>, h2: seq<Digit>, lo: nat, hi: nat, product: nat, temp: nat,
                   low: int, high: int, sums: int, carry1: int, carry2: int)
    requires Staged(h, lo, hi, product, temp, low, high, sums) && 0 <= low && 0 <= high && low + high <= sums
    requires Frame(h, h1, temp, temp + 2 * (lo + 1)) && Frame(h1, h2, temp, temp + 2 * (lo + 1))
    requires Stands(h1[temp..temp + 2 * (lo + 1)], carry1, sums - low)
    requires Stands(h2[temp..temp + 2 * (lo + 1)], carry2,
                    Val(h1, temp, 2 * (lo + 1)) - Val(h1, product + 2 * lo, 2 * hi))
    ensures Staged(h2, lo, hi, product, temp, low, high, sums - low - high)
  {
    UValBound(h[temp..temp + 2 * (lo + 1)]);
    NoCarryOut(h1[temp..temp + 2 * (lo + 1)], carry1, sums - low);
    Kept(h, h1, temp, temp + 2 * (lo + 1), product + 2 * lo, 2 * hi);
    NoCarryOut(h2[temp..temp + 2 * (lo + 1)], carry2, sums - low - high);
    Kept(h1, h2, temp, temp + 2 * (lo + 1), product + 2 * lo, 2 * hi);
    Kept(h, h1, temp, temp + 2 * (lo + 1), product, 2 * lo);
    Kept(h1, h2, temp, temp + 2 * (lo + 1), product, 2 * lo);
  }

  lemma CombinedStands(h: seq<Digit>, h': seq<Digit>, lo: nat, hi: nat, product: nat, mid: int, carry: int)
    requires product + 2 * (lo + hi) <= |h|
    requires Frame(h, h', product + lo, product + 2 * (lo + hi))
    requires Stands(h'[product + lo..product + 2 * (lo + hi)], carry, Val(h, product + lo, lo + 2 * hi) + mid)
    ensures Stands(h'[product..product + 2 * (lo + hi)], carry,
                   Val(h, product, lo) + Shl(Val(h, product + lo, lo + 2 * hi) + mid, lo))
  {
    var end := product + 2 * (lo + hi);
    Kept(h, h', product + lo, end, product, lo);
    ShlOne(lo);
    StandsJoin(h'[product..product + lo], 0, Val(h, product, lo), h'[product + lo..end], carry,
               Val(h, product + lo, lo + 2 * hi) + mid);
    assert h'[product..end] == h'[product..product + lo] + h'[product + lo..end];
  }

  lemma {:induction false} CombinedSum(h: seq<Digit>, lo: nat, hi: nat, product: nat, low: int, high: int, mid: int)
    requires product + 2 * (lo + hi) <= |h|
    requires Val(h, product, 2 * lo) == low && Val(h, product + 2 * lo, 2 * hi) == high
    ensures Val(h, product, lo) + Shl(Val(h, product + lo, lo + 2 * hi) + mid, lo)
         == low + Shl(mid, lo) + Shl(high, 2 * lo)
  {
    var end := product + 2 * (lo + hi);
    UValSplitAt(h, product, product + lo, end);
    UValSplitAt(h, product, product + 2 * lo, end);
    ShlAdd(Val(h, product + lo, lo + 2 * hi), mid, lo);
  }

  lemma Combined(h: seq<Digit>, h': seq<Digit>, lo: nat, hi: nat, product: nat, temp: nat,
                 low: int, high: int, mid: int, carry: int)
    requires Staged(h, lo, hi, product, temp, low, high, mid)
    requires Frame(h, h', product + lo, product + 2 * (lo + hi))
    requires Stands(h'[product + lo..product + 2 * (lo + hi)], carry,
                    Val(h, product + lo, lo + 2 * hi) + mid)
    requires 0 <= low + Shl(mid, lo) + Shl(high, 2 * lo) < Radix(2 * (lo + hi))
    ensures Val(h', product, 2 * (lo + hi)) == low + Shl(mid, lo) + Shl(high, 2 * lo)
  {
    CombinedStands(h, h', lo, hi, product, mid, carry);
    CombinedSum(h, lo, hi, product, low, high, mid);
    NoCarryOut(h'[product..product + 2 * (lo + hi)], carry, low + Shl(mid, lo) + Shl(high, 2 * lo));
  }

  /** Subtracts the low and the high product from the product of the sums. */
  method SubtractProducts(mem: array<Digit>, lo: nat, hi: nat, product: nat, temp: nat,
                          ghost low: int, ghost high: int, ghost sums: int)
    requires 2 <= hi <= lo && lo + 2 <= 2 * hi
    requires Staged(mem[..], lo, hi, product, temp, low, high, sums)
    requires 0 <= low && 0 <= high && low + high <= sums
    modifies mem
    ensures Frame(old(mem[..]), mem[..], temp, temp + 2 * (lo + 1))
    ensures Staged(mem[..], lo, hi, product, temp, low, high, sums - low - high)
  {
    ghost var h := mem[..];
    ghost var carry1 := UBigDigitSbtrFrom(mem, temp, 2 * (lo + 1), product, 2 * lo);
    ghost var h1 := mem[..];
    ghost var carry2 := UBigDigitSbtrFrom(mem, temp, 2 * (lo + 1), product + 2 * lo, 2 * hi);
    Subtracted(h, h1, mem[..], lo, hi, product, temp, low, high, sums, carry1, carry2);
  }

  /** Puts the three products together. */
  method KaratsubaCombine(mem: array<Digit>, lo: nat, hi: nat, product: nat, temp: nat,
                          ghost low: int, ghost high: int, ghost sums: int)
    requires 2 <= hi <= lo && lo + 2 <= 2 * hi
    requires Staged(mem[..], lo, hi, product, temp, low, high, sums)
    requires 0 <= low && 0 <= high && low + high <= sums
    requires 0 <= low + Shl(sums - low - high, lo) + Shl(high, 2 * lo) < Radix(2 * (lo + hi))
    modifies mem
    ensures Touched(old(mem[..]), mem[..], product, 2 * (lo + hi), temp, 2 * (lo + 1))
    ensures Val(mem[..], product, 2 * (lo + hi)) == low + Shl(sums - low - high, lo) + Shl(high, 2 * lo)
  {
    SubtractProducts(mem, lo, hi, product, temp, low, high, sums);
    ghost var h2 := mem[..];
    ghost var carry := UBigDigitAddTo(mem, product + lo, lo + 2 * hi, temp, 2 * (lo + 1));
    Combined(h2, mem[..], lo, hi, product, temp, low, high, sums - low - high, carry);
  }

  // -------------------------------------------------------- multiplication

  /** The half sums of one factor. */
  lemma SumsKept(h0: seq<Digit>, h1: seq<Digit>, h2: seq<Digit>, factor2: nat, lo: nat, hi: nat, product: nat)
    requires 0 < hi <= lo && product + 2 * (lo + hi) <= |h0| && factor2 + lo + hi <= |h0|
    requires Apart(factor2, lo + hi, product, 2 * (lo + hi))
    requires Frame(h0, h1, product, product + lo + 1)
    requires Frame(h1, h2, product + lo + hi, product + lo + hi + lo + 1) && lo <= hi + 1
    ensures Val(h2, product, lo + 1) == Val(h1, product, lo + 1)
    ensures Val(h1, factor2, lo) == Val(h0, factor2, lo) && Val(h1, factor2 + lo, hi) == Val(h0, factor2 + lo, hi)
    ensures Frame(h0, h2, product, product + 2 * (lo + hi))
  {
    Kept(h1, h2, product + lo + hi, product + lo + hi + lo + 1, product, lo + 1);
    Kept(h0, h1, product, product + lo + 1, factor2, lo);
    Kept(h0, h1, product, product + lo + 1, factor2 + lo, hi);
  }

  /** Buffers that a product of two factors of 'size' digits can use. */
  predicate Buffers(length: nat, factor1: nat, factor2: nat, size: nat, product: nat, temp: nat) {
    && factor1 + size <= length && factor2 + size <= length && product + 2 * size <= length && temp + 4 * size <= length
    && Apart(factor1, size, product, 2 * size) && Apart(factor2, size, product, 2 * size)
    && Apart(factor1, size, temp, 4 * size) && Apart(factor2, size, temp, 4 * size)
    && Apart(product, 2 * size, temp, 4 * size)
  }

  /** The values of the factors survive until they are multiplied. */
  lemma FactorsSurvive(h2: seq<Digit>, h3: seq<Digit>, factor: nat, lo: nat, hi: nat, product: nat, temp: nat)
    requires 2 <= hi <= lo <= hi + 1 && lo >= 16 && Buffers(|h2|, factor, factor, lo + hi, product, temp)
    requires Touched(h2, h3, temp, 2 * (lo + 1), temp + 2 * (lo + 1), 4 * (lo + 1))
    ensures Val(h3, factor, lo) == Val(h2, factor, lo) && Val(h3, factor + lo, hi) == Val(h2, factor + lo, hi)
  {
    var m, scratch := lo + 1, temp + 2 * (lo + 1);
    Untouched(h2, h3, temp, 2 * m, scratch, 4 * m, factor, lo);
    Untouched(h2, h3, temp, 2 * m, scratch, 4 * m, factor + lo, hi);
  }

  lemma UpperFactorSurvives(h3: seq<Digit>, h4: seq<Digit>, factor: nat, lo: nat, hi: nat, product: nat, temp: nat)
    requires 2 <= hi <= lo <= hi + 1 && lo >= 16 && Buffers(|h3|, factor, factor, lo + hi, product, temp)
    requires Touched(h3, h4, product, 2 * lo, temp + 2 * (lo + 1), 4 * lo)
    ensures Val(h4, factor + lo, hi) == Val(h3, factor + lo, hi)
  {
    Untouched(h3, h4, product, 2 * lo, temp + 2 * (lo + 1), 4 * lo, factor + lo, hi);
  }

  /** The recursive multiplications have buffers of their own. */
  lemma BuffersForParts(length: nat, factor1: nat, factor2: nat, lo: nat, hi: nat, product: nat, temp: nat)
    requires 16 <= hi <= lo <= hi + 1 && Buffers(length, factor1, factor2, lo + hi, product, temp)
    ensures Buffers(length, product, product + lo + hi, lo + 1, temp, temp + 2 * (lo + 1))
    ensures Buffers(length, factor1, factor2, lo, product, temp + 2 * (lo + 1))
    ensures Buffers(length, factor1 + lo, factor2 + lo, hi, product + 2 * lo, temp + 2 * (lo + 1))
    ensures Buffers(length, factor1, factor1, lo + hi, product, temp)
    ensures Buffers(length, factor2, factor2, lo + hi, product, temp)
  {
  }

  lemma ProductBound(a: int, b: int, n: nat, m: nat)
    requires 0 <= a < Radix(n) && 0 <= b < Radix(m)
    ensures 0 <= a * b < Radix(n + m)
  {
    RadixAdd(n, m);
    MulLe(a, Radix(n) - 1, b, Radix(m));
    MulDistr(Radix(n), 1, Radix(m));
  }

  /** The products that are staged make up the product of the factors a and b. */
  lemma HalvesProduct(a: int, a0: int, a1: int, b: int, b0: int, b1: int, lo: nat, hi: nat, low: int, high: int,
                      sums: int)
    requires a == a0 + Shl(a1, lo) && b == b0 + Shl(b1, lo) && 0 <= a < Radix(lo + hi) && 0 <= b < Radix(lo + hi)
    requires 0 <= a0 && 0 <= a1 && 0 <= b0 && 0 <= b1
    requires low == a0 * b0 && high == a1 * b1 && sums == (a0 + a1) * (b0 + b1)
    ensures 0 <= low && 0 <= high && low + high <= sums
    ensures low + Shl(sums - low - high, lo) + Shl(high, 2 * lo) == a * b
    ensures 0 <= a * b < Radix(2 * (lo + hi))
  {
    KaratsubaIdentity(a0, a1, b0, b1, lo);
    ProductBound(a, b, lo + hi, lo + hi);
  }

  /** A factor and its halves. */
  lemma FactorHalves(h: seq<Digit>, factor: nat, lo: nat, hi: nat)
    requires factor + lo + hi <= |h|
    ensures Val(h, factor, lo + hi) == Val(h, factor, lo) + Shl(Val(h, factor + lo, hi), lo) < Radix(lo + hi)
  {
    UValSplitAt(h, factor, factor + lo, factor + lo + hi);
    UValBound(h[factor..factor + lo + hi]);
  }

  lemma FactorsKept(h0: seq<Digit>, h2: seq<Digit>, factor1: nat, factor2: nat, lo: nat, hi: nat, product: nat)
    requires Frame(h0, h2, product, product + 2 * (lo + hi)) && product + 2 * (lo + hi) <= |h0|
    requires factor1 + lo + hi <= |h0| && Apart(factor1, lo + hi, product, 2 * (lo + hi))
    requires factor2 + lo + hi <= |h0| && Apart(factor2, lo + hi, product, 2 * (lo + hi))
    ensures Val(h2, factor1, lo) == Val(h0, factor1, lo) && Val(h2, factor1 + lo, hi) == Val(h0, factor1 + lo, hi)
    ensures Val(h2, factor2, lo) == Val(h0, factor2, lo) && Val(h2, factor2 + lo, hi) == Val(h0, factor2 + lo, hi)
  {
    var end := product + 2 * (lo + hi);
    Kept(h0, h2, product, end, factor1, lo);
    Kept(h0, h2, product, end, factor1 + lo, hi);
    Kept(h0, h2, product, end, factor2, lo);
    Kept(h0, h2, product, end, factor2 + lo, hi);
  }

  /** Stages the sums of the halves of both factors in the product. */
  method StageSums(mem: array<Digit>, factor1: nat, factor2: nat, lo: nat, hi: nat, product: nat)
    requires 0 < hi <= lo <= hi + 1 && Room(mem, product, 2 * (lo + hi))
    requires Room(mem, factor1, lo + hi) && Apart(factor1, lo + hi, product, 2 * (lo + hi))
    requires Room(mem, factor2, lo + hi) && Apart(factor2, lo + hi, product, 2 * (lo + hi))
    modifies mem
    ensures Frame(old(mem[..]), mem[..], product, product + 2 * (lo + hi))
    ensures Val(mem[..], product, lo + 1) == Val(old(mem[..]), factor1, lo) + Val(old(mem[..]), factor1 + lo, hi)
    ensures Val(mem[..], product + lo + hi, lo + 1)
        == Val(old(mem[..]), factor2, lo) + Val(old(mem[..]), factor2 + lo, hi)
  {
    ghost var h0 := mem[..];
    UBigDigitAdd(mem, factor1, lo, factor1 + lo, hi, product);
    ghost var h1 := mem[..];
    UBigDigitAdd(mem, factor2, lo, factor2 + lo, hi, product + lo + hi);
    SumsKept(h0, h1, mem[..], factor2, lo, hi, product);
  }

  /** The memory after the products of the sums and of the lower halves. */
  lemma LowerStaged(h2: seq<Digit>, h3: seq<Digit>, h4: seq<Digit>, lo: nat, hi: nat, product: nat, temp: nat)
    requires 16 <= hi <= lo <= hi + 1 && product + 2 * (lo + hi) <= |h2| && temp + 4 * (lo + hi) <= |h2|
    requires Apart(product, 2 * (lo + hi), temp, 4 * (lo + hi))
    requires Touched(h2, h3, temp, 2 * (lo + 1), temp + 2 * (lo + 1), 4 * (lo + 1))
    requires Touched(h3, h4, product, 2 * lo, temp + 2 * (lo + 1), 4 * lo)
    ensures Touched(h2, h4, product, 2 * lo, temp, 6 * (lo + 1))
    ensures Val(h4, temp, 2 * (lo + 1)) == Val(h3, temp, 2 * (lo + 1))
  {
    Untouched(h3, h4, product, 2 * lo, temp + 2 * (lo + 1), 4 * lo, temp, 2 * (lo + 1));
  }

  /** The memory after the third multiplication: the products are staged. */
  lemma ProductsStaged(h2: seq<Digit>, h4: seq<Digit>, h5: seq<Digit>, lo: nat, hi: nat, product: nat, temp: nat,
                       low: int, high: int, sums: int)
    requires 16 <= hi <= lo <= hi + 1 && product + 2 * (lo + hi) <= |h2| && temp + 4 * (lo + hi) <= |h2|
    requires Apart(product, 2 * (lo + hi), temp, 4 * (lo + hi))
    requires Touched(h2, h4, product, 2 * lo, temp, 6 * (lo + 1))
    requires Touched(h4, h5, product + 2 * lo, 2 * hi, temp + 2 * (lo + 1), 4 * hi)
    requires Val(h4, temp, 2 * (lo + 1)) == sums && Val(h4, product, 2 * lo) == low
    requires Val(h5, product + 2 * lo, 2 * hi) == high
    ensures Touched(h2, h5, product, 2 * (lo + hi), temp, 4 * (lo + hi))
    ensures Staged(h5, lo, hi, product, temp, low, high, sums)
  {
    Untouched(h4, h5, product + 2 * lo, 2 * hi, temp + 2 * (lo + 1), 4 * hi, temp, 2 * (lo + 1));
    Untouched(h4, h5, product + 2 * lo, 2 * hi, temp + 2 * (lo + 1), 4 * hi, product, 2 * lo);
  }

  /** A multiplication of factors with known values. */
  method MultiplyPart(mem: array<Digit>, factor1: nat, factor2: nat, size: nat, product: nat, temp: nat,
                      ghost a: int, ghost b: int, ghost value: int)
    requires 0 < size && Buffers(mem.Length, factor1, factor2, size, product, temp)
    requires Val(mem[..], factor1, size) == a && Val(mem[..], factor2, size) == b && value == a * b
    modifies mem
    ensures Touched(old(mem[..]), mem[..], product, 2 * size, temp, 4 * size)
    ensures Val(mem[..], product, 2 * size) == value
    decreases size, 4
  {
    UBigKaratsubaMult(mem, factor1, factor2, size, product, temp);
  }

  /** The products of the sums and of the lower halves. */
  method LowerProducts(mem: array<Digit>, factor1: nat, factor2: nat, lo: nat, hi: nat, product: nat, temp: nat,
                       ghost a: (int, int, int), ghost b: (int, int, int), ghost low: int, ghost sums: int)
    requires 16 <= hi <= lo <= hi + 1 && Buffers(mem.Length, factor1, factor2, lo + hi, product, temp)
    requires Val(mem[..], factor1, lo) == a.0 && Val(mem[..], factor2, lo) == b.0 && low == a.0 * b.0
    requires Val(mem[..], product, lo + 1) == a.2 && Val(mem[..], product + lo + hi, lo + 1) == b.2 && sums == a.2 * b.2
    modifies mem
    ensures Touched(old(mem[..]), mem[..], product, 2 * lo, temp, 6 * (lo + 1))
    ensures Val(mem[..], factor1 + lo, hi) == Val(old(mem[..]), factor1 + lo, hi)
    ensures Val(mem[..], factor2 + lo, hi) == Val(old(mem[..]), factor2 + lo, hi)
    ensures Val(mem[..], temp, 2 * (lo + 1)) == sums && Val(mem[..], product, 2 * lo) == low
    decreases lo + hi, 0
  {
    BuffersForParts(mem.Length, factor1, factor2, lo, hi, product, temp);
    ghost var h2 := mem[..];
    MultiplyPart(mem, product, product + lo + hi, lo + 1, temp, temp + 2 * (lo + 1), a.2, b.2, sums);
    ghost var h3 := mem[..];
    FactorsSurvive(h2, h3, factor1, lo, hi, product, temp);
    FactorsSurvive(h2, h3, factor2, lo, hi, product, temp);
    MultiplyPart(mem, factor1, factor2, lo, product, temp + 2 * (lo + 1), a.0, b.0, low);
    UpperFactorSurvives(h3, mem[..], factor1, lo, hi, product, temp);
    UpperFactorSurvives(h3, mem[..], factor2, lo, hi, product, temp);
    LowerStaged(h2, h3, mem[..], lo, hi, product, temp);
  }

  /** The three recursive multiplications. */
  method ThreeProducts(mem: array<Digit>, factor1: nat, factor2: nat, lo: nat, hi: nat, product: nat, temp: nat,
                       ghost a: (int, int, int), ghost b: (int, int, int), ghost low: int, ghost high: int,
                       ghost sums: int)
    requires 16 <= hi <= lo <= hi + 1 && Buffers(mem.Length, factor1, factor2, lo + hi, product, temp)
    requires Val(mem[..], factor1, lo) == a.0 && Val(mem[..], factor2, lo) == b.0 && low == a.0 * b.0
    requires Val(mem[..], factor1 + lo, hi) == a.1 && Val(mem[..], factor2 + lo, hi) == b.1 && high == a.1 * b.1
    requires Val(mem[..], product, lo + 1) == a.2 && Val(mem[..], product + lo + hi, lo + 1) == b.2 && sums == a.2 * b.2
    modifies mem
    ensures Touched(old(mem[..]), mem[..], product, 2 * (lo + hi), temp, 4 * (lo + hi))
    ensures Staged(mem[..], lo, hi, product, temp, low, high, sums)
    decreases lo + hi, 1
  {
    BuffersForParts(mem.Length, factor1, factor2, lo, hi, product, temp);
    ghost var h2 := mem[..];
    LowerProducts(mem, factor1, factor2, lo, hi, product, temp, a, b, low, sums);
    ghost var h4 := mem[..];
    MultiplyPart(mem, factor1 + lo, factor2 + lo, hi, product + 2 * lo, temp + 2 * (lo + 1), a.1, b.1, high);
    ghost var h5 := mem[..];
    assert Val(h5, product + 2 * lo, 2 * hi) == high;
    ProductsStaged(h2, h4, h5, lo, hi, product, temp, low, high, sums);
  }

  /** product = factor1 * factor2. */
  method UBigKaratsubaMult(mem: array<Digit>, factor1: nat, factor2: nat, size: nat, product: nat, temp: nat)
    requires 0 < size && Buffers(mem.Length, factor1, factor2, size, product, temp)
    modifies mem
    ensures Touched(old(mem[..]), mem[..], product, 2 * size, temp, 4 * size)
    ensures Val(mem[..], product, 2 * size) == Val(old(mem[..]), factor1, size) * Val(old(mem[..]), factor2, size)
    decreases size, 3
  {
    if size < KARATSUBA_MULT_THRESHOLD {
      UBigDigitMult(mem, factor1, factor2, size, product);
    } else {
      KaratsubaHalves(mem, factor1, factor2, size - size / 2, size / 2, product, temp);
    }
  }

  /** The multiplication of the halves, and of their sums. */
  method KaratsubaHalves(mem: array<Digit>, factor1: nat, factor2: nat, sizeLo: nat, sizeHi: nat, product: nat,
                         temp: nat)
    requires 16 <= sizeHi <= sizeLo <= sizeHi + 1
    requires Buffers(mem.Length, factor1, factor2, sizeLo + sizeHi, product, temp)
    modifies mem
    ensures Touched(old(mem[..]), mem[..], product, 2 * (sizeLo + sizeHi), temp, 4 * (sizeLo + sizeHi))
    ensures Val(mem[..], product, 2 * (sizeLo + sizeHi))
         == Val(old(mem[..]), factor1, sizeLo + sizeHi) * Val(old(mem[..]), factor2, sizeLo + sizeHi)
    decreases sizeLo + sizeHi, 2
  {
    ghost var h0 := mem[..];
    StageSums(mem, factor1, factor2, sizeLo, sizeHi, product);
    ghost var h2 := mem[..];
    FactorsKept(h0, h2, factor1, factor2, sizeLo, sizeHi, product);
    ghost var a := Val(h0, factor1, sizeLo + sizeHi);
    ghost var a0, a1 := Val(h0, factor1, sizeLo), Val(h0, factor1 + sizeLo, sizeHi);
    ghost var b := Val(h0, factor2, sizeLo + sizeHi);
    ghost var b0, b1 := Val(h0, factor2, sizeLo), Val(h0, factor2 + sizeLo, sizeHi);
    FactorHalves(h0, factor1, sizeLo, sizeHi);
    FactorHalves(h0, factor2, sizeLo, sizeHi);
    ghost var low, high, sums := a0 * b0, a1 * b1, (a0 + a1) * (b0 + b1);
    HalvesProduct(a, a0, a1, b, b0, b1, sizeLo, sizeHi, low, high, sums);
    ThreeProducts(mem, factor1, factor2, sizeLo, sizeHi, product, temp, (a0, a1, a0 + a1), (b0, b1, b0 + b1),
                  low, high, sums);
    KaratsubaCombine(mem, sizeLo, sizeHi, product, temp, low, high, sums);
  }
}
