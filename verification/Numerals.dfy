/** Numbers as strings of radix digits: what printing and parsing are for. */
module Numerals {
  import opened Digits
  import opened DivisionLaws
  import opened ShiftLaws
  import opened Exponentiation

  // -------------------------------------------------------------- characters

  /** Entry d of digitTable[upperCase] (src/int_rtl.c). */
  function DigitChar(d: int, upperCase: bool): char
    requires 0 <= d < 36
  {
    if d < 10 then ('0' as int + d) as char
    else if upperCase then ('A' as int + (d - 10)) as char
    else ('a' as int + (d - 10)) as char
  }

  /** digit_value, and 36 for a character that is not in the table. */
  function CharValue(c: char): (v: nat)
    ensures v <= 36
  {
    if '0' <= c <= '9' then c as int - '0' as int
    else if 'A' <= c <= 'Z' then c as int - 'A' as int + 10
    else if 'a' <= c <= 'z' then c as int - 'a' as int + 10
    else 36
  }

  /** The digits as the source lists them, with small and with capital letters. */
  lemma DigitTable(d: int, upperCase: bool)
    requires 0 <= d < 36
    ensures DigitChar(d, false) == "0123456789abcdefghijklmnopqrstuvwxyz"[d]
    ensures DigitChar(d, true) == "0123456789ABCDEFGHIJKLMNOPQRSTUVWXYZ"[d]
  {
  }

  /** A character is digit d if it is there in one of the lists, and otherwise it is no digit in any base. */
  lemma CharTable(c: char)
    ensures forall d :: 0 <= d < 36 ==>
      (CharValue(c) == d <==>
       c == "0123456789abcdefghijklmnopqrstuvwxyz"[d] || c == "0123456789ABCDEFGHIJKLMNOPQRSTUVWXYZ"[d])
    ensures CharValue(c) >= 36 <==> !('0' <= c <= '9') && !('a' <= c <= 'z') && !('A' <= c <= 'Z')
  {
    forall d | 0 <= d < 36
      ensures CharValue(c) == d <==>
        c == "0123456789abcdefghijklmnopqrstuvwxyz"[d] || c == "0123456789ABCDEFGHIJKLMNOPQRSTUVWXYZ"[d]
    {
      DigitTable(d, false);
    }
  }

  lemma CharOfDigit(d: int, upperCase: bool)
    requires 0 <= d < 36
    ensures CharValue(DigitChar(d, upperCase)) == d
    ensures DigitChar(d, upperCase) != '-' && DigitChar(d, upperCase) != '+'
    ensures DigitChar(d, upperCase) == '0' <==> d == 0
  {
  }

  predicate Base(b: int) {
    2 <= b <= 36
  }

  /** The bases for which bigRadix and bigParseBased take bits instead of dividing. */
  predicate PowerOfTwoBase(b: int) {
    b == 2 || b == 4 || b == 8 || b == 16 || b == 32
  }

  // ---------------------------------------------------------------- strings

  /** The numeral of m: repeated division by the base, no leading zeros. */
  ghost function Numeral(m: nat, b: int, upperCase: bool): (s: string)
    requires Base(b)
    ensures |s| >= 1
  {
    if m < b then [DigitChar(m, upperCase)] else Numeral(m / b, b, upperCase) + [DigitChar(m % b, upperCase)]
  }

  /** The lowest w digits of m, with leading zeros. */
  ghost function Padded(m: nat, b: int, w: nat, upperCase: bool): (s: string)
    requires Base(b)
    ensures |s| == w
  {
    if w == 0 then [] else Padded(m / b, b, w - 1, upperCase) + [DigitChar(m % b, upperCase)]
  }

  /** The numeral of a number of at least w + 1 digits ends in w padded digits. */
  lemma {:induction false} NumeralSplit(m: nat, b: int, w: nat, upperCase: bool)
    requires Base(b) && Pow(b, w) > 0 && m / Pow(b, w) > 0
    ensures Numeral(m, b, upperCase) == Numeral(m / Pow(b, w), b, upperCase) + Padded(m % Pow(b, w), b, w, upperCase)
    decreases w
  {
    if w == 0 {
      RemainderUnique(m, 1, m, 0);
    } else {
      PowPositive(b, w - 1);
      SplitStep(m, b, Pow(b, w - 1));
      NumeralSplit(m / b, b, w - 1, upperCase);
      assert m >= b;
      var high := Numeral(m / Pow(b, w), b, upperCase);
      var low := Padded((m / b) % Pow(b, w - 1), b, w - 1, upperCase);
      assert (high + low) + [DigitChar(m % b, upperCase)] == high + (low + [DigitChar(m % b, upperCase)]);
    }
  }

  /** Splitting off one digit of the quotient and remainder by b * p. */
  lemma SplitStep(m: nat, b: int, p: int)
    requires b > 1 && p > 0 && m >= 0
    ensures b * p > 0 && m / (b * p) == (m / b) / p
    ensures (m % (b * p)) / b == (m / b) % p
    ensures (m % (b * p)) % b == m % b
    ensures m / (b * p) > 0 ==> m >= b
  {
    DivDiv(m, b, p);
    DivMod(m, b);
    var y := m / b;
    DivMod(y, p);
    MulDistr(y / p * p, y % p, b);
    MulAssoc(b, p, y / p);
    RemainderStep(m, b, p, y, y / p, y % p, m % b);
    if m < b {
      MulLe(1, p, b, b);
      RemainderUnique(m, b * p, 0, m);
    }
  }

  lemma RemainderStep(m: int, b: int, p: int, y: int, q: int, r: int, d: int)
    requires b > 1 && p > 0 && 0 <= r < p && 0 <= d < b && y == q * p + r && m == y * b + d
    ensures b * p > 0 && m % (b * p) == r * b + d
    ensures (m % (b * p)) / b == r && (m % (b * p)) % b == d
  {
    MulLe(1, b, 1, p);
    MulDistr(q * p, r, b);
    MulAssoc(q, p, b);
    MulLe(r, p - 1, b, b);
    MulDistr(p, 1, b);
    RemainderUnique(m, b * p, q, r * b + d);
    RemainderUnique(r * b + d, b, r, d);
  }

  /** The padded digits of a number split at any digit. */
  lemma {:induction false} PaddedSplit(m: nat, b: int, v: nat, w: nat, upperCase: bool)
    requires Base(b) && Pow(b, w) > 0
    ensures Padded(m, b, v + w, upperCase)
         == Padded(m / Pow(b, w), b, v, upperCase) + Padded(m % Pow(b, w), b, w, upperCase)
    decreases w
  {
    DivMod(m, Pow(b, w));
    if w == 0 {
      RemainderUnique(m, 1, m, 0);
    } else {
      PowPositive(b, w - 1);
      DivMod(m, b);
      SplitStep(m, b, Pow(b, w - 1));
      PaddedSplit(m / b, b, v, w - 1, upperCase);
      var high := Padded(m / Pow(b, w), b, v, upperCase);
      var low := Padded((m / b) % Pow(b, w - 1), b, w - 1, upperCase);
      assert (high + low) + [DigitChar(m % b, upperCase)] == high + (low + [DigitChar(m % b, upperCase)]);
    }
  }

  function Repeat(c: char, n: nat): (s: string)
    ensures |s| == n
  {
    if n == 0 then [] else [c] + Repeat(c, n - 1)
  }

  lemma {:induction false} PaddedZero(b: int, w: nat, upperCase: bool)
    requires Base(b)
    ensures Padded(0, b, w, upperCase) == Repeat('0', w)
  {
    if w > 0 {
      PaddedZero(b, w - 1, upperCase);
      RepeatSnoc('0', w - 1);
    }
  }

  lemma {:induction false} RepeatSnoc(c: char, n: nat)
    ensures Repeat(c, n) + [c] == Repeat(c, n + 1)
  {
    if n > 0 {
      RepeatSnoc(c, n - 1);
      assert Repeat(c, n) + [c] == [c] + (Repeat(c, n - 1) + [c]);
    }
  }

  /** A number below b ^ w has at most w digits, and zeros fill up the rest. */
  lemma {:induction false} PaddedNumeral(m: nat, b: int, w: nat, upperCase: bool)
    requires Base(b) && w >= 1 && m < Pow(b, w)
    ensures |Numeral(m, b, upperCase)| <= w
    ensures Padded(m, b, w, upperCase) == Repeat('0', w - |Numeral(m, b, upperCase)|) + Numeral(m, b, upperCase)
    decreases w
  {
    if m < b {
      RemainderUnique(m, b, 0, m);
      PaddedZero(b, w - 1, upperCase);
    } else {
      DivMod(m, b);
      assert w > 1 by {
        assert Pow(b, 1) == b * Pow(b, 0);
      }
      DigitLess(m, b, Pow(b, w - 1));
      PaddedNumeral(m / b, b, w - 1, upperCase);
      var n := Numeral(m / b, b, upperCase);
      var z := Repeat('0', w - 1 - |n|);
      assert (z + n) + [DigitChar(m % b, upperCase)] == z + (n + [DigitChar(m % b, upperCase)]);
    }
  }

  lemma DigitLess(m: nat, b: int, p: int)
    requires b > 1 && m < b * p
    ensures m / b < p
  {
    FloorBound(m, b, p);
  }

  /** A numeral starts with a zero only if it is the numeral of zero. */
  lemma {:induction false} NoLeadingZero(m: nat, b: int, upperCase: bool)
    requires Base(b)
    ensures Numeral(m, b, upperCase)[0] == '0' <==> m == 0
    ensures Numeral(m, b, upperCase)[0] != '-' && Numeral(m, b, upperCase)[0] != '+'
  {
    if m < b {
      CharOfDigit(m, upperCase);
    } else {
      FloorBound(m, b, 1);
      NoLeadingZero(m / b, b, upperCase);
      assert Numeral(m, b, upperCase)[0] == Numeral(m / b, b, upperCase)[0];
    }
  }

  /** No letter of the other case. */
  predicate CharInCase(c: char, upperCase: bool) {
    if upperCase then !('a' <= c <= 'z') else !('A' <= c <= 'Z')
  }

  ghost predicate InCase(t: string, upperCase: bool) {
    forall c :: c in t ==> CharInCase(c, upperCase)
  }

  lemma JoinedInCase(s: string, t: string, upperCase: bool)
    requires InCase(s, upperCase) && InCase(t, upperCase)
    ensures InCase(s + t, upperCase)
  {
  }

  lemma DigitInCase(d: int, upperCase: bool)
    requires 0 <= d < 36
    ensures CharInCase(DigitChar(d, upperCase), upperCase)
  {
  }

  lemma {:induction false} NumeralInCase(m: nat, b: int, upperCase: bool)
    requires Base(b)
    ensures InCase(Numeral(m, b, upperCase), upperCase)
  {
    if m < b {
      DigitInCase(m, upperCase);
    } else {
      NumeralInCase(m / b, b, upperCase);
      DivMod(m, b);
      DigitInCase(m % b, upperCase);
    }
  }

  lemma {:induction false} ZerosInCase(n: nat, upperCase: bool)
    ensures InCase(Repeat('0', n), upperCase)
  {
    if n > 0 {
      ZerosInCase(n - 1, upperCase);
    }
  }

  // -------------------------------------------------------------- reading

  ghost predicate IsDigits(s: string, b: int) {
    forall i :: 0 <= i < |s| ==> CharValue(s[i]) < b
  }

  /** The number that a string of digits stands for. */
  ghost function DigitsValue(s: string, b: int): int {
    if s == [] then 0 else b * DigitsValue(s[..|s| - 1], b) + CharValue(s[|s| - 1])
  }

  lemma DigitsSnoc(s: string, c: char, b: int)
    ensures DigitsValue(s + [c], b) == b * DigitsValue(s, b) + CharValue(c)
    ensures IsDigits(s, b) && CharValue(c) < b ==> IsDigits(s + [c], b)
  {
    assert (s + [c])[..|s|] == s;
  }

  lemma {:induction false} DigitsConcat(s: string, t: string, b: int)
    ensures DigitsValue(s + t, b) == DigitsValue(s, b) * Pow(b, |t|) + DigitsValue(t, b)
    ensures IsDigits(s + t, b) <==> IsDigits(s, b) && IsDigits(t, b)
    decreases |t|
  {
    if t == [] {
      assert s + t == s;
    } else {
      var u, c := t[..|t| - 1], t[|t| - 1];
      assert t == u + [c] && s + t == (s + u) + [c];
      DigitsConcat(s, u, b);
      DigitsSnoc(s + u, c, b);
      DigitsSnoc(u, c, b);
      ConcatStep(DigitsValue(s, b), Pow(b, |u|), DigitsValue(u, b), b);
      assert forall i :: 0 <= i < |u| ==> u[i] == t[i];
      LastDigitIs(s + u, c, b);
      LastDigitIs(u, c, b);
    }
  }

  lemma LastDigitIs(s: string, c: char, b: int)
    ensures IsDigits(s + [c], b) <==> IsDigits(s, b) && CharValue(c) < b
  {
    if IsDigits(s + [c], b) {
      assert (s + [c])[|s|] == c;
      assert forall i :: 0 <= i < |s| ==> (s + [c])[i] == s[i];
    }
  }

  lemma ConcatStep(x: int, p: int, y: int, b: int)
    ensures b * (x * p + y) == x * (b * p) + b * y
  {
    MulDistr(x * p, y, b);
    MulSwap(x, b, p);
  }

  lemma {:induction false} DigitsBound(s: string, b: int)
    requires Base(b) && IsDigits(s, b)
    ensures 0 <= DigitsValue(s, b) < Pow(b, |s|)
  {
    if s != [] {
      var n := |s| - 1;
      DigitsBound(s[..n], b);
      NextBound(DigitsValue(s[..n], b), Pow(b, n), b, CharValue(s[n]));
    }
  }

  lemma NextBound(x: int, p: int, b: int, d: int)
    requires 0 <= x < p && b > 0 && 0 <= d < b
    ensures 0 <= b * x + d < b * p
  {
    MulLe(x, p - 1, b, b);
    MulDistr(p, 1, b);
  }

  lemma ValueStep(m: nat, b: int, q: int, r: int)
    requires b > 0 && q == m / b && r == m % b
    ensures b * q + r == m
  {
    DivMod(m, b);
  }

  /** Reading a numeral gives the number back. */
  lemma {:induction false} NumeralValue(m: nat, b: int, upperCase: bool)
    requires Base(b)
    ensures IsDigits(Numeral(m, b, upperCase), b) && DigitsValue(Numeral(m, b, upperCase), b) == m
  {
    if m < b {
      CharOfDigit(m, upperCase);
      DigitsSnoc([], DigitChar(m, upperCase), b);
    } else {
      NumeralValue(m / b, b, upperCase);
      LastCharacter(m, b, Numeral(m / b, b, upperCase), upperCase);
    }
  }

  lemma LastCharacter(m: nat, b: int, high: string, upperCase: bool)
    requires Base(b) && IsDigits(high, b) && DigitsValue(high, b) == m / b
    ensures IsDigits(high + [DigitChar(m % b, upperCase)], b)
    ensures DigitsValue(high + [DigitChar(m % b, upperCase)], b) == m
  {
    var r := m % b;
    CharOfDigit(r, upperCase);
    DigitsSnoc(high, DigitChar(r, upperCase), b);
    ValueStep(m, b, DigitsValue(high, b), r);
  }

  /** An optional sign and at least one digit. */
  ghost predicate IsLiteral(s: string, b: int) {
    var digits := s[SignLength(s)..];
    |digits| > 0 && IsDigits(digits, b)
  }

  function SignLength(s: string): (n: nat)
    ensures n <= |s|
  {
    if s != [] && (s[0] == '-' || s[0] == '+') then 1 else 0
  }

  ghost function LiteralValue(s: string, b: int): int {
    var v := DigitsValue(s[SignLength(s)..], b);
    if s != [] && s[0] == '-' then -v else v
  }

  /** The strings that can be parsed, and what they stand for: digits after an optional sign. */
  lemma SignedDigits(t: string, b: int)
    requires t != [] && IsDigits(t, b)
    requires Base(b)
    ensures IsLiteral(t, b) && LiteralValue(t, b) == DigitsValue(t, b)
    ensures IsLiteral("+" + t, b) && LiteralValue("+" + t, b) == DigitsValue(t, b)
    ensures IsLiteral("-" + t, b) && LiteralValue("-" + t, b) == -DigitsValue(t, b)
  {
    assert CharValue(t[0]) < b;
    assert t[0..] == t && ("+" + t)[1..] == t && ("-" + t)[1..] == t;
  }

  /** There are no other ones. */
  lemma OnlySignedDigits(s: string, b: int) returns (t: string)
    requires IsLiteral(s, b)
    ensures t != [] && IsDigits(t, b) && (s == t || s == "+" + t || s == "-" + t)
  {
    t := s[SignLength(s)..];
    if SignLength(s) == 1 {
      assert s == [s[0]] + t;
    } else {
      assert s == t;
    }
  }

  /** Digit by digit, the first one is the most significant one. */
  lemma {:induction false} FirstDigitCounts(c: char, t: string, b: int)
    ensures DigitsValue([c] + t, b) == CharValue(c) * Pow(b, |t|) + DigitsValue(t, b)
  {
    DigitsConcat([c], t, b);
    DigitsSnoc([], c, b);
    assert [] + [c] == [c];
  }

  /** The string of an integer: its numeral, with a minus sign if it is negative. */
  ghost function Literal(x: int, b: int, upperCase: bool): string
    requires Base(b)
  {
    if x < 0 then "-" + Numeral(-x, b, upperCase) else Numeral(x, b, upperCase)
  }

  lemma LiteralInCase(x: int, b: int, upperCase: bool)
    requires Base(b)
    ensures InCase(Literal(x, b, upperCase), upperCase)
  {
    NumeralInCase(Abs(x), b, upperCase);
    if x < 0 {
      JoinedInCase("-", Numeral(-x, b, upperCase), upperCase);
    }
  }

  /** Parsing what has been printed gives the number back. */
  lemma PrintThenParse(x: int, b: int, upperCase: bool)
    requires Base(b)
    ensures IsLiteral(Literal(x, b, upperCase), b)
    ensures LiteralValue(Literal(x, b, upperCase), b) == x
  {
    var n := Numeral(Abs(x), b, upperCase);
    NumeralValue(Abs(x), b, upperCase);
    NoLeadingZero(Abs(x), b, upperCase);
    if x < 0 {
      assert ("-" + n)[1..] == n;
    } else {
      assert n[0..] == n;
    }
  }
}
