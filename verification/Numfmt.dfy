// Doubles as decimal text (native/numfmt.c): the exact value as a fraction of
// two Bignums, its decimal exponent, and rounding to p digits.
module Numfmt {
  import opened Limbs
  import opened Bignums
  import opened Division
  import opened DecimalText
  import Bits
  import BignumText

  // x * 10^e, for any e
  ghost function Shift(x: real, e: int): (r: real)
    decreases if e < 0 then -e else e
  {
    if e == 0 then x else if e > 0 then 10.0 * Shift(x, e - 1) else Shift(x, e + 1) / 10.0
  }

  ghost function TenTo(e: int): real {
    Shift(1.0, e)
  }

  lemma ShiftUp(x: real, e: int)
    ensures Shift(x, e + 1) == 10.0 * Shift(x, e)
  {
  }

  lemma {:induction false} ShiftTen(x: real, e: int)
    ensures Shift(10.0 * x, e) == Shift(x, e + 1)
    decreases if e < 0 then -e else e
  {
    if e > 0 {
      ShiftTen(x, e - 1);
    } else if e < 0 {
      ShiftTen(x, e + 1);
      ShiftUp(x, e + 1);
    }
  }

  lemma {:induction false} ShiftOrder(x: real, y: real, e: int)
    ensures x < y <==> Shift(x, e) < Shift(y, e)
    ensures x == y <==> Shift(x, e) == Shift(y, e)
    decreases if e < 0 then -e else e
  {
    if e > 0 {
      ShiftOrder(x, y, e - 1);
    } else if e < 0 {
      ShiftOrder(x, y, e + 1);
    }
  }

  lemma {:induction false} ShiftMinus(x: real, y: real, e: int)
    ensures Shift(x - y, e) == Shift(x, e) - Shift(y, e)
    decreases if e < 0 then -e else e
  {
    if e > 0 {
      ShiftMinus(x, y, e - 1);
    } else if e < 0 {
      ShiftMinus(x, y, e + 1);
    }
  }

  lemma {:induction false} ShiftShift(x: real, a: int, b: int)
    ensures Shift(Shift(x, a), b) == Shift(x, a + b)
    decreases if b < 0 then -b else b
  {
    if b > 0 {
      ShiftShift(x, a, b - 1);
      ShiftUp(x, a + b - 1);
    } else if b < 0 {
      ShiftShift(x, a, b + 1);
      ShiftUp(x, a + b);
    }
  }

  lemma {:induction false} ShiftGrows(x: real, a: int, b: int)
    requires a <= b && x >= 0.0
    ensures 0.0 <= Shift(x, a) <= Shift(x, b)
    ensures a < b ==> 10.0 * Shift(x, a) <= Shift(x, b)
    decreases b - a
  {
    ShiftOrder(x, 0.0, a);
    ShiftZero(a);
    if a < b {
      ShiftGrows(x, a, b - 1);
      ShiftUp(x, b - 1);
    }
  }

  lemma {:induction false} ShiftZero(e: int)
    ensures Shift(0.0, e) == 0.0
    decreases if e < 0 then -e else e
  {
    if e > 0 {
      ShiftZero(e - 1);
    } else if e < 0 {
      ShiftZero(e + 1);
    }
  }

  lemma {:induction false} TenToNat(n: nat)
    ensures TenTo(n) == Pow10(n) as real
    decreases n
  {
    if n > 0 {
      TenToNat(n - 1);
    }
  }

  lemma {:induction false} PowerTen(n: nat)
    ensures Power(10, n) == Pow10(n)
    decreases n
  {
    if n > 0 {
      PowerTen(n - 1);
    }
  }

  // ----- fractions -----

  ghost function Ratio(num: int, den: int): real
    requires den > 0
  {
    num as real / den as real
  }

  // Comparing a fraction with x is comparing num with x * den.
  lemma CrossMultiply(num: int, den: int, x: real)
    requires den > 0
    ensures Ratio(num, den) < x <==> num as real < x * den as real
    ensures Ratio(num, den) == x <==> num as real == x * den as real
  {
    var v, d := Ratio(num, den), den as real;
    assert v * d == num as real;
    if v < x {
      assert (x - v) * d > 0.0;
    } else if v > x {
      assert (v - x) * d > 0.0;
    }
  }

  // num/den * 10^-exp, without dividing.
  function Lhs(num: int, exp: int): int {
    if exp >= 0 then num else num * Pow10(-exp)
  }

  function Rhs(den: int, exp: int): (r: int)
    ensures den > 0 ==> r > 0
  {
    if exp >= 0 then den * Pow10(exp) else den
  }

  ghost function ScaledRatio(num: int, den: int, exp: int): real
    requires den > 0
  {
    Ratio(Lhs(num, exp), Rhs(den, exp))
  }

  lemma TenTimes(n: int, k: nat)
    ensures n * Pow10(k + 1) == 10 * (n * Pow10(k))
  {
  }

  lemma RatioTen(num: int, den: int)
    requires den > 0
    ensures Ratio(10 * num, den) == 10.0 * Ratio(num, den)
    ensures Ratio(num, 10 * den) == Ratio(num, den) / 10.0
  {
    var v := Ratio(num, den);
    CrossMultiply(num, den, v);
    CrossMultiply(10 * num, den, 10.0 * v);
    CrossMultiply(num, 10 * den, v / 10.0);
  }

  lemma {:induction false} ScaledIsShifted(num: int, den: int, exp: int)
    requires den > 0
    ensures ScaledRatio(num, den, exp) == Shift(Ratio(num, den), -exp)
    decreases if exp < 0 then -exp else exp
  {
    if exp > 0 {
      ScaledIsShifted(num, den, exp - 1);
      TenTimes(den, exp - 1);
      RatioTen(num, Rhs(den, exp - 1));
    } else if exp < 0 {
      ScaledIsShifted(num, den, exp + 1);
      TenTimes(num, -exp - 1);
      RatioTen(Lhs(num, exp + 1), den);
    }
  }

  // ----- comparing with a power of ten -----

  lemma CrossPower(num: int, den: int, exp: int)
    requires den > 0
    ensures Ratio(num, den) < TenTo(exp) <==> Lhs(num, exp) < Rhs(den, exp)
    ensures Ratio(num, den) == TenTo(exp) <==> Lhs(num, exp) == Rhs(den, exp)
  {
    ScaledIsShifted(num, den, exp);
    ShiftOrder(Ratio(num, den), TenTo(exp), -exp);
    ShiftShift(1.0, exp, -exp);
    CrossMultiply(Lhs(num, exp), Rhs(den, exp), 1.0);
  }

  method PowerOfTen(n: nat) returns (pw: Bignum)
    requires n <= 0x7fff_ffff
    ensures fresh(pw) && fresh(pw.limbs) && pw.Canonical() && pw.Value() == Pow10(n)
  {
    PowerTen(n);
    var ten := FromInt64(10);
    pw := Pow(ten, n);
  }

  method ComparisonSides(num: Bignum, den: Bignum, exp: int) returns (lhs: Bignum, rhs: Bignum)
    requires num.Canonical() && den.Canonical()
    requires -0x7fff_ffff <= exp <= 0x7fff_ffff
    ensures fresh(lhs) && fresh(lhs.limbs) && fresh(rhs) && fresh(rhs.limbs) && lhs.Canonical() && rhs.Canonical()
    ensures lhs.Value() == Lhs(num.Value(), exp) && rhs.Value() == Rhs(den.Value(), exp)
  {
    if exp >= 0 {
      var pw := PowerOfTen(exp);
      lhs := Copy(num);
      rhs := Mul(den, pw);
    } else {
      var pw := PowerOfTen(-exp);
      lhs := Mul(num, pw);
      rhs := Copy(den);
    }
  }

  method CompareToPowerOfTen(num: Bignum, den: Bignum, exp: int) returns (cmp: int)
    requires num.Canonical() && den.Canonical() && den.Value() > 0
    requires -0x7fff_ffff <= exp <= 0x7fff_ffff
    ensures cmp < 0 <==> Ratio(num.Value(), den.Value()) < TenTo(exp)
    ensures cmp == 0 <==> Ratio(num.Value(), den.Value()) == TenTo(exp)
  {
    CrossPower(num.Value(), den.Value(), exp);
    var lhs, rhs := ComparisonSides(num, den, exp);
    cmp := Compare(lhs, rhs);
  }

  // 10^e <= v < 10^(e + 1)
  ghost predicate IsDecExp(v: real, e: int) {
    TenTo(e) <= v < TenTo(e + 1)
  }

  // There is only one such e.
  lemma DecExpUnique(v: real, e: int, f: int)
    requires IsDecExp(v, e) && IsDecExp(v, f)
    ensures e == f
  {
    if e < f {
      ShiftGrows(1.0, e + 1, f);
    } else if f < e {
      ShiftGrows(1.0, f + 1, e);
    }
  }

  // Found from any first guess at all.
  method ComputeDecExp(num: Bignum, den: Bignum, guess0: int, ghost lo: int, ghost hi: int) returns (guess: int)
    requires num.Canonical() && den.Canonical() && den.Value() > 0
    requires -0x7fff_0000 <= guess0 <= 0x7fff_0000 && -0x7fff_0000 <= lo < hi <= 0x7fff_0000
    requires TenTo(lo) <= Ratio(num.Value(), den.Value()) < TenTo(hi)
    ensures IsDecExp(Ratio(num.Value(), den.Value()), guess)
  {
    guess := guess0;
    ghost var v := Ratio(num.Value(), den.Value());
    var cmp := CompareToPowerOfTen(num, den, guess);
    while cmp < 0
      invariant -0x7fff_0000 <= guess <= 0x7fff_0000
      invariant cmp < 0 <==> v < TenTo(guess)
      decreases guess - lo
    {
      if guess <= lo {
        ShiftGrows(1.0, guess, lo);
      }
      guess := guess - 1;
      cmp := CompareToPowerOfTen(num, den, guess);
    }
    cmp := CompareToPowerOfTen(num, den, guess + 1);
    while cmp >= 0
      invariant -0x7fff_0000 <= guess <= 0x7fff_0000
      invariant TenTo(guess) <= v
      invariant cmp < 0 <==> v < TenTo(guess + 1)
      decreases hi - guess
    {
      if hi <= guess + 1 {
        ShiftGrows(1.0, hi, guess + 1);
      }
      guess := guess + 1;
      cmp := CompareToPowerOfTen(num, den, guess + 1);
    }
  }

  // ----- rounding -----

  // a / b to the nearest integer, ties to even
  function HalfEven(a: nat, b: int): (d: nat)
    requires b > 0
  {
    if GoesUp(a / b, a % b, b) then a / b + 1 else a / b
  }

  // Whether a quotient that leaves the remainder r is to be rounded up.
  predicate GoesUp(q: nat, r: nat, b: int) {
    2 * r > b || (2 * r == b && q % 2 == 1)
  }

  ghost predicate Nearest(x: real, d: int) {
    -0.5 <= x - d as real <= 0.5 && (x - d as real == 0.5 || x - d as real == -0.5 ==> d % 2 == 0)
  }

  lemma RatioSplit(a: nat, b: int, q: nat, r: nat)
    requires b > 0 && a == q * b + r
    ensures Ratio(a, b) == q as real + Ratio(r, b)
  {
    var f := Ratio(r, b);
    assert f * b as real == r as real;
    assert (q * b) as real == q as real * b as real;
    hide Ratio;
    CrossMultiply(a, b, q as real + f);
    assert (q as real + f) * b as real == q as real * b as real + f * b as real;
  }

  lemma HalfWay(r: nat, b: int)
    requires 0 <= r < b
    ensures 0.0 <= Ratio(r, b) < 1.0
    ensures 2 * r < b <==> Ratio(r, b) < 0.5
    ensures 2 * r == b <==> Ratio(r, b) == 0.5
  {
    hide Ratio;
    CrossMultiply(r, b, 0.0);
    CrossMultiply(r, b, 1.0);
    CrossMultiply(r, b, 0.5);
  }

  lemma HalfEvenIsNearest(a: nat, b: int)
    requires b > 0
    ensures Nearest(Ratio(a, b), HalfEven(a, b))
  {
    var q, r := a / b, a % b;
    assert a == q * b + r && 0 <= r < b;
    assert HalfEven(a, b) == if GoesUp(q, r, b) then q + 1 else q;
    hide HalfEven, Ratio;
    RatioSplit(a, b, q, r);
    HalfWay(r, b);
  }

  lemma {:induction false} UpEven(x: nat, n: nat)
    requires n > 0
    ensures Up(x, n) % 2 == 0
    decreases n
  {
    assert Up(x, n) == 2 * (0x8000_0000 * Up(x, n - 1));
  }

  lemma {:induction false} ValParity(s: seq<Limb>, n: nat)
    requires 0 < n <= |s|
    ensures ValUpTo(s, n) % 2 == s[0] % 2
    decreases n
  {
    if n > 1 {
      ValParity(s, n - 1);
      UpEven(s[n - 1], n - 1);
    } else {
      assert ValUpTo(s, 0) == 0;
    }
  }

  method RoundsUp(q: Bignum, r: Bignum, b: Bignum) returns (roundUp: bool)
    requires q.Canonical() && r.Canonical() && b.Canonical() && q.Value() >= 0 && r.Value() >= 0
    ensures roundUp == GoesUp(q.Value(), r.Value(), b.Value())
  {
    var twiceR := Add(r, r);
    var cmp := Compare(twiceR, b);
    if cmp > 0 {
      roundUp := true;
    } else if cmp < 0 {
      roundUp := false;
    } else {
      roundUp := IsOdd(q);
    }
  }

  method PositiveDivmod(a: Bignum, b: Bignum) returns (q: Bignum, r: Bignum)
    requires a.Canonical() && b.Canonical() && a.Value() >= 0 && b.Value() > 0
    ensures fresh(q) && fresh(q.limbs) && q.Canonical() && fresh(r) && fresh(r.limbs) && r.Canonical()
    ensures q.Value() >= 0 && r.Value() >= 0 && IsDivmod(a.Value(), b.Value(), q.Value(), r.Value())
  {
    var ok;
    ok, q, r := DivmodTrunc(a, b);
    QuotientIs(a.Value(), b.Value(), q.Value(), r.Value());
  }

  lemma HalfEvenIs(a: nat, b: int, q: nat, r: nat)
    requires b > 0 && IsDivmod(a, b, q, r)
    ensures HalfEven(a, b) == if GoesUp(q, r, b) then q + 1 else q
  {
    hide GoesUp;
  }

  predicate IsDivmod(a: nat, b: int, q: int, r: int)
    requires b > 0
  {
    q == a / b && r == a % b
  }

  method RoundDiv(a: Bignum, b: Bignum) returns (d: Bignum)
    requires a.Canonical() && b.Canonical() && a.Value() >= 0 && b.Value() > 0
    ensures fresh(d) && fresh(d.limbs) && d.Canonical() && d.Value() == HalfEven(a.Value(), b.Value())
  {
    hide HalfEven, GoesUp, IsDivmod;
    var q, r := PositiveDivmod(a, b);
    HalfEvenIs(a.Value(), b.Value(), q.Value(), r.Value());
    var roundUp := RoundsUp(q, r, b);
    if !roundUp {
      return q;
    }
    var one := FromInt64(1);
    d := Add(q, one);
  }

  lemma QuotientIs(a: int, b: int, q: int, r: int)
    requires a >= 0 && b > 0 && TruncDivision(a, b, q, r)
    ensures q == a / b && r == a % b
  {
    assert a == b * q + r;
    Bits.DivUnique(a, b, q, r);
  }

  method IsOdd(q: Bignum) returns (odd: bool)
    requires q.Canonical() && q.Value() >= 0
    ensures odd == (q.Value() % 2 == 1)
  {
    CanonicalZero(q);
    odd := q.count > 0 && q.limbs[0] % 2 == 1;
    if q.count > 0 {
      ValParity(q.limbs[..q.count], q.count);
    }
  }

  function Zeros(n: nat): string {
    seq(n, _ => '0')
  }

  // The integer nearest num/den * 10^(p - 1 - decExp).
  function Significand(num: nat, den: nat, decExp: int, p: nat): nat
    requires den > 0
  {
    var exp := decExp - p + 1;
    LhsPositive(num, exp);
    HalfEven(Lhs(num, exp), Rhs(den, exp))
  }

  lemma LhsPositive(num: nat, exp: int)
    ensures Lhs(num, exp) >= 0
  {
  }

  // The digits of d, when there are p or d is 10^p.
  function FirstDigits(d: nat, decExp: int, p: nat): (string, int) {
    var s := Decimal(d);
    if |s| > p then (s[..p], decExp + |s| - p) else (Zeros(p - |s|) + s, decExp)
  }

  function PDigits(num: nat, den: nat, decExp: int, p: nat): (string, int)
    requires den > 0
  {
    FirstDigits(Significand(num, den, decExp, p), decExp, p)
  }

  method FillDigits(s: string, len: nat, pad: nat, digitsOut: array<char>)
    requires len <= |s| && pad + len <= digitsOut.Length
    modifies digitsOut
    ensures digitsOut[..pad + len] == Zeros(pad) + s[..len]
  {
    for i := 0 to pad
      invariant forall k :: 0 <= k < i ==> digitsOut[k] == '0'
    {
      digitsOut[i] := '0';
    }
    forall i | 0 <= i < len {
      digitsOut[pad + i] := s[i];
    }
  }

  method WriteDigits(d: Bignum, decExp: int, p: nat, digitsOut: array<char>) returns (decExpOut: int)
    requires d.Canonical() && d.Value() >= 0 && ChunksFit(d.Value()) && p < digitsOut.Length
    modifies digitsOut
    ensures (digitsOut[..p], decExpOut) == FirstDigits(d.Value(), decExp, p)
  {
    hide Decimal, Zeros;
    var _, s := BignumText.ToDecimalString(d);
    var len := |s|;
    decExpOut := decExp;
    if len > p {
      decExpOut := decExpOut + len - p;
      len := p;
      NoZeros(s[..p]);
    }
    FillDigits(s, len, p - len, digitsOut);
    assert |s| <= p ==> s[..len] == s;
  }

  lemma NoZeros(s: string)
    ensures Zeros(0) + s == s
  {
  }

  method RoundToPDigits(num: Bignum, den: Bignum, decExp: int, p: nat, digitsOut: array<char>) returns (decExpOut: int)
    requires num.Canonical() && den.Canonical() && num.Value() >= 0 && den.Value() > 0
    requires p < digitsOut.Length && p <= 17 && -0x7fff_0000 <= decExp <= 0x7fff_0000
    requires ChunksFit(Significand(num.Value(), den.Value(), decExp, p))
    modifies digitsOut
    ensures (digitsOut[..p], decExpOut) == PDigits(num.Value(), den.Value(), decExp, p)
  {
    hide ChunksFit, HalfEven, FirstDigits, Lhs, Rhs;
    LhsPositive(num.Value(), decExp - p + 1);
    var scaledNum, scaledDen := ComparisonSides(num, den, decExp - p + 1);
    var digits := RoundDiv(scaledNum, scaledDen);
    decExpOut := WriteDigits(digits, decExp, p, digitsOut);
  }

  // ----- what rounding achieves -----

  // What digits and the exponent of the first stand for.
  ghost function DecimalValue(digits: string, decExp: int): real {
    Shift(DigitsValue(digits, 10) as real, decExp - |digits| + 1)
  }

  lemma ScaledRange(num: nat, den: nat, decExp: int, p: nat)
    requires den > 0 && p > 0 && IsDecExp(Ratio(num, den), decExp)
    ensures Pow10(p - 1) as real <= ScaledRatio(num, den, decExp - p + 1) < Pow10(p) as real
  {
    var v, exp := Ratio(num, den), decExp - p + 1;
    ScaledIsShifted(num, den, exp);
    ShiftOrder(v, TenTo(decExp), -exp);
    ShiftOrder(v, TenTo(decExp + 1), -exp);
    ShiftShift(1.0, decExp, -exp);
    ShiftShift(1.0, decExp + 1, -exp);
    TenToNat(p - 1);
    TenToNat(p);
  }

  // A number between 10^(p-1) and 10^p is rounded into that range, ends included.
  lemma RoundedRange(x: real, d: int, lo: int, hi: int)
    requires Nearest(x, d) && lo as real <= x < hi as real
    ensures lo <= d <= hi
  {
  }

  lemma SignificandRange(num: nat, den: nat, decExp: int, p: nat)
    requires den > 0 && p > 0 && IsDecExp(Ratio(num, den), decExp)
    ensures var d := Significand(num, den, decExp, p);
      && Nearest(ScaledRatio(num, den, decExp - p + 1), d)
      && Pow10(p - 1) <= d <= Pow10(p)
  {
    var exp := decExp - p + 1;
    LhsPositive(num, exp);
    HalfEvenIsNearest(Lhs(num, exp), Rhs(den, exp));
    ScaledRange(num, den, decExp, p);
    RoundedRange(ScaledRatio(num, den, exp), Significand(num, den, decExp, p), Pow10(p - 1), Pow10(p));
  }

  lemma {:induction false} DecimalOfPower(p: nat)
    ensures Decimal(Pow10(p)) == "1" + Zeros(p)
    decreases p
  {
    if p > 0 {
      DecimalOfPower(p - 1);
      assert Pow10(p) / 10 == Pow10(p - 1) && Pow10(p) % 10 == 0 && Pow10(p) >= 10;
      assert "1" + Zeros(p) == ("1" + Zeros(p - 1)) + [DigitChar(0)];
    } else {
      assert Decimal(1) == "1";
    }
  }

  lemma CarriedDigits(p: nat)
    requires p > 0
    ensures var s := Decimal(Pow10(p));
      |s| == p + 1 && s[..p] == Decimal(Pow10(p - 1)) && s[p..] == "0"
  {
    DecimalOfPower(p);
    DecimalOfPower(p - 1);
    assert ("1" + Zeros(p))[..p] == "1" + Zeros(p - 1);
  }

  ghost predicate Exactly(d: nat, decExp: int, p: nat) {
    var (digits, exp) := FirstDigits(d, decExp, p);
    && |digits| == p > 0 && Canonical10(digits) && digits[0] != '0'
    && |Decimal(d)| >= p && (|Decimal(d)| > p ==> Decimal(d)[p..] == "0")
    && DecimalValue(digits, exp) == Shift(d as real, decExp - p + 1)
  }

  lemma ShortDigitsAreExact(d: nat, decExp: int, p: nat)
    requires p > 0 && Pow10(p - 1) <= d < Pow10(p)
    ensures Exactly(d, decExp, p)
  {
    DecimalMeans(d);
    DecimalLength(d, p);
    assert Zeros(0) + Decimal(d) == Decimal(d);
  }

  lemma CarriedDigitsAreExact(decExp: int, p: nat)
    requires p > 0
    ensures Exactly(Pow10(p), decExp, p)
  {
    CarriedDigits(p);
    DecimalMeans(Pow10(p - 1));
    ShiftTen(Pow10(p - 1) as real, decExp - p + 1);
  }

  // The digits are p exactly, the first not zero: the padding never happens, and
  // a digit dropped after a carry is a zero, so that they stand for the
  // significand itself.
  lemma DigitsAreExact(num: nat, den: nat, decExp: int, p: nat)
    requires den > 0 && p > 0 && IsDecExp(Ratio(num, den), decExp)
    ensures Exactly(Significand(num, den, decExp, p), decExp, p)
  {
    SignificandRange(num, den, decExp, p);
    var d := Significand(num, den, decExp, p);
    if d < Pow10(p) {
      ShortDigitsAreExact(d, decExp, p);
    } else {
      CarriedDigitsAreExact(decExp, p);
    }
  }

  ghost function Distance(x: real, y: real): real {
    if x < y then y - x else x - y
  }

  lemma DistanceShifts(x: real, y: real, e: int)
    ensures Distance(Shift(x, e), Shift(y, e)) == Shift(Distance(x, y), e)
  {
    ShiftOrder(x, y, e);
    ShiftMinus(x, y, e);
    ShiftMinus(y, x, e);
  }

  // A p-digit decimal of another exponent is beyond the range of those of v's.
  lemma OtherExponent(k: int, n: nat, p: nat)
    requires p > 0 && Pow10(p - 1) <= n < Pow10(p)
    ensures k > 0 ==> Shift(n as real, k) >= Pow10(p) as real
    ensures k < 0 ==> Shift(n as real, k) <= Pow10(p - 1) as real
  {
    if k > 0 {
      ShiftGrows(n as real, 0, k);
    } else if k < 0 {
      ShiftGrows(n as real, k, 0);
    }
  }

  lemma ClosestScaled(x: real, d: int, lo: int, hi: int, y: real, n: int, same: bool, even: bool)
    requires -0.5 <= x - d as real <= 0.5 && (x - d as real == 0.5 || x - d as real == -0.5 ==> even)
    requires lo <= d <= hi && lo as real <= x < hi as real
    requires if same then y == n as real else y >= hi as real || y <= lo as real
    ensures Distance(x, d as real) <= Distance(x, y)
    ensures Distance(x, d as real) == Distance(x, y) && d as real != y ==> even
  {
    if same {
      assert n <= d - 1 || n == d || n >= d + 1;
    } else if y >= hi as real {
      assert d == hi || d <= hi - 1;
    } else {
      assert d == lo || d >= lo + 1;
    }
  }

  // The p digits chosen are as close to the value as any p-digit decimal,
  // whatever its exponent; at equal distance from another one, the significand
  // is even.
  lemma ClosestDecimal(num: nat, den: nat, decExp: int, p: nat, n: nat, e: int)
    requires den > 0 && p > 0 && IsDecExp(Ratio(num, den), decExp)
    requires Pow10(p - 1) <= n < Pow10(p)
    ensures var v := Ratio(num, den);
      var (digits, exp) := PDigits(num, den, decExp, p);
      var (mine, other) := (DecimalValue(digits, exp), Shift(n as real, e - p + 1));
      && Distance(v, mine) <= Distance(v, other)
      && (Distance(v, mine) == Distance(v, other) && mine != other ==> Significand(num, den, decExp, p) % 2 == 0)
  {
    DigitsAreExact(num, den, decExp, p);
    SignificandRange(num, den, decExp, p);
    ScaledRange(num, den, decExp, p);
    OtherExponent(e - decExp, n, p);
    var v, exp, d := Ratio(num, den), decExp - p + 1, Significand(num, den, decExp, p);
    var x, y := ScaledRatio(num, den, exp), Shift(n as real, e - decExp);
    ClosestScaled(x, d, Pow10(p - 1), Pow10(p), y, n, e == decExp, d % 2 == 0);
    ScaledIsShifted(num, den, exp);
    ShiftShift(v, -exp, exp);
    ShiftShift(n as real, e - decExp, exp);
    DistanceShifts(x, d as real, exp);
    DistanceShifts(x, y, exp);
    ShiftOrder(Distance(x, y), Distance(x, d as real), exp);
    ShiftOrder(d as real, y, exp);
  }
}
