// numfmt_repr (native/numfmt.c): from a double to the text printed for it, and
// that the text reads back as the same double.
module Doubles {
  import opened Bits
  import opened Bignums
  import opened DecimalText
  import opened Numfmt
  import opened FloatText

  // The 64 bits: sign, biased exponent and fraction.
  datatype Bits64 = Bits64(neg: bool, exp: nat, frac: nat)

  const HIDDEN: int := 0x10_0000_0000_0000

  type Double = d: Bits64 | d.exp < 2048 && d.frac < HIDDEN witness Bits64(false, 0, 0)

  predicate Finite(d: Double) {
    d.exp < 2047
  }

  // ----- the exact value -----

  function Mantissa(d: Double): (m: int)
    ensures 0 <= m < 2 * HIDDEN
  {
    if d.exp == 0 then d.frac else d.frac + HIDDEN
  }

  function Exp2(d: Double): (e: int)
    ensures -1074 <= e
  {
    if d.exp == 0 then -1074 else d.exp - 1075
  }

  // A double's size in units of 2^-1074.
  ghost function Units(d: Double): (u: int)
    ensures u >= 0
  {
    TwiceMono(0, Mantissa(d), Exp2(d) + 1074);
    TwiceZero(Exp2(d) + 1074);
    Twice(Mantissa(d), Exp2(d) + 1074)
  }

  lemma {:induction false} TwiceZero(n: nat)
    ensures Twice(0, n) == 0
    decreases n
  {
    if n > 0 {
      TwiceZero(n - 1);
    }
  }

  // x / 2^n
  ghost function Halved(x: real, n: nat): real
    decreases n, x
  {
    if n == 0 then x else Halved(x, n - 1) / 2.0
  }

  ghost function Magnitude(d: Double): real {
    Halved(Units(d) as real, 1074)
  }

  lemma {:induction false} HalvedOrder(x: real, y: real, n: nat)
    ensures x < y <==> Halved(x, n) < Halved(y, n)
    decreases n
  {
    if n > 0 {
      HalvedOrder(x, y, n - 1);
    }
  }

  lemma {:induction false} HalvedMinus(x: real, y: real, n: nat)
    ensures Halved(x - y, n) == Halved(x, n) - Halved(y, n)
    decreases n
  {
    if n > 0 {
      HalvedMinus(x, y, n - 1);
    }
  }

  // n * 2^k / 2^(k + j)
  lemma {:induction false} HalvedTwice(n: int, k: nat, j: nat)
    ensures Halved(Twice(n, k) as real, j + k) == Halved(n as real, j)
    decreases k
  {
    if k > 0 {
      HalvedTwice(n, k - 1, j);
      HalvedDouble(Twice(n, k - 1), j + k - 1);
    }
  }

  lemma {:induction false} HalvedDouble(x: int, n: nat)
    ensures Halved((2 * x) as real, n + 1) == Halved(x as real, n)
    decreases n
  {
    if n > 0 {
      HalvedDouble(x, n - 1);
    }
  }

  lemma {:induction false} RatioHalved(n: int, j: nat)
    ensures Ratio(n, Pow2(j)) == Halved(n as real, j)
    decreases j
  {
    if j > 0 {
      RatioHalved(n, j - 1);
      RatioTwo(n, Pow2(j - 1));
    }
  }

  lemma RatioTwo(num: int, den: int)
    requires den > 0
    ensures Ratio(num, 2 * den) == Ratio(num, den) / 2.0
  {
    CrossMultiply(num, 2 * den, Ratio(num, den) / 2.0);
  }

  function Num(d: Double): nat {
    if Exp2(d) >= 0 then Mantissa(d) * Pow2(Exp2(d)) else Mantissa(d)
  }

  function Den(d: Double): (r: int)
    ensures r > 0
  {
    if Exp2(d) >= 0 then 1 else Pow2(-Exp2(d))
  }

  // The fraction is the double's exact value.
  lemma FractionIsExact(d: Double)
    ensures Ratio(Num(d), Den(d)) == Magnitude(d)
  {
    var e, m := Exp2(d), Mantissa(d);
    if e >= 0 {
      TwiceIsTimes(m, e);
      TwiceTwice(m, e, 1074);
      HalvedTwice(Num(d), 1074, 0);
    } else {
      RatioHalved(m, -e);
      HalvedTwice(m, e + 1074, -e);
    }
  }

  lemma {:induction false} PowerTwo(n: nat)
    ensures Power(2, n) == Pow2(n)
    decreases n
  {
    if n > 0 {
      PowerTwo(n - 1);
    }
  }

  method PowerOfTwo(n: nat) returns (pw: Bignum)
    requires n < 0x1_0000
    ensures fresh(pw) && fresh(pw.limbs) && pw.Canonical() && pw.Value() == Pow2(n)
  {
    PowerTwo(n);
    var two := FromInt64(2);
    pw := Pow(two, n);
  }

  method DoubleToFraction(v: Double) returns (num: Bignum, den: Bignum)
    ensures fresh(num) && fresh(num.limbs) && fresh(den) && fresh(den.limbs) && num.Canonical() && den.Canonical()
    ensures num.Value() == Num(v) && den.Value() == Den(v)
  {
    var mantissa := if v.exp == 0 then v.frac else v.frac + HIDDEN;
    var exp2 := if v.exp == 0 then -1074 else v.exp - 1075;
    var mBig := FromInt64(mantissa);
    if exp2 >= 0 {
      var pw := PowerOfTwo(exp2);
      num := Mul(mBig, pw);
      den := FromInt64(1);
    } else {
      var pw := PowerOfTwo(-exp2);
      num, den := mBig, pw;
    }
  }

  // ----- how far apart doubles are -----

  // A nonzero multiple of 2^n is at least 2^n.
  lemma {:induction false} TwiceApart(x: int, y: int, n: nat)
    requires x != y
    ensures Twice(x, n) >= Twice(y, n) + Twice(1, n) || Twice(y, n) >= Twice(x, n) + Twice(1, n)
    decreases n
  {
    if n > 0 {
      TwiceApart(x, y, n - 1);
    }
  }

  lemma {:induction false} TwiceTimes(x: int, c: int, n: nat)
    requires 0 <= x <= c
    ensures 0 <= Twice(x, n) <= c * Twice(1, n)
    decreases n
  {
    if n > 0 {
      TwiceTimes(x, c, n - 1);
    }
  }

  function Step(d: Double): nat {
    Exp2(d) + 1074
  }

  // d's size, in units of v's last place, when d's are as large or larger.
  lemma CoarserUnits(v: Double, d: Double)
    requires Step(d) >= Step(v)
    ensures Units(d) == Twice(Twice(Mantissa(d), Step(d) - Step(v)), Step(v))
  {
    TwiceTwice(Mantissa(d), Step(d) - Step(v), Step(v));
  }

  lemma {:induction false} MantissaUnique(v: Double, d: Double)
    requires Step(d) >= Step(v) && Twice(Mantissa(d), Step(d) - Step(v)) == Mantissa(v)
    ensures d.exp == v.exp && d.frac == v.frac
  {
    var k := Step(d) - Step(v);
    if k > 0 {
      TwiceAtLeast(Mantissa(d), k);
    }
  }

  lemma {:induction false} TwiceAtLeast(x: int, k: nat)
    requires x >= 0 && k > 0
    ensures Twice(x, k) >= 2 * x
    decreases k
  {
    if k > 1 {
      TwiceAtLeast(x, k - 1);
    }
  }

  // Doubles of v's step or more lie a step or more away from v.
  lemma CoarserApart(v: Double, d: Double)
    requires Step(d) >= Step(v) && (d.exp != v.exp || d.frac != v.frac)
    ensures Units(d) >= Units(v) + Twice(1, Step(v)) || Units(v) >= Units(d) + Twice(1, Step(v))
  {
    CoarserUnits(v, d);
    if Twice(Mantissa(d), Step(d) - Step(v)) == Mantissa(v) {
      MantissaUnique(v, d);
    }
    TwiceApart(Twice(Mantissa(d), Step(d) - Step(v)), Mantissa(v), Step(v));
  }

  // Doubles of a finer step are smaller: half a step below 2^52 of v's steps.
  lemma FinerBelow(v: Double, d: Double)
    requires Step(d) < Step(v)
    ensures Mantissa(v) >= HIDDEN
    ensures Units(d) <= Twice(2 * HIDDEN - 1, Step(v) - 1) && Units(v) == Twice(2 * Mantissa(v), Step(v) - 1)
  {
    var n := Step(v) - 1;
    TwiceMono(Mantissa(d), 2 * HIDDEN - 1, Step(d));
    TwiceMono(0, 2 * HIDDEN - 1, Step(d));
    TwiceZero(Step(d));
    TwiceTwice(2 * HIDDEN - 1, Step(d), n - Step(d));
    TwiceGrows(Twice(2 * HIDDEN - 1, Step(d)), n - Step(d));
    TwiceTwice(Mantissa(v), 1, n);
    assert Twice(Mantissa(v), 1) == 2 * Twice(Mantissa(v), 0);
  }

  lemma {:induction false} TwiceGrows(x: int, k: nat)
    requires x >= 0
    ensures Twice(x, k) >= x
    decreases k
  {
    if k > 0 {
      TwiceGrows(x, k - 1);
    }
  }

  // Two different doubles lie at least v / 2^53 apart.
  lemma RelativeSpacing(v: Double, d: Double)
    requires d.exp != v.exp || d.frac != v.frac
    ensures 2 * HIDDEN * (Units(d) - Units(v)) >= Units(v) || 2 * HIDDEN * (Units(v) - Units(d)) >= Units(v)
  {
    if Step(d) >= Step(v) {
      CoarserApart(v, d);
      TwiceTimes(Mantissa(v), 2 * HIDDEN, Step(v));
    } else {
      FinerBelow(v, d);
      FinerSpacing(2 * Mantissa(v) - 2 * HIDDEN, Step(v) - 1);
      TwicePlus(2 * Mantissa(v) - 2 * HIDDEN, 2 * HIDDEN, Step(v) - 1);
      TwicePlus(2 * HIDDEN - 1, 1, Step(v) - 1);
    }
  }

  lemma {:induction false} TwicePlus(x: int, y: int, n: nat)
    ensures Twice(x + y, n) == Twice(x, n) + Twice(y, n)
    decreases n
  {
    if n > 0 {
      TwicePlus(x, y, n - 1);
    }
  }

  lemma {:induction false} FinerSpacing(j: int, n: nat)
    requires j >= 0
    ensures 2 * HIDDEN * (Twice(j, n) + Twice(1, n)) >= Twice(j, n) + Twice(2 * HIDDEN, n)
    decreases n
  {
    if n > 0 {
      FinerSpacing(j, n - 1);
    }
  }

  // ----- correctly rounded reading -----

  // The least number too large to be rounded to a finite double.
  ghost function Overflow(): real {
    Halved(Twice(4 * HIDDEN - 1, 2044) as real, 1074)
  }

  // Round to nearest, ties to even: section 4.3.1 of IEEE 754.
  ghost predicate RoundsTo(x: real, d: Double) {
    if x < Overflow() then Finite(d) && forall c: Double :: Finite(c) ==> Closer(x, d, c) else !Finite(d)
  }

  ghost predicate Closer(x: real, d: Double, c: Double) {
    && Distance(x, Magnitude(d)) <= Distance(x, Magnitude(c))
    && (Distance(x, Magnitude(d)) == Distance(x, Magnitude(c)) && Units(d) != Units(c) ==> d.frac % 2 == 0)
  }

  // What is asked of strtod, on texts that FormatDigits writes.
  ghost predicate CorrectlyRounds(strtod: string -> Double) {
    forall digits, decExp, negative :: |digits| > 0 && AllDigits(digits) ==>
      var t := Formatted(digits, decExp, negative);
      strtod(t).neg == negative && RoundsTo(ReadMagnitude(t), strtod(t))
  }

  function Candidate(v: Double, decExp: int, p: nat): string
    requires p > 0
  {
    var (digits, exp) := PDigits(Num(v), Den(v), decExp, p);
    if digits == "" then "" else Formatted(digits, exp, v.neg)
  }

  // The candidate of p digits, as a number.
  ghost function Rounded(v: Double, decExp: int, p: nat): real
    requires p > 0
  {
    var (digits, exp) := PDigits(Num(v), Den(v), decExp, p);
    DecimalValue(digits, exp)
  }

  lemma CandidateIs(v: Double, decExp: int, p: nat)
    requires p > 0 && IsDecExp(Magnitude(v), decExp)
    ensures var (digits, exp) := PDigits(Num(v), Den(v), decExp, p);
      |digits| == p && AllDigits(digits) && digits[0] != '0' && Candidate(v, decExp, p) == Formatted(digits, exp, v.neg)
  {
    FractionIsExact(v);
    DigitsAreExact(Num(v), Den(v), decExp, p);
  }

  lemma CandidateReads(v: Double, decExp: int, p: nat, strtod: string -> Double)
    requires p > 0 && CorrectlyRounds(strtod) && IsDecExp(Magnitude(v), decExp)
    ensures var r := strtod(Candidate(v, decExp, p));
      r.neg == v.neg && RoundsTo(Rounded(v, decExp, p), r)
  {
    CandidateIs(v, decExp, p);
    var (digits, exp) := PDigits(Num(v), Den(v), decExp, p);
    FormatReads(digits, exp, v.neg);
  }

  // ----- seventeen digits are enough -----

  const TWO_E16: int := 20_000_000_000_000_000

  lemma {:induction false} ShiftLarge(x: real, e: int)
    ensures Shift(TWO_E16 as real * x, e) == TWO_E16 as real * Shift(x, e)
    decreases if e < 0 then -e else e
  {
    if e > 0 {
      ShiftLarge(x, e - 1);
    } else if e < 0 {
      ShiftLarge(x, e + 1);
    }
  }

  lemma TenToSixteen()
    ensures TenTo(16) == (TWO_E16 / 2) as real
  {
    TenToNat(16);
    assert Pow10(3) == 1000;
    assert Pow10(6) == 1000_000;
    assert Pow10(9) == 1000_000_000;
    assert Pow10(12) == 1000_000_000_000;
    assert Pow10(14) == 100_000_000_000_000;
  }

  lemma HalfUnit(z: real, e: int)
    requires z <= 0.5
    ensures TWO_E16 as real * Shift(z, e) <= TenTo(e + 16)
  {
    TenToSixteen();
    ShiftLarge(z, e);
    ShiftOrder(TenTo(16), TWO_E16 as real * z, e);
    ShiftShift(1.0, 16, e);
  }

  // Seventeen digits are within one part in 2 * 10^16 of the value.
  lemma SeventeenClose(num: nat, den: nat, decExp: int)
    requires den > 0 && IsDecExp(Ratio(num, den), decExp)
    ensures var (digits, exp) := PDigits(num, den, decExp, 17);
      TWO_E16 as real * Distance(Ratio(num, den), DecimalValue(digits, exp)) <= Ratio(num, den)
  {
    var v, e, d := Ratio(num, den), decExp - 16, Significand(num, den, decExp, 17);
    DigitsAreExact(num, den, decExp, 17);
    SignificandRange(num, den, decExp, 17);
    var x := ScaledRatio(num, den, e);
    ScaledIsShifted(num, den, e);
    ShiftShift(v, -e, e);
    DistanceShifts(x, d as real, e);
    HalfUnit(Distance(x, d as real), e);
  }

  // What is that close to v is closer to v than to any other double.
  lemma CloseReadsBack(v: Double, x: real, r: Double)
    requires Finite(v) && Units(v) > 0 && RoundsTo(x, r)
    requires TWO_E16 as real * Distance(Magnitude(v), x) <= Magnitude(v)
    ensures r.exp == v.exp && r.frac == v.frac
  {
    BelowOverflow(v, x);
    assert Closer(x, r, v);
    if r.exp != v.exp || r.frac != v.frac {
      RelativeSpacing(v, r);
      MagnitudeSpacing(v, r);
      HalvedOrder(0.0, Units(v) as real, 1074);
      HalvedZero(1074);
      TooFar(Magnitude(v), Magnitude(r), x);
    }
  }

  lemma {:induction false} HalvedZero(n: nat)
    ensures Halved(0.0, n) == 0.0
    decreases n
  {
    if n > 0 {
      HalvedZero(n - 1);
    }
  }

  lemma FarApart(v: real, a: real, b: real)
    requires v > 0.0 && TWO_E16 as real * a <= v && (2 * HIDDEN) as real * b >= v && a >= 0.0
    ensures b > 2.0 * a
  {
    assert TWO_E16 as real * a <= (2 * HIDDEN) as real * b;
  }

  lemma TooFar(v: real, r: real, x: real)
    requires v > 0.0 && TWO_E16 as real * Distance(v, x) <= v
    requires (2 * HIDDEN) as real * Distance(v, r) >= v
    ensures Distance(x, r) > Distance(x, v)
  {
    FarApart(v, Distance(v, x), Distance(v, r));
  }

  lemma {:induction false} HalvedHidden(x: real, n: nat)
    ensures Halved((2 * HIDDEN) as real * x, n) == (2 * HIDDEN) as real * Halved(x, n)
    decreases n
  {
    if n > 0 {
      HalvedHidden(x, n - 1);
    }
  }

  lemma MagnitudeSpacing(v: Double, d: Double)
    requires 2 * HIDDEN * (Units(d) - Units(v)) >= Units(v) || 2 * HIDDEN * (Units(v) - Units(d)) >= Units(v)
    ensures (2 * HIDDEN) as real * Distance(Magnitude(v), Magnitude(d)) >= Magnitude(v)
  {
    var a, b := Units(v) as real, Units(d) as real;
    HalvedMinus(a, b, 1074);
    HalvedMinus(b, a, 1074);
    HalvedOrder(a, b, 1074);
    HalvedHidden(a - b, 1074);
    HalvedHidden(b - a, 1074);
    HalvedOrder((2 * HIDDEN) as real * (a - b), a, 1074);
    HalvedOrder((2 * HIDDEN) as real * (b - a), a, 1074);
  }

  lemma {:induction false} HalvedLarge(x: real, n: nat)
    ensures Halved(TWO_E16 as real * x, n) == TWO_E16 as real * Halved(x, n)
    decreases n
  {
    if n > 0 {
      HalvedLarge(x, n - 1);
    }
  }

  lemma {:induction false} FourHidden(n: nat)
    ensures Twice(4 * HIDDEN - 2, n) < TWO_E16 * Twice(1, n)
    ensures Twice(4 * HIDDEN - 1, n) == Twice(4 * HIDDEN - 2, n) + Twice(1, n) && Twice(1, n) > 0
    decreases n
  {
    if n > 0 {
      FourHidden(n - 1);
    }
  }

  lemma LargestDouble(v: Double)
    requires Finite(v)
    ensures Units(v) <= Twice(4 * HIDDEN - 2, 2044)
  {
    var n := Step(v);
    TwiceMono(Mantissa(v), 2 * HIDDEN - 1, n);
    TwiceTwice(2 * HIDDEN - 1, n, 2045 - n);
    TwiceMono(0, 2 * HIDDEN - 1, n);
    TwiceZero(n);
    TwiceGrows(Twice(2 * HIDDEN - 1, n), 2045 - n);
    TwiceTwice(2 * HIDDEN - 1, 1, 2044);
    assert Twice(2 * HIDDEN - 1, 1) == 2 * Twice(2 * HIDDEN - 1, 0);
  }

  lemma BelowOverflow(v: Double, x: real)
    requires Finite(v) && TWO_E16 as real * Distance(Magnitude(v), x) <= Magnitude(v)
    ensures x < Overflow()
  {
    var max, gap := Twice(4 * HIDDEN - 2, 2044), Twice(1, 2044);
    LargestDouble(v);
    FourHidden(2044);
    HalvedOrder(max as real, Units(v) as real, 1074);
    HalvedMinus((max + gap) as real, max as real, 1074);
    HalvedLarge(gap as real, 1074);
    HalvedOrder(max as real, TWO_E16 as real * gap as real, 1074);
    assert (max + gap) as real - max as real == gap as real;
  }

  // ----- the whole of numfmt_repr -----

  // One text for each number of digits.
  ghost function Candidates(v: Double, decExp: int): nat -> string {
    (p: nat) => if p == 0 then "" else Candidate(v, decExp, p)
  }

  // No text of fewer than p digits reads as v.
  ghost predicate NoneBelow(v: Double, texts: nat -> string, p: nat, strtod: string -> Double)
    decreases p
  {
    p <= 1 || (strtod(texts(p - 1)) != v && NoneBelow(v, texts, p - 1, strtod))
  }

  lemma OneMore(v: Double, texts: nat -> string, p: nat, strtod: string -> Double)
    requires NoneBelow(v, texts, p, strtod) && strtod(texts(p)) != v
    ensures NoneBelow(v, texts, p + 1, strtod)
  {
  }

  // The text of p digits reads as v, and none of fewer does.
  ghost predicate IsLeast(v: Double, texts: nat -> string, p: nat, strtod: string -> Double) {
    p > 0 && strtod(texts(p)) == v && forall q :: 0 < q < p ==> strtod(texts(q)) != v
  }

  lemma {:induction false} NoneBelowEach(v: Double, texts: nat -> string, p: nat, strtod: string -> Double, q: nat)
    requires NoneBelow(v, texts, p, strtod) && 0 < q < p
    ensures strtod(texts(q)) != v
    decreases p
  {
    if q < p - 1 {
      NoneBelowEach(v, texts, p - 1, strtod, q);
    }
  }

  lemma {:induction false} NotBeyond(v: Double, texts: nat -> string, p: nat, strtod: string -> Double, q: nat)
    requires NoneBelow(v, texts, p, strtod) && 0 < q && strtod(texts(q)) == v
    ensures p <= q
    decreases p
  {
    if p > q + 1 {
      NotBeyond(v, texts, p - 1, strtod, q);
    }
  }

  lemma LeastFound(v: Double, texts: nat -> string, p: nat, strtod: string -> Double)
    requires p > 0 && NoneBelow(v, texts, p, strtod) && strtod(texts(p)) == v
    ensures IsLeast(v, texts, p, strtod)
  {
    forall q | 0 < q < p ensures strtod(texts(q)) != v {
      NoneBelowEach(v, texts, p, strtod, q);
    }
  }

  // Seventeen digits always do.
  lemma SeventeenSuffice(v: Double, decExp: int, strtod: string -> Double)
    requires Finite(v) && Units(v) > 0 && IsDecExp(Magnitude(v), decExp) && CorrectlyRounds(strtod)
    ensures strtod(Candidates(v, decExp)(17)) == v
  {
    FractionIsExact(v);
    CandidateReads(v, decExp, 17, strtod);
    SeventeenClose(Num(v), Den(v), decExp);
    CloseReadsBack(v, Rounded(v, decExp, 17), strtod(Candidate(v, decExp, 17)));
  }

  lemma {:induction false} HalvedAbove(n: nat)
    ensures Halved(1.0, n) >= TenTo(0 - n)
    decreases n
  {
    if n > 0 {
      HalvedAbove(n - 1);
      ShiftGrows(1.0, 0 - n, 0 - n);
    }
  }

  lemma {:induction false} TwiceBelow(n: nat)
    ensures Twice(1, n) as real <= TenTo(n)
    decreases n
  {
    if n > 0 {
      TwiceBelow(n - 1);
      ShiftGrows(1.0, n - 1, n - 1);
    }
  }

  lemma {:induction false} HalvedBelow(x: real, n: nat)
    requires x >= 0.0
    ensures 0.0 <= Halved(x, n) <= x
    decreases n
  {
    if n > 0 {
      HalvedBelow(x, n - 1);
    }
  }

  // Where the decimal exponent of a double is to be found.
  lemma MagnitudeRange(v: Double)
    requires Finite(v) && Units(v) > 0
    ensures TenTo(-1074) <= Magnitude(v) < TenTo(2100)
  {
    HalvedAbove(1074);
    HalvedOrder(Units(v) as real, 1.0, 1074);
    HalvedBelow(Units(v) as real, 1074);
    TwiceTimesBound(v);
    TwiceBelow(2100);
  }

  lemma TwiceTimesBound(v: Double)
    requires Finite(v)
    ensures Units(v) < Twice(1, 2100)
  {
    LargestDouble(v);
    assert Twice(1, 8) == 0x100;
    assert Twice(1, 16) == 0x1_0000;
    assert Twice(1, 24) == 0x100_0000;
    assert Twice(1, 32) == 0x1_0000_0000;
    assert Twice(1, 40) == 0x100_0000_0000;
    assert Twice(1, 48) == 0x1_0000_0000_0000;
    assert Twice(1, 56) == 0x100_0000_0000_0000;
    TwiceLess(4 * HIDDEN - 2, Twice(1, 56), 2044);
    TwiceTwice(1, 56, 2044);
  }

  // num/den is v, and decExp its decimal exponent.
  ghost predicate Ready(v: Double, num: Bignum, den: Bignum, decExp: int)
    reads num, num.limbs, den, den.limbs
  {
    && num.Canonical() && den.Canonical() && num.Value() == Num(v) && den.Value() == Den(v)
    && Finite(v) && Units(v) > 0 && IsDecExp(Magnitude(v), decExp)
  }

  // The significand of a candidate has no more than 18 digits.
  lemma CandidateFits(v: Double, decExp: int, p: nat)
    requires IsDecExp(Magnitude(v), decExp) && 0 < p <= 17
    ensures ChunksFit(Significand(Num(v), Den(v), decExp, p))
  {
    FractionIsExact(v);
    SignificandRange(Num(v), Den(v), decExp, p);
    ShortFits(Significand(Num(v), Den(v), decExp, p), p);
  }

  lemma CandidateExponent(v: Double, decExp: int, p: nat)
    requires IsDecExp(Magnitude(v), decExp) && p > 0
    ensures decExp <= PDigits(Num(v), Den(v), decExp, p).1 <= decExp + 1
  {
    FractionIsExact(v);
    hide Significand;
    var s := Significand(Num(v), Den(v), decExp, p);
    SignificandRange(Num(v), Den(v), decExp, p);
    assert Pow10(p) == 10 * Pow10(p - 1);
    if s < Pow10(p) {
      DecimalLength(s, p);
    } else {
      DecimalLength(s, p + 1);
    }
  }

  // And its text fits the buffer of format_digits.
  lemma TextFits(v: Double, decExp: int, p: nat)
    requires Finite(v) && Units(v) > 0 && IsDecExp(Magnitude(v), decExp) && 0 < p <= 17
    ensures -1075 <= decExp <= 2100 && |Candidate(v, decExp, p)| < 64
  {
    MagnitudeRange(v);
    DecExpRange(Magnitude(v), decExp);
    CandidateIs(v, decExp, p);
    CandidateExponent(v, decExp, p);
    hide PDigits, Formatted;
    var (digits, exp) := PDigits(Num(v), Den(v), decExp, p);
    FormattedFits(digits, exp, v.neg);
  }

  method FormatCandidate(v: Double, num: Bignum, den: Bignum, decExp: int, p: nat, ghost texts: nat -> string)
    returns (formatted: string)
    requires Ready(v, num, den, decExp) && 0 < p <= 17
    requires texts == Candidates(v, decExp)
    ensures formatted == texts(p) && |formatted| < 64
  {
    CandidateIs(v, decExp, p);
    TextFits(v, decExp, p);
    CandidateFits(v, decExp, p);
    var digits := new char[20];
    var candDecExp := RoundToPDigits(num, den, decExp, p, digits);
    formatted := FormatDigits(digits, p, candDecExp, v.neg);
  }

  method TryCandidate(v: Double, num: Bignum, den: Bignum, decExp: int, p: nat, strtod: string -> Double,
        ghost texts: nat -> string)
    returns (formatted: string, found: bool)
    requires Ready(v, num, den, decExp) && 0 < p <= 17
    requires texts == Candidates(v, decExp) && NoneBelow(v, texts, p, strtod)
    ensures Ready(v, num, den, decExp)
    ensures found ==> formatted == texts(p) && strtod(formatted) == v
    ensures !found ==> NoneBelow(v, texts, p + 1, strtod)
  {
    formatted := FormatCandidate(v, num, den, decExp, p, texts);
    found := strtod(formatted) == v;
    if !found {
      OneMore(v, texts, p, strtod);
    }
  }

  lemma NoneYet(v: Double, texts: nat -> string, strtod: string -> Double)
    ensures NoneBelow(v, texts, 1, strtod)
  {
  }

  // Tries one digit, then two, and so on; the loop of numfmt_repr.
  method TryDigits(v: Double, num: Bignum, den: Bignum, decExp: int, strtod: string -> Double,
        ghost texts: nat -> string)
    returns (result: string, found: bool, p: nat)
    requires Ready(v, num, den, decExp) && texts == Candidates(v, decExp)
    ensures 0 < p <= 18 && NoneBelow(v, texts, p, strtod) && found == (p <= 17)
    ensures found ==> result == texts(p) && strtod(result) == v
  {
    hide *;
    NoneYet(v,texts,strtod);
    result, found, p := "", false, 1;
    while p <= 17
      invariant 1 <= p <= 18 && NoneBelow(v, texts, p, strtod) && Ready(v, num, den, decExp)
    {
      result, found := TryCandidate(v, num, den, decExp, p, strtod, texts);
      if found {
        break;
      }
      p := p + 1;
    }
  }

  // guess0 is the estimate from the bit lengths, made in floating point.
  method Repr(v: Double, guess0: int, strtod: string -> Double) returns (s: string, ghost decExp: int, ghost p: nat)
    requires -0x7fff_0000 <= guess0 <= 0x7fff_0000
    ensures v.exp == 2047 ==> s == if v.frac != 0 then "nan" else if v.neg then "-inf" else "inf"
    ensures v.exp == 0 && v.frac == 0 ==> s == if v.neg then "-0.0" else "0.0"
    ensures Finite(v) && (v.exp != 0 || v.frac != 0) && CorrectlyRounds(strtod) ==>
      && IsDecExp(Magnitude(v), decExp) && 0 < p <= 17
      && s == Candidates(v, decExp)(p) && IsLeast(v, Candidates(v, decExp), p, strtod)
      && strtod(s) == v && Notated(Bare(s), false)
  {
    if v.exp == 2047 {
      return if v.frac != 0 then "nan" else if v.neg then "-inf" else "inf", 0, 0;
    }
    if v.exp == 0 && v.frac == 0 {
      return if v.neg then "-0.0" else "0.0", 0, 0;
    }
    UnitsPositive(v);
    MagnitudeRange(v);
    FractionIsExact(v);
    var num, den := DoubleToFraction(v);
    var e := ComputeDecExp(num, den, guess0, -1074, 2100);
    DecExpRange(Magnitude(v), e);
    var result, found, n := TryDigits(v, num, den, e, strtod, Candidates(v, e));
    if CorrectlyRounds(strtod) {
      FoundBySeventeen(v, e, n, strtod);
      CandidateNotation(v, e, n);
    }
    s, decExp, p := if found then result else if v.neg then "-0.0" else "0.0", e, n;
  }

  lemma CandidateNotation(v: Double, decExp: int, p: nat)
    requires p > 0 && IsDecExp(Magnitude(v), decExp)
    ensures Notated(Bare(Candidates(v, decExp)(p)), false)
  {
    CandidateIs(v, decExp, p);
    var (digits, exp) := PDigits(Num(v), Den(v), decExp, p);
    FormattedNotation(digits, exp, v.neg);
    hide Formatted, Bare, PDigits;
    Untrimmed(Bare(Candidate(v, decExp, p)), |digits| == 1 || !EndsInZero(digits));
  }

  lemma FoundBySeventeen(v: Double, decExp: int, n: nat, strtod: string -> Double)
    requires Finite(v) && Units(v) > 0 && IsDecExp(Magnitude(v), decExp) && CorrectlyRounds(strtod)
    requires 0 < n <= 18 && NoneBelow(v, Candidates(v, decExp), n, strtod)
    requires n <= 17 ==> strtod(Candidates(v, decExp)(n)) == v
    ensures n <= 17 && IsLeast(v, Candidates(v, decExp), n, strtod)
  {
    SeventeenSuffice(v, decExp, strtod);
    NotBeyond(v, Candidates(v, decExp), n, strtod, 17);
    LeastFound(v, Candidates(v, decExp), n, strtod);
  }

  lemma UnitsPositive(v: Double)
    requires v.exp != 0 || v.frac != 0
    ensures Units(v) > 0
  {
    TwiceLess(0, Mantissa(v), Step(v));
    TwiceZero(Step(v));
  }

  lemma DecExpRange(x: real, e: int)
    requires IsDecExp(x, e) && TenTo(-1074) <= x < TenTo(2100)
    ensures -1075 <= e <= 2100
  {
    if e > 2100 {
      ShiftGrows(1.0, 2100, e);
    } else if e < -1075 {
      ShiftGrows(1.0, e + 1, -1074);
    }
  }
}
