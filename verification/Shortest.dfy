// Is the text numfmt_repr prints the shortest there is?  Its argument
// (native/numfmt.c:8-16) needs the doubles next to v to be equally far away.  Below a
// power of two they are nearer, and there it can fail; exactly when is said here.
module Shortest {
  import opened Bits
  import opened DecimalText
  import opened Numfmt
  import opened FloatText
  import opened Doubles

  // The doubles next to v are as far below it as above.
  predicate Symmetric(v: Double) {
    v.frac != 0 || v.exp <= 1
  }

  // To the next double above, and half way to the next below.
  ghost function Gap(v: Double): real {
    Halved(Twice(1, Step(v)) as real, 1074)
  }

  ghost function HalfBelow(v: Double): real {
    if Symmetric(v) then Gap(v) / 2.0 else Gap(v) / 4.0
  }

  function Above(v: Double): Double
    requires Finite(v)
  {
    if v.frac + 1 < HIDDEN then v.(frac := v.frac + 1) else Bits64(v.neg, v.exp + 1, 0)
  }

  function Below(v: Double): Double
    requires v.frac > 0 || v.exp > 0
  {
    if v.frac > 0 then v.(frac := v.frac - 1) else Bits64(v.neg, v.exp - 1, HIDDEN - 1)
  }

  lemma GapAbove(v: Double)
    requires Finite(v)
    ensures Magnitude(Above(v)) == Magnitude(v) + Gap(v) && Units(Above(v)) != Units(v)
  {
    var a, n := Above(v), Step(v);
    TwicePlus(Mantissa(v), 1, n);
    if a.exp > v.exp && v.exp > 0 {
      assert Step(a) == n + 1;
      TwiceTwice(HIDDEN, 1, n);
      assert Twice(HIDDEN, 1) == 2 * Twice(HIDDEN, 0);
    }
    TwiceLess(0, 1, n);
    TwiceZero(n);
    assert Units(a) == Units(v) + Twice(1, n);
    HalvedMinus(Units(a) as real, Units(v) as real, 1074);
    assert Units(a) as real - Units(v) as real == Twice(1, n) as real;
  }

  lemma {:induction false} TwiceFirst(x: int, n: nat)
    ensures Twice(x, n + 1) == Twice(2 * x, n)
    decreases n
  {
    if n > 0 {
      TwiceFirst(x, n - 1);
    }
  }

  lemma GapBelow(v: Double)
    requires v.frac > 0 || v.exp > 0
    ensures Magnitude(Below(v)) == Magnitude(v) - 2.0 * HalfBelow(v) && Units(Below(v)) != Units(v)
  {
    var b, n := Below(v), Step(v);
    var k: nat := if Symmetric(v) then n else n - 1;
    TwiceLess(0, 1, k);
    TwiceZero(k);
    if Symmetric(v) {
      TwicePlus(Mantissa(b), 1, n);
    } else {
      TwiceFirst(HIDDEN, k);
      TwicePlus(2 * HIDDEN - 1, 1, k);
      TwiceFirst(1, k);
      TwicePlus(1, 1, k);
      HalvedTwo(Twice(1, k), 1074);
    }
    assert Units(v) == Units(b) + Twice(1, k);
    HalvedMinus(Units(v) as real, Units(b) as real, 1074);
    assert Units(v) as real - Units(b) as real == Twice(1, k) as real;
  }

  lemma GapPositive(v: Double)
    ensures Gap(v) > 0.0
  {
    TwiceLess(0, 1, Step(v));
    TwiceZero(Step(v));
    HalvedOrder(0.0, Twice(1, Step(v)) as real, 1074);
    HalvedZero(1074);
  }

  lemma LastUnits(v: Double, n: nat)
    requires v.exp == 2046 && v.frac == HIDDEN - 1 && n == 2044
    ensures Twice(1, Step(v)) == 2 * Twice(1, n) && Twice(4 * HIDDEN - 1, n) == Units(v) + Twice(1, n)
  {
    LastScaled(v, n);
    hide Twice, Units, Step;
    TwiceFirst(2 * HIDDEN - 1, n);
    TwicePlus(4 * HIDDEN - 2, 1, n);
  }

  lemma LastScaled(v: Double, n: nat)
    requires v.exp == 2046 && v.frac == HIDDEN - 1 && n == 2044
    ensures Twice(1, Step(v)) == 2 * Twice(1, n) && Units(v) == Twice(2 * HIDDEN - 1, n + 1)
  {
    hide Twice;
    TwiceMore(1, n);
  }

  lemma TwiceMore(x: int, n: nat)
    ensures Twice(x, n + 1) == 2 * Twice(x, n)
  {
  }

  lemma HalvedTwo(x: int, n: nat)
    ensures Halved((2 * x) as real, n) == 2.0 * Halved(x as real, n)
  {
    HalvedMinus((2 * x) as real, x as real, n);
    assert (2 * x) as real - x as real == x as real;
  }

  // The largest double is half a gap below overflow.
  lemma LastGap(v: Double)
    requires v.exp == 2046 && v.frac == HIDDEN - 1
    ensures 2.0 * (Overflow() - Magnitude(v)) == Gap(v)
  {
    LastUnits(v, 2044);
    var over, max, half := Twice(4 * HIDDEN - 1, 2044), Units(v), Twice(1, 2044);
    HalvedMinus(over as real, max as real, 1074);
    assert over as real - max as real == half as real;
    HalvedTwo(half, 1074);
  }

  // Overflow is half a gap or more above every double, and a tie only for one
  // whose fraction is odd.
  lemma OverflowFar(v: Double)
    requires Finite(v)
    ensures 2.0 * (Overflow() - Magnitude(v)) >= Gap(v)
    ensures 2.0 * (Overflow() - Magnitude(v)) == Gap(v) ==> v.frac % 2 == 1
  {
    if v.exp == 2046 && v.frac == HIDDEN - 1 {
      LastGap(v);
    } else {
      GapAbove(v);
      GapPositive(v);
      var a := Above(v);
      LargestDouble(a);
      TwicePlus(4 * HIDDEN - 2, 1, 2044);
      TwiceLess(0, 1, 2044);
      TwiceZero(2044);
      HalvedOrder(Units(a) as real, Twice(4 * HIDDEN - 1, 2044) as real, 1074);
    }
  }

  // ----- what reads as v -----

  // Up to half way to the doubles next to v; half way itself if v's fraction is even.
  ghost predicate Within(v: Double, y: real) {
    var m := Magnitude(v);
    && -HalfBelow(v) <= y - m <= Gap(v) / 2.0
    && (v.frac % 2 == 1 ==> -HalfBelow(v) < y - m < Gap(v) / 2.0)
  }

  lemma NotZero(v: Double)
    requires Units(v) > 0
    ensures v.frac > 0 || v.exp > 0
  {
    if v.exp == 0 && v.frac == 0 {
      TwiceZero(Step(v));
    }
  }

  lemma FinerApart(v: Double, r: Double)
    requires Step(r) < Step(v)
    ensures Units(v) > Units(r)
    ensures if Symmetric(v)
      then Units(v) > Units(r) + Twice(1, Step(v)) else Units(v) >= Units(r) + Twice(1, Step(v) - 1)
  {
    var n := Step(v) - 1;
    FinerBelow(v, r);
    TwiceFirst(1, n);
    TwicePlus(2 * HIDDEN - 1, 1, n);
    TwicePlus(2 * HIDDEN - 1, 2, n);
    TwiceLess(0, 1, n);
    TwiceZero(n);
    TwiceLess(2 * HIDDEN + 1, 2 * Mantissa(v), n);
  }

  // Other doubles are beyond the ones next to v, if not one of them.
  lemma OthersApart(v: Double, r: Double)
    requires r.exp != v.exp || r.frac != v.frac
    ensures Magnitude(r) >= Magnitude(v) + Gap(v) || Magnitude(r) <= Magnitude(v) - 2.0 * HalfBelow(v)
    ensures Units(r) != Units(v)
  {
    var a, b, g := Units(v), Units(r), Twice(1, Step(v));
    TwiceLess(0, 1, Step(v));
    TwiceZero(Step(v));
    if Step(r) >= Step(v) {
      CoarserApart(v, r);
    } else {
      FinerApart(v, r);
      if !Symmetric(v) {
        var k: nat := Step(v) - 1;
        TwiceFirst(1, k);
        TwicePlus(1, 1, k);
        HalvedTwo(Twice(1, k), 1074);
        UnitsApart(v, r, Twice(1, k));
      }
    }
    UnitsApart(v, r, g);
    UnitsApart(r, v, g);
    GapPositive(v);
  }

  lemma UnitsApart(v: Double, r: Double, g: int)
    ensures Units(v) >= Units(r) + g <==> Magnitude(v) >= Magnitude(r) + Halved(g as real, 1074)
  {
    HalvedMinus(Units(v) as real, Units(r) as real, 1074);
    HalvedOrder(Units(v) as real - Units(r) as real, g as real, 1074);
  }

  lemma SameUnits(v: Double, r: Double)
    requires Magnitude(v) == Magnitude(r)
    ensures r.exp == v.exp && r.frac == v.frac
  {
    if r.exp != v.exp || r.frac != v.frac {
      OthersApart(v, r);
      HalvedOrder(Units(v) as real, Units(r) as real, 1074);
      HalvedOrder(Units(r) as real, Units(v) as real, 1074);
    }
  }

  // A number is rounded to v exactly when it is within.
  lemma ReadsIff(v: Double, y: real)
    requires Finite(v) && Units(v) > 0
    ensures RoundsTo(y, v) <==> Within(v, y)
  {
    GapPositive(v);
    NotZero(v);
    OverflowFar(v);
    if RoundsTo(y, v) {
      GapBelow(v);
      assert Closer(y, v, Below(v));
      if Finite(Above(v)) {
        GapAbove(v);
        assert Closer(y, v, Above(v));
      } else {
        LastGap(v);
      }
    }
    if Within(v, y) {
      forall c: Double | Finite(c) ensures Closer(y, v, c) {
        if c.exp != v.exp || c.frac != v.frac {
          OthersApart(v, c);
        }
      }
    }
  }

  // And to no other double.
  lemma ReadsOnce(v: Double, y: real, r: Double)
    requires Finite(v) && Units(v) > 0 && RoundsTo(y, v) && RoundsTo(y, r)
    ensures r.exp == v.exp && r.frac == v.frac
  {
    assert Closer(y, v, r) && Closer(y, r, v);
    if r.exp != v.exp || r.frac != v.frac {
      OthersApart(v, r);
      ReadsIff(v, y);
      NotZero(v);
      GapPositive(v);
      if Magnitude(r) > Magnitude(v) {
        GapAbove(v);
        SameUnits(r, Above(v));
      } else {
        GapBelow(v);
        SameUnits(r, Below(v));
      }
    }
  }

  // A number at least as close to v as one that reads as v reads as v too, if the
  // doubles next to v are equally far.
  lemma CloserReadsBack(v: Double, y: real, x: real, r: Double)
    requires Finite(v) && Units(v) > 0 && Symmetric(v) && RoundsTo(y, v) && RoundsTo(x, r)
    requires Distance(Magnitude(v), x) <= Distance(Magnitude(v), y)
    ensures r.exp == v.exp && r.frac == v.frac
  {
    ReadsIff(v, y);
    ReadsIff(v, x);
    ReadsOnce(v, x, r);
  }

  lemma CandidateCloser(v: Double, decExp: int, digits: string, e: int)
    requires IsDecExp(Magnitude(v), decExp) && |digits| > 0 && AllDigits(digits) && digits[0] != '0'
    ensures Distance(Magnitude(v), Rounded(v, decExp, |digits|)) <= Distance(Magnitude(v), DecimalValue(digits, e))
  {
    FractionIsExact(v);
    DigitsRange(digits, |digits|);
    ClosestDecimal(Num(v), Den(v), decExp, |digits|, DigitsValue(digits, 10), e);
  }

  lemma TextReadsIff(v: Double, digits: string, e: int, strtod: string -> Double)
    requires Finite(v) && Units(v) > 0 && CorrectlyRounds(strtod) && |digits| > 0 && AllDigits(digits)
    ensures strtod(Formatted(digits, e, v.neg)) == v <==> Within(v, DecimalValue(digits, e))
  {
    FormatReads(digits, e, v.neg);
    var r, y := strtod(Formatted(digits, e, v.neg)), DecimalValue(digits, e);
    assert r.neg == v.neg && RoundsTo(y, r);
    hide RoundsTo, Within, DecimalValue, Formatted, CorrectlyRounds;
    ReadsIff(v, y);
    if RoundsTo(y, v) {
      ReadsOnce(v, y, r);
    }
  }

  lemma CandidateReadsIff(v: Double, decExp: int, p: nat, strtod: string -> Double)
    requires Finite(v) && Units(v) > 0 && p > 0 && CorrectlyRounds(strtod) && IsDecExp(Magnitude(v), decExp)
    ensures strtod(Candidate(v, decExp, p)) == v <==> Within(v, Rounded(v, decExp, p))
  {
    CandidateIs(v, decExp, p);
    var (digits, exp) := PDigits(Num(v), Den(v), decExp, p);
    TextReadsIff(v, digits, exp, strtod);
  }

  // ----- shortest -----

  // Some decimal of p digits reads as v.
  ghost predicate SomeTextReads(v: Double, p: nat, strtod: string -> Double) {
    exists digits: string, e: int :: IsText(v, p, digits, e, strtod)
  }

  ghost predicate IsText(v: Double, p: nat, digits: string, e: int, strtod: string -> Double) {
    |digits| == p > 0 && AllDigits(digits) && digits[0] != '0' && strtod(Formatted(digits, e, v.neg)) == v
  }

  // The candidate of p digits is too far below v, where the gap is half as wide, and
  // the next decimal of p digits is not too far above.
  ghost predicate Misses(v: Double, decExp: int, p: nat)
    requires p > 0
  {
    var m, x := Magnitude(v), Rounded(v, decExp, p);
    !Symmetric(v) && m - x > Gap(v) / 4.0 && x + TenTo(decExp - p + 1) <= m + Gap(v) / 2.0
  }

  // The candidate is a multiple of the unit of its last place, at most half of that
  // away from v.
  lemma CandidateValue(v: Double, decExp: int, p: nat) returns (s: nat)
    requires p > 0 && IsDecExp(Magnitude(v), decExp)
    ensures Pow10(p - 1) <= s <= Pow10(p) && s == Significand(Num(v), Den(v), decExp, p)
    ensures Rounded(v, decExp, p) == Shift(s as real, decExp - p + 1)
    ensures 2.0 * (Magnitude(v) - Rounded(v, decExp, p)) <= TenTo(decExp - p + 1)
  {
    FractionIsExact(v);
    SignificandRange(Num(v), Den(v), decExp, p);
    DigitsAreExact(Num(v), Den(v), decExp, p);
    s := Significand(Num(v), Den(v), decExp, p);
    LastPlace(Num(v), Den(v), decExp, p, s);
  }

  lemma LastPlace(num: nat, den: nat, decExp: int, p: nat, s: nat)
    requires den > 0 && Nearest(ScaledRatio(num, den, decExp - p + 1), s)
    ensures 2.0 * (Ratio(num, den) - Shift(s as real, decExp - p + 1)) <= TenTo(decExp - p + 1)
  {
    var k := decExp - p + 1;
    var x := ScaledRatio(num, den, k);
    ScaledIsShifted(num, den, k);
    ShiftShift(Ratio(num, den), -k, k);
    ShiftMinus(x, s as real, k);
    ShiftMinus(1.0, 0.5, k);
    ShiftOrder(0.5, x - s as real, k);
  }

  lemma NextUnit(s: nat, k: int)
    ensures Shift((s + 1) as real, k) == Shift(s as real, k) + TenTo(k)
  {
    ShiftMinus((s + 1) as real, s as real, k);
  }

  // A p-digit decimal above v is at least a unit above a candidate below v.
  lemma AboveCandidate(v: Double, decExp: int, p: nat, digits: string, e: int, s: nat)
    requires p > 0 && IsDecExp(Magnitude(v), decExp) && |digits| == p && AllDigits(digits) && digits[0] != '0'
    requires Shift(s as real, decExp - p + 1) < Magnitude(v) < DecimalValue(digits, e)
    ensures DecimalValue(digits, e) >= Shift(s as real, decExp - p + 1) + TenTo(decExp - p + 1)
  {
    var n, k := DigitsValue(digits, 10), decExp - p + 1;
    DigitsRange(digits, p);
    assert DecimalValue(digits, e) == Shift(n as real, e - p + 1);
    hide Shift, Pow10, DecimalValue, DigitsValue, AllDigits;
    if e < decExp {
      TooSmall(n, e, p, decExp);
    } else {
      ShiftShift(n as real, e - decExp, k);
      WholeAbove(s, n, e - decExp, k);
    }
  }

  lemma WholeAbove(s: nat, n: nat, j: nat, k: int)
    requires Shift(s as real, k) < Shift(Shift(n as real, j), k)
    ensures Shift(Shift(n as real, j), k) >= Shift(s as real, k) + TenTo(k)
  {
    hide *;
    var big := ShiftWhole(n, j);
    NextUnit(s, k);
    var x, y, z := s as real, (s + 1) as real, big as real;
    ShiftOrder(x, z, k);
    NoneBetween(s, big);
    ShiftOrder(z, y, k);
  }

  lemma NoneBetween(s: int, big: int)
    requires (s as real) < big as real
    ensures (s + 1) as real <= big as real
  {
    assert s < big;
  }

  lemma {:induction false} ShiftWhole(n: nat, j: nat) returns (big: nat)
    ensures Shift(n as real, j) == big as real
    decreases j
  {
    big := n;
    if j > 0 {
      var less := ShiftWhole(n, j - 1);
      big := 10 * less;
    }
  }

  lemma TooSmall(n: int, e: int, p: nat, decExp: int)
    requires 0 <= n < Pow10(p) && e < decExp
    ensures Shift(n as real, e - p + 1) < TenTo(decExp)
  {
    ShiftOrder(n as real, Pow10(p) as real, e - p + 1);
    TenToNat(p);
    ShiftShift(1.0, p, e - p + 1);
    ShiftGrows(1.0, e + 1, decExp);
  }

  // The decimal a unit above the candidate has p digits too.
  lemma NextText(v: Double, decExp: int, p: nat, s: nat) returns (digits: string, e: int)
    requires p > 0 && Pow10(p - 1) <= s && IsDecExp(Magnitude(v), decExp)
      && Shift(s as real, decExp - p + 1) < Magnitude(v)
    ensures |digits| == p && AllDigits(digits) && digits[0] != '0'
    ensures DecimalValue(digits, e) == Shift(s as real, decExp - p + 1) + TenTo(decExp - p + 1)
  {
    var k := decExp - p + 1;
    assert Pow10(p) == 10 * Pow10(p - 1) && Pow10(p - 1) >= 1;
    hide Pow10, Shift, TenTo, DecimalValue;
    NextUnit(s, k);
    TenToNat(p);
    BelowPower(v, decExp, p, s);
    if s + 1 < Pow10(p) {
      digits := PlainText(s + 1, p);
      e := decExp;
    } else {
      digits := PlainText(Pow10(p - 1), p);
      e := decExp + 1;
      ShiftTen(Pow10(p - 1) as real, k);
      assert 10.0 * Pow10(p - 1) as real == (s + 1) as real;
    }
    ValueIs(digits, e);
  }

  lemma ValueIs(digits: string, e: int)
    ensures DecimalValue(digits, e) == Shift(DigitsValue(digits, 10) as real, e - |digits| + 1)
  {
  }

  lemma BelowPower(v: Double, decExp: int, p: nat, s: nat)
    requires IsDecExp(Magnitude(v), decExp) && Shift(s as real, decExp - p + 1) < Magnitude(v)
    ensures s < Pow10(p)
  {
    TenToNat(p);
    ShiftShift(1.0, p, decExp - p + 1);
    ShiftOrder(s as real, Pow10(p) as real, decExp - p + 1);
  }

  lemma PlainText(n: nat, p: nat) returns (digits: string)
    requires p > 0 && Pow10(p - 1) <= n < Pow10(p)
    ensures |digits| == p && AllDigits(digits) && digits[0] != '0' && DigitsValue(digits, 10) == n
  {
    digits := Decimal(n);
    DecimalMeans(n);
    DecimalLength(n, p);
  }

  lemma MissedText(v: Double, decExp: int, p: nat, strtod: string -> Double)
    requires Finite(v) && Units(v) > 0 && p > 0 && CorrectlyRounds(strtod) && IsDecExp(Magnitude(v), decExp)
    requires Misses(v, decExp, p)
    ensures SomeTextReads(v, p, strtod) && strtod(Candidate(v, decExp, p)) != v
  {
    GapPositive(v);
    CandidateReadsIff(v, decExp, p, strtod);
    var s := CandidateValue(v, decExp, p);
    var digits, e := NextText(v, decExp, p, s);
    TextReadsIff(v, digits, e, strtod);
    assert IsText(v, p, digits, e, strtod);
  }

  lemma OnlyMissed(v: Double, decExp: int, digits: string, e: int, strtod: string -> Double)
    requires Finite(v) && Units(v) > 0 && CorrectlyRounds(strtod) && IsDecExp(Magnitude(v), decExp)
    requires |digits| > 0 && AllDigits(digits) && digits[0] != '0' && strtod(Formatted(digits, e, v.neg)) == v
    ensures strtod(Candidate(v, decExp, |digits|)) == v || Misses(v, decExp, |digits|)
  {
    hide *;
    var p := |digits|;
    GapPositive(v);
    CandidateCloser(v, decExp, digits, e);
    TextReadsIff(v, digits, e, strtod);
    CandidateReadsIff(v, decExp, p, strtod);
    var x, y := Rounded(v, decExp, p), DecimalValue(digits, e);
    var s := CandidateValue(v, decExp, p);
    if !Within(v, x) {
      BetweenGaps(v, x, y);
      AboveCandidate(v, decExp, p, digits, e, s);
      MissesThere(v, decExp, p);
    }
  }

  lemma MissesThere(v: Double, decExp: int, p: nat)
    requires p > 0 && !Symmetric(v) && Magnitude(v) - Rounded(v, decExp, p) > Gap(v) / 4.0
    requires Rounded(v, decExp, p) + TenTo(decExp - p + 1) <= Magnitude(v) + Gap(v) / 2.0
    ensures Misses(v, decExp, p)
  {
  }

  // A number no farther from v than one within, and yet not within, is below, and
  // the other above.
  lemma BetweenGaps(v: Double, x: real, y: real)
    requires Gap(v) > 0.0 && Within(v, y) && !Within(v, x) && Distance(Magnitude(v), x) <= Distance(Magnitude(v), y)
    ensures !Symmetric(v) && Magnitude(v) - x > Gap(v) / 4.0 && x < Magnitude(v) < y <= Magnitude(v) + Gap(v) / 2.0
  {
  }

  // A decimal of p digits reads as v if and only if the one of p digits that is
  // tried does, or misses.
  lemma SomeTextReadsIff(v: Double, decExp: int, p: nat, strtod: string -> Double)
    requires Finite(v) && Units(v) > 0 && p > 0 && CorrectlyRounds(strtod) && IsDecExp(Magnitude(v), decExp)
    ensures SomeTextReads(v, p, strtod) <==> strtod(Candidate(v, decExp, p)) == v || Misses(v, decExp, p)
  {
    if SomeTextReads(v, p, strtod) {
      var digits, e :| IsText(v, p, digits, e, strtod);
      OnlyMissed(v, decExp, digits, e, strtod);
    }
    if Misses(v, decExp, p) {
      MissedText(v, decExp, p, strtod);
    }
    if strtod(Candidate(v, decExp, p)) == v {
      CandidateIs(v, decExp, p);
      var (digits, exp) := PDigits(Num(v), Den(v), decExp, p);
      assert IsText(v, p, digits, exp, strtod);
    }
  }

  // The candidate of q digits misses, and no candidate of q or fewer is near enough.
  ghost predicate MissesFirst(v: Double, decExp: int, q: nat) {
    q > 0 && Misses(v, decExp, q) && forall k: nat :: 0 < k <= q ==> !Within(v, Rounded(v, decExp, k))
  }

  // What is printed, the first candidate that reads as v, is the shortest there is if
  // and only if no candidate of up to sixteen digits misses before one is near enough.
  lemma PrintedIsShortestIff(v: Double, decExp: int, p: nat, strtod: string -> Double)
    requires Finite(v) && Units(v) > 0 && CorrectlyRounds(strtod) && IsDecExp(Magnitude(v), decExp)
    requires IsLeast(v, Candidates(v, decExp), p, strtod)
    ensures (forall q: nat :: 0 < q < p ==> !SomeTextReads(v, q, strtod))
       <==> (forall q: nat :: 0 < q <= 16 ==> !MissesFirst(v, decExp, q))
  {
    hide Within, Misses, SomeTextReads, Rounded;
    SeventeenSuffice(v, decExp, strtod);
    assert p <= 17;
    forall q: nat | 0 < q <= 16 && MissesFirst(v, decExp, q) ensures q < p && SomeTextReads(v, q, strtod) {
      MissesFirstReads(v, decExp, p, q, strtod);
    }
    forall q: nat | 0 < q < p && SomeTextReads(v, q, strtod) ensures MissesFirst(v, decExp, q) {
      NoneNearBefore(v, decExp, p, q, strtod);
    }
  }

  lemma MissesFirstReads(v: Double, decExp: int, p: nat, q: nat, strtod: string -> Double)
    requires Finite(v) && Units(v) > 0 && CorrectlyRounds(strtod) && IsDecExp(Magnitude(v), decExp)
    requires IsLeast(v, Candidates(v, decExp), p, strtod) && MissesFirst(v, decExp, q)
    ensures q < p && SomeTextReads(v, q, strtod)
  {
    hide Within, Misses, SomeTextReads, Rounded;
    assert strtod(Candidates(v, decExp)(p)) == v;
    CandidateReadsIff(v, decExp, p, strtod);
    SomeTextReadsIff(v, decExp, q, strtod);
  }

  lemma NoneNearBefore(v: Double, decExp: int, p: nat, q: nat, strtod: string -> Double)
    requires Finite(v) && Units(v) > 0 && CorrectlyRounds(strtod) && IsDecExp(Magnitude(v), decExp)
    requires IsLeast(v, Candidates(v, decExp), p, strtod) && 0 < q < p && SomeTextReads(v, q, strtod)
    ensures MissesFirst(v, decExp, q)
  {
    hide Within, Misses, SomeTextReads, Rounded, IsLeast, Candidate, Finite, Units, IsDecExp, Magnitude;
    forall k: nat | 0 < k <= q ensures !Within(v, Rounded(v, decExp, k)) {
      EarlierFails(v, decExp, p, k, strtod);
      CandidateReadsIff(v, decExp, k, strtod);
    }
    EarlierFails(v, decExp, p, q, strtod);
    SomeTextReadsIff(v, decExp, q, strtod);
  }

  lemma EarlierFails(v: Double, decExp: int, p: nat, k: nat, strtod: string -> Double)
    requires IsLeast(v, Candidates(v, decExp), p, strtod) && 0 < k < p
    ensures strtod(Candidate(v, decExp, k)) != v
  {
    assert strtod(Candidates(v, decExp)(k)) != v;
  }

  // Nor does it end in a zero that says nothing: without it there is one digit less.
  lemma PrintedIsTrimmed(v: Double, decExp: int, p: nat, strtod: string -> Double)
    requires Finite(v) && Units(v) > 0 && CorrectlyRounds(strtod) && IsDecExp(Magnitude(v), decExp)
    requires IsLeast(v, Candidates(v, decExp), p, strtod)
    ensures Notated(Bare(Candidates(v, decExp)(p)), true)
  {
    CandidateIs(v, decExp, p);
    var (digits, exp) := PDigits(Num(v), Den(v), decExp, p);
    FormattedNotation(digits, exp, v.neg);
    hide Formatted, Bare, PDigits, Rounded, Within;
    if p > 1 && EndsInZero(digits) {
      SameWithout(v, decExp, p, digits, exp);
      assert strtod(Candidates(v, decExp)(p)) == v;
      CandidateReadsIff(v, decExp, p, strtod);
      CandidateReadsIff(v, decExp, p - 1, strtod);
      EarlierFails(v, decExp, p, p - 1, strtod);
      assert false;
    }
  }

  lemma SameWithout(v: Double, decExp: int, p: nat, digits: string, exp: int)
    requires p > 1 && IsDecExp(Magnitude(v), decExp) && PDigits(Num(v), Den(v), decExp, p) == (digits, exp)
    requires EndsInZero(digits)
    ensures Rounded(v, decExp, p - 1) == Rounded(v, decExp, p)
  {
    FractionIsExact(v);
    var s := CandidateValue(v, decExp, p);
    var t := CandidateValue(v, decExp, p - 1);
    EndsInTen(Num(v), Den(v), decExp, p, digits, exp);
    SignificandRange(Num(v), Den(v), decExp, p);
    SignificandRange(Num(v), Den(v), decExp, p - 1);
    var k := decExp - p + 1;
    var x, y := ScaledRatio(Num(v), Den(v), k), ScaledRatio(Num(v), Den(v), k + 1);
    ScaledTen(Num(v), Den(v), k);
    TenthIsNearest(x, y, s, t);
    ShiftTen(t as real, k);
    assert 10.0 * t as real == s as real;
  }

  lemma ScaledTen(num: nat, den: nat, k: int)
    requires den > 0
    ensures ScaledRatio(num, den, k) == 10.0 * ScaledRatio(num, den, k + 1)
  {
    ScaledIsShifted(num, den, k);
    ScaledIsShifted(num, den, k + 1);
    ShiftUp(Ratio(num, den), -k - 1);
  }

  lemma TenthIsNearest(x: real, y: real, s: nat, t: nat)
    requires x == 10.0 * y && Nearest(x, s) && Nearest(y, t) && s % 10 == 0
    ensures s == 10 * t
  {
    var m := s / 10;
    assert s == 10 * m && s as real == 10.0 * m as real;
  }

  lemma EndsInTen(num: nat, den: nat, decExp: int, p: nat, digits: string, exp: int)
    requires den > 0 && p > 1 && IsDecExp(Ratio(num, den), decExp) && PDigits(num, den, decExp, p) == (digits, exp)
    requires EndsInZero(digits)
    ensures Significand(num, den, decExp, p) % 10 == 0
  {
    SignificandRange(num, den, decExp, p);
    hide Significand;
    var d := Significand(num, den, decExp, p);
    if d < Pow10(p) {
      DecimalLength(d, p);
      assert Zeros(0) + Decimal(d) == Decimal(d);
    }
  }

  // For a double with its neighbours equally far away: if any decimal of p
  // digits reads as v, the one numfmt_repr tries does.
  lemma NoShorterText(v: Double, decExp: int, digits: string, e: int, strtod: string -> Double)
    requires Finite(v) && Units(v) > 0 && Symmetric(v) && IsDecExp(Magnitude(v), decExp) && CorrectlyRounds(strtod)
    requires |digits| > 0 && AllDigits(digits) && digits[0] != '0'
    requires strtod(Formatted(digits, e, v.neg)) == v
    ensures strtod(Candidate(v, decExp, |digits|)) == v
  {
    OnlyMissed(v, decExp, digits, e, strtod);
  }

  // ----- a power of two where it is not the shortest -----

  const E29: int := 100_000_000_000_000_000_000_000_000_000
  const TWO96: int := 0x1_0000_0000_0000_0000_0000_0000
  const NEAREST16: int := 5684341886080801

  lemma TensHere()
    ensures Pow10(14) == 100_000_000_000_000 && Pow10(13) == 10_000_000_000_000 && Pow10(29) == E29
  {
    assert Pow10(4) == 10_000;
    assert Pow10(8) == 100_000_000;
    assert Pow10(12) == 1_000_000_000_000;
    assert Pow10(16) == 10_000_000_000_000_000;
    assert Pow10(20) == 100_000_000_000_000_000_000;
    assert Pow10(24) == 1_000_000_000_000_000_000_000_000;
  }

  lemma TwosHere()
    ensures Pow2(96) == TWO96
  {
    assert Pow2(8) == 0x100;
    assert Pow2(16) == 0x1_0000;
    assert Pow2(24) == 0x100_0000;
    hide Pow2;
    Pow2Add(24, 24);
    Pow2Add(48, 48);
  }

  lemma PowersHere()
    ensures Pow10(14) == 100_000_000_000_000 && Pow10(13) == 10_000_000_000_000 && Pow10(29) == E29 && Pow2(96) == TWO96
  {
    TensHere();
    TwosHere();
  }

  // 2^-44
  ghost predicate IsHere(v: Double) {
    !v.neg && v.exp == 979 && v.frac == 0
  }

  lemma Here(v: Double)
    requires IsHere(v)
    ensures Num(v) == HIDDEN && Den(v) == TWO96
    ensures Magnitude(v) == HIDDEN as real / TWO96 as real && IsDecExp(Magnitude(v), -14)
    ensures Gap(v) == 1.0 / TWO96 as real
  {
    PowersHere();
    FractionIsExact(v);
    CrossPower(HIDDEN, TWO96, -14);
    CrossPower(HIDDEN, TWO96, -13);
    HalvedTwice(1, Step(v), 96);
    RatioHalved(1, 96);
  }

  lemma TwentyNine(n: int)
    ensures Shift(n as real, -29) == n as real / E29 as real
  {
    PowersHere();
    ScaledIsShifted(n, 1, 29);
    assert Ratio(n, 1) == n as real;
  }

  lemma SignificandHere()
    ensures Significand(HIDDEN, TWO96, -14, 16) == NEAREST16
  {
    PowersHere();
  }

  lemma SixteenHere(v: Double)
    requires IsHere(v)
    ensures Rounded(v, -14, 16) == NEAREST16 as real / E29 as real
  {
    Here(v);
    FractionIsExact(v);
    SignificandHere();
    TwentyNine(NEAREST16);
    hide Significand, Shift, Pow10, PDigits;
    DigitsAreExact(Num(v), Den(v), -14, 16);
  }

  // ----- 2^-44 -----

  const E28: int := 10_000_000_000_000_000_000_000_000_000

  // No multiple of 10^-28 is near enough.
  lemma NotWithin28(v: Double, t: int, x: real)
    requires IsHere(v) && x == t as real / E28 as real
    ensures !Within(v, x)
  {
    Here(v);
    var m, big := HIDDEN as real / TWO96 as real, E28 as real;
    assert x * big == t as real;
    assert t <= 568434188608080 || t >= 568434188608081;
  }

  lemma TwentyEight(v: Double, q: nat) returns (t: nat)
    requires IsHere(v) && 0 < q <= 15
    ensures Rounded(v, -14, q) == t as real / E28 as real
  {
    Here(v);
    hide *;
    var s := CandidateValue(v, -14, q);
    t := ShiftWhole(s, 15 - q);
    ShiftShift(s as real, 15 - q, -28);
    OverE28(t);
  }

  lemma OverE28(t: int)
    ensures Shift(t as real, -28) == t as real / E28 as real
  {
    TensHere();
    assert Pow10(28) == E28;
    ScaledIsShifted(t, 1, 28);
    assert Ratio(t, 1) == t as real;
  }

  lemma SixteenMisses(v: Double)
    requires IsHere(v)
    ensures Misses(v, -14, 16)
  {
    Here(v);
    SixteenHere(v);
    NextUnit(NEAREST16, -29);
    TwentyNine(NEAREST16);
    TwentyNine(NEAREST16 + 1);
  }

  // 2^-44 is printed with seventeen digits, although 5.684341886080802e-14, of
  // sixteen, reads as it.
  lemma LongerThanNeeded(v: Double, strtod: string -> Double)
    requires IsHere(v) && CorrectlyRounds(strtod)
    ensures IsDecExp(Magnitude(v), -14) && IsLeast(v, Candidates(v, -14), 17, strtod)
    ensures strtod(Formatted("5684341886080802", -14, false)) == v
  {
    Here(v);
    PositiveHere(v);
    SeventeenSuffice(v, -14, strtod);
    SixteenMisses(v);
    MissedText(v, -14, 16, strtod);
    forall q: nat | 0 < q < 17 ensures strtod(Candidates(v, -14)(q)) != v {
      if q < 16 {
        FewerMiss(v, q, strtod);
      }
    }
    ReadsAbove(v, strtod);
  }

  lemma FewerMiss(v: Double, q: nat, strtod: string -> Double)
    requires IsHere(v) && CorrectlyRounds(strtod) && 0 < q < 16
    ensures strtod(Candidates(v, -14)(q)) != v
  {
    Here(v);
    PositiveHere(v);
    var t := TwentyEight(v, q);
    NotWithin28(v, t, Rounded(v, -14, q));
    CandidateReadsIff(v, -14, q, strtod);
  }

  lemma PositiveHere(v: Double)
    requires IsHere(v)
    ensures Units(v) > 0
  {
    TwiceLess(0, Mantissa(v), Step(v));
    TwiceZero(Step(v));
  }

  lemma ReadsAbove(v: Double, strtod: string -> Double)
    requires IsHere(v) && CorrectlyRounds(strtod)
    ensures strtod(Formatted("5684341886080802", -14, false)) == v
  {
    var digits := "5684341886080802";
    SixteenDigits(digits);
    Here(v);
    PositiveHere(v);
    TwentyNine(NEAREST16 + 1);
    TextReadsIff(v, digits, -14, strtod);
  }

  lemma SixteenDigits(digits: string)
    requires digits == "5684341886080802"
    ensures AllDigits(digits) && DigitsValue(digits, 10) == NEAREST16 + 1
  {
    assert Spelled(digits, 1, 10) == 5;
    assert Spelled(digits, 2, 10) == 56;
    assert Spelled(digits, 3, 10) == 568;
    assert Spelled(digits, 4, 10) == 5684;
    assert Spelled(digits, 5, 10) == 56843;
    assert Spelled(digits, 6, 10) == 568434;
    assert Spelled(digits, 7, 10) == 5684341;
    assert Spelled(digits, 8, 10) == 56843418;
    assert Spelled(digits, 9, 10) == 568434188;
    assert Spelled(digits, 10, 10) == 5684341886;
    assert Spelled(digits, 11, 10) == 56843418860;
    assert Spelled(digits, 12, 10) == 568434188608;
    assert Spelled(digits, 13, 10) == 5684341886080;
    assert Spelled(digits, 14, 10) == 56843418860808;
    assert Spelled(digits, 15, 10) == 568434188608080;
  }
}
