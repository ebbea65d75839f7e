// The text of a double (format_digits in native/numfmt.c), and what such a text
// says when it is read back.
module FloatText {
  import opened DecimalText
  import opened Numfmt

  // ----- writing -----

  function ExponentText(decExp: int): string {
    var absExp := if decExp >= 0 then decExp else -decExp;
    var expBuf := Decimal(absExp);
    [if decExp >= 0 then '+' else '-'] + (if |expBuf| < 2 then "0" else "") + expBuf
  }

  function Fixed(digits: string, decExp: int): string
    requires |digits| > 0
  {
    var p := |digits|;
    if decExp >= 0 then
      var intDigits := decExp + 1;
      if p <= intDigits then digits + Zeros(intDigits - p) + ".0"
      else digits[..intDigits] + "." + digits[intDigits..]
    else "0." + Zeros(-decExp - 1) + digits
  }

  function Scientific(digits: string, decExp: int): string
    requires |digits| > 0
  {
    digits[..1] + (if |digits| > 1 then "." + digits[1..] else "") + "e" + ExponentText(decExp)
  }

  // Fixed notation for exponents from -4 to 15, scientific otherwise.
  function Unsigned(digits: string, decExp: int): string
    requires |digits| > 0
  {
    if -4 <= decExp <= 15 then Fixed(digits, decExp) else Scientific(digits, decExp)
  }

  function Formatted(digits: string, decExp: int, negative: bool): string
    requires |digits| > 0
  {
    (if negative then "-" else "") + Unsigned(digits, decExp)
  }

  method AppendZeros(buf0: string, n: nat) returns (buf: string)
    ensures buf == buf0 + Zeros(n)
  {
    buf := buf0;
    for i := 0 to n
      invariant buf == buf0 + Zeros(i)
    {
      buf := buf + "0";
    }
  }

  method AppendFixed(buf0: string, digits: string, decExp: int) returns (buf: string)
    requires |digits| > 0
    ensures buf == buf0 + Fixed(digits, decExp)
  {
    var p := |digits|;
    if decExp >= 0 {
      var intDigits := decExp + 1;
      if p <= intDigits {
        buf := AppendZeros(buf0 + digits, intDigits - p);
        buf := buf + "." + "0";
      } else {
        buf := buf0 + digits[..intDigits];
        buf := buf + "." + digits[intDigits..];
      }
    } else {
      buf := AppendZeros(buf0 + "0" + ".", -decExp - 1);
      buf := buf + digits;
    }
  }

  method AppendScientific(buf0: string, digits: string, decExp: int) returns (buf: string)
    requires |digits| > 0
    ensures buf == buf0 + Scientific(digits, decExp)
  {
    var mantissa := [digits[0]];
    if |digits| > 1 {
      mantissa := mantissa + "." + digits[1..];
    }
    var exponent := "e" + (if decExp >= 0 then "+" else "-");
    var absExp := if decExp >= 0 then decExp else -decExp;
    var expBuf := Decimal(absExp);
    if |expBuf| < 2 {
      exponent := exponent + "0";
    }
    exponent := exponent + expBuf;
    assert exponent == "e" + ExponentText(decExp);
    assert mantissa + exponent == Scientific(digits, decExp);
    buf := buf0 + (mantissa + exponent);
  }

  method FormatDigits(digits: array<char>, p: nat, decExp: int, negative: bool) returns (buf: string)
    requires 0 < p <= digits.Length
    ensures buf == Formatted(digits[..p], decExp, negative)
  {
    buf := "";
    if negative {
      buf := buf + "-";
    }
    if -4 <= decExp <= 15 {
      buf := AppendFixed(buf, digits[..p], decExp);
    } else {
      buf := AppendScientific(buf, digits[..p], decExp);
    }
  }

  // With seventeen digits, and an exponent of at most four, the text is far shorter than
  // its buffer of 64.
  lemma FormattedFits(digits: string, decExp: int, negative: bool)
    requires 0 < |digits| <= 17 && -10000 < decExp < 10000
    ensures |Formatted(digits, decExp, negative)| <= 25
  {
    ShortExponent(if decExp >= 0 then decExp else -decExp);
  }

  lemma ShortExponent(e: nat)
    requires e < 10000
    ensures |Decimal(e)| <= 4
  {
    assert Pow10(4) == 10000 && Pow10(3) == 1000 && Pow10(2) == 100 && Pow10(1) == 10;
    if e >= 10 {
      DecimalLength(e, if e < 100 then 2 else if e < 1000 then 3 else 4);
    }
  }

  // ----- reading -----

  // The first c in s from i on; |s| if there is none.
  function IndexOf(s: string, c: char, i: nat): (r: nat)
    requires i <= |s|
    ensures i <= r <= |s|
    decreases |s| - i
  {
    if i == |s| || s[i] == c then i else IndexOf(s, c, i + 1)
  }

  ghost function ReadExponent(s: string): int {
    if s == "" then 0 else if s[0] == '-' then -DigitsValue(s[1..], 10) else DigitsValue(s[1..], 10)
  }

  // Digits with at most one point among them, times a power of ten.
  ghost function ReadMantissa(m: string, x: int): real {
    var dot := IndexOf(m, '.', 0);
    var whole, fraction := m[..dot], if dot < |m| then m[dot + 1..] else "";
    Shift(DigitsValue(whole + fraction, 10) as real, x - |fraction|)
  }

  // The number a text without a sign stands for.
  ghost function ReadUnsigned(t: string): real {
    var e := IndexOf(t, 'e', 0);
    ReadMantissa(t[..e], if e < |t| then ReadExponent(t[e + 1..]) else 0)
  }

  ghost function ReadMagnitude(t: string): real {
    if t != "" && t[0] == '-' then ReadUnsigned(t[1..]) else ReadUnsigned(t)
  }

  ghost predicate ReadsNegative(t: string) {
    t != "" && t[0] == '-'
  }

  // ----- what is written is what is read -----

  ghost predicate Lacks(s: string, c: char) {
    forall i :: 0 <= i < |s| ==> s[i] != c
  }

  ghost predicate AllDigits(s: string) {
    forall i :: 0 <= i < |s| ==> '0' <= s[i] <= '9'
  }

  lemma {:induction false} IndexFound(a: string, c: char, b: string, i: nat)
    requires Lacks(a, c) && i <= |a|
    ensures IndexOf(a + [c] + b, c, i) == |a|
    decreases |a| - i
  {
    if i < |a| {
      assert (a + [c] + b)[i] == a[i];
      IndexFound(a, c, b, i + 1);
    }
  }

  lemma {:induction false} IndexMissing(a: string, c: char, i: nat)
    requires Lacks(a, c) && i <= |a|
    ensures IndexOf(a, c, i) == |a|
    decreases |a| - i
  {
    if i < |a| {
      IndexMissing(a, c, i + 1);
    }
  }

  lemma ReadSplit(whole: string, fraction: string, x: int)
    requires AllDigits(whole)
    ensures ReadMantissa(whole + "." + fraction, x) == Shift(DigitsValue(whole + fraction, 10) as real, x - |fraction|)
  {
    IndexFound(whole, '.', fraction, 0);
    assert (whole + ['.'] + fraction)[|whole| + 1..] == fraction;
    assert (whole + ['.'] + fraction)[..|whole|] == whole;
  }

  lemma ReadWhole(whole: string, x: int)
    requires AllDigits(whole)
    ensures ReadMantissa(whole, x) == Shift(DigitsValue(whole, 10) as real, x)
  {
    IndexMissing(whole, '.', 0);
    assert whole + "" == whole;
  }

  lemma {:induction false} TrailingZeros(s: string, k: nat)
    ensures DigitsValue(s + Zeros(k), 10) as real == Shift(DigitsValue(s, 10) as real, k)
    decreases k
  {
    if k > 0 {
      TrailingZeros(s, k - 1);
      assert s + Zeros(k) == (s + Zeros(k - 1)) + ['0'];
      AppendDigit(s + Zeros(k - 1), '0', 10);
    } else {
      assert s + Zeros(0) == s;
    }
  }

  lemma {:induction false} LeadingZeros(k: nat, s: string, n: nat)
    requires n <= |s|
    ensures Spelled(Zeros(k) + s, k + n, 10) == Spelled(s, n, 10)
    decreases n, k
  {
    if n > 0 {
      LeadingZeros(k, s, n - 1);
      assert (Zeros(k) + s)[k + n - 1] == s[n - 1];
    } else if k > 0 {
      LeadingZeros(k - 1, s, 0);
      SamePrefix(Zeros(k - 1) + s, Zeros(k) + s, k - 1, 10);
    }
  }

  lemma ReadExponentText(decExp: int)
    ensures ReadExponent(ExponentText(decExp)) == decExp
  {
    var absExp := if decExp >= 0 then decExp else -decExp;
    var s := Decimal(absExp);
    DecimalMeans(absExp);
    var t := ExponentText(decExp);
    if |s| < 2 {
      LeadingZeros(1, s, |s|);
      assert t[1..] == Zeros(1) + s;
    } else {
      assert t[1..] == s;
    }
  }

  lemma ReadScientific(m: string, decExp: int)
    requires Lacks(m, 'e')
    ensures ReadUnsigned(m + "e" + ExponentText(decExp)) == ReadMantissa(m, decExp)
  {
    var x := ExponentText(decExp);
    IndexFound(m, 'e', x, 0);
    assert (m + ['e'] + x)[|m| + 1..] == x && (m + ['e'] + x)[..|m|] == m;
    ReadExponentText(decExp);
  }

  lemma NoExponent(whole: string, fraction: string)
    requires AllDigits(whole) && AllDigits(fraction)
    ensures Lacks(whole + "." + fraction, 'e')
  {
  }

  lemma ReadPoint(whole: string, fraction: string, m: string)
    requires AllDigits(whole) && AllDigits(fraction) && m == whole + "." + fraction
    ensures ReadUnsigned(m) == Shift(DigitsValue(whole + fraction, 10) as real, -|fraction|)
  {
    NoExponent(whole, fraction);
    IndexMissing(m, 'e', 0);
    IndexFound(whole, '.', fraction, 0);
    assert m == whole + ['.'] + fraction && m[..|m|] == m;
    assert m[..|whole|] == whole && m[|whole| + 1..] == fraction;
    assert ReadMantissa(m, 0) == Shift(DigitsValue(whole + fraction, 10) as real, -|fraction|);
  }

  lemma WholeReads(digits: string, decExp: int)
    requires |digits| > 0 && AllDigits(digits) && |digits| <= decExp + 1
    ensures ReadUnsigned(digits + Zeros(decExp + 1 - |digits|) + ".0") == DecimalValue(digits, decExp)
  {
    var k := decExp + 1 - |digits|;
    var whole := digits + Zeros(k);
    ReadPoint(whole, "0", whole + ".0");
    assert whole + "0" == digits + Zeros(k + 1);
    TrailingZeros(digits, k + 1);
    ShiftShift(DigitsValue(digits, 10) as real, k + 1, -1);
  }

  lemma SplitReads(digits: string, decExp: nat)
    requires AllDigits(digits) && |digits| > decExp + 1
    ensures ReadUnsigned(digits[..decExp + 1] + "." + digits[decExp + 1..]) == DecimalValue(digits, decExp)
  {
    ReadPoint(digits[..decExp + 1], digits[decExp + 1..], digits[..decExp + 1] + "." + digits[decExp + 1..]);
    assert digits[..decExp + 1] + digits[decExp + 1..] == digits;
  }

  lemma ZerosInFront(k: nat, digits: string)
    ensures DigitsValue("0" + (Zeros(k) + digits), 10) == DigitsValue(digits, 10)
  {
    assert "0" + (Zeros(k) + digits) == Zeros(k + 1) + digits;
    LeadingZeros(k + 1, digits, |digits|);
  }

  lemma FractionReads(digits: string, decExp: int)
    requires |digits| > 0 && AllDigits(digits) && decExp < 0
    ensures ReadUnsigned("0." + Zeros(-decExp - 1) + digits) == DecimalValue(digits, decExp)
  {
    var k := -decExp - 1;
    ReadPoint("0", Zeros(k) + digits, "0." + Zeros(k) + digits);
    ZerosInFront(k, digits);
  }

  lemma ScientificReads(digits: string, decExp: int)
    requires |digits| > 0 && AllDigits(digits)
    ensures ReadUnsigned(Scientific(digits, decExp)) == DecimalValue(digits, decExp)
  {
    hide ReadUnsigned, ExponentText, Lacks, ReadMantissa;
    if |digits| > 1 {
      var first, rest := digits[..1], digits[1..];
      var m := first + "." + rest;
      assert Scientific(digits, decExp) == m + "e" + ExponentText(decExp) by {
        assert first + ("." + rest) == m;
      }
      assert first + rest == digits;
      NoExponent(first, rest);
      ReadScientific(m, decExp);
      ReadSplit(first, rest, decExp);
    } else {
      OneDigitReads(digits, decExp);
    }
  }

  lemma OneDigitReads(digits: string, decExp: int)
    requires |digits| == 1 && AllDigits(digits)
    ensures ReadUnsigned(Scientific(digits, decExp)) == DecimalValue(digits, decExp)
  {
    assert Scientific(digits, decExp) == digits + "e" + ExponentText(decExp) by {
      assert digits[..1] + "" == digits;
    }
    ReadScientific(digits, decExp);
    ReadWhole(digits, decExp);
  }

  // The text of p digits and an exponent reads as what they stand for.
  lemma FormatReads(digits: string, decExp: int, negative: bool)
    requires |digits| > 0 && AllDigits(digits)
    ensures var t := Formatted(digits, decExp, negative);
      ReadsNegative(t) == negative && ReadMagnitude(t) == DecimalValue(digits, decExp)
  {
    var u := Unsigned(digits, decExp);
    if !(-4 <= decExp <= 15) {
      ScientificReads(digits, decExp);
    } else if decExp < 0 {
      FractionReads(digits, decExp);
    } else if |digits| <= decExp + 1 {
      WholeReads(digits, decExp);
    } else {
      SplitReads(digits, decExp);
    }
    FirstIsDigit(digits, decExp);
    assert negative ==> Formatted(digits, decExp, negative)[1..] == u;
    assert !negative ==> Formatted(digits, decExp, negative) == u;
  }

  lemma FirstIsDigit(digits: string, decExp: int)
    requires |digits| > 0 && AllDigits(digits)
    ensures |Unsigned(digits, decExp)| > 0 && Unsigned(digits, decExp)[0] != '-'
  {
  }

  // ----- which notation -----

  lemma {:induction false} DigitsRange(digits: string, n: nat)
    requires AllDigits(digits) && 0 < n <= |digits| && digits[0] != '0'
    ensures Pow10(n - 1) <= Spelled(digits, n, 10) < Pow10(n)
    decreases n
  {
    if n > 1 {
      DigitsRange(digits, n - 1);
    } else {
      assert Spelled(digits, 0, 10) == 0;
    }
  }

  lemma DecimalIsDigits(n: nat)
    ensures AllDigits(Decimal(n)) && Decimal(n) != ""
  {
    DecimalMeans(n);
  }

  lemma DigitsExponent(digits: string, decExp: int)
    requires |digits| > 0 && AllDigits(digits) && digits[0] != '0'
    ensures IsDecExp(DecimalValue(digits, decExp), decExp)
  {
    var n, p := DigitsValue(digits, 10), |digits|;
    var k := decExp - p + 1;
    DigitsRange(digits, p);
    TenToNat(p - 1);
    TenToNat(p);
    ShiftOrder(n as real, Pow10(p - 1) as real, k);
    ShiftOrder(n as real, Pow10(p) as real, k);
    ShiftShift(1.0, p - 1, k);
    ShiftShift(1.0, p, k);
  }

  lemma ExponentRange(x: real, e: int)
    requires IsDecExp(x, e)
    ensures TenTo(-4) <= x < TenTo(16) <==> -4 <= e <= 15
  {
    if e < -4 {
      ShiftGrows(1.0, e + 1, -4);
    } else if e > 15 {
      ShiftGrows(1.0, 16, e);
    } else {
      ShiftGrows(1.0, -4, e);
      ShiftGrows(1.0, e + 1, 16);
    }
  }

  ghost predicate EndsInZero(s: string) {
    s != "" && s[|s| - 1] == '0'
  }

  // Digits on both sides of a point, with no spare zero in front; and none behind either,
  // if it is trimmed.
  ghost predicate FixedText(u: string, whole: string, fraction: string, trimmed: bool) {
    && u == whole + "." + fraction && AllDigits(whole) && AllDigits(fraction) && whole != "" && fraction != ""
    && (whole[0] == '0' ==> whole == "0") && (trimmed && EndsInZero(fraction) ==> fraction == "0")
  }

  // A digit that is not zero, others behind a point if there are any, and a signed exponent
  // of two digits or more, no spare zero in front of them.
  ghost predicate ScientificText(u: string, first: char, rest: string, sign: char, exponent: string, trimmed: bool) {
    && u == [first] + (if rest == "" then "" else "." + rest) + "e" + [sign] + exponent
    && '1' <= first <= '9' && AllDigits(rest) && (trimmed ==> !EndsInZero(rest))
    && (sign == '+' || sign == '-') && AllDigits(exponent) && |exponent| >= 2
    && (exponent[0] == '0' ==> |exponent| == 2)
  }

  // Numbers from 10^-4 up to 10^16 are in fixed notation, the others in scientific.
  ghost predicate Notated(u: string, trimmed: bool) {
    if TenTo(-4) <= ReadUnsigned(u) < TenTo(16) then
      exists whole, fraction :: FixedText(u, whole, fraction, trimmed)
    else
      exists first, rest, sign, exponent :: ScientificText(u, first, rest, sign, exponent, trimmed)
  }

  // The text without its sign.
  function Bare(t: string): string {
    if t != "" && t[0] == '-' then t[1..] else t
  }

  lemma FixedParts(digits: string, decExp: int) returns (whole: string, fraction: string)
    requires |digits| > 0 && AllDigits(digits)
    ensures AllDigits(whole) && AllDigits(fraction) && whole != "" && fraction != ""
    ensures Fixed(digits, decExp) == whole + "." + fraction
    ensures digits[0] != '0' ==> FixedText(Fixed(digits, decExp), whole, fraction, |digits| == 1 || !EndsInZero(digits))
  {
    if decExp < 0 {
      whole, fraction := "0", Zeros(-decExp - 1) + digits;
      SmallParts(digits, decExp, fraction);
    } else if |digits| <= decExp + 1 {
      whole, fraction := digits + Zeros(decExp + 1 - |digits|), "0";
      assert whole + ".0" == whole + "." + "0";
    } else {
      whole, fraction := digits[..decExp + 1], digits[decExp + 1..];
      MiddleParts(digits, decExp);
    }
    hide AllDigits, EndsInZero, Fixed, Zeros;
  }

  lemma SmallParts(digits: string, decExp: int, fraction: string)
    requires |digits| > 0 && AllDigits(digits) && decExp < 0 && fraction == Zeros(-decExp - 1) + digits
    ensures AllDigits(fraction) && fraction != "" && Fixed(digits, decExp) == "0" + "." + fraction
    ensures EndsInZero(fraction) ==> EndsInZero(digits) && (|digits| == 1 ==> digits == "0")
  {
    assert fraction[|fraction| - 1] == digits[|digits| - 1];
    assert "0." + Zeros(-decExp - 1) + digits == "0" + "." + fraction;
    assert |digits| == 1 ==> digits == [digits[0]];
  }

  lemma MiddleParts(digits: string, decExp: int)
    requires AllDigits(digits) && 0 <= decExp < |digits| - 1
    ensures AllDigits(digits[..decExp + 1]) && AllDigits(digits[decExp + 1..])
    ensures EndsInZero(digits[decExp + 1..]) ==> EndsInZero(digits)
  {
  }

  lemma ExponentDigits(decExp: int) returns (exponent: string)
    ensures AllDigits(exponent) && |exponent| >= 2 && (exponent[0] == '0' ==> |exponent| == 2)
    ensures ExponentText(decExp) == (if decExp >= 0 then "+" else "-") + exponent
  {
    var buf := Decimal(if decExp >= 0 then decExp else -decExp);
    DecimalIsDigits(if decExp >= 0 then decExp else -decExp);
    DecimalMeans(if decExp >= 0 then decExp else -decExp);
    exponent := (if |buf| < 2 then "0" else "") + buf;
  }

  lemma ScientificParts(digits: string, decExp: int)
      returns (first: char, rest: string, sign: char, exponent: string)
    requires |digits| > 0 && AllDigits(digits) && digits[0] != '0'
    ensures ScientificText(Scientific(digits, decExp), first, rest, sign, exponent,
                           |digits| == 1 || !EndsInZero(digits))
  {
    first, rest, sign := digits[0], digits[1..], if decExp >= 0 then '+' else '-';
    exponent := ExponentDigits(decExp);
    assert digits[..1] == [first];
    assert "e" + ExponentText(decExp) == "e" + [sign] + exponent;
  }

  // Which of the two it is goes by the number that is printed.
  lemma FormattedNotation(digits: string, decExp: int, negative: bool)
    requires |digits| > 0 && AllDigits(digits) && digits[0] != '0'
    ensures Notated(Bare(Formatted(digits, decExp, negative)), |digits| == 1 || !EndsInZero(digits))
  {
    UnsignedReads(digits, decExp, negative);
    DigitsExponent(digits, decExp);
    ExponentRange(DecimalValue(digits, decExp), decExp);
    var trimmed := |digits| == 1 || !EndsInZero(digits);
    hide Fixed, Scientific, ReadUnsigned, DecimalValue, IsDecExp, TenTo, Formatted, Bare;
    if -4 <= decExp <= 15 {
      var whole, fraction := FixedParts(digits, decExp);
      assert FixedText(Unsigned(digits, decExp), whole, fraction, trimmed);
    } else {
      var first, rest, sign, exponent := ScientificParts(digits, decExp);
      assert ScientificText(Unsigned(digits, decExp), first, rest, sign, exponent, trimmed);
    }
  }

  lemma UnsignedReads(digits: string, decExp: int, negative: bool)
    requires |digits| > 0 && AllDigits(digits)
    ensures Bare(Formatted(digits, decExp, negative)) == Unsigned(digits, decExp)
    ensures ReadUnsigned(Unsigned(digits, decExp)) == DecimalValue(digits, decExp)
  {
    hide DecimalValue, ReadUnsigned;
    var u := Unsigned(digits, decExp);
    FormatReads(digits, decExp, false);
    FirstIsDigit(digits, decExp);
    hide Unsigned;
    assert "" + u == u && ("-" + u)[1..] == u;
  }

  lemma Untrimmed(u: string, trimmed: bool)
    requires Notated(u, trimmed)
    ensures Notated(u, false)
  {
    if TenTo(-4) <= ReadUnsigned(u) < TenTo(16) {
      var whole, fraction :| FixedText(u, whole, fraction, trimmed);
      assert FixedText(u, whole, fraction, false);
    } else {
      var first, rest, sign, exponent :| ScientificText(u, first, rest, sign, exponent, trimmed);
      assert ScientificText(u, first, rest, sign, exponent, false);
    }
  }

  // So there is an 'e' in it if and only if the number is outside, and one point if not.
  lemma ExponentIff(u: string, trimmed: bool)
    requires Notated(u, trimmed)
    ensures 'e' !in u <==> TenTo(-4) <= ReadUnsigned(u) < TenTo(16)
    ensures 'e' !in u ==> OnePoint(u)
  {
    hide ReadUnsigned, TenTo, OnePoint;
    if TenTo(-4) <= ReadUnsigned(u) < TenTo(16) {
      var whole, fraction :| FixedText(u, whole, fraction, trimmed);
      PointBetween(whole, fraction);
    } else {
      var first, rest, sign, exponent :| ScientificText(u, first, rest, sign, exponent, trimmed);
      HasMark([first] + if rest == "" then "" else "." + rest, [sign] + exponent);
      assert u == ([first] + if rest == "" then "" else "." + rest) + "e" + ([sign] + exponent);
    }
  }

  ghost predicate OnePoint(u: string) {
    exists i :: 0 < i < |u| - 1 && PointAt(u, i)
  }

  ghost predicate PointAt(u: string, i: nat) {
    i < |u| && u[i] == '.' && forall k :: 0 <= k < |u| && k != i ==> '0' <= u[k] <= '9'
  }

  lemma PointBetween(whole: string, fraction: string)
    requires AllDigits(whole) && AllDigits(fraction) && whole != "" && fraction != ""
    ensures 'e' !in whole + "." + fraction && OnePoint(whole + "." + fraction)
  {
    assert PointAt(whole + "." + fraction, |whole|);
  }

  lemma HasMark(a: string, b: string)
    ensures 'e' in a + "e" + b
  {
    assert (a + "e" + b)[|a|] == 'e';
  }
}
