// Floats through JSON: the text numfmt_repr gives is a JSON literal, so a finite
// double that is written (native/json.c) comes back as that double.
module JsonFloats {
  import opened DecimalText
  import opened Numfmt
  import opened FloatText
  import opened Doubles
  import opened Json
  import opened JsonGrammar
  import opened JsonNumbers
  import opened JsonRoundTrip

  predicate Ascii(s: string) {
    forall k :: 0 <= k < |s| ==> s[k] < 128 as char
  }

  function Bytes(s: string): (t: Text)
    requires Ascii(s)
    ensures |t| == |s|
  {
    seq(|s|, k requires 0 <= k < |s| => s[k] as int)
  }

  // A sign or none, a whole part, a fraction or none, an exponent or none.
  function Pieces(minus: bool, whole: string, fraction: string, plus: bool, exponent: string): string {
    (if minus then "-" else "") + whole + (if fraction == "" then "" else "." + fraction)
    + if exponent == "" then "" else "e" + (if plus then "+" else "-") + exponent
  }

  // Where the pieces are.
  lemma PiecesAt(minus: bool, whole: string, fraction: string, plus: bool, exponent: string)
        returns (d: nat, a: nat, b: nat)
    requires whole != ""
    ensures var t := Pieces(minus, whole, fraction, plus, exponent);
      && d == (if minus then 1 else 0) && a == d + |whole| && b == a + (if fraction == "" then 0 else 1 + |fraction|)
      && |t| == b + (if exponent == "" then 0 else 2 + |exponent|)
      && (minus ==> t[0] == '-')
      && (forall k :: d <= k < a ==> t[k] == whole[k - d])
      && (fraction != "" ==> t[a] == '.' && forall k :: a < k < b ==> t[k] == fraction[k - a - 1])
      && (exponent != "" ==> t[b] == 'e' && t[b + 1] == (if plus then '+' else '-'))
      && (exponent != "" ==> forall k :: b + 1 < k < |t| ==> t[k] == exponent[k - b - 2])
  {
    d := if minus then 1 else 0;
    a := d + |whole|;
    b := a + if fraction == "" then 0 else 1 + |fraction|;
  }

  lemma PiecesAreLiteral(minus: bool, whole: string, fraction: string, plus: bool, exponent: string)
    requires AllDigits(whole) && AllDigits(fraction) && AllDigits(exponent)
    requires whole != "" && (fraction != "" || exponent != "")
    ensures var t := Pieces(minus, whole, fraction, plus, exponent); Ascii(t) && FloatLiteral(Bytes(t))
    ensures |whole| == 1 || whole[0] != '0' ==>
      var s := Bytes(Pieces(minus, whole, fraction, plus, exponent)); IsNumber(s, 0, |s|)
  {
    var t := Pieces(minus, whole, fraction, plus, exponent);
    var d, a, b := PiecesAt(minus, whole, fraction, plus, exponent);
    hide Pieces;
    assert Ascii(t);
    var s := Bytes(t);
    assert Digits(s, d, a);
    assert Fraction(s, a, b);
    assert exponent != "" ==> Digits(s, b + 2, |s|);
    hide Digits, Fraction;
    assert Exponent(s, b, |s|);
    assert LooseParts(s, 0, a, b, |s|);
    assert s[d] == whole[0] as int;
    assert |whole| == 1 || whole[0] != '0' ==> Parts(s, 0, a, b, |s|);
  }

  lemma PointText(sign: string, whole: string, fraction: string)
    ensures sign + (whole + "." + fraction) == sign + whole + ("." + fraction) + ""
  {
  }

  lemma ExponentIs(sign: string, first: string, rest: string, es: string, exponent: string)
    ensures sign + (first + rest + "e" + (es + exponent)) == sign + first + rest + ("e" + es + exponent)
  {
  }

  lemma WithPoint(minus: bool, whole: string, fraction: string)
    requires AllDigits(whole) && AllDigits(fraction) && whole != "" && fraction != ""
    ensures var t := (if minus then "-" else "") + (whole + "." + fraction);
      Ascii(t) && FloatLiteral(Bytes(t)) && (|whole| == 1 || whole[0] != '0' ==> IsNumber(Bytes(t), 0, |t|))
  {
    PiecesAreLiteral(minus, whole, fraction, true, "");
    PointText(if minus then "-" else "", whole, fraction);
  }

  lemma FixedIsLiteral(digits: string, decExp: int, negative: bool)
    requires |digits| > 0 && AllDigits(digits)
    ensures var t := (if negative then "-" else "") + Fixed(digits, decExp);
      Ascii(t) && FloatLiteral(Bytes(t)) && (digits[0] != '0' ==> IsNumber(Bytes(t), 0, |t|))
  {
    hide AllDigits, Fixed, FloatLiteral, IsNumber, Bytes, Ascii, EndsInZero;
    var whole, fraction := FixedParts(digits, decExp);
    WithPoint(negative, whole, fraction);
  }

  lemma ScientificIsLiteral(digits: string, decExp: int, negative: bool)
    requires |digits| > 0 && AllDigits(digits)
    ensures var t := (if negative then "-" else "") + Scientific(digits, decExp);
      Ascii(t) && FloatLiteral(Bytes(t)) && IsNumber(Bytes(t), 0, |t|)
  {
    assert AllDigits(digits[..1]) && AllDigits(digits[1..]) && (digits[1..] == "" <==> |digits| == 1);
    hide AllDigits, ExponentText, FloatLiteral, Bytes, Ascii;
    var exponent := ExponentDigits(decExp);
    PiecesAreLiteral(negative, digits[..1], digits[1..], decExp >= 0, exponent);
    ExponentIs(if negative then "-" else "", digits[..1], if |digits| > 1 then "." + digits[1..] else "",
               if decExp >= 0 then "+" else "-", exponent);
  }

  lemma FormattedIsLiteral(digits: string, decExp: int, negative: bool)
    requires |digits| > 0 && AllDigits(digits)
    ensures var t := Formatted(digits, decExp, negative);
      Ascii(t) && FloatLiteral(Bytes(t)) && (digits[0] != '0' ==> IsNumber(Bytes(t), 0, |t|))
  {
    if -4 <= decExp <= 15 {
      FixedIsLiteral(digits, decExp, negative);
    } else {
      ScientificIsLiteral(digits, decExp, negative);
    }
  }

  // What numfmt_repr prints for a finite double, Doubles.Repr says, is the candidate
  // of the fewest digits that reads as it.  As JSON it is read as that very text,
  // and so as that very double; so is a zero, with its sign.
  lemma DoubleThroughJson(v: Double, decExp: int, p: nat, strtod: string -> Double, pretty: bool)
    requires Finite(v) && Units(v) > 0 && IsDecExp(Magnitude(v), decExp) && IsLeast(v, Candidates(v, decExp), p, strtod)
    ensures var text := Candidates(v, decExp)(p);
      && Ascii(text) && FloatLiteral(Bytes(text)) && strtod(text) == v
      && IsJson(Spilled(Float(Bytes(text)), pretty))
      && Parsed(Spilled(Float(Bytes(text)), pretty)) == Ok(Float(Bytes(text)), |Spilled(Float(Bytes(text)), pretty)|)
  {
    CandidateIs(v, decExp, p);
    var (digits, exp) := PDigits(Num(v), Den(v), decExp, p);
    FormattedIsLiteral(digits, exp, v.neg);
    SpilledIsJson(Float(Bytes(Candidates(v, decExp)(p))), pretty);
    SpillThenParse(Float(Bytes(Candidates(v, decExp)(p))), pretty);
  }

  lemma ZeroThroughJson(negative: bool, pretty: bool)
    ensures var text := if negative then "-0.0" else "0.0";
      && Ascii(text) && IsJson(Spilled(Float(Bytes(text)), pretty))
      && Parsed(Spilled(Float(Bytes(text)), pretty)) == Ok(Float(Bytes(text)), |Spilled(Float(Bytes(text)), pretty)|)
  {
    var text := if negative then "-0.0" else "0.0";
    PiecesAreLiteral(negative, "0", "0", true, "");
    assert text == Pieces(negative, "0", "0", true, "");
    SpilledIsJson(Float(Bytes(text)), pretty);
    SpillThenParse(Float(Bytes(text)), pretty);
  }
}
