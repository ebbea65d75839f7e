// What read_number of native/json.c takes for a number, against the grammar of
// section 6 of RFC 8259: the same, but for zeros in front.
module JsonNumbers {
  import opened Json

  // ----- the grammar -----

  // 1*DIGIT
  predicate Digits(s: Text, i: nat, j: nat) {
    i < j <= |s| && forall k :: i <= k < j ==> Digit(s[k])
  }

  // int = zero / ( digit1-9 *DIGIT )
  predicate Whole(s: Text, i: nat, j: nat) {
    Digits(s, i, j) && (s[i] == 0x30 ==> j == i + 1)
  }

  // [ frac ], frac = decimal-point 1*DIGIT
  predicate Fraction(s: Text, i: nat, j: nat) {
    i == j || (i < |s| && s[i] == 0x2E && Digits(s, i + 1, j))
  }

  // [ exp ], exp = e [ minus / plus ] 1*DIGIT
  predicate Exponent(s: Text, i: nat, j: nat) {
    || i == j
    || (i + 1 < |s| && (s[i] == 0x65 || s[i] == 0x45)
        && (Digits(s, i + 1, j) || ((s[i + 1] == 0x2B || s[i + 1] == 0x2D) && Digits(s, i + 2, j))))
  }

  function AfterMinus(s: Text, i: nat): nat {
    if i < |s| && s[i] == 0x2D then i + 1 else i
  }

  // number = [ minus ] int [ frac ] [ exp ], from i to j, the integer part
  // ending at a and the fraction at b
  predicate Parts(s: Text, i: nat, a: nat, b: nat, j: nat) {
    i < |s| && Whole(s, AfterMinus(s, i), a) && Fraction(s, a, b) && Exponent(s, b, j)
  }

  ghost predicate IsNumber(s: Text, i: nat, j: nat) {
    exists a: nat, b: nat :: Parts(s, i, a, b, j)
  }

  // The same, zeros in front allowed.
  predicate LooseParts(s: Text, i: nat, a: nat, b: nat, j: nat) {
    i < |s| && Digits(s, AfterMinus(s, i), a) && Fraction(s, a, b) && Exponent(s, b, j)
  }

  // No zero with another digit after it starts the integer part.
  predicate NoSpareZero(s: Text, i: nat) {
    var d := AfterMinus(s, i);
    !(d + 1 < |s| && s[d] == 0x30 && Digit(s[d + 1]))
  }

  // A whole text that is a number with a fraction or an exponent.
  ghost predicate FloatLiteral(t: Text) {
    exists a: nat, b: nat :: LooseParts(t, 0, a, b, |t|) && a < |t|
  }

  // ----- what is read -----

  // Of what stands between its ends the reader finds the parts.
  lemma ReadHasParts(s: Text, i: nat) returns (a: nat, b: nat)
    requires i < |s| && ReadNumber(s, i).Ok?
    ensures LooseParts(s, i, a, b, ReadNumber(s, i).next) && a == SkipDigits(s, AfterMinus(s, i))
    ensures ReadNumber(s, i).value.Float? <==> a < ReadNumber(s, i).next
    ensures ReadNumber(s, i).value.Float? ==> ReadNumber(s, i).value == Float(s[i..ReadNumber(s, i).next])
  {
    a := SkipDigits(s, AfterMinus(s, i));
    b := SkipFraction(s, a).next;
    FractionHas(s, a);
    ExponentHas(s, b);
    hide SkipFraction, SkipExponent, SkipDigits, Spell, Fraction, Exponent;
    assert Digits(s, AfterMinus(s, i), a);
  }

  lemma FractionHas(s: Text, a: nat)
    requires a <= |s| && SkipFraction(s, a).Ok?
    ensures Fraction(s, a, SkipFraction(s, a).next) && (SkipFraction(s, a).value <==> a < SkipFraction(s, a).next)
  {
  }

  lemma ExponentHas(s: Text, b: nat)
    requires b <= |s| && SkipExponent(s, b).Ok?
    ensures Exponent(s, b, SkipExponent(s, b).next) && (SkipExponent(s, b).value <==> b < SkipExponent(s, b).next)
  {
  }

  // A run of digits ends where the reader has it end, or goes on.
  lemma {:induction false} DigitsGoOn(s: Text, i: nat, j: nat)
    requires i <= j <= |s| && forall k :: i <= k < j ==> Digit(s[k])
    ensures j <= SkipDigits(s, i)
    ensures j < SkipDigits(s, i) ==> Digit(s[j])
    decreases j - i
  {
    if i < j {
      DigitsGoOn(s, i + 1, j);
    }
  }

  lemma FractionGoesOn(s: Text, a: nat, b: nat)
    requires a <= |s| && Fraction(s, a, b)
    ensures b <= |s| && (SkipFraction(s, a).Ok? ==> b <= SkipFraction(s, a).next)
    ensures b == a || SkipFraction(s, a).Ok?
    ensures SkipFraction(s, a).Ok? && b < SkipFraction(s, a).next ==> b < |s| && (Digit(s[b]) || s[b] == 0x2E)
    ensures SkipFraction(s, a).Fail? ==> b < |s| && s[b] == 0x2E
  {
    if a < b {
      DigitsGoOn(s, a + 1, b);
    }
  }

  lemma ExponentGoesOn(s: Text, b: nat, j: nat)
    requires b <= |s| && Exponent(s, b, j)
    ensures j <= |s| && (SkipExponent(s, b).Ok? ==> j <= SkipExponent(s, b).next)
    ensures j == b || SkipExponent(s, b).Ok?
    ensures SkipExponent(s, b).Ok? && j < SkipExponent(s, b).next ==> j < |s| && !Ends(s, j)
    ensures SkipExponent(s, b).Fail? ==> j < |s| && !Ends(s, j)
  {
    if b < j {
      if Digits(s, b + 1, j) {
        assert Digit(s[b + 1]);
        DigitsGoOn(s, b + 1, j);
      } else {
        DigitsGoOn(s, b + 2, j);
      }
    }
  }

  // However a number from i on is cut, the reader gets to where it ends, and only
  // goes on if the next character could go on with it.
  lemma ReachesEnd(s: Text, i: nat, a: nat, b: nat, j: nat)
    requires LooseParts(s, i, a, b, j)
    ensures j <= |s| && (ReadNumber(s, i).Ok? ==> j <= ReadNumber(s, i).next)
    ensures Ends(s, j) ==> ReadNumber(s, i).Ok? && ReadNumber(s, i).next == j
  {
    hide SkipFraction, SkipExponent;
    var d := AfterMinus(s, i);
    var a1 := SkipDigits(s, d);
    DigitsGoOn(s, d, a);
    FractionGoesOn(s, a, b);
    ExponentGoesOn(s, b, j);
    if a < a1 {
      NoFraction(s, a, b, j);
    } else if SkipFraction(s, a).Ok? && b < SkipFraction(s, a).next {
      NoExponent(s, b, j);
    } else if SkipFraction(s, a).Fail? {
      NoExponent(s, b, j);
    }
  }

  lemma NoFraction(s: Text, a: nat, b: nat, j: nat)
    requires a < |s| && Digit(s[a]) && Fraction(s, a, b) && Exponent(s, b, j)
    ensures j == b == a
  {
  }

  lemma NoExponent(s: Text, b: nat, j: nat)
    requires b < |s| && (Digit(s[b]) || s[b] == 0x2E) && Exponent(s, b, j)
    ensures j == b
  {
  }

  // What the reader takes is the longest number, zeros in front allowed, that
  // starts there; and it takes every such number that is not cut short.
  lemma ReadsLongest(s: Text, i: nat, j: nat)
    requires i < |s|
    ensures ReadNumber(s, i).Ok? ==> exists a: nat, b: nat :: LooseParts(s, i, a, b, ReadNumber(s, i).next)
    ensures ReadNumber(s, i).Ok? && j > ReadNumber(s, i).next ==> !IsNumber(s, i, j)
    ensures Ends(s, j) && (exists a: nat, b: nat :: LooseParts(s, i, a, b, j)) ==>
      ReadNumber(s, i).Ok? && ReadNumber(s, i).next == j
  {
    if ReadNumber(s, i).Ok? {
      var _, _ := ReadHasParts(s, i);
    }
    forall a: nat, b: nat | LooseParts(s, i, a, b, j)
      ensures j <= |s| && (ReadNumber(s, i).Ok? ==> j <= ReadNumber(s, i).next)
      ensures Ends(s, j) ==> ReadNumber(s, i).Ok? && ReadNumber(s, i).next == j
    {
      ReachesEnd(s, i, a, b, j);
    }
    assert forall a: nat, b: nat :: Parts(s, i, a, b, j) ==> LooseParts(s, i, a, b, j);
  }

  lemma PartsMoved(t: Text, s: Text, i: nat, a: nat, b: nat)
    requires At(s, i, t) && LooseParts(t, 0, a, b, |t|)
    ensures i < |s| && LooseParts(s, i, i + a, i + b, i + |t|) && s[i] == t[0]
  {
    assert forall k :: 0 <= k < |t| ==> s[i + k] == t[k];
    assert forall k :: i <= k < i + |t| ==> s[k] == t[k - i];
    assert s[i + 0] == t[0];
  }

  // Such a literal is read as itself.
  lemma FloatBack(s: Text, i: nat, t: Text)
    requires At(s, i, t) && FloatLiteral(t) && Ends(s, i + |t|)
    ensures i < |s| && (s[i] == 0x2D || Digit(s[i]))
    ensures ReadNumber(s, i) == Ok(Float(t), i + |t|)
  {
    var a: nat, b: nat :| LooseParts(t, 0, a, b, |t|) && a < |t|;
    assert i + |t| <= |s| && s[i..i + |t|] == t;
    hide LooseParts, ReadNumber, At;
    PartsMoved(t, s, i, a, b);
    FloatHere(s, i, i + a, i + b, i + |t|);
  }

  lemma FloatHere(s: Text, i: nat, a: nat, b: nat, j: nat)
    requires LooseParts(s, i, a, b, j) && a < j <= |s| && Ends(s, j)
    ensures i < j && (s[i] == 0x2D || Digit(s[i])) && ReadNumber(s, i) == Ok(Float(s[i..j]), j)
  {
    var d := AfterMinus(s, i);
    DigitsGoOn(s, d, a);
    assert SkipDigits(s, d) == a && Digit(s[d]);
    ReachesEnd(s, i, a, b, j);
    hide LooseParts, SkipDigits, ReadNumber;
    var _, _ := ReadHasParts(s, i);
  }

  // Up to a place where a number can end, the text is a number of the grammar if
  // and only if it is read as one and has no spare zero in front.
  lemma GrammarIff(s: Text, i: nat, j: nat)
    requires i < |s| && Ends(s, j)
    ensures IsNumber(s, i, j) <==> ReadNumber(s, i).Ok? && ReadNumber(s, i).next == j && NoSpareZero(s, i)
  {
    if IsNumber(s, i, j) {
      var a: nat, b: nat :| Parts(s, i, a, b, j);
      ReachesEnd(s, i, a, b, j);
      if !NoSpareZero(s, i) {
        NoFraction(s, a, b, j);
        assert false;
      }
    }
    if ReadNumber(s, i).Ok? && ReadNumber(s, i).next == j && NoSpareZero(s, i) {
      var a, b := ReadHasParts(s, i);
      assert Digit(s[AfterMinus(s, i)]);
      assert Parts(s, i, a, b, j);
    }
  }

  // What is read is a number of the grammar, and the longest one, if and only if
  // there is no spare zero in front.
  lemma AcceptsGrammarIff(s: Text, i: nat)
    requires i < |s| && ReadNumber(s, i).Ok?
    ensures IsNumber(s, i, ReadNumber(s, i).next) <==> NoSpareZero(s, i)
  {
    var j := ReadNumber(s, i).next;
    var a, b := ReadHasParts(s, i);
    var d := AfterMinus(s, i);
    assert Digit(s[d]);
    if NoSpareZero(s, i) {
      assert Parts(s, i, a, b, j);
    } else {
      DigitsGoOn(s, d, d + 2);
      forall x: nat, y: nat ensures !Parts(s, i, x, y, j) {
        if Parts(s, i, x, y, j) {
          NoFraction(s, x, y, j);
        }
      }
    }
  }

  // 01 is read as 1, and is no number.
  lemma LeadingZeroIsRead()
    ensures ReadNumber([0x30, 0x31], 0) == Ok(Int(1), 2) && !IsNumber([0x30, 0x31], 0, 2)
  {
    var s: Text := [0x30, 0x31];
    assert SkipDigits(s, 1) == 2;
    assert Spell(s, 0, 1) == 0;
    AcceptsGrammarIff(s, 0);
  }
}
