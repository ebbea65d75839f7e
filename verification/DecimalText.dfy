// Decimal notation as text: what snprintf's %u and %09u print, and what a
// string of digits means.
module DecimalText {

  function DigitChar(d: nat): char
    requires d < 10
  {
    ['0', '1', '2', '3', '4', '5', '6', '7', '8', '9'][d]
  }

  // %u
  function Decimal(n: nat): string
    decreases n
  {
    if n < 10 then [DigitChar(n)] else Decimal(n / 10) + [DigitChar(n % 10)]
  }

  // The last k decimal digits of n, leading zeros kept: %09u for k == 9.
  function Padded(n: nat, k: nat): string
    decreases k, n
  {
    if k == 0 then "" else Padded(n / 10, k - 1) + [DigitChar(n % 10)]
  }

  // 10^n
  function Pow10(n: nat): (p: int)
    ensures p >= 1
  {
    if n == 0 then 1 else 10 * Pow10(n - 1)
  }

  // The value of a digit in any base up to 16; -1 for any other character.
  function DigitValue(c: char): int {
    if '0' <= c <= '9' then c as int - '0' as int
    else if 'a' <= c <= 'f' then 10 + (c as int - 'a' as int)
    else if 'A' <= c <= 'F' then 10 + (c as int - 'A' as int)
    else -1
  }

  // So many characters in a row, from this one on.
  function Row(first: char, n: nat): string
    requires first as int + n <= 0x80
  {
    seq(n, k requires 0 <= k < n => (first as int + k) as char)
  }

  // A digit is worth its place among 0 to 9 and a to f, or A to F; nothing else is one.
  lemma DigitIsPlace(c: char)
    ensures var small, large := Row('0', 10) + Row('a', 6), Row('0', 10) + Row('A', 6);
            if c in small then 0 <= DigitValue(c) < 16 && small[DigitValue(c)] == c
            else if c in large then 0 <= DigitValue(c) < 16 && large[DigitValue(c)] == c
            else DigitValue(c) == -1
  {
    var small, large := Row('0', 10) + Row('a', 6), Row('0', 10) + Row('A', 6);
    if 0 <= DigitValue(c) {
      assert small[DigitValue(c)] == c || large[DigitValue(c)] == c;
    }
  }

  ghost predicate ValidDigits(s: string, base: nat) {
    forall i :: 0 <= i < |s| ==> 0 <= DigitValue(s[i]) < base
  }

  // The number the first n digits of s spell.
  ghost function Spelled(s: string, n: nat, base: nat): int
    requires n <= |s|
    decreases n
  {
    if n == 0 then 0 else Spelled(s, n - 1, base) * base + DigitValue(s[n - 1])
  }

  ghost function DigitsValue(s: string, base: nat): int {
    Spelled(s, |s|, base)
  }

  // Decimal notation without a superfluous leading zero.
  ghost predicate Canonical10(s: string) {
    |s| > 0 && ValidDigits(s, 10) && (s[0] == '0' ==> |s| == 1) && forall i :: 0 <= i < |s| ==> '0' <= s[i] <= '9'
  }

  lemma {:induction false} SamePrefix(s: string, t: string, n: nat, base: nat)
    requires n <= |s| && n <= |t| && forall i :: 0 <= i < n ==> s[i] == t[i]
    ensures Spelled(s, n, base) == Spelled(t, n, base)
    decreases n
  {
    if n > 0 {
      SamePrefix(s, t, n - 1, base);
    }
  }

  lemma AppendDigit(s: string, c: char, base: nat)
    ensures DigitsValue(s + [c], base) == DigitsValue(s, base) * base + DigitValue(c)
  {
    SamePrefix(s, s + [c], |s|, base);
  }

  lemma NonNegative(x: int, y: int)
    requires x >= 0 && y >= 0
    ensures x * y >= 0
  {
  }

  lemma {:induction false} SpelledNonNegative(s: string, n: nat, base: nat)
    requires n <= |s| && ValidDigits(s, base)
    ensures Spelled(s, n, base) >= 0
    decreases n
  {
    if n > 0 {
      SpelledNonNegative(s, n - 1, base);
      NonNegative(Spelled(s, n - 1, base), base);
    }
  }

  lemma DigitCharMeans(d: nat)
    requires d < 10
    ensures DigitValue(DigitChar(d)) == d && '0' <= DigitChar(d) <= '9' && (DigitChar(d) == '0' <==> d == 0)
  {
  }

  lemma CanonicalAppend(s: string, c: char)
    requires Canonical10(s) && s[0] != '0' && '0' <= c <= '9'
    ensures Canonical10(s + [c])
  {
  }

  // The digits printed for n mean n, with no leading zero.
  lemma {:induction false} DecimalMeans(n: nat)
    ensures DigitsValue(Decimal(n), 10) == n && Canonical10(Decimal(n))
    ensures Decimal(n)[0] == '0' <==> n == 0
    decreases n
  {
    assert DigitsValue("", 10) == 0;
    hide DigitChar, DigitsValue;
    DigitCharMeans(n % 10);
    if n < 10 {
      AppendDigit("", DigitChar(n), 10);
      assert "" + [DigitChar(n)] == [DigitChar(n)];
    } else {
      hide Canonical10, DigitValue;
      DecimalMeans(n / 10);
      AppendDigit(Decimal(n / 10), DigitChar(n % 10), 10);
      CanonicalAppend(Decimal(n / 10), DigitChar(n % 10));
    }
  }

  lemma DecimalAppend(v: nat, c: char)
    requires v > 0 && '0' <= c <= '9'
    ensures Decimal(v * 10 + DigitValue(c)) == Decimal(v) + [c]
  {
    var d := DigitValue(c);
    assert DigitChar(d) == c;
    assert (v * 10 + d) / 10 == v && (v * 10 + d) % 10 == d;
  }

  lemma CanonicalPrefix(s: string)
    requires Canonical10(s) && |s| > 1
    ensures Canonical10(s[..|s| - 1]) && s[..|s| - 1][0] == s[0] != '0'
  {
  }

  lemma OneDigit(c: char)
    requires '0' <= c <= '9'
    ensures DigitsValue([c], 10) == DigitValue(c) && Decimal(DigitValue(c)) == [c]
  {
    assert DigitsValue("", 10) == 0 && "" + [c] == [c];
    AppendDigit("", c, 10);
    assert DigitChar(DigitValue(c)) == c;
  }

  // No other canonical digit string means n.
  lemma {:induction false} DecimalUnique(s: string)
    requires Canonical10(s)
    ensures DigitsValue(s, 10) >= 0 && Decimal(DigitsValue(s, 10)) == s
    ensures DigitsValue(s, 10) == 0 ==> s[0] == '0'
    decreases |s|
  {
    hide Decimal, DigitsValue, DigitChar;
    var m := |s| - 1;
    var t, c := s[..m], s[m];
    if m > 0 {
      assert s == t + [c];
      AppendDigit(t, c, 10);
      CanonicalPrefix(s);
      DecimalUnique(t);
      DecimalAppend(DigitsValue(t, 10), c);
    } else {
      OneDigit(c);
      assert s == [c];
    }
  }

  // q * 10^k, by recursion
  ghost function Tens(q: nat, k: nat): nat
    decreases k
  {
    if k == 0 then q else 10 * Tens(q, k - 1)
  }

  lemma TenthOf(r: nat, p: int)
    requires r < 10 * p
    ensures r / 10 < p
  {
  }

  lemma LowDigit(t: nat, r: nat)
    ensures (10 * t + r) / 10 == t + r / 10 && (10 * t + r) % 10 == r % 10
  {
  }

  // Printing a number in two parts: high digits, then k low ones.
  lemma {:induction false} DecimalSplit(q: nat, r: nat, k: nat)
    requires q > 0 && r < Pow10(k)
    ensures Decimal(Tens(q, k) + r) == Decimal(q) + Padded(r, k) && Tens(q, k) >= q
    decreases k
  {
    hide DigitChar;
    if k > 0 {
      TenthOf(r, Pow10(k - 1));
      DecimalSplit(q, r / 10, k - 1);
      var n := Tens(q, k) + r;
      LowDigit(Tens(q, k - 1), r);
      hide Pow10, Tens;
      assert (Decimal(q) + Padded(r / 10, k - 1)) + [DigitChar(r % 10)] == Decimal(q) + Padded(r, k);
    }
  }

  // Nine digits at a time.
  lemma DecimalChunk(n: nat, q: nat, r: nat)
    requires r < 1_000_000_000 && n == q * 1_000_000_000 + r && q > 0
    ensures Decimal(n) == Decimal(q) + Padded(r, 9)
  {
    hide *;
    NineTens(q, 9);
    DecimalSplit(q, r, 9);
  }

  lemma NineTens(q: nat, k: nat)
    requires k == 9
    ensures Pow10(k) == 1_000_000_000 && Tens(q, k) == 1_000_000_000 * q
  {
    Pow10Nine(k - 9);
    TensNine(q, k - 9);
  }

  lemma {:induction false} DecimalLength(n: nat, k: nat)
    requires k > 0 && Pow10(k - 1) <= n < Pow10(k)
    ensures |Decimal(n)| == k
    decreases k
  {
    if k > 1 {
      DecimalLength(n / 10, k - 1);
    }
  }

  // ----- room for nine digits at a time -----

  // How many 32-bit limbs n has.
  function LimbCount(n: nat): (c: nat)
    decreases n
  {
    if n == 0 then 0 else 1 + LimbCount(n / 0x1_0000_0000)
  }

  // Whether the chunks of n fit the room set aside for them, which goes by the
  // number of its limbs.
  predicate ChunksFit(n: nat) {
    n < Pow10(9 * (LimbCount(n) + 2))
  }

  // Up to 18 digits they always do.
  lemma ShortFits(n: nat, k: nat)
    requires n <= Pow10(k) && k <= 17
    ensures ChunksFit(n)
  {
    Pow10Grows(k, 17);
    Pow10Grows(18, 9 * (LimbCount(n) + 2));
    assert Pow10(18) == 10 * Pow10(17);
  }

  lemma {:induction false} TensOne(k: nat)
    ensures Tens(1, k) == Pow10(k)
  {
    if k > 0 {
      TensOne(k - 1);
    }
  }

  lemma {:induction false} TensMono(x: nat, y: nat, k: nat)
    requires x <= y
    ensures Tens(x, k) <= Tens(y, k)
    decreases k
  {
    if k > 0 {
      TensMono(x, y, k - 1);
    }
  }

  lemma {:induction false} TensTen(q: nat, k: nat)
    ensures Tens(10 * q, k) == Tens(q, k + 1)
    decreases k
  {
    if k > 0 {
      TensTen(q, k - 1);
    }
  }

  lemma TensNine(q: nat, k: nat)
    ensures Tens(1_000_000_000 * q, k) == Tens(q, k + 9)
  {
    hide Tens;
    TensTen(100_000_000 * q, k);
    TensTen(10_000_000 * q, k + 1);
    TensTen(1_000_000 * q, k + 2);
    TensTen(100_000 * q, k + 3);
    TensTen(10_000 * q, k + 4);
    TensTen(1_000 * q, k + 5);
    TensTen(100 * q, k + 6);
    TensTen(10 * q, k + 7);
    TensTen(q, k + 8);
  }

  lemma {:induction false} Pow10Grows(m: nat, n: nat)
    requires m <= n
    ensures Pow10(m) <= Pow10(n)
    decreases n
  {
    if m < n {
      Pow10Grows(m, n - 1);
    }
  }

  lemma Pow10Nine(n: nat)
    ensures Pow10(n + 9) == 1_000_000_000 * Pow10(n)
  {
    Pow10Three(n);
    Pow10Three(n + 3);
    Pow10Three(n + 6);
  }

  lemma Pow10Three(n: nat)
    ensures Pow10(n + 3) == 1_000 * Pow10(n)
  {
    assert Pow10(n + 1) == 10 * Pow10(n);
    assert Pow10(n + 2) == 10 * Pow10(n + 1);
  }
}
