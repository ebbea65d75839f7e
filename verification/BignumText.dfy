// Reading and printing bignums (native/bignum.c, bignum_from_digits and
// bignum_to_decimal_string).
module BignumText {
  import opened Limbs
  import opened Bits
  import opened Bignums
  import BignumBits
  import opened Shifting
  import opened Division
  import opened DecimalText

  // limbs := limbs * base + digit; the part that does not fit comes back.
  method TimesPlus(r: Bignum, base: Limb, digit: Limb) returns (carry: U64)
    requires r.InRange() && 2 <= base <= 16 && digit < base
    modifies r.limbs
    ensures carry < base
    ensures Val(r.limbs[..r.count]) + Up(carry, r.count) == old(r.Mag()) * base + digit
  {
    ghost var w := r.limbs[..r.count];
    carry := digit;
    var j := 0;
    assert w[..0] == r.limbs[..0] == [];
    while j < r.count
      invariant 0 <= j <= r.count && carry < base
      invariant forall k :: j <= k < r.count ==> r.limbs[k] == w[k]
      invariant Val(r.limbs[..j]) + Up(carry, j) == Val(w[..j]) * base + digit
    {
      ghost var before := r.limbs[..j];
      Times(r.limbs[j], base, 16);
      Times(base, r.limbs[j], BASE - 1);
      var v: U64 := r.limbs[j] * base + carry;
      r.limbs[j] := v % BASE;
      assert r.limbs[..j + 1][..j] == before && w[..j + 1][..j] == w[..j];
      TimesStep(r.limbs[..j + 1], w[..j + 1], j, base, digit, carry, v / BASE);
      carry := v / BASE;
      j := j + 1;
    }
    assert w[..j] == w;
  }

  lemma TimesStep(r: seq<Limb>, s: seq<Limb>, i: nat, p: int, d: int, carry: int, carry': int)
    requires |r| == |s| == i + 1
    requires s[i] * p + carry == r[i] + BASE * carry'
    requires Val(r[..i]) + Up(carry, i) == Val(s[..i]) * p + d
    ensures Val(r) + Up(carry', i + 1) == Val(s) * p + d
  {
    Last(r);
    Last(s);
    UpCarry(s[i] * p + carry, r[i], carry', i);
    UpAdd(s[i] * p, carry, i);
    DistribUp(Val(s[..i]), s[i], p, i);
  }

  // One more digit, growing the number by a limb when it has to.
  method PushDigit(r: Bignum, base: Limb, digit: Limb)
    requires r.InRange() && 2 <= base <= 16 && digit < base
    modifies r, r.limbs
    ensures r.InRange() && r.sign == old(r.sign)
    ensures r.limbs == old(r.limbs) || fresh(r.limbs)
    ensures r.Mag() == old(r.Mag()) * base + digit
  {
    var carry: U64 := TimesPlus(r, base, digit);
    ghost var total := old(r.Mag()) * base + digit;
    UpMono(0, 0, r.count);
    while carry != 0
      invariant r.InRange() && r.sign == old(r.sign) && carry < BASE
      invariant r.limbs == old(r.limbs) || fresh(r.limbs)
      invariant r.Mag() + Up(carry, r.count) == total
      decreases carry
    {
      r.EnsureCapacity(r.count + 1);
      ghost var before := r.limbs[..r.count];
      r.limbs[r.count] := carry;
      assert r.limbs[..r.count] == before;
      Prefixes(r.limbs, r.count);
      r.count := r.count + 1;
      carry := carry / BASE;
      UpMono(0, 0, r.count);
    }
    UpMono(0, 0, r.count);
  }

  // null for an empty or invalid digit string.
  method FromDigits(digits: string, base: Limb, negative: bool) returns (r: Bignum?)
    requires 2 <= base <= 16
    ensures r != null <==> digits != "" && ValidDigits(digits, base)
    ensures r != null ==> fresh(r) && fresh(r.limbs) && r.Canonical()
    ensures r != null ==> r.Value() == Signed(!negative, DigitsValue(digits, base))
  {
    if digits == "" {
      return null;
    }
    var n := new Bignum(1);
    var i := 0;
    assert n.limbs[..0] == [];
    while i < |digits|
      invariant 0 <= i <= |digits|
      invariant fresh(n) && fresh(n.limbs) && n.InRange() && n.sign == 0
      invariant ValidDigits(digits[..i], base)
      invariant n.Mag() == Spelled(digits, i, base)
    {
      var digitVal := DigitValue(digits[i]);
      if digitVal < 0 || digitVal >= base {
        return null;
      }
      PushDigit(n, base, digitVal);
      i := i + 1;
    }
    assert digits[..i] == digits;
    n.Trim();
    if n.count > 0 {
      n.sign := if negative then -1 else 1;
    }
    r := n;
  }

  // ----- printing -----

  // The nine-digit chunks but the most significant one, as printed.
  ghost function Tail(chunks: seq<Limb>, n: nat): string
    requires n <= |chunks|
    decreases n
  {
    if n == 0 then "" else Padded(chunks[n - 1], 9) + Tail(chunks, n - 1)
  }

  lemma {:induction false} SameTail(s: seq<Limb>, t: seq<Limb>, n: nat)
    requires n <= |s| && n <= |t| && forall i :: 0 <= i < n ==> s[i] == t[i]
    ensures Tail(s, n) == Tail(t, n)
    decreases n
  {
    if n > 0 {
      SameTail(s, t, n - 1);
    }
  }

  // Chunks taken so far, and w still to print, spell n.
  ghost predicate Spells(n: nat, w: nat, chunks: seq<Limb>) {
    if w > 0 then Decimal(n) == Decimal(w) + Tail(chunks, |chunks|)
    else |chunks| > 0 && Decimal(n) == Decimal(chunks[|chunks| - 1]) + Tail(chunks, |chunks| - 1)
  }

  lemma NextChunk(n: nat, w: nat, chunks: seq<Limb>, w': nat, rem: Limb)
    requires w > 0 && Spells(n, w, chunks)
    requires w == w' * 1_000_000_000 + rem && rem < 1_000_000_000
    ensures Spells(n, w', chunks + [rem])
  {
    hide Decimal, Padded;
    var n', tail, t := |chunks|, Tail(chunks, |chunks|), chunks + [rem];
    SameTail(chunks, t, n');
    assert t[n'] == rem;
    if w' > 0 {
      DecimalChunk(w, w', rem);
      Regrouped(Decimal(w'), Padded(rem, 9), tail);
      assert Tail(t, n' + 1) == Padded(rem, 9) + tail;
    }
  }

  lemma Regrouped(a: string, b: string, c: string)
    ensures (a + b) + c == a + (b + c)
  {
  }

  // After k chunks w is n / 10^(9 * k).
  ghost predicate Quotient(n: nat, w: nat, k: nat) {
    Tens(w, 9 * k) <= n < Tens(w + 1, 9 * k)
  }

  lemma NextQuotient(n: nat, w: nat, k: nat, w': nat, rem: Limb)
    requires Quotient(n, w, k) && w == w' * 1_000_000_000 + rem && rem < 1_000_000_000
    ensures Quotient(n, w', k + 1)
  {
    TensMono(1_000_000_000 * w', w, 9 * k);
    TensMono(w + 1, 1_000_000_000 * (w' + 1), 9 * k);
    TensNine(w', 9 * k);
    TensNine(w' + 1, 9 * k);
  }

  // So many chunks are enough for n if it has been used up, and too few if not.
  lemma EnoughChunks(n: nat, w: nat, k: nat, cap: nat)
    requires Quotient(n, w, k) && (if w == 0 then k <= cap else k == cap)
    ensures w == 0 <==> n < Pow10(9 * cap)
  {
    TensOne(9 * k);
    if w == 0 {
      Pow10Grows(9 * k, 9 * cap);
    } else {
      TensMono(1, w, 9 * k);
    }
  }

  // mag_divmod_small and trimming: the number in work, over 10^9, in place.
  method TakeChunk(work: array<Limb>, len: nat) returns (workLen: nat, rem: Limb)
    requires 0 < len <= work.Length && work[len - 1] != 0
    modifies work
    ensures workLen <= len && (workLen > 0 ==> work[workLen - 1] != 0) && rem < 1_000_000_000
    ensures 0 <= Val(work[..workLen]) < old(Val(work[..len]))
    ensures old(Val(work[..len])) == Val(work[..workLen]) * 1_000_000_000 + rem
  {
    workLen := len;
    ValTop(work[..workLen]);
    rem := MagDivmodSmall(work, workLen, 1_000_000_000, work);
    ghost var w' := Val(work[..workLen]);
    ValBound(work[..workLen]);
    while workLen > 0 && work[workLen - 1] == 0
      invariant workLen <= len && Val(work[..workLen]) == w'
    {
      Last(work[..workLen]);
      UpMono(0, 0, workLen - 1);
      assert work[..workLen][..workLen - 1] == work[..workLen - 1];
      workLen := workLen - 1;
    }
  }

  // Divides the magnitude by 10^9 in place until nothing is left.  Not `ok` where
  // the source would write past the room for chunks.
  method TakeChunks(work: array<Limb>, len: nat, chunks: array<Limb>, ghost n: nat) returns (ok: bool, count: nat)
    requires 0 < len <= work.Length && work[len - 1] != 0 && n == Val(work[..len]) && chunks != work
    modifies work, chunks
    ensures ok <==> n < Pow10(9 * chunks.Length)
    ensures ok ==> 0 < count <= chunks.Length && Spells(n, 0, chunks[..count])
  {
    hide Spells, Quotient;
    var workLen := len;
    count := 0;
    ValTop(work[..len]);
    FirstChunk(n, chunks[..0]);
    while workLen > 0 && count < chunks.Length
      invariant workLen <= work.Length && (workLen > 0 ==> work[workLen - 1] != 0) && count <= chunks.Length
      invariant Val(work[..workLen]) >= 0 && Spells(n, Val(work[..workLen]), chunks[..count])
      invariant Quotient(n, Val(work[..workLen]), count) && (workLen == 0 ==> count > 0)
      decreases Val(work[..workLen])
    {
      ghost var w := Val(work[..workLen]);
      var left, rem := TakeChunk(work, workLen);
      NextChunk(n, w, chunks[..count], Val(work[..left]), rem);
      NextQuotient(n, w, count, Val(work[..left]), rem);
      chunks[count] := rem;
      assert chunks[..count + 1] == chunks[..count] + [rem];
      count, workLen := count + 1, left;
    }
    ok := workLen == 0;
    if workLen > 0 {
      ValTop(work[..workLen]);
    }
    EnoughChunks(n, Val(work[..workLen]), count, chunks.Length);
  }

  lemma FirstChunk(n: nat, none: seq<Limb>)
    requires n > 0 && none == []
    ensures Spells(n, n, none) && Quotient(n, n, 0)
  {
    assert Decimal(n) + "" == Decimal(n);
  }

  lemma {:induction false} CountIs(s: seq<Limb>)
    requires |s| > 0 ==> s[|s| - 1] != 0
    ensures Val(s) >= 0 && LimbCount(Val(s)) == |s|
    decreases |s|
  {
    ValBound(s);
    if |s| > 0 {
      ValTop(s);
      assert s == [s[0]] + s[1..];
      Cons(s[0], s[1..]);
      CountIs(s[1..]);
    }
  }

  // Not `ok` where the source would write past the room for chunks; s means
  // nothing then.
  method ToDecimalString(n: Bignum) returns (ok: bool, s: string)
    requires n.Canonical()
    ensures ok <==> ChunksFit(if n.Value() < 0 then -n.Value() else n.Value())
    ensures ok ==> s == if n.Value() < 0 then "-" + Decimal(-n.Value()) else Decimal(n.Value())
  {
    CanonicalZero(n);
    if n.sign == 0 {
      return true, "0";
    }
    ok, s := NonZeroText(n);
  }

  method NonZeroText(n: Bignum) returns (ok: bool, s: string)
    requires n.Canonical() && n.sign != 0
    ensures n.Mag() >= 0 && (ok <==> ChunksFit(n.Mag()))
    ensures ok ==> s == (if n.sign < 0 then "-" else "") + Decimal(n.Mag())
  {
    hide ChunksFit, Pow10, Decimal, Spells;
    var work := new Limb[n.count](_ => 0);
    forall i | 0 <= i < n.count { work[i] := n.limbs[i]; }
    assert work[..n.count] == n.limbs[..n.count];
    RoomIs(n.limbs[..n.count]);
    var chunks := new Limb[n.count + 2](_ => 0);
    var chunkCount;
    ok, chunkCount := TakeChunks(work, n.count, chunks, n.Mag());
    if !ok {
      return false, "";
    }
    s := Print(chunks, chunkCount, if n.sign < 0 then "-" else "", n.Mag());
  }

  lemma RoomIs(s: seq<Limb>)
    requires |s| > 0 && s[|s| - 1] != 0
    ensures Val(s) >= 1 && (ChunksFit(Val(s)) <==> Val(s) < Pow10(9 * (|s| + 2)))
  {
    ValTop(s);
    CountIs(s);
  }

  method Print(chunks: array<Limb>, count: nat, sign: string, ghost n: nat) returns (s: string)
    requires 0 < count <= chunks.Length && Spells(n, 0, chunks[..count])
    ensures s == sign + Decimal(n)
  {
    hide Decimal, Padded;
    ghost var cs := chunks[..count];
    s := sign + Decimal(chunks[count - 1]);
    var i := count - 2;
    assert s + Tail(cs, i + 1) == sign + (Decimal(cs[count - 1]) + Tail(cs, i + 1));
    while i >= 0
      invariant -1 <= i <= count - 2
      invariant s + Tail(cs, i + 1) == sign + Decimal(n)
    {
      assert (s + Padded(chunks[i], 9)) + Tail(cs, i) == s + Tail(cs, i + 1);
      s := s + Padded(chunks[i], 9);
      i := i - 1;
    }
    assert s == s + Tail(cs, 0);
  }

  // What ToDecimalString prints for n, FromDigits reads as n again.
  lemma PrintThenRead(n: int)
    ensures var digits := Decimal(if n < 0 then -n else n);
      digits != "" && ValidDigits(digits, 10) && Signed(n >= 0, DigitsValue(digits, 10)) == n
  {
    DecimalMeans(if n < 0 then -n else n);
  }

  // ----- how long a number prints -----

  const BASE_7 := 0x1_0000_0000_0000_0000_0000_0000_0000_0000_0000_0000_0000_0000_0000_0000
  const E30 := 1_000_000_000_000_000_000_000_000_000_000
  const E90 := 1000000000000000000000000000000000000000000000000000000000000000000000000000000000000000000

  lemma UpSeven(x: int, n: nat)
    ensures Up(x, n + 7) == BASE_7 * Up(x, n)
  {
    UpThree(x, n);
    UpThree(x, n + 3);
  }

  lemma UpThree(x: int, n: nat)
    ensures Up(x, n + 3) == 0x1_0000_0000_0000_0000_0000_0000 * Up(x, n)
  {
    assert Up(x, n + 1) == BASE * Up(x, n);
    assert Up(x, n + 2) == BASE * Up(x, n + 1);
  }

  lemma Pow10Thirty(n: nat)
    ensures Pow10(n + 30) == E30 * Pow10(n)
  {
    Pow10Nine(n);
    Pow10Nine(n + 9);
    Pow10Nine(n + 18);
    Pow10Three(n + 27);
  }

  // BASE^28, and the powers of ten around it.  (As variables, so that the verifier
  // does not count down from them.)
  lemma Up28(x: int, limbs: nat)
    requires limbs == 28
    ensures Up(x, limbs) == BASE_7 * (BASE_7 * (BASE_7 * (BASE_7 * x)))
  {
    assert Up(x, 0) == x;
    hide Up;
    UpSeven(x, limbs - 7);
    UpSeven(x, limbs - 14);
    UpSeven(x, limbs - 21);
    UpSeven(x, limbs - 28);
  }

  lemma Pow270(digits: nat)
    requires digits == 270
    ensures Pow10(digits) == E90 * (E90 * E90)
    ensures Pow10(digits + 9) == 1_000_000_000 * Pow10(digits)
  {
    assert Pow10(0) == 1;
    hide Pow10;
    Pow10Ninety(digits - 90);
    Pow10Ninety(digits - 180);
    Pow10Ninety(digits - 270);
    Pow10Nine(digits);
  }

  lemma Pow10Ninety(n: nat)
    ensures Pow10(n + 90) == E90 * Pow10(n)
  {
    Pow10Thirty(n);
    Pow10Thirty(n + 30);
    Pow10Thirty(n + 60);
  }

  lemma {:induction false} RoomUpTo28(c: nat)
    requires c <= 28
    ensures Up(1, c) <= Pow10(9 * (c + 2))
    decreases 28 - c
  {
    if c == 28 {
      Up28(1, c);
      Pow270(9 * (c + 2));
    } else {
      RoomUpTo28(c + 1);
      Pow10Nine(9 * (c + 2));
    }
  }

  // Up to 28 limbs a number always prints ...
  lemma ShortNumbersPrint(s: seq<Limb>)
    requires |s| <= 28 && (|s| > 0 ==> s[|s| - 1] != 0)
    ensures Val(s) >= 0 && ChunksFit(Val(s))
  {
    CountIs(s);
    ValBound(s);
    RoomUpTo28(|s|);
  }

  // ... and 2^927, of 29 limbs, does not: it has 280 digits, in 32 chunks, and
  // there is room for 31.
  lemma LongNumberOverruns(s: seq<Limb>, bits: nat)
    requires |s| == 29 && s[28] == 0x8000_0000 && (forall k :: 0 <= k < 28 ==> s[k] == 0) && bits == 927
    ensures Val(s) >= 0 && Val(s) == Twice(1, bits) && !ChunksFit(Val(s))
  {
    CountIs(s);
    Last(s);
    ValZeros(s[..28]);
    LongNumber(|s| - 1, bits);
    Up28(0x8000_0000, |s| - 1);
    Pow270(9 * (|s| + 2) - 9);
  }

  lemma LongNumber(limbs: nat, bits: nat)
    requires limbs == 28 && bits == 927
    ensures Up(0x8000_0000, limbs) == Twice(1, bits)
  {
    Twice31(31);
    TwiceTwice(1, 31, bits - 31);
    BignumBits.UpIsTwice(0x8000_0000, limbs);
  }

  lemma Twice31(n: nat)
    requires n == 31
    ensures Twice(1, n) == 0x8000_0000
  {
    Twice32();
    assert Twice(1, n + 1) == 2 * Twice(1, n);
  }
}
