// Bit operations and shifts on signed bignums (native/bignum.c): sign and
// magnitude in storage, endless two's complement in meaning.
module BignumBits {
  import opened Limbs
  import opened Bits
  import opened Bignums
  import opened Shifting
  import opened Division

  // ----- limbs in two's complement -----

  // The integer whose two's complement in |s| limbs is s.
  ghost function Signed32(s: seq<Limb>): int
    requires |s| > 0
  {
    if s[|s| - 1] >= 0x8000_0000 then Val(s) - Up(1, |s|) else Val(s)
  }

  // What lies above the limbs of s: all clear or all set.
  ghost function Extension(s: seq<Limb>): int
    requires |s| > 0
  {
    if s[|s| - 1] >= 0x8000_0000 then -1 else 0
  }

  lemma {:induction false} UpIsTwice(x: int, n: nat)
    ensures Up(x, n) == Twice(x, 32 * n)
  {
    if n > 0 {
      UpIsTwice(x, n - 1);
      TwiceTwice(x, 32 * (n - 1), 32);
      TwiceScale(Twice(x, 32 * (n - 1)), 1, 32);
      Twice32();
    }
  }

  // Bits of limbs t with y on top of them.
  lemma {:induction false} BitOfLimbs(t: seq<Limb>, y: int, i: nat)
    ensures i < 32 * |t| ==> Bit(Val(t) + Up(y, |t|), i) == Bit(t[i / 32], i % 32)
    ensures i >= 32 * |t| ==> Bit(Val(t) + Up(y, |t|), i) == Bit(y, i - 32 * |t|)
    decreases |t|
  {
    if |t| > 0 {
      var x, rest := t[0], Val(t[1..]) + Up(y, |t| - 1);
      Cons(x, t[1..]);
      assert t == [x] + t[1..];
      UpUp(y, |t| - 1, 1);
      UpAdd(Val(t[1..]), Up(y, |t| - 1), 1);
      assert Up(rest, 1) == BASE * Up(rest, 0);
      assert Val(t) + Up(y, |t|) == x + BASE * rest;
      LowLimb(x, rest, i);
      if i >= 32 {
        BitOfLimbs(t[1..], y, i - 32);
        assert i / 32 == (i - 32) / 32 + 1 && i % 32 == (i - 32) % 32;
      }
    }
  }

  lemma LowLimb(x: Limb, rest: int, i: nat)
    ensures i < 32 ==> Bit(x + BASE * rest, i) == Bit(x, i)
    ensures i >= 32 ==> Bit(x + BASE * rest, i) == Bit(rest, i - 32)
  {
    Twice32();
    TwiceScale(rest, 1, 32);
    TwiceIsTimes(1, 32);
    if i < 32 {
      BitOfLow(x, rest, 32, i);
    } else {
      BitOfHigh(x + BASE * rest, 32, i - 32);
    }
  }

  lemma BitOfSigned(s: seq<Limb>, i: nat)
    requires |s| > 0
    ensures i < 32 * |s| ==> Bit(Signed32(s), i) == Bit(s[i / 32], i % 32)
    ensures i >= 32 * |s| ==> Bit(Signed32(s), i) == (Extension(s) == -1)
  {
    UpNeg(1, |s|);
    UpMono(0, 0, |s|);
    BitOfLimbs(s, Extension(s), i);
    if i >= 32 * |s| {
      BitOfSign(Extension(s), i - 32 * |s|);
    }
  }

  // The top bit of a limb is its sign.
  lemma TopBit(x: Limb)
    ensures Bit(x, 31) <==> x >= 0x8000_0000
  {
    BitIsFloor(x, 31);
    Twice32();
    TwiceIsTimes(1, 31);
    assert Twice(1, 32) == 2 * Twice(1, 31);
  }

  // ----- conversion -----

  lemma {:induction false} Complement(s: seq<Limb>, t: seq<Limb>)
    requires |s| == |t| && forall i :: 0 <= i < |s| ==> t[i] == Not32(s[i])
    ensures Val(t) == Up(1, |s|) - 1 - Val(s)
  {
    if |s| > 0 {
      var n := |s| - 1;
      Complement(s[..n], t[..n]);
      Last(s);
      Last(t);
      UpAdd(BASE - 1, s[n], n);
      UpAdd(BASE, 1, n);
      UpUp(1, 1, n);
      assert Up(1, 1) == BASE * Up(1, 0);
    }
  }

  method ToTwosComplement(n: Bignum, len: nat) returns (out: array<Limb>)
    requires n.Canonical() && len > n.count
    ensures fresh(out) && out.Length == len && Signed32(out[..]) == n.Value()
  {
    CanonicalZero(n);
    ghost var mag := n.limbs[..n.count];
    out := new Limb[len](_ => 0);
    forall i | 0 <= i < n.count { out[i] := n.limbs[i]; }
    assert out[..][..n.count] == mag;
    ZeroTail(out[..], n.count);
    if n.sign >= 0 {
      return;
    }
    ValBound(mag);
    Decrement(out);
    assert Val(out[..]) == Val(mag) - 1;
    ghost var s := out[..];
    SmallTop(s, n.count);
    forall i | 0 <= i < len { out[i] := Not32(out[i]); }
    Complement(s, out[..]);
  }

  // mag - 1, the borrow running up as far as it has to.
  method Decrement(mag: array<Limb>)
    requires Val(mag[..]) >= 1
    modifies mag
    ensures Val(mag[..]) == old(Val(mag[..])) - 1
  {
    var borrow: I64 := 1;
    var i := 0;
    while i < mag.Length && borrow != 0
      invariant 0 <= i <= mag.Length && 0 <= borrow <= 1
      invariant Val(mag[..]) - Up(borrow, i) == old(Val(mag[..])) - 1
    {
      ghost var before, was := mag[..], borrow;
      var d: I64 := mag[i] - borrow;
      if d < 0 { d := d + BASE; borrow := 1; } else { borrow := 0; }
      mag[i] := d;
      assert mag[..] == before[i := mag[i]];
      DecrementStep(before, i, mag[i], was, borrow);
      i := i + 1;
    }
    UpMono(0, 0, i);
    ValBound(mag[..]);
    UpGrows(1, i, mag.Length);
  }

  lemma DecrementStep(s: seq<Limb>, i: nat, x: Limb, borrow: int, borrow': int)
    requires i < |s| && x == s[i] - borrow + BASE * borrow'
    ensures Val(s[i := x]) - Up(borrow', i + 1) == Val(s) - Up(borrow, i)
  {
    Update(s, i, x);
    UpCarry(s[i] - borrow, x, -borrow', i);
    UpNeg(borrow', i + 1);
    UpAdd(s[i], borrow, i);
  }

  // A number below BASE^n leaves every limb from n on clear.
  lemma SmallTop(s: seq<Limb>, n: nat)
    requires n < |s| && Val(s) < Up(1, n)
    ensures s[|s| - 1] == 0
  {
    var m := |s| - 1;
    Last(s);
    ValBound(s[..m]);
    UpMono(1, s[m], m);
    UpGrows(1, n, m);
  }

  method FromTwosComplement(bits: array<Limb>, len: nat) returns (r: Bignum)
    requires 0 < len == bits.Length
    ensures fresh(r) && fresh(r.limbs) && r.Canonical() && r.Value() == Signed32(bits[..])
  {
    var negative := bits[len - 1] >= 0x8000_0000;
    r := new Bignum(len);
    if !negative {
      forall i | 0 <= i < len { r.limbs[i] := bits[i]; }
      assert r.limbs[..len] == bits[..];
      r.count, r.sign := len, 1;
      r.Trim();
      return;
    }
    TopBounds(bits[..]);
    UpMono(1, bits[len - 1], len - 1);
    UpMono(0, 1, len - 1);
    NegateLimbs(bits, r.limbs);
    r.count, r.sign := len, -1;
    assert r.limbs[..len] == r.limbs[..];
    r.Trim();
  }

  // ~bits + 1
  method NegateLimbs(bits: array<Limb>, out: array<Limb>)
    requires bits.Length == out.Length && bits != out && Val(bits[..]) > 0
    modifies out
    ensures Val(out[..]) == Up(1, bits.Length) - Val(bits[..])
  {
    ghost var inverted: seq<Limb> := seq(bits.Length, i requires 0 <= i < bits.Length reads bits => Not32(bits[i]));
    Complement(bits[..], inverted);
    var carry: U64 := 1;
    var i := 0;
    assert inverted[..0] == out[..0] == [];
    while i < bits.Length
      invariant 0 <= i <= bits.Length && carry <= 1
      invariant Val(out[..i]) + Up(carry, i) == Val(inverted[..i]) + 1
    {
      ghost var before := out[..i];
      var inv: Limb := Not32(bits[i]);
      var sum: U64 := inv + carry;
      out[i] := sum % BASE;
      assert out[..i + 1][..i] == before;
      assert inverted[..i + 1][..i] == inverted[..i];
      AddStep(out[..i + 1], inverted[..i + 1], 1, 0, i, carry, sum / BASE);
      UpMono(0, 0, i);
      carry := sum / BASE;
      i := i + 1;
    }
    assert inverted[..i] == inverted && out[..i] == out[..];
    ValBound(out[..]);
    UpMono(0, 0, i);
  }

  // ----- & | ^ ~ -----

  lemma OpBits(op: Op, a: seq<Limb>, b: seq<Limb>, r: seq<Limb>, i: nat)
    requires |a| == |b| == |r| > 0
    requires forall k :: 0 <= k < |r| ==> r[k] == Bitwise32(op, a[k], b[k])
    ensures Bit(Signed32(r), i) == Apply(op, Bit(Signed32(a), i), Bit(Signed32(b), i))
  {
    var n := |r| - 1;
    BitOfSigned(a, i);
    BitOfSigned(b, i);
    BitOfSigned(r, i);
    if i < 32 * |r| {
      BitwiseBit(op, a[i / 32], b[i / 32], 32, i % 32);
    } else {
      BitwiseBit(op, a[n], b[n], 32, 31);
      TopBit(a[n]);
      TopBit(b[n]);
      TopBit(r[n]);
    }
  }

  method OpLimbs(op: Op, a: array<Limb>, b: array<Limb>, r: array<Limb>)
    requires a.Length == b.Length == r.Length && r != a && r != b
    modifies r
    ensures forall k :: 0 <= k < r.Length ==> r[k] == Bitwise32(op, a[k], b[k])
  {
    hide Bitwise32;
    for i := 0 to r.Length
      invariant forall k :: 0 <= k < i ==> r[k] == Bitwise32(op, a[k], b[k])
    {
      r[i] := Bitwise32(op, a[i], b[i]);
    }
  }

  // band, bor and bxor: bit by bit, for ever.
  method BitwiseOp(a: Bignum, b: Bignum, op: Op) returns (r: Bignum)
    requires a.Canonical() && b.Canonical()
    ensures fresh(r) && fresh(r.limbs) && r.Canonical()
    ensures forall i: nat :: Bit(r.Value(), i) == Apply(op, Bit(a.Value(), i), Bit(b.Value(), i))
  {
    hide Bitwise32, Bit, Apply, Signed32;
    var len := (if a.count > b.count then a.count else b.count) + 1;
    var ta := ToTwosComplement(a, len);
    var tb := ToTwosComplement(b, len);
    var tr := new Limb[len](_ => 0);
    OpLimbs(op, ta, tb, tr);
    r := FromTwosComplement(tr, len);
    forall i: nat ensures Bit(r.Value(), i) == Apply(op, Bit(a.Value(), i), Bit(b.Value(), i)) {
      OpBits(op, ta[..], tb[..], tr[..], i);
    }
  }

  method BitwiseNot(a: Bignum) returns (r: Bignum)
    requires a.Canonical()
    ensures fresh(r) && fresh(r.limbs) && r.Canonical()
    ensures forall i: nat :: Bit(r.Value(), i) == !Bit(a.Value(), i)
  {
    var negA := Negate(a);
    r := MinusOne(negA);
    forall i: nat ensures Bit(r.Value(), i) == !Bit(a.Value(), i) {
      NotBit(a.Value(), i);
    }
  }

  // ----- shift counts -----

  const INT_MAX := 0x7fff_ffff

  // (int)x: the low 32 bits of an int64, with their top bit as the sign.
  function ToInt32(x: I64): (y: int)
    requires x >= 0
    ensures -INT_MAX - 1 <= y <= INT_MAX && y <= x
    ensures y == x <==> x <= INT_MAX
  {
    var low := x % 0x1_0000_0000;
    if low <= INT_MAX then low else low - 0x1_0000_0000
  }

  // How far a count really shifts: limbShift is an int.
  function Narrowed(shift: I64): (n: int)
    requires shift >= 0
    ensures n <= shift && (n == shift <==> shift < 0x10_0000_0000)
    ensures n >= 0 <==> ToInt32(shift / 32) >= 0
  {
    32 * ToInt32(shift / 32) + shift % 32
  }

  // Whether bignum_shl stays within its arrays, and newCount within an int.
  predicate LeftFits(x: int, count: nat, shift: I64)
    requires shift >= 0
  {
    x == 0 || shift == 0 || 0 <= ToInt32(shift / 32) <= INT_MAX - 1 - count
  }

  // What a right shift shifts: -x - 1 in place of a negative x.
  function Below(x: int): (m: int)
    ensures m >= 0 && (x == m || x == -m - 1)
  {
    if x >= 0 then x else -x - 1
  }

  predicate RightFits(x: int, shift: I64)
    requires shift >= 0
  {
    Below(x) == 0 || Narrowed(shift) >= 0
  }

  // Exactly when a left shift is a * 2^shift ...
  predicate ShiftsLeft(x: int, count: nat, shift: I64)
    requires shift >= 0
  {
    x == 0 || shift == 0 || (shift < 0x10_0000_0000 && shift / 32 <= INT_MAX - 1 - count)
  }

  // ... and a right shift floor(a / 2^shift): where the count is not narrowed, or
  // where as little as it is narrowed to already shifts everything out.
  predicate ShiftsRight(x: int, shift: I64)
    requires shift >= 0
  {
    || shift < 0x10_0000_0000
    || Below(x) == 0
    || (Narrowed(shift) >= 0 && Below(x) < Pow2(Narrowed(shift)))
  }

  lemma {:induction false} Pow2Grows(m: nat, n: nat)
    requires m < n
    ensures Pow2(n) >= 2 * Pow2(m)
    decreases n
  {
    if m < n - 1 {
      Pow2Grows(m, n - 1);
    }
  }

  lemma ProductSame(x: int, p: int, q: int)
    requires x != 0 && p < q
    ensures x * p != x * q
  {
    assert x * q - x * p == x * (q - p);
  }

  lemma LeftExact(x: int, count: nat, shift: I64)
    requires shift >= 0 && LeftFits(x, count, shift) && Narrowed(shift) >= 0
    ensures x * Pow2(Narrowed(shift)) == x * Pow2(shift) <==> ShiftsLeft(x, count, shift)
  {
    if x != 0 && Narrowed(shift) < shift {
      Pow2Grows(Narrowed(shift), shift);
      ProductSame(x, Pow2(Narrowed(shift)), Pow2(shift));
    }
  }

  lemma SmallQuotient(x: int, p: int)
    requires p >= 1 && Below(x) < p
    ensures x / p == if x >= 0 then 0 else -1
  {
    DivUnique(x, p, if x >= 0 then 0 else -1, if x >= 0 then x else x + p);
  }

  // A quotient by a larger power is another one, unless it is 0 or -1.
  lemma QuotientDrops(x: int, m: nat, n: nat)
    requires m < n && Pow2(m) <= Below(x)
    ensures x / Pow2(m) != x / Pow2(n)
  {
    var p, q := Pow2(m), Pow2(n);
    Pow2Grows(m, n);
    var y := Below(x);
    Halves(y, p, q);
    if x < 0 {
      FloorOfNegative(x, p);
      FloorOfNegative(x, q);
    }
  }

  lemma Halves(y: nat, p: int, q: int)
    requires 1 <= p <= y && 2 * p <= q
    ensures y / q < y / p
  {
    var a, b := y / q, y / p;
    assert y == q * a + y % q && y == p * b + y % p;
    Above(y, p, b);
    MulLe(2 * p, q, b);
    assert (2 * p) * b == 2 * (p * b) && q * b == b * q && q * a == a * q;
    if b <= a {
      MulLe(b, a, q);
    }
  }

  lemma Above(y: nat, p: int, b: int)
    requires 1 <= p <= y && p * b <= y < p * b + p
    ensures b >= 1 && y < 2 * (p * b)
  {
    assert p * b == b * p;
    if b <= 0 {
      MulLe(b, 0, p);
    } else {
      MulLe(1, b, p);
    }
  }

  lemma RightExact(x: int, shift: I64)
    requires shift >= 0 && Narrowed(shift) >= 0
    ensures x / Pow2(Narrowed(shift)) == x / Pow2(shift) <==> ShiftsRight(x, shift)
  {
    var n := Narrowed(shift);
    if n < shift {
      Pow2Grows(n, shift);
      if Below(x) < Pow2(n) {
        SmallQuotient(x, Pow2(n));
        SmallQuotient(x, Pow2(shift));
      } else {
        QuotientDrops(x, n, shift);
      }
    }
  }

  // 5 shifted right by 2^37 is 5 in the source, and 0 in arithmetic; at 2^36 the
  // narrowed count is negative.
  lemma CountsWrap(shift: I64, less: I64)
    requires shift == 0x20_0000_0000 && less == 0x10_0000_0000
    ensures Narrowed(shift) == 0 && 5 / Pow2(Narrowed(shift)) == 5 && 5 / Pow2(shift) == 0
    ensures !ShiftsRight(5, shift) && !ShiftsLeft(1, 1, shift) && 1 * Pow2(Narrowed(shift)) == 1
    ensures Narrowed(less) < 0 && !RightFits(5, less) && !LeftFits(1, 1, less)
  {
    assert Pow2(3) == 8;
    Pow2Grows(3, shift);
    SmallQuotient(5, Pow2(shift));
  }

  // ----- shifts -----

  // Not `ok` where the source would leave its arrays; r means nothing then.
  method ShiftLeft(a: Bignum, shift: I64) returns (ok: bool, r: Bignum)
    requires a.Canonical() && shift >= 0
    ensures fresh(r) && fresh(r.limbs) && r.Canonical()
    ensures ok <==> LeftFits(a.Value(), a.count, shift)
    ensures ok && a.Value() != 0 ==> Narrowed(shift) >= 0 && r.Value() == a.Value() * Pow2(Narrowed(shift))
    ensures ok && r.Value() == a.Value() * Pow2(shift) <==> ShiftsLeft(a.Value(), a.count, shift)
  {
    CanonicalZero(a);
    if shift == 0 || a.sign == 0 {
      r := Copy(a);
      ok := true;
      return;
    }
    if !(0 <= ToInt32(shift / 32) <= INT_MAX - 1 - a.count) {
      r := new Bignum(1);
      ok := false;
      return;
    }
    LeftExact(a.Value(), a.count, shift);
    hide Narrowed, Pow2, ShiftsLeft;
    r := ShiftNonZero(a, shift);
    ok := true;
  }

  method ShiftNonZero(a: Bignum, shift: I64) returns (r: Bignum)
    requires a.Canonical() && a.sign != 0 && shift > 0 && 0 <= ToInt32(shift / 32) <= INT_MAX - 1 - a.count
    ensures fresh(r) && fresh(r.limbs) && r.Canonical() && r.Value() == a.Value() * Pow2(Narrowed(shift))
  {
    CanonicalZero(a);
    r := MagShiftLeft(a, shift);
    CanonicalUnlessZero(r, a.Mag(), Narrowed(shift));
    TwiceIsTimes(a.Mag(), Narrowed(shift));
    Signs(a.Mag(), Pow2(Narrowed(shift)));
    r.sign := a.sign;
  }

  method MagShiftLeft(a: Bignum, shift: I64) returns (r: Bignum)
    requires a.Canonical() && shift > 0 && 0 <= ToInt32(shift / 32) <= INT_MAX - 1 - a.count
    ensures fresh(r) && fresh(r.limbs) && r.Trimmed() && r.Mag() == Twice(a.Mag(), Narrowed(shift))
  {
    var limbShift, bitShift := ToInt32(shift / 32), shift % 32;
    var newCount := a.count + limbShift + 1;
    r := new Bignum(newCount);
    forall i | 0 <= i < a.count { r.limbs[i + limbShift] := a.limbs[i]; }
    PlacedAt(a.limbs[..a.count], limbShift, r.limbs[..]);
    if bitShift > 0 {
      ShlInPlace(r.limbs, limbShift, bitShift);
    }
    ShiftTotal(a.Mag(), limbShift, bitShift);
    r.count := newCount;
    assert r.limbs[..newCount] == r.limbs[..];
    r.Trim();
  }

  lemma CanonicalUnlessZero(r: Bignum, m: int, shift: nat)
    requires r.Trimmed() && m > 0 && r.Mag() == Twice(m, shift)
    ensures r.count > 0
  {
    TwiceGrows(m, shift);
  }

  lemma PlacedAt(s: seq<Limb>, k: nat, t: seq<Limb>)
    requires k + |s| < |t|
    requires forall i :: 0 <= i < |t| ==> t[i] == if k <= i < k + |s| then s[i - k] else 0
    ensures Val(t) == Up(Val(s), k) && t[|t| - 1] == 0
  {
    ZeroTail(t, k + |s|);
    Split(t[..k + |s|], k);
    ValZeros(t[..k + |s|][..k]);
    assert t[..k + |s|][k..] == s;
  }

  lemma ShiftTotal(m: int, limbShift: nat, bitShift: nat)
    ensures Twice(Up(m, limbShift), bitShift) == Twice(m, 32 * limbShift + bitShift)
  {
    UpIsTwice(m, limbShift);
    TwiceTwice(m, 32 * limbShift, bitShift);
  }

  // Shifts the whole number left by s bits; the limbs below `from` are clear,
  // and so is the top one, which takes what overflows.
  method ShlInPlace(limbs: array<Limb>, from: nat, s: nat)
    requires from < limbs.Length && 0 < s < 32 && limbs[limbs.Length - 1] == 0
    requires forall k :: 0 <= k < from ==> limbs[k] == 0
    modifies limbs
    ensures Val(limbs[..]) == Twice(old(Val(limbs[..])), s)
  {
    ghost var w := limbs[..];
    ValZeros(w[..from]);
    var carry: Limb := 0;
    var i := from;
    assert limbs[..from] == w[..from];
    UpMono(0, 0, from);
    while i < limbs.Length
      invariant from <= i <= limbs.Length && carry < Pow2(s)
      invariant i == limbs.Length ==> carry == 0
      invariant forall k :: i <= k < limbs.Length ==> limbs[k] == w[k]
      invariant Val(limbs[..i]) + Up(carry, i) == Val(w[..i]) * Pow2(s)
    {
      ghost var before := limbs[..i];
      var cur: Limb := limbs[i];
      ShlLimb(cur, s, carry);
      limbs[i] := Bitwise32(Or, Shl32(cur, s), carry);
      assert limbs[..i + 1][..i] == before && w[..i + 1][..i] == w[..i];
      ScaleStep(limbs[..i + 1], w[..i + 1], i, Pow2(s), carry, Shr32(cur, 32 - s));
      carry := Shr32(cur, 32 - s);
      i := i + 1;
    }
    assert limbs[..i] == limbs[..] && w[..i] == w;
    UpMono(0, 0, i);
    TwiceIsTimes(Val(w), s);
  }

  // a / 2^Narrowed(shift), rounded down whatever the sign.  Not `ok` where the
  // source would leave its arrays; r means nothing then.
  method ShiftRight(a: Bignum, shift: I64) returns (ok: bool, r: Bignum)
    requires a.Canonical() && shift >= 0
    ensures fresh(r) && fresh(r.limbs) && r.Canonical()
    ensures ok <==> RightFits(a.Value(), shift)
    ensures ok && Narrowed(shift) >= 0 ==> r.Value() == a.Value() / Pow2(Narrowed(shift))
    ensures ok && Narrowed(shift) < 0 ==> r.Value() == a.Value()
    ensures ok && r.Value() == a.Value() / Pow2(shift) <==> ShiftsRight(a.Value(), shift)
    decreases a.sign < 0
  {
    hide Pow2, Narrowed;
    CanonicalZero(a);
    RightOutcome(a.Value(), shift);
    if shift == 0 || a.sign == 0 {
      r := Copy(a);
      ok := true;
      return;
    }
    if a.sign > 0 {
      ok, r := ShiftRightPositive(a, shift);
      return;
    }
    var below := MinusOneOfNegation(a);
    var shifted;
    ok, shifted := ShiftRight(below, shift);
    r := MinusOneOfNegation(shifted);
    if Narrowed(shift) >= 0 {
      FloorOfNegative(a.Value(), Pow2(Narrowed(shift)));
    }
  }

  // Where nothing is left to shift any count will do, and otherwise RightExact
  // says which will.
  lemma RightOutcome(x: int, shift: I64)
    requires shift >= 0
    ensures Narrowed(shift) >= 0 ==> (x / Pow2(Narrowed(shift)) == x / Pow2(shift) <==> ShiftsRight(x, shift))
    ensures Below(x) == 0 ==> x / Pow2(shift) == x && ShiftsRight(x, shift)
    ensures Below(x) == 0 && Narrowed(shift) >= 0 ==> x / Pow2(Narrowed(shift)) == x
    ensures Below(x) != 0 && Narrowed(shift) < 0 ==> !ShiftsRight(x, shift)
    ensures shift == 0 ==> Narrowed(shift) == 0 && Pow2(shift) == 1
  {
    if Narrowed(shift) >= 0 {
      RightExact(x, shift);
    }
    if Below(x) == 0 {
      SmallQuotient(x, Pow2(shift));
    }
  }

  method MinusOneOfNegation(a: Bignum) returns (r: Bignum)
    requires a.Canonical()
    ensures fresh(r) && fresh(r.limbs) && r.Canonical() && r.Value() == -a.Value() - 1
    ensures a.sign < 0 ==> r.sign >= 0
  {
    var negA := Negate(a);
    r := MinusOne(negA);
    CanonicalZero(a);
    CanonicalZero(r);
  }

  lemma FloorOfNegative(x: int, p: int)
    requires p >= 1
    ensures x / p == -((-x - 1) / p) - 1
  {
    var q, r := (-x - 1) / p, (-x - 1) % p;
    assert -x - 1 == p * q + r;
    assert p * (-q - 1) == -(p * q) - p;
    DivUnique(x, p, -q - 1, p - 1 - r);
  }

  method ShiftRightPositive(a: Bignum, shift: I64) returns (ok: bool, r: Bignum)
    requires a.Canonical() && a.sign > 0 && shift > 0
    ensures fresh(r) && fresh(r.limbs) && r.Canonical() && (ok <==> Narrowed(shift) >= 0)
    ensures ok ==> r.Value() == a.Value() / Pow2(Narrowed(shift))
  {
    var limbShift, bitShift := ToInt32(shift / 32), shift % 32;
    ok := limbShift >= 0;
    ghost var s := a.limbs[..a.count];
    if limbShift < 0 || limbShift >= a.count {
      r := new Bignum(1);
      if ok {
        ShiftedOut(s, Narrowed(shift));
      }
      return;
    }
    var newCount := a.count - limbShift;
    r := new Bignum(newCount);
    ShrBits(a.limbs, limbShift, newCount, bitShift, r.limbs);
    assert a.limbs[limbShift..limbShift + newCount] == s[limbShift..];
    ShrTotal(s, limbShift, bitShift);
    ValBound(r.limbs[..newCount]);
    r.count, r.sign := newCount, 1;
    r.Trim();
  }

  lemma FloorByBounds(x: int, q: int, n: nat)
    requires Twice(q, n) <= x < Twice(q + 1, n)
    ensures x / Pow2(n) == q
  {
    TwiceIsTimes(q, n);
    TwiceIsTimes(q + 1, n);
    Distrib(q, 1, Pow2(n));
    DivUnique(x, Pow2(n), q, x - q * Pow2(n));
  }

  lemma BoundsByFloor(x: int, n: nat)
    ensures Twice(x / Pow2(n), n) <= x < Twice(x / Pow2(n) + 1, n)
  {
    var q, p := x / Pow2(n), Pow2(n);
    TwiceIsTimes(q, n);
    TwiceIsTimes(q + 1, n);
    Distrib(q, 1, p);
    assert x == p * q + x % p;
  }

  lemma ShiftedOut(s: seq<Limb>, shift: nat)
    requires 32 * |s| <= shift
    ensures Val(s) / Pow2(shift) == 0
  {
    ValBound(s);
    UpIsTwice(1, |s|);
    TwiceTwice(1, 32 * |s|, shift - 32 * |s|);
    TwiceGrows(1, 32 * |s|);
    TwiceGrows(Twice(1, 32 * |s|), shift - 32 * |s|);
    TwiceSub(0, 0, shift);
    FloorByBounds(Val(s), 0, shift);
  }

  lemma ShrTotal(s: seq<Limb>, limbShift: nat, bitShift: nat)
    requires limbShift <= |s|
    ensures Val(s) / Pow2(32 * limbShift + bitShift) == Val(s[limbShift..]) / Pow2(bitShift)
  {
    var x := Val(s[limbShift..]);
    var q := x / Pow2(bitShift);
    Split(s, limbShift);
    ValBound(s[..limbShift]);
    BoundsByFloor(x, bitShift);
    UpMono(Twice(q, bitShift), x, limbShift);
    UpMono(x + 1, Twice(q + 1, bitShift), limbShift);
    UpAdd(x, 1, limbShift);
    UpIsTwice(Twice(q, bitShift), limbShift);
    UpIsTwice(Twice(q + 1, bitShift), limbShift);
    TwiceTwice(q, bitShift, 32 * limbShift);
    TwiceTwice(q + 1, bitShift, 32 * limbShift);
    FloorByBounds(Val(s), q, 32 * limbShift + bitShift);
  }
}
