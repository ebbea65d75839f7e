// Bit shifts over limb arrays (native/bignum.c, shl_bits and shr_bits).
module Shifting {
  import opened Limbs
  import opened Bignums
  import opened Bits

  lemma Cons(x: Limb, s: seq<Limb>)
    ensures Val([x] + s) == x + BASE * Val(s)
  {
    Concat([x], s);
    Last([x]);
    assert [x][..0] == [];
    assert Up(Val(s), 1) == BASE * Up(Val(s), 0);
  }

  // x << s keeps the low 32 - s bits of x, x >> (32 - s) the others.
  lemma ShlKeeps(x: Limb, s: nat, h: int)
    requires s < 32 && h == Pow2(32 - s)
    ensures Shl32(x, s) == (x % h) * Pow2(s) <= BASE - Pow2(s)
    ensures x * Pow2(s) == BASE * (x / h) + (x % h) * Pow2(s)
    ensures x / h < Pow2(s)
  {
    Pow2Split(s);
    ShiftParts(x, Pow2(s), h, x / h, x % h);
  }

  lemma ShiftParts(x: int, p: int, h: int, hi: int, lo: int)
    requires p >= 1 && h >= 1 && p * h == BASE && 0 <= x < BASE
    requires x == h * hi + lo && 0 <= lo < h
    ensures (x * p) % BASE == lo * p <= BASE - p
    ensures x * p == BASE * hi + lo * p
    ensures hi < p
  {
    Regroup(x, h, hi, lo, p);
    LowBound(lo, h, p);
    DivUnique(x * p, BASE, hi, lo * p);
    if hi >= p {
      Times(h, p, hi);
    }
  }

  lemma LowBound(lo: int, h: int, p: int)
    requires p >= 1 && 0 <= lo < h
    ensures 0 <= lo * p <= p * h - p
  {
    Times(p, lo, h - 1);
  }

  // `|` of a multiple of 2^s and a number below it.
  lemma OrLimb(x: Limb, y: Limb, lo: int, s: nat)
    requires s < 32 && x == lo * Pow2(s) <= BASE - Pow2(s) && y < Pow2(s)
    ensures Bitwise32(Or, x, y) == Bitwise32(Or, y, x) == x + y
  {
    MultipleMod(Pow2(s), lo);
    Twice32();
    TwiceIsTimes(1, 32);
    OrDisjoint(x, y, s, 32);
    OrCommutes(x, y, 32);
  }

  // A limb shifted left by s, plus the s bits that come in from below.
  lemma ShlLimb(x: Limb, s: nat, carry: Limb)
    requires 0 < s < 32 && carry < Pow2(s)
    ensures x * Pow2(s) + carry == Bitwise32(Or, Shl32(x, s), carry) + BASE * Shr32(x, 32 - s)
    ensures Shr32(x, 32 - s) < Pow2(s)
  {
    ShlKeeps(x, s, Pow2(32 - s));
    OrLimb(Shl32(x, s), carry, x % Pow2(32 - s), s);
  }

  lemma Regroup(x: int, h: int, hi: int, lo: int, p: int)
    requires x == h * hi + lo && p * h == BASE
    ensures x * p == BASE * hi + lo * p && lo * p == p * lo
  {
    Distrib(h * hi, lo, p);
    assert (h * hi) * p == (p * h) * hi;
  }

  // Shifts a left by 0 <= s < 32 bits into out, and returns the limbs used.
  // The last one is written only when something overflows into it.
  method ShlBits(a: array<Limb>, an: nat, s: nat, out: array<Limb>) returns (n: nat)
    requires an <= a.Length && an <= out.Length && a != out && s < 32
    requires an == out.Length ==> Twice(Val(a[..an]), s) < Up(1, an)
    modifies out
    ensures an <= n <= an + 1 && n <= out.Length
    ensures Val(out[..n]) == Twice(Val(a[..an]), s)
    ensures forall k :: n <= k < out.Length ==> out[k] == old(out[k])
  {
    if s == 0 {
      forall k | 0 <= k < an { out[k] := a[k]; }
      assert out[..an] == a[..an];
      return an;
    }
    var carry := ShlLoop(a, an, s, out);
    if carry != 0 {
      if an == out.Length {
        ValBound(out[..an]);
        UpMono(1, carry, an);
      }
      ghost var before := out[..an];
      out[an] := carry;
      assert out[..an] == before;
      Prefixes(out, an);
      return an + 1;
    }
    UpMono(0, 0, an);
    return an;
  }

  method ShlLoop(a: array<Limb>, an: nat, s: nat, out: array<Limb>) returns (carry: Limb)
    requires an <= a.Length && an <= out.Length && a != out && 0 < s < 32
    modifies out
    ensures Val(out[..an]) + Up(carry, an) == Twice(Val(a[..an]), s)
    ensures forall k :: an <= k < out.Length ==> out[k] == old(out[k])
  {
    carry := 0;
    var i := 0;
    while i < an
      invariant 0 <= i <= an && carry < Pow2(s)
      invariant forall k :: an <= k < out.Length ==> out[k] == old(out[k])
      invariant Val(out[..i]) + Up(carry, i) == Val(a[..i]) * Pow2(s)
    {
      ghost var before := out[..i];
      ShlLimb(a[i], s, carry);
      out[i] := Bitwise32(Or, Shl32(a[i], s), carry);
      assert out[..i + 1][..i] == before && a[..i + 1][..i] == a[..i];
      ScaleStep(out[..i + 1], a[..i + 1], i, Pow2(s), carry, Shr32(a[i], 32 - s));
      carry := Shr32(a[i], 32 - s);
      i := i + 1;
    }
    TwiceIsTimes(Val(a[..an]), s);
  }

  // Multiplying limb i of s by p.
  lemma ScaleStep(r: seq<Limb>, s: seq<Limb>, i: nat, p: int, carry: int, carry': int)
    requires |r| == |s| == i + 1
    requires s[i] * p + carry == r[i] + BASE * carry'
    requires Val(r[..i]) + Up(carry, i) == Val(s[..i]) * p
    ensures Val(r) + Up(carry', i + 1) == Val(s) * p
  {
    Last(r);
    Last(s);
    UpCarry(s[i] * p + carry, r[i], carry', i);
    UpAdd(s[i] * p, carry, i);
    DistribUp(Val(s[..i]), s[i], p, i);
  }

  // The bits of limb i that a right shift moves down into limb i - 1.
  ghost function Low(a: seq<Limb>, i: nat, p: int): int
    requires p >= 1
  {
    if i < |a| then a[i] % p else 0
  }

  lemma ShrLimb(x: Limb, y: Limb, s: nat)
    requires 0 < s < 32
    ensures var p := Pow2(s);
      Bitwise32(Or, Shr32(x, s), Shl32(y, 32 - s)) * p == x - x % p + BASE * (y % p)
  {
    var p, h := Pow2(s), Pow2(32 - s);
    var lo, top := y % p, x / p;
    Pow2Split(s);
    ShlKeeps(y, 32 - s, p);
    ShlKeeps(x, 32 - s, p);
    OrLimb(Shl32(y, 32 - s), Shr32(x, s), lo, 32 - s);
    ShrParts(x, top, lo, h, p);
  }

  lemma ShrParts(x: int, top: int, lo: int, h: int, p: int)
    requires p >= 1 && p * h == BASE && top == x / p
    ensures (top + lo * h) * p == x - x % p + BASE * lo
  {
    Distrib(top, lo * h, p);
    assert (lo * h) * p == (p * h) * lo;
    assert top * p == p * top;
    assert x == p * (x / p) + x % p;
  }

  lemma {:induction false} OrCommutes(x: nat, y: nat, width: nat)
    ensures Bitwise(Or, x, y, width) == Bitwise(Or, y, x, width)
    decreases width
  {
    if width > 0 {
      OrCommutes(x / 2, y / 2, width - 1);
    }
  }

  // Shifts the an limbs of a from `off` right by 0 <= s < 32 bits.
  method ShrBits(a: array<Limb>, off: nat, an: nat, s: nat, out: array<Limb>)
    requires off + an <= a.Length && an <= out.Length && a != out && s < 32
    modifies out
    ensures Val(out[..an]) == Val(a[off..off + an]) / Pow2(s)
  {
    if s == 0 {
      forall k | 0 <= k < an { out[k] := a[off + k]; }
      assert out[..an] == a[off..off + an];
      return;
    }
    ShrLoop(a, off, an, s, out);
    ghost var w := a[off..off + an];
    FloorShift(Val(w), Val(out[..an]), Low(w, 0, Pow2(s)), Pow2(s));
  }

  lemma FloorShift(w: int, q: int, low: int, p: int)
    requires q * p + low == w && 0 <= low < p
    ensures w / p == q
  {
    DivUnique(w, p, q, low);
  }

  method ShrLoop(a: array<Limb>, off: nat, an: nat, s: nat, out: array<Limb>)
    requires off + an <= a.Length && an <= out.Length && a != out && 0 < s < 32
    modifies out
    ensures Val(out[..an]) * Pow2(s) + Low(a[off..off + an], 0, Pow2(s)) == Val(a[off..off + an])
  {
    ghost var w, p := a[off..off + an], Pow2(s);
    var i := 0;
    while i < an
      invariant 0 <= i <= an
      invariant Val(out[..i]) * p + Low(w, 0, p) == Val(w[..i]) + Up(Low(w, i, p), i)
    {
      ghost var before := out[..i];
      var above: Limb := if i + 1 < an then a[off + i + 1] else 0;
      ShrLimb(a[off + i], above, s);
      out[i] := Bitwise32(Or, Shr32(a[off + i], s), Shl32(above, 32 - s));
      assert out[..i + 1][..i] == before;
      assert above % p == Low(w, i + 1, p);
      ShrStep(out[..i + 1], w, i, p);
      i := i + 1;
    }
    assert w[..an] == w;
    UpMono(0, 0, an);
  }

  lemma ShrStep(r: seq<Limb>, w: seq<Limb>, i: nat, p: int)
    requires |r| == i + 1 <= |w| && p >= 1
    requires r[i] * p == w[i] - w[i] % p + BASE * Low(w, i + 1, p)
    requires Val(r[..i]) * p + Low(w, 0, p) == Val(w[..i]) + Up(Low(w, i, p), i)
    ensures Val(r) * p + Low(w, 0, p) == Val(w[..i + 1]) + Up(Low(w, i + 1, p), i + 1)
  {
    Snoc(w, i);
    Last(r);
    DistribUp(Val(r[..i]), r[i], p, i);
    UpCarry(r[i] * p, w[i] - w[i] % p, Low(w, i + 1, p), i);
    UpAdd(w[i], w[i] % p, i);
  }
}
