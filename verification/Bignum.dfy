// The signed, heap-allocated integers of native/bignum.c, without division,
// bit operations and text.  A Bignum holds its magnitude little-endian in an
// array of limbs, of which the first `count` are in use.
module Bignums {
  import opened Limbs

  class Bignum {
    var sign: int
    var limbs: array<Limb>
    var count: nat

    ghost predicate InRange()
      reads this
    {
      count <= limbs.Length
    }

    // No most-significant zero limb.
    ghost predicate Trimmed()
      reads this, limbs
    {
      InRange() && (count > 0 ==> limbs[count - 1] != 0)
    }

    // The one representation each integer has.
    ghost predicate Canonical()
      reads this, limbs
    {
      Trimmed() && -1 <= sign <= 1 && (sign == 0 <==> count == 0)
    }

    ghost function Mag(): (m: int)
      requires InRange()
      reads this, limbs
      ensures m >= 0
    {
      ValBound(limbs[..count]);
      Val(limbs[..count])
    }

    ghost function Value(): int
      requires InRange()
      reads this, limbs
    {
      if sign < 0 then -Mag() else Mag()
    }

    constructor (capacity: int)
      ensures sign == 0 && count == 0 && fresh(limbs)
      ensures limbs.Length == if capacity > 0 then capacity else 1
      ensures forall i :: 0 <= i < limbs.Length ==> limbs[i] == 0
    {
      sign, count := 0, 0;
      limbs := new Limb[if capacity > 0 then capacity else 1](_ => 0);
    }

    method Trim()
      requires InRange()
      modifies this
      ensures limbs == old(limbs) && count <= old(count) && Trimmed()
      ensures Mag() == old(Mag())
      ensures sign == if count == 0 then 0 else old(sign)
    {
      while count > 0 && limbs[count - 1] == 0
        invariant limbs == old(limbs) && sign == old(sign) && count <= old(count)
        invariant Val(limbs[..count]) == old(Mag())
      {
        Last(limbs[..count]);
        UpMono(0, 0, count - 1);
        assert limbs[..count][..count - 1] == limbs[..count - 1];
        count := count - 1;
      }
      if count == 0 {
        sign := 0;
      }
    }

    // realloc to at least `needed` limbs, the new ones zero.
    method EnsureCapacity(needed: nat)
      requires InRange()
      modifies this
      ensures sign == old(sign) && count == old(count) && InRange() && needed <= limbs.Length
      ensures limbs[..count] == old(limbs[..count])
      ensures limbs == old(limbs) || fresh(limbs)
    {
      if needed <= limbs.Length {
        return;
      }
      var newCap := if limbs.Length * 2 < needed then needed else limbs.Length * 2;
      var newLimbs := new Limb[newCap](_ => 0);
      var i := 0;
      while i < limbs.Length
        invariant 0 <= i <= limbs.Length
        invariant limbs == old(limbs) && sign == old(sign) && count == old(count)
        invariant limbs[..] == old(limbs[..])
        invariant forall k :: 0 <= k < i ==> newLimbs[k] == limbs[k]
      {
        newLimbs[i] := limbs[i];
        i := i + 1;
      }
      limbs := newLimbs;
    }
  }

  lemma CanonicalZero(a: Bignum)
    requires a.Canonical()
    ensures a.sign == 0 <==> a.Mag() == 0
    ensures a.sign == 0 <==> a.Value() == 0
    ensures a.sign < 0 <==> a.Value() < 0
  {
    if a.count > 0 {
      ValTop(a.limbs[..a.count]);
    }
  }

  method Copy(a: Bignum) returns (r: Bignum)
    requires a.InRange()
    ensures fresh(r) && fresh(r.limbs) && r.sign == a.sign && r.count == a.count && r.InRange()
    ensures r.limbs[..r.count] == a.limbs[..a.count]
    ensures a.Canonical() ==> r.Canonical() && r.Value() == a.Value()
  {
    r := new Bignum(a.count);
    r.sign, r.count := a.sign, a.count;
    var i := 0;
    while i < a.count
      invariant 0 <= i <= a.count <= r.limbs.Length
      invariant fresh(r) && fresh(r.limbs) && r.sign == a.sign && r.count == a.count
      invariant r.limbs[..i] == a.limbs[..i]
    {
      r.limbs[i] := a.limbs[i];
      i := i + 1;
    }
    assert r.count > 0 ==> r.limbs[..r.count][r.count - 1] == a.limbs[..a.count][a.count - 1];
  }

  method FromInt64(v: I64) returns (r: Bignum)
    ensures fresh(r) && fresh(r.limbs) && r.Canonical() && r.Value() == v
  {
    r := new Bignum(2);
    if v == 0 {
      return;
    }
    var mag: U64 := if v < 0 then -(v + 1) + 1 else v;
    r.sign := if v < 0 then -1 else 1;
    r.limbs[0] := mag % BASE;
    var hi: Limb := mag / BASE;
    r.count := if hi != 0 then 2 else 1;
    r.limbs[1] := hi;
    Snoc(r.limbs[..], 0);
    Snoc(r.limbs[..], 1);
    assert r.limbs[..][..r.count] == r.limbs[..r.count];
    assert Up(hi, 1) == BASE * Up(hi, 0);
  }

  method ToInt64(n: Bignum) returns (fits: bool, out: I64)
    requires n.Canonical()
    ensures fits <==> -0x8000_0000_0000_0000 <= n.Value() < 0x8000_0000_0000_0000
    ensures fits ==> out == n.Value()
  {
    fits, out := false, 0;
    CanonicalZero(n);
    if n.sign == 0 {
      return true, 0;
    }
    ghost var s := n.limbs[..n.count];
    assert Up(1, 1) == BASE * Up(1, 0) && Up(1, 2) == BASE * Up(1, 1);
    if n.count > 2 {
      ValTop(s);
      UpGrows(1, 2, n.count - 1);
      return;
    }
    Snoc(s, 0);
    var mag: U64 := n.limbs[0];
    if n.count == 2 {
      Snoc(s, 1);
      mag := mag + n.limbs[1] * BASE;
    }
    assert s[..n.count] == s;
    if n.sign > 0 {
      if mag > 0x7FFF_FFFF_FFFF_FFFF {
        return;
      }
      out := mag;
    } else {
      if mag > 0x8000_0000_0000_0000 {
        return;
      }
      var m: int := mag;
      out := -m;
    }
    fits := true;
  }

  method MagCompare(a: array<Limb>, an: nat, b: array<Limb>, bn: nat) returns (c: int)
    requires an <= a.Length && (an > 0 ==> a[an - 1] != 0)
    requires bn <= b.Length && (bn > 0 ==> b[bn - 1] != 0)
    ensures c == Sign(Val(a[..an]) - Val(b[..bn]))
  {
    ghost var s, t := a[..an], b[..bn];
    if an != bn {
      if an < bn {
        LongerIsLarger(s, t);
        return -1;
      }
      LongerIsLarger(t, s);
      return 1;
    }
    var i := an - 1;
    while i >= 0
      invariant -1 <= i < an
      invariant s[i + 1..] == t[i + 1..]
    {
      if a[i] != b[i] {
        if a[i] < b[i] {
          FirstDifference(s, t, i);
          return -1;
        }
        FirstDifference(t, s, i);
        return 1;
      }
      i := i - 1;
    }
    assert s[0..] == s && t[0..] == t;
    return 0;
  }

  method Compare(a: Bignum, b: Bignum) returns (c: int)
    requires a.Canonical() && b.Canonical()
    ensures c == Sign(a.Value() - b.Value())
  {
    CanonicalZero(a);
    CanonicalZero(b);
    if a.sign != b.sign {
      return if a.sign < b.sign then -1 else 1;
    }
    if a.sign == 0 {
      return 0;
    }
    var cmp := MagCompare(a.limbs, a.count, b.limbs, b.count);
    return if a.sign > 0 then cmp else -cmp;
  }

  function Sign(x: int): int {
    if x < 0 then -1 else if x == 0 then 0 else 1
  }

  // ----- magnitudes -----

  // Limb i of a sum: s[i] + y plus the carry in leaves limb r[i] and the carry
  // out.
  lemma AddStep(r: seq<Limb>, s: seq<Limb>, v: int, y: int, i: nat, carry: int, carry': int)
    requires |r| == |s| == i + 1
    requires Val(r[..i]) + Up(carry, i) == Val(s[..i]) + v
    requires s[i] + y + carry == r[i] + BASE * carry'
    ensures Val(r) + Up(carry', i + 1) == Val(s) + (v + Up(y, i))
  {
    Last(r);
    Last(s);
    UpCarry(s[i] + y + carry, r[i], carry', i);
    UpAdd(s[i] + y, carry, i);
    UpAdd(s[i], y, i);
  }

  lemma SubStep(r: seq<Limb>, s: seq<Limb>, v: int, y: int, i: nat, borrow: int, borrow': int)
    requires |r| == |s| == i + 1
    requires Val(r[..i]) - Up(borrow, i) == Val(s[..i]) - v
    requires s[i] - y - borrow == r[i] - BASE * borrow'
    ensures Val(r) - Up(borrow', i + 1) == Val(s) - (v + Up(y, i))
  {
    UpNeg(borrow, i);
    UpNeg(borrow', i + 1);
    UpNeg(y, i);
    AddStep(r, s, -v, -y, i, -borrow, -borrow');
  }

  // r := a + b over the limbs both have.
  method AddLimbs(a: array<Limb>, b: array<Limb>, n: nat, r: array<Limb>) returns (carry: U64)
    requires n <= a.Length && n <= b.Length && n <= r.Length && r != a && r != b
    modifies r
    ensures carry <= 1
    ensures Val(r[..n]) + Up(carry, n) == Val(a[..n]) + Val(b[..n])
  {
    carry := 0;
    var i := 0;
    while i < n
      invariant 0 <= i <= n && carry <= 1
      invariant Val(r[..i]) + Up(carry, i) == Val(a[..i]) + Val(b[..i])
    {
      ghost var before := r[..i];
      var sum: U64 := a[i] + b[i] + carry;
      r[i] := sum % BASE;
      assert r[..i + 1][..i] == before;
      Prefixes(a, i);
      Prefixes(b, i);
      AddStep(r[..i + 1], a[..i + 1], Val(b[..i]), b[i], i, carry, sum / BASE);
      carry := sum / BASE;
      i := i + 1;
    }
  }

  // r := a + carry over the limbs only a has.
  method AddCarry(a: array<Limb>, from: nat, n: nat, carry0: U64, r: array<Limb>) returns (carry: U64)
    requires from <= n <= a.Length && n <= r.Length && r != a && carry0 <= 1
    modifies r
    ensures carry <= 1 && forall k :: n <= k < r.Length ==> r[k] == old(r[k])
    ensures Val(r[..n]) + Up(carry, n)
         == Val(a[..n]) + (old(Val(r[..from])) + Up(carry0, from) - Val(a[..from]))
  {
    carry := carry0;
    var i := from;
    ghost var v := Val(r[..from]) + Up(carry0, from) - Val(a[..from]);
    while i < n
      invariant from <= i <= n && carry <= 1
      invariant forall k :: n <= k < r.Length ==> r[k] == old(r[k])
      invariant Val(r[..i]) + Up(carry, i) == Val(a[..i]) + v
    {
      ghost var before := r[..i];
      var sum: U64 := a[i] + carry;
      r[i] := sum % BASE;
      assert r[..i + 1][..i] == before;
      Prefixes(a, i);
      AddStep(r[..i + 1], a[..i + 1], v, 0, i, carry, sum / BASE);
      UpMono(0, 0, i);
      carry := sum / BASE;
      i := i + 1;
    }
  }

  lemma Prefixes(a: array<Limb>, i: nat)
    requires i < a.Length
    ensures a[..i + 1][..i] == a[..i]
    ensures Val(a[..i + 1]) == Val(a[..i]) + Up(a[i], i)
  {
    Snoc(a[..i + 1], i);
    assert a[..i + 1][..i] == a[..i] && a[..i + 1][..i + 1] == a[..i + 1];
  }

  method MagAdd(a0: array<Limb>, an0: nat, b0: array<Limb>, bn0: nat) returns (r: Bignum)
    requires an0 <= a0.Length && bn0 <= b0.Length
    ensures fresh(r) && fresh(r.limbs) && r.Trimmed() && r.sign == 0
    ensures r.Mag() == Val(a0[..an0]) + Val(b0[..bn0])
  {
    var a, an, b, bn := a0, an0, b0, bn0;
    if an < bn {
      a, an, b, bn := b, bn, a, an;
    }
    r := new Bignum(an + 1);
    var carry := AddLimbs(a, b, bn, r.limbs);
    carry := AddCarry(a, bn, an, carry, r.limbs);
    UpMono(0, 0, an);
    r.count := an;
    if carry != 0 {
      ghost var before := r.limbs[..an];
      r.limbs[an] := carry;
      assert r.limbs[..an] == before;
      Prefixes(r.limbs, an);
      r.count := an + 1;
    }
    r.Trim();
  }

  // r := a - b over the limbs both have.
  method SubLimbs(a: array<Limb>, b: array<Limb>, n: nat, r: array<Limb>) returns (borrow: I64)
    requires n <= a.Length && n <= b.Length && n <= r.Length && r != a && r != b
    modifies r
    ensures 0 <= borrow <= 1
    ensures Val(r[..n]) - Up(borrow, n) == Val(a[..n]) - Val(b[..n])
  {
    borrow := 0;
    var i := 0;
    while i < n
      invariant 0 <= i <= n && 0 <= borrow <= 1
      invariant Val(r[..i]) - Up(borrow, i) == Val(a[..i]) - Val(b[..i])
    {
      ghost var before, was := r[..i], borrow;
      var diff: I64 := a[i] - b[i] - borrow;
      if diff < 0 { diff := diff + BASE; borrow := 1; } else { borrow := 0; }
      r[i] := diff;
      assert r[..i + 1][..i] == before;
      Prefixes(a, i);
      Prefixes(b, i);
      SubStep(r[..i + 1], a[..i + 1], Val(b[..i]), b[i], i, was, borrow);
      i := i + 1;
    }
  }

  // r := a - borrow over the limbs only a has.
  method SubBorrow(a: array<Limb>, from: nat, n: nat, borrow0: I64, r: array<Limb>) returns (borrow: I64)
    requires from <= n <= a.Length && n <= r.Length && r != a && 0 <= borrow0 <= 1
    modifies r
    ensures 0 <= borrow <= 1
    ensures Val(r[..n]) - Up(borrow, n)
         == Val(a[..n]) + (old(Val(r[..from])) - Up(borrow0, from) - Val(a[..from]))
  {
    borrow := borrow0;
    var i := from;
    ghost var v := Val(a[..from]) - (Val(r[..from]) - Up(borrow0, from));
    while i < n
      invariant from <= i <= n && 0 <= borrow <= 1
      invariant Val(r[..i]) - Up(borrow, i) == Val(a[..i]) - v
    {
      ghost var before, was := r[..i], borrow;
      var diff: I64 := a[i] - borrow;
      if diff < 0 { diff := diff + BASE; borrow := 1; } else { borrow := 0; }
      r[i] := diff;
      assert r[..i + 1][..i] == before;
      Prefixes(a, i);
      SubStep(r[..i + 1], a[..i + 1], v, 0, i, was, borrow);
      UpMono(0, 0, i);
      i := i + 1;
    }
  }

  // Requires a's magnitude to be at least b's.
  method MagSub(a: array<Limb>, an: nat, b: array<Limb>, bn: nat) returns (r: Bignum)
    requires bn <= an <= a.Length && bn <= b.Length
    requires Val(a[..an]) >= Val(b[..bn])
    ensures fresh(r) && fresh(r.limbs) && r.Trimmed() && r.sign == 0
    ensures r.Mag() == Val(a[..an]) - Val(b[..bn])
  {
    r := new Bignum(an);
    var borrow := SubLimbs(a, b, bn, r.limbs);
    borrow := SubBorrow(a, bn, an, borrow, r.limbs);
    UpMono(0, 1, an);
    ValBound(r.limbs[..an]);
    r.count := an;
    r.Trim();
  }

  // r += x * b * BASE^i, where the total is known to fit r.
  method MulRow(x: Limb, b: array<Limb>, bn: nat, r: array<Limb>, i: nat)
    requires bn <= b.Length && i + bn <= r.Length && r != b
    requires Val(r[..]) + Up(x * Val(b[..bn]), i) < Up(1, r.Length)
    modifies r
    ensures Val(r[..]) == old(Val(r[..])) + Up(x * Val(b[..bn]), i)
  {
    var carry: U64 := 0;
    var j := 0;
    UpMono(0, 0, i);
    assert b[..0] == [];
    while j < bn
      invariant 0 <= j <= bn && carry < BASE
      invariant Val(r[..]) + Up(carry, i + j) == old(Val(r[..])) + Up(x * Val(b[..j]), i)
    {
      ghost var before := r[..];
      MulSmall(x, b[j]);
      var prod: U64 := x * b[j] + r[i + j] + carry;
      r[i + j] := prod % BASE;
      MulStep(before, r[..], x, b[..j + 1], i, j, carry, prod / BASE);
      assert b[..j + 1][..j] == b[..j];
      carry := prod / BASE;
      j := j + 1;
    }
    Spill(r, i + bn, carry);
  }

  lemma MulSmall(x: int, y: int)
    requires 0 <= x < BASE && 0 <= y < BASE
    ensures 0 <= x * y <= 0xFFFF_FFFE_0000_0001
  {
    Times(x, y, BASE - 1);
  }

  lemma Times(x: int, y: int, z: int)
    requires 0 <= x && 0 <= y <= z
    ensures 0 <= x * y <= x * z
  {
  }

  lemma MulStep(before: seq<Limb>, after: seq<Limb>, x: int, b: seq<Limb>, i: nat, j: nat, carry: int, carry': int)
    requires |b| == j + 1 && i + j < |before|
    requires |after| == |before| && after == before[i + j := after[i + j]]
    requires x * b[j] + before[i + j] + carry == after[i + j] + BASE * carry'
    ensures Val(after) + Up(carry', i + j + 1) - Up(x * Val(b), i)
         == Val(before) + Up(carry, i + j) - Up(x * Val(b[..j]), i)
  {
    Update(before, i + j, after[i + j]);
    UpCarry(x * b[j] + before[i + j] + carry, after[i + j], carry', i + j);
    UpAdd(x * b[j] + before[i + j], carry, i + j);
    UpAdd(x * b[j], before[i + j], i + j);
    Last(b);
    UpScale(x, b[j], j);
    UpUp(x * b[j], j, i);
    assert x * (Val(b[..j]) + Up(b[j], j)) == x * Val(b[..j]) + x * Up(b[j], j);
    UpAdd(x * Val(b[..j]), x * Up(b[j], j), i);
  }

  // The carry that runs on past a row.
  method Spill(r: array<Limb>, k0: nat, carry0: U64)
    requires k0 <= r.Length && carry0 < BASE
    requires Val(r[..]) + Up(carry0, k0) < Up(1, r.Length)
    modifies r
    ensures Val(r[..]) == old(Val(r[..])) + Up(carry0, k0)
  {
    var k, carry: U64 := k0, carry0;
    ghost var total := Val(r[..]) + Up(carry, k);
    while carry != 0
      invariant k0 <= k <= r.Length && carry < BASE
      invariant Val(r[..]) + Up(carry, k) == total
      decreases r.Length - k
    {
      assert k < r.Length by {
        ValBound(r[..]);
        UpMono(1, carry, k);
      }
      ghost var before := r[..];
      var sum: U64 := r[k] + carry;
      r[k] := sum % BASE;
      assert r[..] == before[k := r[k]];
      Update(before, k, r[k]);
      UpCarry(before[k] + carry, r[k], sum / BASE, k);
      UpAdd(before[k], carry, k);
      carry := sum / BASE;
      k := k + 1;
    }
    UpMono(0, 0, k);
  }

  method MagMul(a: array<Limb>, an: nat, b: array<Limb>, bn: nat) returns (r: Bignum)
    requires an <= a.Length && bn <= b.Length
    ensures fresh(r) && fresh(r.limbs) && r.Trimmed() && r.sign == 0
    ensures r.Mag() == Val(a[..an]) * Val(b[..bn])
  {
    if an == 0 || bn == 0 {
      r := new Bignum(1);
      return;
    }
    r := new Bignum(an + bn);
    r.count := an + bn;
    var limbs := r.limbs;
    ValZeros(limbs[..]);
    var i := 0;
    while i < an
      invariant 0 <= i <= an && fresh(r) && fresh(r.limbs) && r.sign == 0
      invariant r.limbs == limbs && r.count == limbs.Length == an + bn
      invariant Val(limbs[..]) == Val(a[..i]) * Val(b[..bn])
    {
      Prefixes(a, i);
      MulRowAdds(a[..i + 1], b[..bn], i);
      MulRowFits(a[..i + 1], b[..bn], limbs.Length);
      if a[i] != 0 {
        MulRow(a[i], b, bn, limbs, i);
      }
      i := i + 1;
    }
    assert limbs[..r.count] == limbs[..];
    r.Trim();
  }

  lemma MulRowAdds(a: seq<Limb>, b: seq<Limb>, i: nat)
    requires |a| == i + 1
    ensures Val(a) * Val(b) == Val(a[..i]) * Val(b) + Up(a[i] * Val(b), i)
    ensures a[i] == 0 ==> Up(a[i] * Val(b), i) == 0
  {
    Last(a);
    DistribUp(Val(a[..i]), a[i], Val(b), i);
    UpMono(0, 0, i);
  }

  lemma MulRowFits(a: seq<Limb>, b: seq<Limb>, n: nat)
    requires |a| + |b| <= n
    ensures Val(a) * Val(b) < Up(1, n)
  {
    ProductBound(a, b);
    UpGrows(1, |a| + |b|, n);
  }

  lemma DistribUp(v: int, x: int, w: int, i: nat)
    ensures (v + Up(x, i)) * w == v * w + Up(x * w, i)
  {
    UpScale(w, x, i);
    Distrib(v, Up(x, i), w);
  }

  lemma Distrib(x: int, y: int, z: int)
    ensures (x + y) * z == x * z + y * z
  {
  }

  // ----- signed arithmetic -----

  method Negate(a: Bignum) returns (r: Bignum)
    requires a.Canonical()
    ensures fresh(r) && fresh(r.limbs) && r.Canonical() && r.Value() == -a.Value()
  {
    CanonicalZero(a);
    r := Copy(a);
    r.sign := -r.sign;
  }

  method Abs(a: Bignum) returns (r: Bignum)
    requires a.Canonical()
    ensures fresh(r) && fresh(r.limbs) && r.Canonical() && r.Value() == if a.Value() < 0 then -a.Value() else a.Value()
  {
    CanonicalZero(a);
    r := Copy(a);
    if r.sign < 0 {
      r.sign := 1;
    }
  }

  method Add(a: Bignum, b: Bignum) returns (r: Bignum)
    requires a.Canonical() && b.Canonical()
    ensures fresh(r) && fresh(r.limbs) && r.Canonical() && r.Value() == a.Value() + b.Value()
  {
    CanonicalZero(a);
    CanonicalZero(b);
    if a.sign == 0 {
      r := Copy(b);
      return;
    }
    if b.sign == 0 {
      r := Copy(a);
      return;
    }
    if a.sign == b.sign {
      r := MagAdd(a.limbs, a.count, b.limbs, b.count);
      r.sign := if r.count == 0 then 0 else a.sign;
      return;
    }
    r := AddOpposite(a, b);
  }

  method AddOpposite(a: Bignum, b: Bignum) returns (r: Bignum)
    requires a.Canonical() && b.Canonical() && a.sign * b.sign == -1
    ensures fresh(r) && fresh(r.limbs) && r.Canonical() && r.Value() == a.Value() + b.Value()
  {
    var cmp := MagCompare(a.limbs, a.count, b.limbs, b.count);
    if cmp == 0 {
      r := new Bignum(1);
      return;
    }
    if cmp > 0 {
      LongerUnlessSmaller(b.limbs[..b.count], a.limbs[..a.count]);
      r := MagSub(a.limbs, a.count, b.limbs, b.count);
      r.sign := if r.count == 0 then 0 else a.sign;
      return;
    }
    LongerUnlessSmaller(a.limbs[..a.count], b.limbs[..b.count]);
    r := MagSub(b.limbs, b.count, a.limbs, a.count);
    r.sign := if r.count == 0 then 0 else b.sign;
  }

  lemma LongerUnlessSmaller(s: seq<Limb>, t: seq<Limb>)
    requires |s| > 0 && s[|s| - 1] != 0
    requires Val(s) <= Val(t)
    ensures |s| <= |t|
  {
    if |t| < |s| {
      LongerIsLarger(t, s);
    }
  }

  method Sub(a: Bignum, b: Bignum) returns (r: Bignum)
    requires a.Canonical() && b.Canonical()
    ensures fresh(r) && fresh(r.limbs) && r.Canonical() && r.Value() == a.Value() - b.Value()
  {
    var negB := Negate(b);
    r := Add(a, negB);
  }

  method Mul(a: Bignum, b: Bignum) returns (r: Bignum)
    requires a.Canonical() && b.Canonical()
    ensures fresh(r) && fresh(r.limbs) && r.Canonical() && r.Value() == a.Value() * b.Value()
  {
    CanonicalZero(a);
    CanonicalZero(b);
    if a.sign == 0 || b.sign == 0 {
      r := new Bignum(1);
      return;
    }
    r := MagMul(a.limbs, a.count, b.limbs, b.count);
    Signs(a.Mag(), b.Mag());
    r.sign := if a.sign == b.sign then 1 else -1;
  }

  lemma Signs(x: int, y: int)
    ensures (-x) * y == x * (-y) == -(x * y)
    ensures (-x) * (-y) == x * y
    ensures x > 0 && y > 0 ==> x * y > 0
  {
  }

  // x^n
  ghost function Power(x: int, n: nat): int {
    if n == 0 then 1 else x * Power(x, n - 1)
  }

  lemma {:induction false} PowerSquare(x: int, n: nat)
    ensures Power(x * x, n) == Power(x, 2 * n)
  {
    if n > 0 {
      PowerSquare(x, n - 1);
      assert Power(x, 2 * n) == x * (x * Power(x, 2 * n - 2));
      assert x * x * Power(x, 2 * n - 2) == x * (x * Power(x, 2 * n - 2));
    }
  }

  // r * x^n
  ghost function Scaled(r: int, x: int, n: nat): int
    decreases n
  {
    if n == 0 then r else Scaled(r * x, x, n - 1)
  }

  lemma {:induction false} ScaledIsTimes(r: int, x: int, n: nat)
    ensures Scaled(r, x, n) == r * Power(x, n)
    decreases n
  {
    if n > 0 {
      ScaledIsTimes(r * x, x, n - 1);
      assert (r * x) * Power(x, n - 1) == r * (x * Power(x, n - 1));
    }
  }

  // One turn of repeated squaring; the last turn leaves x as it is.
  lemma SquareStep(r: int, x: int, e: nat, r': int, x': int)
    requires e > 0
    requires r' == if e % 2 == 1 then r * x else r
    requires e / 2 > 0 ==> x' == x * x
    ensures Scaled(r', x', e / 2) == Scaled(r, x, e)
  {
    if e / 2 > 0 {
      ScaledIsTimes(r', x, 2 * (e / 2));
      ScaledIsTimes(r', x * x, e / 2);
      PowerSquare(x, e / 2);
    }
  }

  // One turn of the squaring loop.
  method PowTurn(result: Bignum, b: Bignum, e: U64) returns (result': Bignum, b': Bignum)
    requires result.Canonical() && b.Canonical() && e > 0
    ensures (fresh(result') && fresh(result'.limbs)) || result' == result
    ensures (fresh(b') && fresh(b'.limbs)) || b' == b
    ensures result'.Canonical() && b'.Canonical()
    ensures Scaled(result'.Value(), b'.Value(), e / 2) == Scaled(result.Value(), b.Value(), e)
  {
    result', b' := result, b;
    if e % 2 == 1 {
      result' := Mul(result, b);
    }
    if e / 2 > 0 {
      b' := Mul(b, b);
    }
    SquareStep(result.Value(), b.Value(), e, result'.Value(), b'.Value());
  }

  // Repeated squaring, for a non-negative exponent.
  method Pow(base: Bignum, exp: I64) returns (result: Bignum)
    requires base.Canonical() && exp >= 0
    ensures fresh(result) && fresh(result.limbs) && result.Canonical() && result.Value() == Power(base.Value(), exp)
  {
    result := FromInt64(1);
    var b := Copy(base);
    var e: U64 := exp;
    ScaledIsTimes(1, base.Value(), exp);
    while e > 0
      invariant fresh(result) && fresh(result.limbs) && fresh(b) && fresh(b.limbs) && result.Canonical()
        && b.Canonical()
      invariant Scaled(result.Value(), b.Value(), e) == Power(base.Value(), exp)
    {
      result, b := PowTurn(result, b, e);
      e := e / 2;
    }
  }
}
