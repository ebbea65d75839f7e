// Division of native/bignum.c: a single-limb loop, and Algorithm D of Knuth,
// TAOCP volume 2, section 4.3.1, for longer divisors.
module Division {
  import opened Limbs
  import opened Bignums
  import opened Bits
  import opened Shifting

  // ----- one-limb divisors -----

  // q may be a itself: the quotient then overwrites the dividend in place.
  method MagDivmodSmall(a: array<Limb>, an: nat, d: Limb, q: array<Limb>) returns (r: Limb)
    requires an <= a.Length && an <= q.Length && d > 0
    modifies q
    ensures r < d && old(Val(a[..an])) == Val(q[..an]) * d + r
    ensures forall k :: an <= k < q.Length ==> q[k] == old(q[k])
  {
    ghost var s := a[..an];
    var rem: U64 := 0;
    var i := an - 1;
    assert s[an..] == [] && q[an..an] == [];
    while i >= 0
      invariant -1 <= i < an && rem < d
      invariant forall k :: 0 <= k <= i ==> a[k] == s[k]
      invariant forall k :: an <= k < q.Length ==> q[k] == old(q[k])
      invariant Val(s[i + 1..]) == Val(q[i + 1..an]) * d + rem
    {
      ghost var before := q[i + 1..an];
      var cur: U64 := rem * BASE + a[i];
      QuotientFits(cur, rem, d);
      q[i] := cur / d;
      assert q[i + 1..an] == before;
      assert q[i..an] == [q[i]] + q[i + 1..an];
      assert s[i..] == [s[i]] + s[i + 1..];
      SmallStep(s[i + 1..], s[i], before, cur / d, d, rem, cur % d);
      rem := cur % d;
      i := i - 1;
    }
    assert s[0..] == s && q[0..an] == q[..an];
    return rem;
  }

  lemma QuotientFits(cur: int, rem: int, d: int)
    requires 0 <= rem < d < BASE && rem * BASE <= cur < rem * BASE + BASE
    ensures 0 <= cur / d < BASE
  {
    if cur / d >= BASE {
      Times(d, BASE, cur / d);
    }
  }

  lemma SmallStep(s: seq<Limb>, x: Limb, q: seq<Limb>, y: Limb, d: int, rem: int, rem': int)
    requires Val(s) == Val(q) * d + rem
    requires rem * BASE + x == y * d + rem'
    ensures Val([x] + s) == Val([y] + q) * d + rem'
  {
    Cons(x, s);
    Cons(y, q);
    DistribUp(y, Val(q), d, 1);
    assert Up(Val(q), 1) == BASE * Up(Val(q), 0) && Up(Val(q) * d, 1) == BASE * Up(Val(q) * d, 0);
  }

  // ----- Algorithm D -----

  method Clz32(x0: Limb) returns (n: nat)
    ensures x0 == 0 ==> n == 32
    ensures x0 > 0 ==> n < 32 && BASE / 2 <= Twice(x0, n) < BASE
  {
    if x0 == 0 {
      return 32;
    }
    var x: Limb := x0;
    n := 0;
    while x < 0x8000_0000
      invariant 0 < x && x == Twice(x0, n) && n <= 31
      decreases BASE - x
    {
      TwiceMono(1, x0, 32);
      Twice32();
      assert Twice(x0, n + 1) == 2 * x;
      x := 2 * x;
      n := n + 1;
    }
  }

  // What is known about the top limbs of a window w and of the divisor v:
  // x3 and v2 are their leading three and two limbs, k the weight left over.
  ghost predicate Leading(w: int, x3: int, v: int, v2: int, k: int) {
    && k >= 1 && 0 <= x3 && BASE <= v2
    && x3 * k <= w < (x3 + 1) * k
    && v2 * k <= v < (v2 + 1) * k
  }

  // The correction test fires only on a qhat that is too big ...
  lemma TooBig(qhat: int, w: int, x3: int, v: int, v2: int, k: int)
    requires Leading(w, x3, v, v2, k) && 0 <= qhat && qhat * v2 > x3
    ensures w < qhat * v
  {
    Times(qhat, v2 * k, v);
    assert qhat * (v2 * k) == (qhat * v2) * k;
    Times(k, x3 + 1, qhat * v2);
  }

  // ... and once it no longer fires, qhat is at most one too big.
  lemma AtMostOneTooBig(qhat: int, w: int, x3: int, v: int, v2: int, k: int)
    requires Leading(w, x3, v, v2, k) && 0 <= qhat < BASE && qhat * v2 <= x3
    ensures (qhat - 1) * v <= w
  {
    if qhat == 0 {
      Times(k, 0, x3);
      Times(k, 0, v2);
    } else {
      Times(qhat - 1, v, (v2 + 1) * k);
      assert (qhat - 1) * ((v2 + 1) * k) == ((qhat - 1) * (v2 + 1)) * k;
      Distrib(qhat, -1, v2 + 1);
      assert qhat * (v2 + 1) == qhat * v2 + qhat;
      assert (qhat - 1) * (v2 + 1) <= x3;
      if (qhat - 1) * (v2 + 1) >= 0 {
        Times(k, (qhat - 1) * (v2 + 1), x3);
      }
    }
  }

  // The first guess, from two limbs over one, is never too small.
  lemma FirstGuess(qhat: int, top: int, v1: int, w: int, v: int, k: int)
    requires k >= 1 && 0 <= qhat && 0 <= top && 0 <= v1
    requires top < (qhat + 1) * v1 && w < (top + 1) * k && v1 * k <= v
    ensures w < (qhat + 1) * v
  {
    Times(k, top + 1, (qhat + 1) * v1);
    assert ((qhat + 1) * v1) * k == (qhat + 1) * (v1 * k);
    Times(qhat + 1, v1 * k, v);
  }

  // The guess for one quotient limb, from the top three limbs u2, u1, u0 of the
  // dividend's window w and the top two of the divisor v: with w below
  // BASE * v, qhat is never too small and at most one too big.
  method EstimateQhat(u2: Limb, u1: Limb, u0: Limb, vTop: U64, vSecond: U64,
                      ghost w: int, ghost v: int, ghost k: int) returns (qhat: U64)
    requires BASE / 2 <= vTop < BASE && vSecond < BASE && 0 <= w < BASE * v
    requires Leading(w, (u2 * BASE + u1) * BASE + u0, v, vTop * BASE + vSecond, k)
    ensures qhat < BASE
    ensures (qhat - 1) * v <= w < (qhat + 1) * v
  {
    ghost var top := u2 * BASE + u1;
    Widen(w, top, u0, v, vTop, vSecond, k);
    var rhat: U64;
    qhat, rhat := Guess(u2, u1, vTop, w, v, BASE * k);
    while rhat <= 0xFFFF_FFFF && qhat * vSecond > rhat * BASE + u0
      invariant qhat < BASE && top == qhat * vTop + rhat
      invariant w < (qhat + 1) * v
      decreases qhat
    {
      TestMeans(qhat, vTop, vSecond, top, rhat, u0);
      TooBig(qhat, w, top * BASE + u0, v, vTop * BASE + vSecond, k);
      Distrib(qhat, -1, vTop);
      qhat := qhat - 1;
      rhat := rhat + vTop;
    }
    TestMeans(qhat, vTop, vSecond, top, rhat, u0);
    MulSmall(qhat, vSecond);
    AtMostOneTooBig(qhat, w, top * BASE + u0, v, vTop * BASE + vSecond, k);
  }

  // Two limbs over one, capped at the largest limb.
  method Guess(u2: Limb, u1: Limb, vTop: U64, ghost w: int, ghost v: int, ghost k: int)
      returns (qhat: U64, rhat: U64)
    requires 1 <= vTop < BASE && k >= 1 && v >= 0 && w < BASE * v
    requires w < (u2 * BASE + u1 + 1) * k && vTop * k <= v
    ensures qhat < BASE && u2 * BASE + u1 == qhat * vTop + rhat
    ensures w < (qhat + 1) * v
  {
    var numerator: U64 := u2 * BASE + u1;
    qhat, rhat := Quotient(numerator, vTop);
    Distrib(qhat, 1, vTop);
    FirstGuess(qhat, numerator, vTop, w, v, k);
    if qhat > 0xFFFF_FFFF {
      CapGuess(qhat, vTop, numerator, w, v);
      qhat := 0xFFFF_FFFF;
      rhat := numerator - qhat * vTop;
    }
  }

  method Quotient(x: U64, y: U64) returns (q: U64, r: U64)
    requires y > 0
    ensures x == q * y + r && r < y
  {
    QuotientBound(x, y);
    q, r := x / y, x % y;
    assert x == y * (x / y) + x % y;
  }

  lemma Widen(w: int, top: int, u0: Limb, v: int, v1: int, v0: int, k: int)
    requires 0 <= v0 && Leading(w, top * BASE + u0, v, v1 * BASE + v0, k)
    ensures w < (top + 1) * (BASE * k) && v1 * (BASE * k) <= v
  {
    assert (top + 1) * (BASE * k) == ((top + 1) * BASE) * k;
    Times(k, 0, (top + 1) * BASE - (top * BASE + u0 + 1));
    assert v1 * (BASE * k) == (v1 * BASE) * k;
    Distrib(v1 * BASE, v0, k);
    Times(k, 0, v0);
  }

  lemma TopLimbs(w: seq<Limb>, v: seq<Limb>, n: nat)
    requires 2 <= n == |v| && |w| == n + 1 && v[n - 1] >= 0x8000_0000
    ensures Leading(Val(w), (w[n] * BASE + w[n - 1]) * BASE + w[n - 2],
                    Val(v), v[n - 1] * BASE + v[n - 2], Up(1, n - 2))
  {
    hide Val, Up;
    var x: int, y: int := (w[n] * BASE + w[n - 1]) * BASE + w[n - 2], v[n - 1] * BASE + v[n - 2];
    ThreeOnTop(w, n - 2);
    PairOnTop(v, n - 2);
    assert v[..n] == v;
    Remainder(Val(w), x, w[..n - 2]);
    Remainder(Val(v), y, v[..n - 2]);
    UpPositive(n - 2);
  }

  lemma ThreeOnTop(s: seq<Limb>, i: nat)
    requires i + 3 == |s|
    ensures Val(s) == Val(s[..i]) + Up((s[i + 2] * BASE + s[i + 1]) * BASE + s[i], i)
  {
    hide Val, Up;
    PairOnTop(s, i);
    Snoc(s, i + 2);
    assert s[..i + 3] == s;
    TwoUp(s[i + 2], i);
    UpAdd(s[i + 2] * BASE * BASE, s[i + 1] * BASE + s[i], i);
  }

  lemma TwoUp(x: int, i: nat)
    ensures Up(x, i + 2) == Up(x * BASE * BASE, i)
  {
    UpCarry(x * BASE * BASE, 0, x * BASE, i);
    UpCarry(x * BASE, 0, x, i + 1);
    UpMono(0, 0, i);
    UpMono(0, 0, i + 1);
  }

  lemma UpPositive(i: nat)
    ensures Up(1, i) >= 1
  {
    UpMono(0, 1, i);
  }

  lemma PairOnTop(s: seq<Limb>, i: nat)
    requires i + 1 < |s|
    ensures Val(s[..i + 2]) == Val(s[..i]) + Up(s[i + 1] * BASE + s[i], i)
  {
    Snoc(s, i);
    Snoc(s, i + 1);
    UpCarry(s[i + 1] * BASE + s[i], s[i], s[i + 1], i);
  }

  lemma Remainder(v: int, x: int, rest: seq<Limb>)
    requires v == Val(rest) + Up(x, |rest|)
    ensures x * Up(1, |rest|) <= v < (x + 1) * Up(1, |rest|)
  {
    ValBound(rest);
    UpScale(x, 1, |rest|);
    Distrib(x, 1, Up(1, |rest|));
  }

  lemma CapGuess(qhat: int, vTop: int, numerator: int, w: int, v: int)
    requires qhat >= BASE && vTop >= 1 && v >= 0 && w < BASE * v
    requires numerator >= qhat * vTop
    ensures 0 <= numerator - (BASE - 1) * vTop
    ensures w < BASE * v
  {
    Times(vTop, BASE - 1, qhat);
  }

  // The test of the correction loop, read as a comparison of three limbs with
  // qhat times two limbs.
  lemma TestMeans(qhat: int, v1: int, v0: int, top: int, rhat: int, u0: int)
    requires top == qhat * v1 + rhat
    ensures qhat * v0 > rhat * BASE + u0 <==> qhat * (v1 * BASE + v0) > top * BASE + u0
  {
    assert qhat * (v1 * BASE + v0) == (qhat * v1) * BASE + qhat * v0;
  }

  // Everything of u outside the window u[j..j + n] is as before.
  twostate predicate OnlyWindow(u: array<Limb>, j: nat, n: nat)
    requires j + n <= u.Length
    reads u
  {
    u[..j] == old(u[..j]) && u[j + n..] == old(u[j + n..])
  }

  // u[j..j + n] -= qhat * v over the limbs v has; what is still owed to the
  // next limb comes back.
  method MulSubLimbs(u: array<Limb>, j: nat, v: array<Limb>, n: nat, qhat: U64) returns (carry: U64, borrow: I64)
    requires n == v.Length && j + n < u.Length && u != v && qhat < BASE
    modifies u
    ensures OnlyWindow(u, j, n) && carry < BASE && 0 <= borrow <= 1
    ensures Val(u[j..j + n]) == old(Val(u[j..j + n])) - qhat * Val(v[..]) + Up(carry + borrow, n)
  {
    ghost var w0 := u[j..j + n];
    carry, borrow := 0, 0;
    var i := 0;
    while i < n
      invariant 0 <= i <= n && carry < BASE && 0 <= borrow <= 1
      invariant OnlyWindow(u, j, n)
      invariant Val(u[j..j + n]) == Val(w0) - qhat * Val(v[..i]) + Up(carry + borrow, i)
    {
      ghost var before := u[j..j + n];
      MulSmall(qhat, v[i]);
      var p: U64 := qhat * v[i] + carry;
      ghost var owed := carry + borrow;
      carry := p / BASE;
      var sub: I64 := u[j + i] - p % BASE - borrow;
      if sub < 0 { sub := sub + BASE; borrow := 1; } else { borrow := 0; }
      u[j + i] := sub;
      assert u[j..j + n] == before[i := u[j + i]];
      assert v[..i + 1][..i] == v[..i];
      MulSubStep(before, i, sub, qhat, v[..i + 1], owed, carry + borrow);
      i := i + 1;
    }
    assert v[..n] == v[..];
  }

  // u[j..j + n] -= qhat * v over one limb more than v has; `negative` says
  // that the result wrapped around.
  method MulSub(u: array<Limb>, j: nat, v: array<Limb>, n: nat, qhat: U64) returns (negative: bool)
    requires n == v.Length && j + n < u.Length && u != v && qhat < BASE
    modifies u
    ensures OnlyWindow(u, j, n + 1)
    ensures Val(u[j..j + n + 1])
         == old(Val(u[j..j + n + 1])) - qhat * Val(v[..]) + if negative then Up(1, n + 1) else 0
  {
    TopOfWindow(u, j, n);
    var carry, borrow := MulSubLimbs(u, j, v, n, qhat);
    assert u[j + n] == u[j + n..][0] == old(u[j + n..])[0] == old(u[j + n]);
    assert u[j + n + 1..] == u[j + n..][1..];
    ghost var low := u[j..j + n];
    var topSub: I64 := u[j + n] - carry - borrow;
    negative := topSub < 0;
    u[j + n] := topSub % BASE;
    assert u[j..j + n] == low;
    TopOfWindow(u, j, n);
    UpCarry(topSub, u[j + n], if negative then -1 else 0, n);
    UpAdd(old(u[j + n]), carry + borrow, n);
    UpNeg(1, n + 1);
    UpMono(0, 0, n + 1);
  }

  lemma TopOfWindow(u: array<Limb>, j: nat, n: nat)
    requires j + n < u.Length
    ensures Val(u[j..j + n + 1]) == Val(u[j..j + n]) + Up(u[j + n], n)
  {
    var w := u[j..j + n + 1];
    Snoc(w, n);
    assert w[..n + 1] == w && w[..n] == u[j..j + n];
  }

  lemma MulSubStep(before: seq<Limb>, i: nat, x: Limb, qhat: int, v: seq<Limb>, owed: int, owed': int)
    requires i < |before| && |v| == i + 1
    requires x - BASE * owed' == before[i] - qhat * v[i] - owed
    ensures Val(before[i := x]) - Up(owed', i + 1) + qhat * Val(v)
         == Val(before) - Up(owed, i) + qhat * Val(v[..i])
  {
    Update(before, i, x);
    UpCarry(before[i] - qhat * v[i] - owed, x, -owed', i);
    UpNeg(owed', i + 1);
    UpAdd(before[i] - qhat * v[i], owed, i);
    UpAdd(before[i], qhat * v[i], i);
    Last(v);
    DistribUp(Val(v[..i]), v[i], qhat, i);
    assert (Val(v[..i]) + Up(v[i], i)) * qhat == qhat * Val(v);
  }

  // u[j..j + n] += v over one limb more, dropping the carry out of the top.
  method AddBack(u: array<Limb>, j: nat, v: array<Limb>, n: nat) returns (ghost dropped: int)
    requires n == v.Length && j + n < u.Length && u != v
    modifies u
    ensures OnlyWindow(u, j, n + 1) && 0 <= dropped <= 1
    ensures Val(u[j..j + n + 1]) + Up(dropped, n + 1) == old(Val(u[j..j + n + 1])) + Val(v[..])
  {
    ghost var w0 := u[j..j + n + 1];
    var addCarry: U64 := 0;
    var i := 0;
    while i < n
      invariant 0 <= i <= n && addCarry <= 1
      invariant OnlyWindow(u, j, n + 1)
      invariant Val(u[j..j + n + 1]) + Up(addCarry, i) == Val(w0) + Val(v[..i])
    {
      ghost var before := u[j..j + n + 1];
      var s2: U64 := u[j + i] + v[i] + addCarry;
      u[j + i] := s2 % BASE;
      assert u[j..j + n + 1] == before[i := u[j + i]];
      Prefixes(v, i);
      AddBackStep(before, i, u[j + i], v[i], addCarry, s2 / BASE);
      addCarry := s2 / BASE;
      i := i + 1;
    }
    assert v[..n] == v[..];
    ghost var before := u[j..j + n + 1];
    var s3: U64 := u[j + n] + addCarry;
    u[j + n] := s3 % BASE;
    assert u[j..j + n + 1] == before[n := u[j + n]];
    AddBackStep(before, n, u[j + n], 0, addCarry, s3 / BASE);
    UpMono(0, 0, n);
    dropped := s3 / BASE;
  }

  lemma AddBackStep(before: seq<Limb>, i: nat, x: Limb, y: int, carry: int, carry': int)
    requires i < |before| && before[i] + y + carry == x + BASE * carry'
    ensures Val(before[i := x]) + Up(carry', i + 1) == Val(before) + Up(carry, i) + Up(y, i)
  {
    Update(before, i, x);
    UpCarry(before[i] + y + carry, x, carry', i);
    UpAdd(before[i] + y, carry, i);
    UpAdd(before[i], y, i);
  }

  ghost predicate Normalized(v: array<Limb>, n: nat)
    reads v
  {
    n >= 2 && v.Length == n && v[n - 1] >= 0x8000_0000
  }

  // One turn of the main loop: one quotient limb, and the window reduced to
  // the remainder.
  method KnuthStep(u: array<Limb>, j: nat, v: array<Limb>, n: nat) returns (q: Limb)
    requires Normalized(v, n) && j + n < u.Length && u != v
    requires Val(u[j..j + n + 1]) < BASE * Val(v[..])
    modifies u
    ensures OnlyWindow(u, j, n + 1)
    ensures Val(u[j..j + n + 1]) == old(Val(u[j..j + n + 1])) - q * Val(v[..])
    ensures 0 <= Val(u[j..j + n + 1]) < Val(v[..])
  {
    ghost var w, vv := Val(u[j..j + n + 1]), Val(v[..]);
    TopLimbs(u[j..j + n + 1], v[..], n);
    ValBound(u[j..j + n + 1]);
    var qhat: U64 := EstimateQhat(u[j + n], u[j + n - 1], u[j + n - 2], v[n - 1], v[n - 2], w, vv, Up(1, n - 2));
    var negResult := MulSub(u, j, v, n, qhat);
    ValBound(u[j..j + n + 1]);
    Distrib(qhat, 1, vv);
    Distrib(qhat, -1, vv);
    if negResult {
      qhat := qhat - 1;
      ghost var dropped := AddBack(u, j, v, n);
      OneBorrow(u[j..j + n + 1], n, dropped);
    }
    q := qhat;
  }

  lemma OneBorrow(w: seq<Limb>, n: nat, dropped: int)
    requires |w| == n + 1 && 0 <= dropped <= 1
    ensures 0 <= Val(w) < Up(1, n + 1)
    ensures Up(dropped, n + 1) == if dropped == 1 then Up(1, n + 1) else 0
  {
    ValBound(w);
    UpMono(0, 0, n + 1);
  }

  // The main loop: u / v into q, the remainder left in u[..n].
  method KnuthLoop(u: array<Limb>, m: nat, v: array<Limb>, n: nat, q: array<Limb>)
    requires Normalized(v, n) && u.Length == m + n + 1 && q.Length == m + 1
    requires u != v && u != q && q != v
    requires forall k :: 0 <= k <= m ==> q[k] == 0
    requires Val(u[m + 1..]) < Val(v[..])
    modifies u, q
    ensures old(Val(u[..])) == Val(q[..]) * Val(v[..]) + Val(u[..n])
    ensures 0 <= Val(u[..n]) < Val(v[..])
  {
    ghost var u0, vv := Val(u[..]), Val(v[..]);
    ValZeros(q[..]);
    var j := m;
    assert u[m + 1..m + 1 + n] == u[m + 1..];
    while j >= 0
      invariant -1 <= j <= m && v[..] == old(v[..])
      invariant forall k :: 0 <= k <= j ==> q[k] == 0
      invariant forall k :: j + 1 + n <= k < u.Length ==> u[k] == 0
      invariant Val(u[j + 1..j + 1 + n]) < vv
      invariant u0 == Val(u[..]) + Val(q[..]) * vv
    {
      KnuthTurn(u, j, v, n, q);
      j := j - 1;
    }
    assert u[0..n] == u[..n];
    ZeroTail(u[..], n);
    ValBound(u[..n]);
  }

  // A turn moves one quotient limb's worth of v from u to q.
  method KnuthTurn(u: array<Limb>, j: nat, v: array<Limb>, n: nat, q: array<Limb>)
    requires Normalized(v, n) && j + n < u.Length && j < q.Length
    requires u != v && u != q && q != v && q[j] == 0
    requires Val(u[j + 1..j + 1 + n]) < Val(v[..])
    modifies u, q
    ensures forall k :: 0 <= k < j ==> q[k] == old(q[k])
    ensures forall k :: j + 1 + n <= k < u.Length ==> u[k] == old(u[k])
    ensures u[j + n] == 0 && Val(u[j..j + n]) < Val(v[..])
    ensures Val(u[..]) + Val(q[..]) * Val(v[..]) == old(Val(u[..]) + Val(q[..]) * Val(v[..]))
  {
    hide Val, Up;
    ghost var before, qBefore, vv := u[..], q[..], Val(v[..]);
    LowOfWindow(u, j, n);
    var qj: Limb := KnuthStep(u, j, v, n);
    ghost var k := j + n + 1;
    assert before == before[..j] + before[j..k] + before[k..];
    assert u[..] == before[..j] + u[j..k] + before[k..];
    assert before[j..k] == old(u[j..k]);
    WindowChange(before[..j], before[j..k], u[j..k], before[k..], qj * vv);
    TopVanishes(u, j, n, v[..]);
    forall k | j + 1 + n <= k < u.Length ensures u[k] == before[k] {
      assert u[k] == u[j + n + 1..][k - (j + n + 1)];
      assert before[k] == before[j + n + 1..][k - (j + n + 1)];
    }
    q[j] := qj;
    assert q[..] == qBefore[j := qj];
    Update(qBefore, j, qj);
    UpMono(0, 0, j);
    DistribUp(Val(qBefore), qj, vv, j);
  }

  lemma LowOfWindow(u: array<Limb>, j: nat, n: nat)
    requires j + n < u.Length
    ensures Val(u[j..j + n + 1]) == u[j] + BASE * Val(u[j + 1..j + 1 + n])
  {
    Cons(u[j], u[j + 1..j + 1 + n]);
    assert u[j..j + n + 1] == [u[j]] + u[j + 1..j + 1 + n];
  }

  lemma WindowChange(p: seq<Limb>, w: seq<Limb>, w': seq<Limb>, r: seq<Limb>, x: int)
    requires |w| == |w'| && Val(w') == Val(w) - x
    ensures Val(p + w' + r) == Val(p + w + r) - Up(x, |p|)
  {
    Concat(p + w, r);
    Concat(p + w', r);
    Concat(p, w);
    Concat(p, w');
    UpAdd(Val(w), x, |p|);
  }

  lemma TopVanishes(u: array<Limb>, j: nat, n: nat, v: seq<Limb>)
    requires j + n < u.Length && |v| == n && Val(u[j..j + n + 1]) < Val(v)
    ensures u[j + n] == 0 && Val(u[j..j + n]) == Val(u[j..j + n + 1])
  {
    TopOfWindow(u, j, n);
    ValBound(v);
    ValBound(u[j..j + n]);
    UpMono(1, u[j + n], n);
    UpMono(0, 0, n);
  }

  lemma ZeroTail(s: seq<Limb>, n: nat)
    requires n <= |s| && forall k :: n <= k < |s| ==> s[k] == 0
    ensures Val(s) == Val(s[..n])
  {
    Split(s, n);
    ValZeros(s[n..]);
    UpMono(0, 0, n);
  }

  ghost function Top(s: seq<Limb>): int
    requires |s| > 0
  {
    s[|s| - 1]
  }

  // The top limb of a number brackets it.
  lemma TopBounds(s: seq<Limb>)
    requires |s| > 0
    ensures Up(Top(s), |s| - 1) <= Val(s) < Up(Top(s) + 1, |s| - 1)
  {
    Last(s);
    ValBound(s[..|s| - 1]);
    UpAdd(Top(s), 1, |s| - 1);
  }

  // A divisor of two or more limbs, shifted so that its top bit is set.
  method Normalize(b: array<Limb>, bn: nat) returns (v: array<Limb>, s: nat)
    requires 2 <= bn <= b.Length && b[bn - 1] != 0
    ensures fresh(v) && s < 32 && Normalized(v, bn)
    ensures Val(v[..]) == Twice(Val(b[..bn]), s)
  {
    s := Clz32(b[bn - 1]);
    v := new Limb[bn](_ => 0);
    NormalFits(b[..bn], s);
    var used := ShlBits(b, bn, s, v);
    assert v[..bn] == v[..];
    NormalTop(b[..bn], v[..], s);
  }

  lemma NormalFits(b: seq<Limb>, s: nat)
    requires |b| > 0 && s < 32 && Twice(b[|b| - 1], s) < BASE
    ensures Twice(Val(b), s) < Up(1, |b|)
  {
    var n, top := |b| - 1, Top(b) + 1;
    TopBounds(b);
    Twice32();
    TwiceTwice(1, 32 - s, s);
    TwiceLess(Top(b), Twice(1, 32 - s), s);
    TwiceMono(top, Twice(1, 32 - s), s);
    TwiceLess(Val(b), Up(top, n), s);
    TwiceUp(top, n, s);
    UpMono(Twice(top, s), BASE, n);
    UpUp(1, 1, n);
    assert Up(1, 1) == BASE * Up(1, 0);
  }

  lemma NormalTop(b: seq<Limb>, v: seq<Limb>, s: nat)
    requires |b| == |v| > 0 && Val(v) == Twice(Val(b), s)
    requires BASE / 2 <= Twice(b[|b| - 1], s)
    ensures v[|v| - 1] >= 0x8000_0000
  {
    var n := |b| - 1;
    TopBounds(b);
    TopBounds(v);
    TwiceMono(Up(b[n], n), Val(b), s);
    TwiceUp(b[n], n, s);
    UpMono(BASE / 2, Twice(b[n], s), n);
    UpMono(Top(v) + 1, BASE / 2, n);
  }

  // The dividend shifted as far as the divisor, one limb longer.
  method ShiftDividend(a: array<Limb>, an: nat, s: nat) returns (u: array<Limb>)
    requires an <= a.Length && s < 32
    ensures fresh(u) && u.Length == an + 1
    ensures Val(u[..]) == Twice(Val(a[..an]), s)
  {
    u := new Limb[an + 1](_ => 0);
    var used := ShlBits(a, an, s, u);
    assert u[..][..used] == u[..used];
    ZeroTail(u[..], used);
  }

  lemma TopSmall(a: seq<Limb>, u: seq<Limb>, v: seq<Limb>, m: nat, s: nat)
    requires |a| == m + |v| && |u| == |a| + 1 && s < 32 && |v| > 0
    requires Val(u) == Twice(Val(a), s) && v[|v| - 1] >= 0x8000_0000
    ensures Val(u[m + 1..]) < Val(v)
  {
    var n, half := |v|, Up(BASE / 2, |v| - 1);
    TopBounds(v);
    UpMono(BASE / 2, v[n - 1], n - 1);
    ShiftedDividendFits(a, s);
    UpUp(BASE / 2, n - 1, m + 1);
    TopBelow(u, m + 1, half, Up(BASE / 2, |a|));
  }

  lemma ShiftedDividendFits(a: seq<Limb>, s: nat)
    requires s < 32
    ensures Twice(Val(a), s) < Up(BASE / 2, |a|)
  {
    ValBound(a);
    TwiceLess(Val(a), Up(1, |a|), s);
    TwiceUp(1, |a|, s);
    Twice32();
    TwiceTwice(1, s, 31 - s);
    TwiceGrows(1, s);
    TwiceGrows(Twice(1, s), 31 - s);
    UpMono(Twice(1, s), BASE / 2, |a|);
  }

  lemma {:induction false} TwiceGrows(x: int, n: nat)
    requires x >= 0 || n == 0
    ensures x <= Twice(x, n)
    decreases n
  {
    if n > 0 {
      TwiceGrows(x, n - 1);
    }
  }

  lemma TopBelow(u: seq<Limb>, k: nat, y: int, bound: int)
    requires k <= |u| && Val(u) < bound == Up(y, k)
    ensures Val(u[k..]) < y
  {
    Split(u, k);
    ValBound(u[..k]);
    UpMono(y, Val(u[k..]), k);
  }

  lemma Denormalize(a: int, s: nat, qb: int, b: int, r: int)
    requires Twice(a, s) == Twice(qb, s) + r && 0 <= r < Twice(b, s)
    ensures r / Pow2(s) == a - qb && 0 <= a - qb < b
  {
    var x := a - qb;
    TwiceSub(a, qb, s);
    TwiceLess(x, b, s);
    TwiceLess(x, 0, s);
    TwiceDiv(x, s);
  }

  lemma TwiceDiv(x: int, s: nat)
    ensures Twice(x, s) / Pow2(s) == x
  {
    TwiceIsTimes(x, s);
    DivUnique(Twice(x, s), Pow2(s), x, 0);
  }

  lemma {:induction false} TwiceSub(x: int, y: int, n: nat)
    ensures Twice(x - y, n) == Twice(x, n) - Twice(y, n) && Twice(0, n) == 0
    decreases n
  {
    if n > 0 {
      TwiceSub(x, y, n - 1);
    }
  }

  lemma {:induction false} TwiceScale(q: int, x: int, n: nat)
    ensures q * Twice(x, n) == Twice(q * x, n)
    decreases n
  {
    if n > 0 {
      TwiceScale(q, x, n - 1);
      assert q * (2 * Twice(x, n - 1)) == 2 * (q * Twice(x, n - 1));
    }
  }

  method FromLimbs(s: array<Limb>, n: nat) returns (r: Bignum)
    requires n <= s.Length
    ensures fresh(r) && fresh(r.limbs) && r.Trimmed() && r.sign == 0 && r.Mag() == Val(s[..n])
  {
    r := new Bignum(n);
    forall k | 0 <= k < n { r.limbs[k] := s[k]; }
    r.count := n;
    assert r.limbs[..n] == s[..n];
    r.Trim();
  }

  // Algorithm D, for a divisor of two or more limbs.
  method MagDivmodKnuth(a: array<Limb>, an: nat, b: array<Limb>, bn: nat) returns (q: Bignum, r: Bignum)
    requires an <= a.Length && 2 <= bn <= b.Length && b[bn - 1] != 0
    ensures fresh(q) && fresh(q.limbs) && q.Trimmed() && q.sign == 0
    ensures fresh(r) && fresh(r.limbs) && r.Trimmed() && r.sign == 0
    ensures q != r && q.limbs != r.limbs
    ensures Val(a[..an]) == q.Mag() * Val(b[..bn]) + r.Mag() && r.Mag() < Val(b[..bn])
  {
    if an < bn {
      LongerIsLarger(a[..an], b[..bn]);
      q := new Bignum(1);
      r := FromLimbs(a, an);
      return;
    }
    hide Val, Twice;
    var m := an - bn;
    var v, s := Normalize(b, bn);
    var u := ShiftDividend(a, an, s);
    var qq := new Limb[m + 1](_ => 0);
    TopSmall(a[..an], u[..], v[..], m, s);
    KnuthLoop(u, m, v, bn, qq);
    TwiceScale(Val(qq[..]), Val(b[..bn]), s);
    Denormalize(Val(a[..an]), s, Val(qq[..]) * Val(b[..bn]), Val(b[..bn]), Val(u[..bn]));
    q := FromLimbs(qq, m + 1);
    assert qq[..m + 1] == qq[..];
    r := DenormalizedRemainder(u, bn, s);
  }

  method DenormalizedRemainder(u: array<Limb>, bn: nat, s: nat) returns (r: Bignum)
    requires bn <= u.Length && s < 32
    ensures fresh(r) && fresh(r.limbs) && r.Trimmed() && r.sign == 0 && r.Mag() == Val(u[..bn]) / Pow2(s)
  {
    r := new Bignum(bn);
    ShrBits(u, 0, bn, s, r.limbs);
    assert u[0..0 + bn] == u[..bn];
    r.count := bn;
    r.Trim();
  }

  method MagDivmod(a: array<Limb>, an: nat, b: array<Limb>, bn: nat) returns (q: Bignum, r: Bignum)
    requires an <= a.Length && 1 <= bn <= b.Length && b[bn - 1] != 0
    ensures fresh(q) && fresh(q.limbs) && q.Trimmed() && q.sign == 0
    ensures fresh(r) && fresh(r.limbs) && r.Trimmed() && r.sign == 0
    ensures q != r && q.limbs != r.limbs
    ensures Val(a[..an]) == q.Mag() * Val(b[..bn]) + r.Mag() && r.Mag() < Val(b[..bn])
  {
    if bn != 1 {
      q, r := MagDivmodKnuth(a, an, b, bn);
      return;
    }
    Prefixes(b, 0);
    assert b[..0] == [];
    q := new Bignum(an);
    var rem: Limb := 0;
    if an > 0 {
      rem := MagDivmodSmall(a, an, b[0], q.limbs);
    }
    q.count := an;
    q.Trim();
    r := new Bignum(1);
    if rem != 0 {
      r.limbs[0] := rem;
      r.count := 1;
      Prefixes(r.limbs, 0);
      assert r.limbs[..0] == [];
    }
  }

  // ----- signed division -----

  // What truncating division promises; b is not zero.
  ghost predicate TruncDivision(a: int, b: int, q: int, r: int) {
    && a == q * b + r
    && (if b > 0 then -b < r < b else b < r < -b)
    && (a >= 0 ==> r >= 0) && (a <= 0 ==> r <= 0)
  }

  // What floor division promises: the remainder takes the sign of b.
  ghost predicate FloorDivision(a: int, b: int, q: int, r: int) {
    && a == q * b + r
    && (if b > 0 then 0 <= r < b else b < r <= 0)
  }

  ghost function Signed(positive: bool, m: int): int {
    if positive then m else -m
  }

  lemma TruncFromMagnitudes(a: int, b: int, q: int, r: int, x: bool, y: bool)
    requires a > 0 && b > 0 && a == q * b + r && 0 <= r < b
    ensures TruncDivision(Signed(x, a), Signed(y, b), Signed(x == y, q), Signed(x, r))
  {
    Signs(q, b);
  }

  lemma FloorFromTrunc(a: int, b: int, q: int, r: int)
    requires b != 0 && TruncDivision(a, b, q, r)
    ensures r != 0 && (a > 0) != (b > 0) ==> FloorDivision(a, b, q - 1, r + b)
    ensures r == 0 || (a > 0) == (b > 0) ==> FloorDivision(a, b, q, r)
  {
    Distrib(q, -1, b);
  }

  // Truncating division; false when b is zero (q and r then mean nothing).
  method DivmodTrunc(a: Bignum, b: Bignum) returns (ok: bool, q: Bignum, r: Bignum)
    requires a.Canonical() && b.Canonical()
    ensures ok <==> b.Value() != 0
    ensures fresh(q) && fresh(q.limbs) && fresh(r) && fresh(r.limbs) && q.Canonical() && r.Canonical()
    ensures ok ==> TruncDivision(a.Value(), b.Value(), q.Value(), r.Value())
  {
    CanonicalZero(a);
    CanonicalZero(b);
    if b.sign == 0 || a.sign == 0 {
      q := new Bignum(1);
      r := new Bignum(1);
      ok := b.sign != 0;
      return;
    }
    q, r := DivmodNonZero(a, b);
    ok := true;
  }

  method DivmodNonZero(a: Bignum, b: Bignum) returns (q: Bignum, r: Bignum)
    requires a.Canonical() && b.Canonical() && a.sign != 0 && b.sign != 0
    ensures fresh(q) && fresh(q.limbs) && fresh(r) && fresh(r.limbs) && q.Canonical() && r.Canonical()
    ensures TruncDivision(a.Value(), b.Value(), q.Value(), r.Value())
  {
    CanonicalZero(a);
    CanonicalZero(b);
    q, r := MagDivmod(a.limbs, a.count, b.limbs, b.count);
    TruncFromMagnitudes(a.Mag(), b.Mag(), q.Mag(), r.Mag(), a.sign > 0, b.sign > 0);
    SetSign(q, if a.sign == b.sign then 1 else -1);
    SetSign(r, a.sign);
  }

  // A result straight from its magnitude takes its sign from here.
  method SetSign(r: Bignum, sign: int)
    requires r.Trimmed() && (sign == 1 || sign == -1)
    modifies r`sign
    ensures r.Canonical() && r.Value() == Signed(sign > 0, r.Mag()) && r.Mag() == old(r.Mag())
  {
    r.sign := if r.count == 0 then 0 else sign;
  }

  method DivmodFloor(a: Bignum, b: Bignum) returns (ok: bool, q: Bignum, r: Bignum)
    requires a.Canonical() && b.Canonical()
    ensures ok <==> b.Value() != 0
    ensures fresh(q) && fresh(q.limbs) && fresh(r) && fresh(r.limbs) && q.Canonical() && r.Canonical()
    ensures ok ==> FloorDivision(a.Value(), b.Value(), q.Value(), r.Value())
  {
    ok, q, r := DivmodTrunc(a, b);
    if !ok {
      return;
    }
    CanonicalZero(a);
    CanonicalZero(b);
    CanonicalZero(r);
    FloorFromTrunc(a.Value(), b.Value(), q.Value(), r.Value());
    if r.sign != 0 && a.sign != b.sign {
      q := MinusOne(q);
      r := Add(r, b);
    }
  }

  method MinusOne(a: Bignum) returns (r: Bignum)
    requires a.Canonical()
    ensures fresh(r) && fresh(r.limbs) && r.Canonical() && r.Value() == a.Value() - 1
  {
    var one := FromInt64(1);
    r := Sub(a, one);
  }
}
