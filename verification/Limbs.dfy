// Base-2^32 digit sequences: their value, and the arithmetic facts that the
// limb loops of the bignum code rest on.
module Limbs {

  const BASE: int := 0x1_0000_0000

  // uint32_t, uint64_t and int64_t.  Giving a local one of these types is what
  // makes the verifier show that the C arithmetic never wraps there.
  type Limb = x: int | 0 <= x < 0x1_0000_0000
  type U64 = x: int | 0 <= x < 0x1_0000_0000_0000_0000
  type I64 = x: int | -0x8000_0000_0000_0000 <= x < 0x8000_0000_0000_0000

  // x * BASE^n, by recursion: the limb loops reason about it with linear
  // arithmetic alone.
  ghost function Up(x: int, n: nat): int {
    if n == 0 then x else BASE * Up(x, n - 1)
  }

  // The number whose little-endian limbs are s.
  ghost function Val(s: seq<Limb>): int {
    ValUpTo(s, |s|)
  }

  // The number formed by the low n limbs of s.
  ghost function ValUpTo(s: seq<Limb>, n: nat): int
    requires n <= |s|
  {
    if n == 0 then 0 else ValUpTo(s, n - 1) + Up(s[n - 1], n - 1)
  }

  // ----- Up -----

  lemma {:induction false} UpAdd(x: int, y: int, n: nat)
    ensures Up(x + y, n) == Up(x, n) + Up(y, n)
    ensures Up(x - y, n) == Up(x, n) - Up(y, n)
  {
    if n > 0 {
      UpAdd(x, y, n - 1);
    }
  }

  lemma {:induction false} UpNeg(x: int, n: nat)
    ensures Up(-x, n) == -Up(x, n)
  {
    if n > 0 {
      UpNeg(x, n - 1);
    }
  }

  lemma {:induction false} UpUp(x: int, m: nat, n: nat)
    ensures Up(Up(x, m), n) == Up(x, m + n)
  {
    if n > 0 {
      UpUp(x, m, n - 1);
    }
  }

  // One limb equation x == r + BASE * c, at weight i.
  lemma UpCarry(x: int, r: int, c: int, i: nat)
    requires x == r + BASE * c
    ensures Up(x, i) == Up(r, i) + Up(c, i + 1)
  {
    UpAdd(r, BASE * c, i);
    UpUp(c, 1, i);
    assert Up(c, 1) == BASE * Up(c, 0);
  }

  lemma {:induction false} UpMono(x: int, y: int, n: nat)
    ensures x <= y ==> Up(x, n) <= Up(y, n)
    ensures x < y ==> Up(x, n) < Up(y, n)
    ensures Up(0, n) == 0
  {
    if n > 0 {
      UpMono(x, y, n - 1);
    }
  }

  lemma {:induction false} UpGrows(x: int, m: nat, n: nat)
    requires m <= n && 0 <= x
    ensures Up(x, m) <= Up(x, n)
  {
    if m < n {
      UpGrows(x, m, n - 1);
      UpMono(0, x, n - 1);
    }
  }

  lemma {:induction false} UpScale(x: int, y: int, n: nat)
    ensures Up(x * y, n) == x * Up(y, n)
  {
    if n > 0 {
      UpScale(x, y, n - 1);
      assert x * (BASE * Up(y, n - 1)) == BASE * (x * Up(y, n - 1));
    }
  }

  lemma UpProduct(m: nat, n: nat)
    ensures Up(1, m) * Up(1, n) == Up(1, m + n)
  {
    UpScale(Up(1, m), 1, n);
    UpUp(1, m, n);
  }

  // ----- Val -----

  lemma {:induction false} SameLimbs(s: seq<Limb>, t: seq<Limb>, n: nat)
    requires n <= |s| && n <= |t| && forall i :: 0 <= i < n ==> s[i] == t[i]
    ensures ValUpTo(s, n) == ValUpTo(t, n)
  {
    if n > 0 {
      SameLimbs(s, t, n - 1);
    }
  }

  lemma Last(s: seq<Limb>)
    requires |s| > 0
    ensures Val(s) == Val(s[..|s| - 1]) + Up(s[|s| - 1], |s| - 1)
  {
    SameLimbs(s, s[..|s| - 1], |s| - 1);
  }

  lemma Snoc(s: seq<Limb>, i: nat)
    requires i < |s|
    ensures Val(s[..i + 1]) == Val(s[..i]) + Up(s[i], i)
  {
    Last(s[..i + 1]);
    assert s[..i + 1][..i] == s[..i];
  }

  lemma {:induction false} ValBound(s: seq<Limb>)
    ensures 0 <= Val(s) < Up(1, |s|)
  {
    if |s| > 0 {
      var t, x: int := s[..|s| - 1], s[|s| - 1];
      Last(s);
      ValBound(t);
      UpMono(0, x, |t|);
      UpMono(x + 1, BASE, |t|);
      UpAdd(x, 1, |t|);
      UpUp(1, 1, |t|);
      assert Up(1, 1) == BASE * Up(1, 0);
    }
  }

  lemma {:induction false} Concat(s: seq<Limb>, t: seq<Limb>)
    ensures Val(s + t) == Val(s) + Up(Val(t), |s|)
  {
    if |t| == 0 {
      assert s + t == s;
      UpMono(0, 0, |s|);
    } else {
      var t', x := t[..|t| - 1], t[|t| - 1];
      Last(t);
      Last(s + t);
      assert (s + t)[..|s + t| - 1] == s + t';
      Concat(s, t');
      UpUp(x, |t'|, |s|);
      UpAdd(Val(t'), Up(x, |t'|), |s|);
    }
  }

  lemma Split(s: seq<Limb>, i: nat)
    requires i <= |s|
    ensures Val(s) == Val(s[..i]) + Up(Val(s[i..]), i)
  {
    assert s == s[..i] + s[i..];
    Concat(s[..i], s[i..]);
  }

  lemma {:induction false} ValZeros(s: seq<Limb>)
    requires forall i :: 0 <= i < |s| ==> s[i] == 0
    ensures Val(s) == 0
  {
    if |s| > 0 {
      Last(s);
      ValZeros(s[..|s| - 1]);
      UpMono(0, 0, |s| - 1);
    }
  }

  // A number with a non-zero top limb is at least the weight of that limb.
  lemma ValTop(s: seq<Limb>)
    requires |s| > 0 && s[|s| - 1] != 0
    ensures Val(s) >= Up(1, |s| - 1) >= 1
  {
    Last(s);
    ValBound(s[..|s| - 1]);
    UpMono(1, s[|s| - 1], |s| - 1);
    UpMono(0, 1, |s| - 1);
  }

  lemma LongerIsLarger(s: seq<Limb>, t: seq<Limb>)
    requires |s| < |t| && t[|t| - 1] != 0
    ensures Val(s) < Val(t)
  {
    ValBound(s);
    ValTop(t);
    UpGrows(1, |s|, |t| - 1);
  }

  // The most significant differing limb decides.
  lemma FirstDifference(s: seq<Limb>, t: seq<Limb>, i: nat)
    requires i < |s| == |t|
    requires s[i] < t[i] && s[i + 1..] == t[i + 1..]
    ensures Val(s) < Val(t)
  {
    Split(s, i + 1);
    Split(t, i + 1);
    Snoc(s, i);
    Snoc(t, i);
    ValBound(s[..i]);
    ValBound(t[..i]);
    var x: int := s[i];
    UpMono(x + 1, t[i], i);
    UpAdd(s[i], 1, i);
  }

  // Each number below BASE^n has one n-limb form.
  lemma {:induction false} ValInjective(s: seq<Limb>, t: seq<Limb>)
    requires |s| == |t| && Val(s) == Val(t)
    ensures s == t
  {
    if |s| > 0 {
      var m := |s| - 1;
      Last(s);
      Last(t);
      ValBound(s[..m]);
      ValBound(t[..m]);
      if s[m] < t[m] {
        FirstDifference(s, t, m);
      } else if t[m] < s[m] {
        FirstDifference(t, s, m);
      } else {
        ValInjective(s[..m], t[..m]);
        assert s == s[..m] + [s[m]] && t == t[..m] + [t[m]];
      }
    }
  }

  lemma Update(s: seq<Limb>, k: nat, x: Limb)
    requires k < |s|
    ensures Val(s[k := x]) == Val(s) - Up(s[k], k) + Up(x, k)
  {
    var t := s[k := x];
    Split(s, k + 1);
    Split(t, k + 1);
    Snoc(s, k);
    Snoc(t, k);
    assert t[..k] == s[..k] && t[k + 1..] == s[k + 1..];
  }

  lemma ProductBound(s: seq<Limb>, t: seq<Limb>)
    ensures 0 <= Val(s) * Val(t) < Up(1, |s| + |t|)
  {
    ValBound(s);
    ValBound(t);
    Bounds(Val(s), Up(1, |s|), Val(t), Up(1, |t|));
    UpProduct(|s|, |t|);
  }

  lemma Bounds(x: int, x': int, y: int, y': int)
    requires 0 <= x < x' && 0 <= y < y'
    ensures 0 <= x * y < x' * y'
  {
    assert x * y <= x * y';
    assert x * y' < x' * y';
  }
}
