// Powers of two, bits of integers, and the bit operations of C on one uint32_t.
module Bits {
  import opened Limbs

  // 2^n
  function Pow2(n: nat): (p: int)
    ensures p >= 1
  {
    if n == 0 then 1 else 2 * Pow2(n - 1)
  }

  // x * 2^n, by recursion
  ghost function Twice(x: int, n: nat): int
    decreases n
  {
    if n == 0 then x else 2 * Twice(x, n - 1)
  }

  lemma {:induction false} TwiceIsTimes(x: int, n: nat)
    ensures Twice(x, n) == x * Pow2(n)
    decreases n
  {
    if n > 0 {
      TwiceIsTimes(x, n - 1);
      assert 2 * (x * Pow2(n - 1)) == x * (2 * Pow2(n - 1));
    }
  }

  lemma {:induction false} TwiceMono(x: int, y: int, n: nat)
    requires x <= y
    ensures Twice(x, n) <= Twice(y, n)
    decreases n
  {
    if n > 0 {
      TwiceMono(x, y, n - 1);
    }
  }

  lemma {:induction false} TwiceTwice(x: int, m: nat, n: nat)
    ensures Twice(Twice(x, m), n) == Twice(x, m + n)
    decreases n
  {
    if n > 0 {
      TwiceTwice(x, m, n - 1);
    }
  }

  lemma {:induction false} TwiceUp(x: int, m: nat, n: nat)
    ensures Twice(Up(x, m), n) == Up(Twice(x, n), m)
    decreases n, m
  {
    if n > 0 {
      TwiceUp(x, m, n - 1);
      UpAdd(Twice(x, n - 1), Twice(x, n - 1), m);
    }
  }

  lemma {:induction false} TwiceLess(x: int, y: int, n: nat)
    ensures x < y <==> Twice(x, n) < Twice(y, n)
    decreases n
  {
    if n > 0 {
      TwiceLess(x, y, n - 1);
    }
  }

  lemma Twice32()
    ensures Twice(1, 32) == BASE
  {
    assert Twice(1, 8) == 0x100;
    assert Twice(1, 16) == 0x1_0000;
    assert Twice(1, 24) == 0x100_0000;
  }

  lemma {:induction false} Pow2Add(m: nat, n: nat)
    ensures Pow2(m + n) == Pow2(m) * Pow2(n)
  {
    if m > 0 {
      Pow2Add(m - 1, n);
      assert 2 * (Pow2(m - 1) * Pow2(n)) == (2 * Pow2(m - 1)) * Pow2(n);
    } else {
      assert 1 * Pow2(n) == Pow2(n);
    }
  }

  lemma Pow2Split(s: nat)
    requires s <= 32
    ensures Pow2(s) * Pow2(32 - s) == BASE
  {
    Pow2Add(s, 32 - s);
    Twice32();
    TwiceIsTimes(1, 32);
  }

  // ----- bit operations on limbs -----

  datatype Op = And | Or | Xor

  function Apply(op: Op, x: bool, y: bool): bool {
    match op
    case And => x && y
    case Or => x || y
    case Xor => x != y
  }

  // The low `width` bits of `x op y`.
  function Bitwise(op: Op, x: nat, y: nat, width: nat): nat {
    if width == 0 then 0
    else 2 * Bitwise(op, x / 2, y / 2, width - 1) + (if Apply(op, x % 2 == 1, y % 2 == 1) then 1 else 0)
  }

  lemma {:induction false} BitwiseBound(op: Op, x: nat, y: nat, width: nat)
    ensures Bitwise(op, x, y, width) < Pow2(width)
  {
    if width > 0 {
      BitwiseBound(op, x / 2, y / 2, width - 1);
    }
  }

  // x | y, x << s, x >> s and ~x of a uint32_t
  function Bitwise32(op: Op, x: Limb, y: Limb): Limb {
    Twice32();
    TwiceIsTimes(1, 32);
    BitwiseBound(op, x, y, 32);
    Bitwise(op, x, y, 32)
  }

  function Shl32(x: Limb, s: nat): Limb
    requires s < 32
  {
    (x * Pow2(s)) % BASE
  }

  function Shr32(x: Limb, s: nat): Limb
    requires s < 32
  {
    QuotientBound(x, Pow2(s));
    x / Pow2(s)
  }

  function Not32(x: Limb): Limb {
    BASE - 1 - x
  }

  lemma QuotientBound(x: int, p: int)
    requires x >= 0 && p >= 1
    ensures 0 <= x / p <= x
  {
    assert p * (x / p) <= x;
    if x / p > x {
      MulLe(1, p, x / p);
    }
  }

  lemma MulLe(x: int, y: int, z: int)
    requires x <= y && 0 <= z
    ensures x * z <= y * z
  {
  }

  // `|` of operands without a common bit adds.
  lemma {:induction false} OrDisjoint(x: nat, y: nat, s: nat, width: nat)
    requires s <= width && x % Pow2(s) == 0 && y < Pow2(s)
    requires x + y < Pow2(width)
    ensures Bitwise(Or, x, y, width) == x + y
  {
    if width > 0 {
      if s == 0 {
        OrZero(x, width);
      } else {
        var p := Pow2(s - 1);
        HalfMultiple(x, p);
        OrDisjoint(x / 2, y / 2, s - 1, width - 1);
      }
    }
  }

  lemma {:induction false} OrZero(x: nat, width: nat)
    requires x < Pow2(width)
    ensures Bitwise(Or, x, 0, width) == x
  {
    if width > 0 {
      OrZero(x / 2, width - 1);
    }
  }

  lemma HalfMultiple(x: int, p: int)
    requires p >= 1 && x % (2 * p) == 0
    ensures x % 2 == 0 && (x / 2) % p == 0
  {
    var k := x / (2 * p);
    assert x == 2 * (p * k);
    assert x / 2 == p * k;
    MultipleMod(p, k);
  }

  lemma MultipleMod(p: int, k: int)
    requires p >= 1
    ensures (p * k) % p == 0
  {
    DivUnique(p * k, p, k, 0);
  }

  lemma DivUnique(x: int, p: int, q: int, r: int)
    requires p >= 1 && x == p * q + r && 0 <= r < p
    ensures x / p == q && x % p == r
  {
    var d := x / p - q;
    assert p * (x / p) + x % p == x;
    assert p * d == r - x % p;
    if d >= 1 {
      MulLe(1, d, p);
    } else if d <= -1 {
      MulLe(d, -1, p);
    }
  }

  // ----- bits of integers, negative ones sign-extended for ever -----

  ghost predicate Bit(x: int, i: nat)
    decreases i
  {
    if i == 0 then x % 2 == 1 else Bit(x / 2, i - 1)
  }

  lemma {:induction false} FloorFloor(x: int, p: int, q: int)
    requires p >= 1 && q >= 1
    ensures p * q >= 1 && x / (p * q) == (x / p) / q
  {
    var y, z := x / p, (x / p) / q;
    assert x == p * y + x % p;
    assert y == q * z + y % q;
    MulLe(1, q, p);
    MulLe(y % q, q - 1, p);
    MulLe(0, y % q, p);
    assert p * (q * z + y % q) == (p * q) * z + p * (y % q);
    assert p * (q - 1) == p * q - p;
    DivUnique(x, p * q, z, p * (y % q) + x % p);
  }

  // Bit i of x is floor(x / 2^i) mod 2.
  lemma {:induction false} BitIsFloor(x: int, i: nat)
    ensures Bit(x, i) <==> (x / Pow2(i)) % 2 == 1
    decreases i
  {
    if i > 0 {
      BitIsFloor(x / 2, i - 1);
      FloorFloor(x, 2, Pow2(i - 1));
    }
  }

  lemma {:induction false} BitOfHigh(x: int, m: nat, i: nat)
    ensures Bit(x, m + i) == Bit(x / Pow2(m), i)
    decreases m
  {
    if m > 0 {
      BitOfHigh(x / 2, m - 1, i);
      FloorFloor(x, 2, Pow2(m - 1));
    }
  }

  lemma {:induction false} BitOfLow(r: int, y: int, m: nat, i: nat)
    requires i < m
    ensures Bit(r + Twice(y, m), i) == Bit(r, i)
    decreases i
  {
    assert (r + Twice(y, m)) % 2 == r % 2 && (r + Twice(y, m)) / 2 == r / 2 + Twice(y, m - 1);
    if i > 0 {
      BitOfLow(r / 2, y, m - 1, i - 1);
    }
  }

  // All bits of 0 are clear and all bits of -1 are set.
  lemma {:induction false} BitOfSign(x: int, i: nat)
    requires x == 0 || x == -1
    ensures Bit(x, i) <==> x == -1
    decreases i
  {
    if i > 0 {
      BitOfSign(x / 2, i - 1);
    }
  }

  lemma {:induction false} BitwiseBit(op: Op, x: nat, y: nat, width: nat, i: nat)
    requires i < width
    ensures Bit(Bitwise(op, x, y, width), i) == Apply(op, Bit(x, i), Bit(y, i))
    decreases i
  {
    var r := Bitwise(op, x / 2, y / 2, width - 1);
    assert Bitwise(op, x, y, width) / 2 == r;
    if i > 0 {
      BitwiseBit(op, x / 2, y / 2, width - 1, i - 1);
    }
  }

  lemma {:induction false} NotBit(x: int, i: nat)
    ensures Bit(-x - 1, i) == !Bit(x, i)
    decreases i
  {
    assert (-x - 1) / 2 == -(x / 2) - 1;
    if i > 0 {
      NotBit(x / 2, i - 1);
    }
  }

  // The bits of an integer say which integer it is.
  lemma {:induction false} BitsDetermine(x: int, y: int)
    requires forall i: nat :: Bit(x, i) == Bit(y, i)
    ensures x == y
    decreases (if x < 0 then -x else x) + (if y < 0 then -y else y)
  {
    assert Bit(x, 0) == Bit(y, 0);
    forall i: nat ensures Bit(x / 2, i) == Bit(y / 2, i) {
      assert Bit(x, i + 1) == Bit(y, i + 1);
    }
    if x / 2 != x || y / 2 != y {
      BitsDetermine(x / 2, y / 2);
    }
  }
}
