// Walking over containers with a trail of those being walked over, innermost last
// (native/json.c, native/portable.c): how many are left.
module Trails {

  ghost function Off<T>(all: set<T>, trail: seq<T>): (n: nat)
  {
    |all - set c | c in trail|
  }

  lemma PushShrinks<T>(all: set<T>, trail: seq<T>, c: T)
    requires c in all && c !in trail
    ensures Off(all, trail + [c]) < Off(all, trail)
  {
    var a, b := all - (set x | x in trail), all - (set x | x in trail + [c]);
    assert c in a && c !in b && b <= a;
    assert b <= a - {c};
    Smaller(b, a - {c});
  }

  lemma {:induction false} Smaller<T>(a: set<T>, b: set<T>)
    requires a <= b
    ensures |a| <= |b|
    decreases |a|
  {
    if a != {} {
      var x :| x in a;
      Smaller(a - {x}, b - {x});
    }
  }
}
