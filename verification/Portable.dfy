// Carrying values from one VM's heap to another's (native/portable.c): a deep
// copy that refuses cycles and whatever belongs to its heap, and the rebuilding
// of that copy on another heap.
module Portable {
  import opened Trails
  import opened Wrappers

  // Everything that is not a container: what can cross is an Atom, by content
  // (ghost, boolski, numba, yapstring, blob); what cannot is a Local.
  datatype Value = Atom(content: nat) | Local(id: nat) | Ref(c: Container)

  // An ObjStash, or an ObjGroupChat with a key for each item.
  class Container {
    const isMap: bool
    var keys: seq<Value>
    var items: seq<Value>

    constructor (isMap: bool)
      ensures this.isMap == isMap && keys == [] && items == []
    {
      this.isMap := isMap;
      keys, items := [], [];
    }

    ghost predicate Ok()
      reads this
    {
      if isMap then |keys| == |items| else keys == []
    }
  }

  // A PortableValue: plain memory, belonging to no heap.
  datatype Pv = PAtom(content: nat) | PStash(list: seq<Pv>) | PChat(keys: seq<Pv>, values: seq<Pv>)

  // A heap: nothing in it refers outside it.
  ghost predicate Closed(all: set<Container>)
    reads all
  {
    forall c :: c in all ==> c.Ok() && forall v :: v in c.keys + c.items ==> In(v, all)
  }

  ghost predicate In(v: Value, all: set<Container>) {
    v.Ref? ==> v.c in all
  }

  // ----- the copy -----

  // copy_value: with the containers on the trail being copied already.  What
  // decreases is the number of containers that are not.
  ghost function Copied(v: Value, all: set<Container>, trail: seq<Container>): (r: Option<Pv>)
    requires Closed(all) && In(v, all)
    reads all
    decreases Off(all, trail), 2
  {
    match v
    case Atom(content) => Some(PAtom(content))
    case Local(_) => None
    case Ref(c) =>
      if c in trail then None
      else
        PushShrinks(all, trail, c);
        if c.isMap then
          var entries := CopiedEntries(c, all, trail + [c], 0);
          if entries.None? then None else Some(PChat(entries.value.0, entries.value.1))
        else
          var items := CopiedItems(c, all, trail + [c], 0);
          if items.None? then None else Some(PStash(items.value))
  }

  // The items from i on.
  ghost function CopiedItems(c: Container, all: set<Container>, trail: seq<Container>, i: nat): (r: Option<seq<Pv>>)
    requires Closed(all) && c in all && i <= |c.items|
    reads all
    ensures r.Some? ==> |r.value| == |c.items| - i
    decreases Off(all, trail), 3, |c.items| - i
  {
    if i == |c.items| then Some([])
    else
      var first := Copied(c.items[i], all, trail);
      if first.None? then None
      else
        var rest := CopiedItems(c, all, trail, i + 1);
        if rest.None? then None else Some([first.value] + rest.value)
  }

  // The entries from i on: key, then value, one after the other.
  ghost function CopiedEntries(c: Container, all: set<Container>, trail: seq<Container>, i: nat)
        : (r: Option<(seq<Pv>, seq<Pv>)>)
    requires Closed(all) && c in all && c.isMap && i <= |c.items|
    reads all
    ensures r.Some? ==> |r.value.0| == |r.value.1| == |c.items| - i
    decreases Off(all, trail), 3, |c.items| - i
  {
    if i == |c.items| then Some(([], []))
    else
      var key := Copied(c.keys[i], all, trail);
      if key.None? then None
      else
        var value := Copied(c.items[i], all, trail);
        if value.None? then None
        else
          var rest := CopiedEntries(c, all, trail, i + 1);
          if rest.None? then None else Some(([key.value] + rest.value.0, [value.value] + rest.value.1))
  }

  // ----- what can be copied -----

  // p[0] holds p[1], p[1] holds p[2], and so on.
  ghost predicate Path(older p: seq<Container>, all: set<Container>)
    reads all
  {
    && p != [] && (forall k :: 0 <= k < |p| ==> p[k] in all)
    && forall k :: 0 <= k < |p| - 1 ==> Ref(p[k + 1]) in p[k].keys + p[k].items
  }

  // The path leads to something that cannot cross, back to itself, or to the
  // trail.
  ghost predicate DeadEnd(p: seq<Container>, all: set<Container>, trail: seq<Container>)
    requires Path(p, all)
    reads all
  {
    var last := p[|p| - 1];
    || (exists v :: v in last.keys + last.items && v.Local?)
    || last in p[..|p| - 1] || last in trail
  }

  // Nothing v leads to is bound to its heap, and no container it leads to holds
  // itself.
  ghost predicate Portable(v: Value, all: set<Container>, trail: seq<Container>)
    reads all
  {
    !v.Local? && (v.Ref? ==> forall p :: Path(p, all) && p[0] == v.c ==> !DeadEnd(p, all, trail))
  }

  lemma {:induction false} ItemsCopied(c: Container, all: set<Container>, trail: seq<Container>, i: nat)
    requires Closed(all) && c in all && i <= |c.items| && CopiedItems(c, all, trail, i).Some?
    ensures forall k :: i <= k < |c.items| ==>
      Copied(c.items[k], all, trail) == Some(CopiedItems(c, all, trail, i).value[k - i])
    decreases |c.items| - i
  {
    if i < |c.items| {
      ItemsCopied(c, all, trail, i + 1);
    }
  }

  lemma {:induction false} EntriesCopied(c: Container, all: set<Container>, trail: seq<Container>, i: nat)
    requires Closed(all) && c in all && c.isMap && i <= |c.items| && CopiedEntries(c, all, trail, i).Some?
    ensures forall k :: i <= k < |c.items| ==>
      && Copied(c.keys[k], all, trail) == Some(CopiedEntries(c, all, trail, i).value.0[k - i])
      && Copied(c.items[k], all, trail) == Some(CopiedEntries(c, all, trail, i).value.1[k - i])
    decreases |c.items| - i
  {
    if i < |c.items| {
      EntriesCopied(c, all, trail, i + 1);
    }
  }

  // A container is copied only if everything in it is.
  lemma ChildrenCopied(c: Container, all: set<Container>, trail: seq<Container>)
    requires Closed(all) && c in all && Copied(Ref(c), all, trail).Some?
    ensures c !in trail && forall v :: v in c.keys + c.items ==> Copied(v, all, trail + [c]).Some?
  {
    if c.isMap {
      EntriesCopied(c, all, trail + [c], 0);
    } else {
      ItemsCopied(c, all, trail + [c], 0);
    }
  }

  lemma {:induction false} BadItem(c: Container, all: set<Container>, trail: seq<Container>, i: nat) returns (v: Value)
    requires Closed(all) && c in all && i <= |c.items| && CopiedItems(c, all, trail, i).None?
    ensures v in c.items && Copied(v, all, trail).None?
    decreases |c.items| - i
  {
    if Copied(c.items[i], all, trail).None? {
      v := c.items[i];
    } else {
      v := BadItem(c, all, trail, i + 1);
    }
  }

  lemma {:induction false} BadEntry(c: Container, all: set<Container>, trail: seq<Container>, i: nat) returns (v: Value)
    requires Closed(all) && c in all && c.isMap && i <= |c.items| && CopiedEntries(c, all, trail, i).None?
    ensures v in c.keys + c.items && Copied(v, all, trail).None?
    decreases |c.items| - i
  {
    if Copied(c.keys[i], all, trail).None? {
      v := c.keys[i];
    } else if Copied(c.items[i], all, trail).None? {
      v := c.items[i];
    } else {
      v := BadEntry(c, all, trail, i + 1);
    }
  }

  // A container is refused for the trail's sake, or for something in it.
  lemma BadChild(c: Container, all: set<Container>, trail: seq<Container>) returns (v: Value)
    requires Closed(all) && c in all && c !in trail && Copied(Ref(c), all, trail).None?
    ensures v in c.keys + c.items && Copied(v, all, trail + [c]).None?
  {
    if c.isMap {
      v := BadEntry(c, all, trail + [c], 0);
    } else {
      v := BadItem(c, all, trail + [c], 0);
    }
  }

  // What is copied leads to no dead end.
  lemma {:induction false} CopiedIsPortable(p: seq<Container>, all: set<Container>, trail: seq<Container>)
    requires Closed(all) && Path(p, all) && Copied(Ref(p[0]), all, trail).Some?
    ensures !DeadEnd(p, all, trail)
    decreases |p|
  {
    var c := p[0];
    ChildrenCopied(c, all, trail);
    if |p| > 1 {
      var q := p[1..];
      assert Ref(p[1]) in c.keys + c.items;
      assert Path(q, all) by {
        forall k | 0 <= k < |q| - 1 ensures Ref(q[k + 1]) in q[k].keys + q[k].items {
          assert Ref(p[k + 2]) in p[k + 1].keys + p[k + 1].items;
        }
      }
      CopiedIsPortable(q, all, trail + [c]);
      assert p[..|p| - 1] == [c] + q[..|q| - 1];
    }
  }

  // What is not copied leads to one.
  lemma {:induction false} RefusedHasDeadEnd(c: Container, all: set<Container>, trail: seq<Container>)
        returns (p: seq<Container>)
    requires Closed(all) && c in all && Copied(Ref(c), all, trail).None?
    ensures Path(p, all) && p[0] == c && DeadEnd(p, all, trail)
    decreases Off(all, trail)
  {
    p := [c];
    if c !in trail {
      var v := BadChild(c, all, trail);
      if v.Ref? {
        PushShrinks(all, trail, c);
        var q := RefusedHasDeadEnd(v.c, all, trail + [c]);
        p := [c] + q;
        assert Path(p, all) by {
          forall k | 0 <= k < |p| - 1 ensures Ref(p[k + 1]) in p[k].keys + p[k].items {
            if k > 0 {
              assert Ref(q[k]) in q[k - 1].keys + q[k - 1].items;
            }
          }
        }
        assert p[..|p| - 1] == [c] + q[..|q| - 1];
      }
    }
  }

  // The copy is made exactly when the value is portable.
  lemma CopiedIffPortable(v: Value, all: set<Container>, trail: seq<Container>)
    requires Closed(all) && In(v, all)
    ensures Copied(v, all, trail).Some? <==> Portable(v, all, trail)
  {
    if v.Ref? {
      if Copied(v, all, trail).Some? {
        forall p | Path(p, all) && p[0] == v.c ensures !DeadEnd(p, all, trail) {
          CopiedIsPortable(p, all, trail);
        }
      } else {
        var p := RefusedHasDeadEnd(v.c, all, trail);
      }
    }
  }

  // ----- copy_value, step by step -----

  // The blocks a PortableValue is made of, one for each node.
  function Blocks(pv: Pv): (n: nat)
    decreases pv, 1
  {
    match pv
    case PAtom(_) => 1
    case PStash(list) => 1 + ListBlocks(list, |list|)
    case PChat(keys, values) => 1 + ListBlocks(keys, |keys|) + ListBlocks(values, |values|)
  }

  function ListBlocks(list: seq<Pv>, n: nat): nat
    requires n <= |list|
    decreases list, 0, n
  {
    if n == 0 then 0 else ListBlocks(list, n - 1) + Blocks(list[n - 1])
  }

  lemma {:induction false} MoreBlocks(list: seq<Pv>, pv: Pv, n: nat)
    requires n <= |list|
    ensures ListBlocks(list + [pv], n) == ListBlocks(list, n)
    decreases n
  {
    if n > 0 {
      MoreBlocks(list, pv, n - 1);
    }
  }

  class Copier {
    var seen: seq<Container>
    var live: int

    constructor ()
      ensures seen == [] && live == 0
    {
      seen, live := [], 0;
    }

    // trail_contains
    method OnTrail(c: Container) returns (found: bool)
      ensures found <==> c in seen
    {
      for i := 0 to |seen|
        invariant c !in seen[..i]
      {
        if seen[i] == c {
          return true;
        }
      }
      return false;
    }

    // portable_free
    method Free(pv: Pv)
      modifies this`live
      ensures live == old(live) - Blocks(pv)
      decreases pv, 1
    {
      match pv
      case PAtom(_) => live := live - 1;
      case PStash(list) =>
        FreeList(list);
        live := live - 1;
      case PChat(keys, values) =>
        FreeList(keys);
        FreeList(values);
        live := live - 1;
    }

    method FreeList(list: seq<Pv>)
      modifies this`live
      ensures live == old(live) - ListBlocks(list, |list|)
      decreases list, 0
    {
      for i := 0 to |list|
        invariant live == old(live) - ListBlocks(list, i)
      {
        Free(list[i]);
      }
    }

    // copy_value: the trail is as before, and what was allocated is the copy.
    method CopyValue(v: Value, ghost all: set<Container>) returns (r: Option<Pv>)
      requires Closed(all) && In(v, all)
      modifies this`seen, this`live
      ensures r == Copied(v, all, old(seen)) && seen == old(seen)
      ensures live == old(live) + if r.Some? then Blocks(r.value) else 0
      decreases Off(all, seen), 2
    {
      hide CopiedItems, CopiedEntries, Closed, Off, ListBlocks;
      match v
      case Atom(content) =>
        live := live + 1;
        r := Some(PAtom(content));
      case Local(_) => r := None;
      case Ref(c) =>
        var found := OnTrail(c);
        if found {
          return None;
        }
        PushShrinks(all, seen, c);
        seen := seen + [c];
        if c.isMap {
          r := CopyGroupchat(c, all);
        } else {
          r := CopyStash(c, all);
        }
        seen := seen[..|seen| - 1];
    }

    method CopyStash(s: Container, ghost all: set<Container>) returns (r: Option<Pv>)
      requires Closed(all) && s in all
      modifies this`seen, this`live
      ensures r == (match CopiedItems(s, all, old(seen), 0) case None => None case Some(list) => Some(PStash(list)))
      ensures seen == old(seen) && live == old(live) + if r.Some? then Blocks(r.value) else 0
      decreases Off(all, seen), 3
    {
      hide Copied, CopiedItems, ItemsSoFar, Closed, Off;
      var list: seq<Pv> := [];
      live := live + 1;
      FirstStep(s, all, seen);
      var i := 0;
      while i < |s.items|
        invariant 0 <= i <= |s.items| && seen == old(seen) && live == old(live) + 1 + ListBlocks(list, |list|)
        invariant ItemsSoFar(s, all, seen, i, list)
      {
        Inside(s, all);
        var item := CopyValue(s.items[i], all);
        if item.None? {
          ItemsFail(s, all, seen, i, list);
          Free(PStash(list));
          return None;
        }
        ItemsStep(s, all, seen, i, list, item.value);
        MoreBlocks(list, item.value, |list|);
        list := list + [item.value];
        i := i + 1;
      }
      ItemsDone(s, all, seen, list);
      r := Some(PStash(list));
    }

    // A key, and its value if there was no trouble with the key.
    method CopyEntry(g: Container, i: nat, ghost all: set<Container>) returns (k: Option<Pv>, val: Option<Pv>)
      requires Closed(all) && g in all && g.isMap && i < |g.items|
      modifies this`seen, this`live
      ensures g.Ok() && k == Copied(g.keys[i], all, old(seen)) && (k.None? ==> val.None?)
      ensures k.Some? ==> val == Copied(g.items[i], all, old(seen))
      ensures seen == old(seen)
      ensures live == old(live)
        + (if k.Some? then Blocks(k.value) else 0) + (if val.Some? then Blocks(val.value) else 0)
      decreases Off(all, seen), 3, 0
    {
      hide Copied, Blocks, Off;
      Inside(g, all);
      val := None;
      k := CopyValue(g.keys[i], all);
      if k.Some? {
        val := CopyValue(g.items[i], all);
      }
    }

    // An entry's value, or its key already, could not be copied: all there is of the
    // copy is freed, the key too if there is one.
    method GiveUp(keys: seq<Pv>, values: seq<Pv>, k: Option<Pv>)
      modifies this`live
      ensures live == old(live) - 1
        - ListBlocks(keys, |keys|) - ListBlocks(values, |values|) - if k.Some? then Blocks(k.value) else 0
    {
      if k.None? {
        Free(PChat(keys, values));
      } else {
        MoreBlocks(keys, k.value, |keys|);
        Free(PChat(keys + [k.value], values));
      }
    }

    method CopyGroupchat(g: Container, ghost all: set<Container>) returns (r: Option<Pv>)
      requires Closed(all) && g in all && g.isMap
      modifies this`seen, this`live
      ensures r == (match CopiedEntries(g, all, old(seen), 0) case None => None case Some(e) => Some(PChat(e.0, e.1)))
      ensures seen == old(seen) && live == old(live) + if r.Some? then Blocks(r.value) else 0
      decreases Off(all, seen), 3, 1
    {
      hide Copied, CopiedEntries, EntriesSoFar, Closed, Off;
      Inside(g, all);
      var keys: seq<Pv>, values: seq<Pv> := [], [];
      live := live + 1;
      FirstStep(g, all, seen);
      var i := 0;
      while i < |g.items|
        invariant 0 <= i <= |g.items| && seen == old(seen)
        invariant live == old(live) + 1 + ListBlocks(keys, |keys|) + ListBlocks(values, |values|)
        invariant EntriesSoFar(g, all, seen, i, keys, values)
      {
        var k, val := CopyEntry(g, i, all);
        if val.None? {
          EntriesFail(g, all, seen, i, keys, values);
          GiveUp(keys, values, k);
          return None;
        }
        MoreBlocks(keys, k.value, |keys|);
        MoreBlocks(values, val.value, |values|);
        EntriesStep(g, all, seen, i, keys, values, k.value, val.value);
        keys, values := keys + [k.value], values + [val.value];
        i := i + 1;
      }
      EntriesDone(g, all, seen, keys, values);
      r := Some(PChat(keys, values));
    }
  }

  lemma Inside(c: Container, all: set<Container>)
    requires Closed(all) && c in all
    ensures c.isMap ==> |c.keys| == |c.items|
    ensures forall i :: 0 <= i < |c.items| ==> In(c.items[i], all)
    ensures forall i :: 0 <= i < |c.keys| ==> In(c.keys[i], all)
  {
    forall i | 0 <= i < |c.items| ensures In(c.items[i], all) {
      assert c.items[i] in c.keys + c.items;
    }
    forall i | 0 <= i < |c.keys| ensures In(c.keys[i], all) {
      assert c.keys[i] in c.keys + c.items;
    }
  }

  // With `list` copied before i, the items from i on decide.
  ghost predicate ItemsSoFar(s: Container, all: set<Container>, trail: seq<Container>, i: nat, list: seq<Pv>)
    requires Closed(all) && s in all && i <= |s.items|
    reads all
  {
    CopiedItems(s, all, trail, 0) ==
      (match CopiedItems(s, all, trail, i) case None => None case Some(rest) => Some(list + rest))
  }

  lemma FirstStep(c: Container, all: set<Container>, trail: seq<Container>)
    requires Closed(all) && c in all
    ensures ItemsSoFar(c, all, trail, 0, [])
    ensures c.isMap ==> EntriesSoFar(c, all, trail, 0, [], [])
  {
    var items := CopiedItems(c, all, trail, 0);
    if items.Some? {
      assert [] + items.value == items.value;
    }
    if c.isMap && CopiedEntries(c, all, trail, 0).Some? {
      var e := CopiedEntries(c, all, trail, 0).value;
      assert [] + e.0 == e.0 && [] + e.1 == e.1;
    }
  }

  lemma ItemsStep(s: Container, all: set<Container>, trail: seq<Container>, i: nat, list: seq<Pv>, pv: Pv)
    requires Closed(all) && s in all && i < |s.items| && ItemsSoFar(s, all, trail, i, list)
    requires Copied(s.items[i], all, trail) == Some(pv)
    ensures ItemsSoFar(s, all, trail, i + 1, list + [pv])
  {
    var rest := CopiedItems(s, all, trail, i + 1);
    if rest.Some? {
      assert list + ([pv] + rest.value) == (list + [pv]) + rest.value;
    }
  }

  lemma ItemsFail(s: Container, all: set<Container>, trail: seq<Container>, i: nat, list: seq<Pv>)
    requires Closed(all) && s in all && i < |s.items| && ItemsSoFar(s, all, trail, i, list)
    requires Copied(s.items[i], all, trail).None?
    ensures CopiedItems(s, all, trail, 0).None?
  {
  }

  lemma ItemsDone(s: Container, all: set<Container>, trail: seq<Container>, list: seq<Pv>)
    requires Closed(all) && s in all && ItemsSoFar(s, all, trail, |s.items|, list)
    ensures CopiedItems(s, all, trail, 0) == Some(list)
  {
    assert list + [] == list;
  }

  ghost predicate EntriesSoFar(g: Container, all: set<Container>, trail: seq<Container>, i: nat, keys: seq<Pv>,
        values: seq<Pv>)
    requires Closed(all) && g in all && g.isMap && i <= |g.items|
    reads all
  {
    var rest := CopiedEntries(g, all, trail, i);
    CopiedEntries(g, all, trail, 0) ==
      if rest.None? then None else Some((keys + rest.value.0, values + rest.value.1))
  }

  lemma EntriesStep(g: Container, all: set<Container>, trail: seq<Container>, i: nat, keys: seq<Pv>, values: seq<Pv>,
        k: Pv, v: Pv)
    requires Closed(all) && g in all && g.isMap && i < |g.items| && EntriesSoFar(g, all, trail, i, keys, values)
    requires Copied(g.keys[i], all, trail) == Some(k) && Copied(g.items[i], all, trail) == Some(v)
    ensures EntriesSoFar(g, all, trail, i + 1, keys + [k], values + [v])
  {
    var rest := CopiedEntries(g, all, trail, i + 1);
    if rest.Some? {
      assert keys + ([k] + rest.value.0) == (keys + [k]) + rest.value.0;
      assert values + ([v] + rest.value.1) == (values + [v]) + rest.value.1;
    }
  }

  lemma EntriesFail(g: Container, all: set<Container>, trail: seq<Container>, i: nat, keys: seq<Pv>, values: seq<Pv>)
    requires Closed(all) && g in all && g.isMap && i < |g.items| && EntriesSoFar(g, all, trail, i, keys, values)
    requires Copied(g.keys[i], all, trail).None? || Copied(g.items[i], all, trail).None?
    ensures CopiedEntries(g, all, trail, 0).None?
  {
  }

  lemma EntriesDone(g: Container, all: set<Container>, trail: seq<Container>, keys: seq<Pv>, values: seq<Pv>)
    requires Closed(all) && g in all && g.isMap && EntriesSoFar(g, all, trail, |g.items|, keys, values)
    ensures CopiedEntries(g, all, trail, 0) == Some((keys, values))
  {
    assert keys + [] == keys && values + [] == values;
  }

  // ----- rebuilding -----

  // v, with what it leads to within `all`, has the shape and contents of pv.
  ghost predicate Same(v: Value, pv: Pv, all: set<Container>)
    reads all
    decreases pv
  {
    match pv
    case PAtom(content) => v == Atom(content)
    case PStash(list) =>
      v.Ref? && v.c in all && !v.c.isMap && |v.c.items| == |list|
      && forall i :: 0 <= i < |list| ==> Same(v.c.items[i], list[i], all)
    case PChat(keys, values) =>
      v.Ref? && v.c in all && v.c.isMap && |v.c.keys| == |keys| == |values| == |v.c.items|
      && forall i :: 0 <= i < |keys| ==> Same(v.c.keys[i], keys[i], all) && Same(v.c.items[i], values[i], all)
  }

  // A copy has the shape and contents of what was copied.
  lemma {:induction false} CopyIsSame(v: Value, all: set<Container>, trail: seq<Container>)
    requires Closed(all) && In(v, all) && Copied(v, all, trail).Some?
    ensures Same(v, Copied(v, all, trail).value, all)
    decreases Off(all, trail)
  {
    if v.Ref? {
      var c := v.c;
      PushShrinks(all, trail, c);
      var trail' := trail + [c];
      if c.isMap {
        EntriesCopied(c, all, trail', 0);
        forall i | 0 <= i < |c.items|
          ensures Same(c.keys[i], CopiedEntries(c, all, trail', 0).value.0[i], all)
          ensures Same(c.items[i], CopiedEntries(c, all, trail', 0).value.1[i], all)
        {
          CopyIsSame(c.keys[i], all, trail');
          CopyIsSame(c.items[i], all, trail');
        }
      } else {
        ItemsCopied(c, all, trail', 0);
        forall i | 0 <= i < |c.items| ensures Same(c.items[i], CopiedItems(c, all, trail', 0).value[i], all) {
          CopyIsSame(c.items[i], all, trail');
        }
      }
    }
  }

  lemma {:induction false} SameWider(v: Value, pv: Pv, a: set<Container>, b: set<Container>)
    requires Same(v, pv, a) && a <= b
    ensures Same(v, pv, b)
    decreases pv
  {
    match pv
    case PAtom(_) =>
    case PStash(list) =>
      forall i | 0 <= i < |list| ensures Same(v.c.items[i], list[i], b) {
        SameWider(v.c.items[i], list[i], a, b);
      }
    case PChat(keys, values) =>
      forall i | 0 <= i < |keys| ensures Same(v.c.keys[i], keys[i], b) && Same(v.c.items[i], values[i], b) {
        SameWider(v.c.keys[i], keys[i], a, b);
        SameWider(v.c.items[i], values[i], a, b);
      }
  }

  // Groupchat keys: containers are one key each, atoms are compared by content.
  predicate KeyEqual(a: Value, b: Value, equal: (nat, nat) -> bool) {
    if a.Atom? && b.Atom? then equal(a.content, b.content) else a == b
  }

  ghost predicate NoTwoEqual(keys: seq<Pv>, equal: (nat, nat) -> bool) {
    forall i, j :: 0 <= i < j < |keys| && keys[i].PAtom? && keys[j].PAtom? ==> !equal(keys[i].content, keys[j].content)
  }

  // No two keys of any groupchat in it are equal, copies of containers being
  // containers of their own.
  ghost predicate KeysApart(pv: Pv, equal: (nat, nat) -> bool)
    decreases pv
  {
    match pv
    case PAtom(_) => true
    case PStash(list) => forall i :: 0 <= i < |list| ==> KeysApart(list[i], equal)
    case PChat(keys, values) =>
      && |keys| == |values|
      && (forall i :: 0 <= i < |keys| ==> KeysApart(keys[i], equal))
      && (forall i :: 0 <= i < |values| ==> KeysApart(values[i], equal))
      && NoTwoEqual(keys, equal)
  }

  // portable_to_value: what is built is all new.
  method ToValue(pv: Pv, equal: (nat, nat) -> bool) returns (v: Value, ghost made: set<Container>)
    requires KeysApart(pv, equal)
    ensures fresh(made) && Same(v, pv, made) && In(v, made) && !v.Local?
    ensures pv.PAtom? <==> v.Atom?
    decreases pv, 3
  {
    match pv
    case PAtom(content) => v, made := Atom(content), {};
    case PStash(_) => v, made := ToStash(pv, equal);
    case PChat(_, _) => v, made := ToGroupchat(pv, equal);
  }

  method ToStash(pv: Pv, equal: (nat, nat) -> bool) returns (v: Value, ghost made: set<Container>)
    requires pv.PStash? && KeysApart(pv, equal)
    ensures fresh(made) && Same(v, pv, made) && v.Ref?
    decreases pv, 0
  {
    var list := pv.list;
    var s := new Container(false);
    made := {};
    var i := 0;
    while i < |list|
      invariant 0 <= i <= |list| && fresh(s) && fresh(made) && s !in made
      invariant !s.isMap && |s.items| == i && s.keys == []
      invariant forall k :: 0 <= k < i ==> Same(s.items[k], list[k], made)
    {
      var item, more := ToValue(list[i], equal);
      ghost var before := s.items;
      forall k | 0 <= k < i ensures Same(before[k], list[k], made + more) {
        SameWider(before[k], list[k], made, made + more);
      }
      SameWider(item, list[i], more, made + more);
      s.items := s.items + [item];
      made := made + more;
      i := i + 1;
    }
    forall k | 0 <= k < |list| ensures Same(s.items[k], list[k], made + {s}) {
      SameWider(s.items[k], list[k], made, made + {s});
    }
    made := made + {s};
    v := Ref(s);
  }

  // groupchat_set: the first equal key's value is replaced, or the entry added.
  method SetEntry(g: Container, key: Value, value: Value, equal: (nat, nat) -> bool)
    requires g.isMap && |g.keys| == |g.items|
    modifies g
    ensures |g.keys| == |g.items|
    ensures if forall k :: 0 <= k < |old(g.keys)| ==> !KeyEqual(old(g.keys)[k], key, equal)
      then g.keys == old(g.keys) + [key] && g.items == old(g.items) + [value]
      else g.keys == old(g.keys) && exists k ::
        && 0 <= k < |g.keys| && KeyEqual(g.keys[k], key, equal)
        && (forall j :: 0 <= j < k ==> !KeyEqual(g.keys[j], key, equal)) && g.items == old(g.items)[k := value]
  {
    for i := 0 to |g.keys|
      invariant g.keys == old(g.keys) && g.items == old(g.items)
      invariant forall k :: 0 <= k < i ==> !KeyEqual(g.keys[k], key, equal)
    {
      if KeyEqual(g.keys[i], key, equal) {
        g.items := g.items[i := value];
        return;
      }
    }
    g.keys := g.keys + [key];
    g.items := g.items + [value];
  }

  // An entry as it should be.
  ghost predicate Built(key: Value, item: Value, pvKey: Pv, pvItem: Pv, made: set<Container>)
    reads made
  {
    && Same(key, pvKey, made) && Same(item, pvItem, made)
    && In(key, made) && (pvKey.PAtom? <==> key.Atom?) && !key.Local?
  }

  method ToGroupchat(pv: Pv, equal: (nat, nat) -> bool) returns (v: Value, ghost made: set<Container>)
    requires pv.PChat? && KeysApart(pv, equal)
    ensures fresh(made) && Same(v, pv, made) && v.Ref?
    decreases pv, 2
  {
    var keys, values := pv.keys, pv.values;
    assert |keys| == |values|;
    hide KeysApart, Same, Built, In;
    var g := new Container(true);
    made := {};
    var i := 0;
    while i < |keys|
      invariant 0 <= i <= |keys| && fresh(g) && fresh(made) && g !in made
      invariant g.isMap && |g.keys| == |g.items| == i
      invariant forall k :: 0 <= k < i ==> Built(g.keys[k], g.items[k], keys[k], values[k], made)
    {
      made := BuildEntry(g, pv, i, made, equal);
      i := i + 1;
    }
    EntriesWider(g.keys, g.items, keys, values, i, made, made + {g});
    made := made + {g};
    v := Ref(g);
    SameChat(g, keys, values, made);
  }

  // One turn of the rebuilding loop: entry i, on top of those built before.
  method BuildEntry(g: Container, pv: Pv, i: nat, ghost before: set<Container>, equal: (nat, nat) -> bool)
      returns (ghost made: set<Container>)
    requires pv.PChat? && KeysApart(pv, equal) && i < |pv.keys| && g !in before
    requires g.isMap && |g.keys| == |g.items| == i
    requires forall k :: 0 <= k < i ==> Built(g.keys[k], g.items[k], pv.keys[k], pv.values[k], before)
    modifies g
    ensures before <= made && fresh(made - before) && g !in made && |g.keys| == |g.items| == i + 1
    ensures forall k :: 0 <= k <= i ==> Built(g.keys[k], g.items[k], pv.keys[k], pv.values[k], made)
    decreases pv, 1
  {
    var keys, values := pv.keys, pv.values;
    ghost var ks, vs := g.keys, g.items;
    assert NoTwoEqual(keys, equal);
    hide NoTwoEqual, Same, Built, KeysApart, In, KeyEqual;
    var key, value, more := BuildPair(pv, i, equal);
    made := before + more;
    NewKeyApart(ks, vs, keys, values, i, before, key, equal);
    EntriesWider(ks, vs, keys, values, i, before, made);
    BuiltWider(key, value, keys[i], values[i], more, made);
    SetEntry(g, key, value, equal);
    assert g.keys == ks + [key] && g.items == vs + [value];
  }

  method BuildPair(pv: Pv, i: nat, equal: (nat, nat) -> bool)
      returns (key: Value, value: Value, ghost made: set<Container>)
    requires pv.PChat? && KeysApart(pv, equal) && i < |pv.keys|
    ensures fresh(made) && |pv.values| == |pv.keys| && Built(key, value, pv.keys[i], pv.values[i], made)
    ensures !key.Local? && (key.Ref? ==> key.c in made)
    ensures (key.Atom? <==> pv.keys[i].PAtom?) && (key.Atom? ==> key.content == pv.keys[i].content)
    decreases pv, 0
  {
    ghost var moreK, moreV;
    key, moreK := ToValue(pv.keys[i], equal);
    value, moreV := ToValue(pv.values[i], equal);
    made := moreK + moreV;
    SameWider(key, pv.keys[i], moreK, made);
    SameWider(value, pv.values[i], moreV, made);
  }

  lemma BuiltWider(key: Value, item: Value, pvKey: Pv, pvItem: Pv, a: set<Container>, b: set<Container>)
    requires Built(key, item, pvKey, pvItem, a) && a <= b
    ensures Built(key, item, pvKey, pvItem, b)
  {
    SameWider(key, pvKey, a, b);
    SameWider(item, pvItem, a, b);
  }

  lemma SameChat(g: Container, keys: seq<Pv>, values: seq<Pv>, made: set<Container>)
    requires g in made && g.isMap && |g.keys| == |g.items| == |keys| == |values|
    requires forall k :: 0 <= k < |keys| ==> Built(g.keys[k], g.items[k], keys[k], values[k], made)
    ensures Same(Ref(g), PChat(keys, values), made)
  {
  }

  lemma EntriesWider(ks: seq<Value>, vs: seq<Value>, keys: seq<Pv>, values: seq<Pv>, i: nat, a: set<Container>,
        b: set<Container>)
    requires i <= |keys| && i <= |values| && |ks| == |vs| == i && a <= b
    requires forall k :: 0 <= k < i ==> Built(ks[k], vs[k], keys[k], values[k], a)
    ensures forall k :: 0 <= k < i ==> Built(ks[k], vs[k], keys[k], values[k], b)
  {
    forall k | 0 <= k < i ensures Built(ks[k], vs[k], keys[k], values[k], b) {
      BuiltWider(ks[k], vs[k], keys[k], values[k], a, b);
    }
  }

  // A key just made is none of those made before.
  lemma NewKeyApart(ks: seq<Value>, vs: seq<Value>, keys: seq<Pv>, values: seq<Pv>, i: nat, made: set<Container>,
                    key: Value, equal: (nat, nat) -> bool)
    requires i < |keys| == |values| && |ks| == |vs| == i
    requires forall k :: 0 <= k < i ==> Built(ks[k], vs[k], keys[k], values[k], made)
    requires NoTwoEqual(keys, equal)
    requires !key.Local? && (key.Ref? ==> key.c !in made)
    requires (key.Atom? <==> keys[i].PAtom?) && (key.Atom? ==> key.content == keys[i].content)
    ensures forall k :: 0 <= k < i ==> !KeyEqual(ks[k], key, equal)
  {
    forall k | 0 <= k < i ensures !KeyEqual(ks[k], key, equal) {
      assert Built(ks[k], vs[k], keys[k], values[k], made);
    }
  }

  // ----- from heap to heap -----

  // Keys that are apart on one heap are apart in the copy.
  ghost predicate HeapKeysApart(all: set<Container>, equal: (nat, nat) -> bool)
    reads all
  {
    forall c :: c in all && c.isMap ==>
      forall i, j :: 0 <= i < j < |c.keys| ==> !KeyEqual(c.keys[i], c.keys[j], equal)
  }

  lemma {:induction false} CopyKeepsKeysApart(v: Value, all: set<Container>, trail: seq<Container>,
                                              equal: (nat, nat) -> bool)
    requires Closed(all) && In(v, all) && HeapKeysApart(all, equal) && Copied(v, all, trail).Some?
    ensures KeysApart(Copied(v, all, trail).value, equal)
    ensures Copied(v, all, trail).value.PAtom? <==> v.Atom?
    ensures v.Atom? ==> Copied(v, all, trail).value == PAtom(v.content)
    decreases Off(all, trail)
  {
    if v.Ref? {
      var c := v.c;
      PushShrinks(all, trail, c);
      var trail' := trail + [c];
      if c.isMap {
        EntriesCopied(c, all, trail', 0);
        var (keys, values) := CopiedEntries(c, all, trail', 0).value;
        forall i | 0 <= i < |c.items|
          ensures KeysApart(keys[i], equal) && KeysApart(values[i], equal)
          ensures keys[i].PAtom? ==> c.keys[i].Atom? && keys[i] == PAtom(c.keys[i].content)
        {
          CopyKeepsKeysApart(c.keys[i], all, trail', equal);
          CopyKeepsKeysApart(c.items[i], all, trail', equal);
        }
        MapKeysApart(c, all, trail', equal);
      } else {
        ItemsCopied(c, all, trail', 0);
        var list := CopiedItems(c, all, trail', 0).value;
        forall i | 0 <= i < |c.items| ensures KeysApart(list[i], equal) {
          CopyKeepsKeysApart(c.items[i], all, trail', equal);
        }
      }
    }
  }

  lemma MapKeysApart(c: Container, all: set<Container>, trail: seq<Container>, equal: (nat, nat) -> bool)
    requires Closed(all) && c in all && c.isMap && HeapKeysApart(all, equal) && CopiedEntries(c, all, trail, 0).Some?
    requires forall i :: 0 <= i < |c.items| ==>
      Copied(c.keys[i], all, trail) == Some(CopiedEntries(c, all, trail, 0).value.0[i])
    requires forall i :: 0 <= i < |c.items| && CopiedEntries(c, all, trail, 0).value.0[i].PAtom? ==>
      c.keys[i].Atom? && CopiedEntries(c, all, trail, 0).value.0[i] == PAtom(c.keys[i].content)
    ensures var keys := CopiedEntries(c, all, trail, 0).value.0;
      forall i, j :: 0 <= i < j < |keys| && keys[i].PAtom? && keys[j].PAtom? ==>
        !equal(keys[i].content, keys[j].content)
  {
    var keys := CopiedEntries(c, all, trail, 0).value.0;
    forall i, j | 0 <= i < j < |keys| && keys[i].PAtom? && keys[j].PAtom?
      ensures !equal(keys[i].content, keys[j].content)
    {
      assert !KeyEqual(c.keys[i], c.keys[j], equal);
    }
  }

  // The whole way: what arrives has the shape and contents of what was sent, and
  // is all new; and it arrives exactly when what is sent is portable.
  method Carry(v: Value, ghost all: set<Container>, equal: (nat, nat) -> bool)
        returns (ok: bool, r: Value, ghost pv: Pv, ghost made: set<Container>)
    requires Closed(all) && In(v, all) && HeapKeysApart(all, equal)
    ensures ok <==> Portable(v, all, [])
    ensures ok ==> Same(v, pv, all) && Same(r, pv, made) && fresh(made) && In(r, made)
  {
    var copier := new Copier();
    var copy := copier.CopyValue(v, all);
    CopiedIffPortable(v, all, []);
    ok, r, pv, made := copy.Some?, Atom(0), PAtom(0), {};
    if copy.Some? {
      CopyIsSame(v, all, []);
      CopyKeepsKeysApart(v, all, [], equal);
      pv := copy.value;
      r, made := ToValue(copy.value, equal);
    }
  }
}
