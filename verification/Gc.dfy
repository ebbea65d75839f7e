// The mark-sweep collector (native/gc.c): an intrusive list of every object, a
// gray stack, mark bits and a byte account.
module Gc {

  class Obj {
    var marked: bool
    var freed: bool  // handed to free_object
    var size: nat
    var next: Obj?
    var children: seq<Obj?>  // what blacken_object marks for this object, NULLs included

    constructor (children: seq<Obj?>)
      ensures !marked && !freed && size == 0 && next == null && this.children == children
    {
      marked, freed, size, next := false, false, 0, null;
      this.children := children;
    }
  }

  // Which objects each tracked object refers to.
  type Graph = map<Obj, seq<Obj?>>

  ghost predicate ReachesIn(g: Graph, roots: set<Obj>, o: Obj, n: nat) {
    if n == 0 then o in roots
    else exists p :: p in g && ReachesIn(g, roots, p, n - 1) && o in g[p]
  }

  ghost predicate Reachable(g: Graph, roots: set<Obj>, o: Obj) {
    exists n: nat :: ReachesIn(g, roots, o, n)
  }

  lemma ReachStep(g: Graph, roots: set<Obj>, p: Obj, o: Obj)
    requires p in g && Reachable(g, roots, p) && o in g[p]
    ensures Reachable(g, roots, o)
  {
    var n: nat :| ReachesIn(g, roots, p, n);
    assert ReachesIn(g, roots, o, n + 1);
  }

  // A set that holds the roots and is closed under references holds
  // everything reachable.
  lemma {:induction false} ClosedHoldsReachable(g: Graph, roots: set<Obj>, s: set<Obj>, o: Obj, n: nat)
    requires roots <= s && forall p, c: Obj :: p in s && p in g && c in g[p] ==> c in s
    requires ReachesIn(g, roots, o, n)
    ensures o in s
    decreases n
  {
    if n > 0 {
      var p :| p in g && ReachesIn(g, roots, p, n - 1) && o in g[p];
      ClosedHoldsReachable(g, roots, s, p, n - 1);
    }
  }

  // The members of the first n of s that are in keep, in order.
  ghost function Kept(s: seq<Obj>, n: nat, keep: set<Obj>): (k: seq<Obj>)
    requires n <= |s|
    decreases n
  {
    if n == 0 then []
    else if s[n - 1] in keep then Kept(s, n - 1, keep) + [s[n - 1]]
    else Kept(s, n - 1, keep)
  }

  lemma {:induction false} KeptIs(s: seq<Obj>, n: nat, keep: set<Obj>)
    requires n <= |s|
    ensures forall o :: o in Kept(s, n, keep) <==> o in s[..n] && o in keep
    ensures Distinct(s) ==> Distinct(Kept(s, n, keep))
    decreases n
  {
    if n > 0 {
      KeptIs(s, n - 1, keep);
      assert s[..n] == s[..n - 1] + [s[n - 1]];
    }
  }

  ghost predicate Distinct(s: seq<Obj>) {
    forall i, j :: 0 <= i < j < |s| ==> s[i] != s[j]
  }

  // The i-th object, or NULL past the end.
  ghost function At(s: seq<Obj>, i: nat): Obj? {
    if i < |s| then s[i] else null
  }

  // Sum of the sizes of the first n of s.
  ghost function Total(sizes: map<Obj, nat>, s: seq<Obj>, n: nat): nat
    requires n <= |s| && forall o :: o in s ==> o in sizes
    decreases n
  {
    if n == 0 then 0 else Total(sizes, s, n - 1) + sizes[s[n - 1]]
  }

  lemma {:induction false} TotalPrefix(sizes: map<Obj, nat>, s: seq<Obj>, t: seq<Obj>, n: nat)
    requires n <= |s| && n <= |t| && s[..n] == t[..n]
    requires forall o :: o in s || o in t ==> o in sizes
    ensures Total(sizes, s, n) == Total(sizes, t, n)
    decreases n
  {
    if n > 0 {
      assert s[n - 1] == s[..n][n - 1] == t[..n][n - 1] == t[n - 1];
      assert s[..n - 1] == s[..n][..n - 1] == t[..n][..n - 1] == t[..n - 1];
      TotalPrefix(sizes, s, t, n - 1);
    }
  }

  // What is charged while sweeping: the survivors so far and all that is ahead.
  ghost predicate Charged(sizes: map<Obj, nat>, kept: seq<Obj>, s: seq<Obj>, n: nat, bytes: nat) {
    && n <= |s| && (forall o :: o in kept ==> o in s) && (forall o :: o in s ==> o in sizes)
    && bytes == Total(sizes, kept, |kept|) + Rest(sizes, s, n)
  }

  lemma KeptAccount(sizes: map<Obj, nat>, s: seq<Obj>, n: nat, kept: seq<Obj>, bytes: nat)
    requires n < |s| && Charged(sizes, kept, s, n, bytes)
    ensures Charged(sizes, kept + [s[n]], s, n + 1, bytes)
  {
    TotalPrefix(sizes, kept, kept + [s[n]], |kept|);
  }

  lemma FreedAccount(sizes: map<Obj, nat>, s: seq<Obj>, n: nat, kept: seq<Obj>, bytes: nat)
    requires n < |s| && Charged(sizes, kept, s, n, bytes)
    ensures sizes[s[n]] <= bytes && Charged(sizes, kept, s, n + 1, bytes - sizes[s[n]])
  {
  }

  // Sum of the sizes of all but the first n of s.
  ghost function Rest(sizes: map<Obj, nat>, s: seq<Obj>, n: nat): nat
    requires n <= |s| && forall o :: o in s ==> o in sizes
    decreases |s| - n
  {
    if n == |s| then 0 else sizes[s[n]] + Rest(sizes, s, n + 1)
  }

  lemma {:induction false} RestIsTotal(sizes: map<Obj, nat>, s: seq<Obj>, n: nat)
    requires n <= |s| && forall o :: o in s ==> o in sizes
    ensures Total(sizes, s, n) + Rest(sizes, s, n) == Total(sizes, s, |s|)
    decreases |s| - n
  {
    if n < |s| {
      RestIsTotal(sizes, s, n + 1);
    }
  }

  lemma NoneSwept(sizes: map<Obj, nat>, s: seq<Obj>, bytes: nat)
    requires (forall o :: o in s ==> o in sizes) && bytes == Total(sizes, s, |s|)
    ensures Charged(sizes, [], s, 0, bytes)
  {
    RestIsTotal(sizes, s, 0);
  }

  const INITIAL_NEXT_GC: nat := 1024 * 1024
  const GC_HEAP_GROW_FACTOR: nat := 2

  class GC {
    var objects: Obj?
    var bytesAllocated: nat
    var nextGC: nat
    var stressPeriod: nat
    var stressCounter: nat
    var grayStack: seq<Obj>
    var tempRoots: seq<Obj?>  // NULL for a Value that is no object
    var externalRoots: seq<Obj?>  // what the embedder's callback marks
    ghost var list: seq<Obj>  // the objects on the intrusive list, in order
    ghost var account: map<Obj, nat>

    ghost predicate Linked()
      reads this`objects, this`list, list`next
    {
      && objects == At(list, 0)
      && Distinct(list)
      && forall i :: 0 <= i < |list| ==> list[i].next == At(list, i + 1)
    }

    // References and roots stay within the tracked objects.
    ghost predicate Closed()
      reads this`list, this`tempRoots, this`externalRoots, list`children
    {
      && (forall o, c: Obj :: o in list && c in o.children ==> c in list)
      && (forall r: Obj :: r in Roots() ==> r in list)
    }

    // account says what was charged for each tracked object.
    ghost predicate Accounted()
      reads this`list, this`account, this`bytesAllocated, list`size
    {
      && (forall o :: o in list ==> o in account && o.size == account[o])
      && bytesAllocated == Total(account, list, |list|)
    }

    ghost function Edges(): Graph
      reads this`list, list`children
    {
      map o | o in list :: o.children
    }

    ghost function Roots(): set<Obj>
      reads this`tempRoots, this`externalRoots
    {
      (set r: Obj | r in tempRoots) + (set r: Obj | r in externalRoots)
    }

    // The state between collections.
    ghost predicate Valid()
      reads this`objects, this`bytesAllocated, this`list, this`account, this`grayStack, this`tempRoots,
        this`externalRoots
      reads list
    {
      && Linked() && Closed() && grayStack == []
      && (forall o :: o in list ==> !o.marked && !o.freed)
      && Accounted()
    }

    constructor (stressPeriod: nat)
      ensures Valid() && list == [] && tempRoots == [] && externalRoots == []
    {
      objects, bytesAllocated, nextGC := null, 0, INITIAL_NEXT_GC;
      this.stressPeriod, stressCounter := stressPeriod, 0;
      grayStack, tempRoots, externalRoots := [], [], [];
      list, account := [], map[];
    }

    method Track(obj: Obj, size: nat)
      requires Valid() && obj !in list && !obj.marked && !obj.freed
      requires forall c: Obj :: c in obj.children ==> c in list
      modifies this`objects, this`bytesAllocated, this`list, this`account, obj`size, obj`next
      ensures Valid() && list == [obj] + old(list) && obj.size == size
      ensures bytesAllocated == old(bytesAllocated) + size
    {
      ghost var was, charged := list, account;
      obj.size := size;
      LinkFront(obj);
      bytesAllocated := bytesAllocated + size;
      account := account[obj := size];
      TotalCons(charged, account, obj, was, |was|);
      assert forall o :: o in list <==> o == obj || o in was;
    }

    method LinkFront(obj: Obj)
      requires Linked() && obj !in list
      modifies this`objects, this`list, obj`next
      ensures Linked() && list == [obj] + old(list)
    {
      ghost var was := list;
      obj.next := objects;
      objects := obj;
      list := [obj] + list;
      LinkedCons(obj, was);
    }

    lemma LinkedCons(obj: Obj, was: seq<Obj>)
      requires list == [obj] + was && obj !in was && Distinct(was)
      requires objects == obj && obj.next == At(was, 0)
      requires forall i :: 0 <= i < |was| ==> was[i].next == At(was, i + 1)
      ensures Linked()
    {
      forall i | 0 <= i < |list| ensures list[i].next == At(list, i + 1) {
        if i > 0 {
          assert list[i] == was[i - 1] && At(list, i + 1) == At(was, i);
        }
      }
    }

    // ----- sweeping -----

    // i objects of `all` are behind; the survivors among them are linked
    // together and on to obj, the rest of the list is as it was.
    static ghost predicate Sweeping(head: Obj?, all: seq<Obj>, i: nat, kept: seq<Obj>, prev: Obj?, obj: Obj?,
          keep: set<Obj>)
      reads all, kept
    {
      && i <= |all| && Distinct(all) && obj == At(all, i) && kept == Kept(all, i, keep)
      && prev == (if |kept| == 0 then null else kept[|kept| - 1])
      && head == (if |kept| == 0 then obj else kept[0])
      && (forall k :: 0 <= k < |kept| ==> kept[k].next == if k == |kept| - 1 then obj else At(kept, k + 1))
      && (forall k :: i <= k < |all| ==>
           all[k].next == At(all, k + 1) && !all[k].freed && (all[k].marked <==> all[k] in keep))
      && (forall k :: 0 <= k < i ==> !all[k].marked && (all[k].freed <==> all[k] !in keep))
    }

    method KeepOne(ghost all: seq<Obj>, ghost i: nat, ghost kept: seq<Obj>, ghost prev: Obj?, obj: Obj,
          ghost keep: set<Obj>)
        returns (next: Obj?)
      requires Sweeping(objects, all, i, kept, prev, obj, keep) && i < |all| && obj.marked
      modifies obj`marked
      ensures next == obj.next && Sweeping(objects, all, i + 1, kept + [obj], obj, next, keep)
    {
      KeptIs(all, i, keep);
      assert obj !in kept;
      obj.marked := false;
      next := obj.next;
    }

    method FreeOne(ghost all: seq<Obj>, ghost i: nat, ghost kept: seq<Obj>, prev: Obj?, obj: Obj, ghost keep: set<Obj>)
        returns (next: Obj?)
      requires Sweeping(objects, all, i, kept, prev, obj, keep) && i < |all| && !obj.marked
      requires obj.size <= bytesAllocated
      modifies this`objects, this`bytesAllocated, all`next, all`freed
      ensures Sweeping(objects, all, i + 1, kept, prev, next, keep)
      ensures bytesAllocated == old(bytesAllocated) - obj.size
    {
      KeptIs(all, i, keep);
      assert obj !in kept && (prev != null ==> prev in kept);
      next := obj.next;
      if prev == null {
        objects := next;
      } else {
        prev.next := next;
      }
      bytesAllocated := bytesAllocated - obj.size;
      obj.freed := true;
    }

    // Unlinks and frees what is not marked, and clears the marks.
    method Sweep(ghost keep: set<Obj>)
      requires Linked() && Accounted()
      requires forall o :: o in list ==> !o.freed && (o.marked <==> o in keep)
      modifies this`objects, this`bytesAllocated, this`list, list`marked, list`next, list`freed
      ensures Linked() && list == Kept(old(list), |old(list)|, keep)
      ensures forall o :: o in old(list) ==> !o.marked && (o.freed <==> o !in keep)
      ensures Accounted()
    {
      ghost var all := list;
      ghost var kept, prev := SweepLoop(all, account, keep);
      list := kept;
      Swept(all, prev, keep);
    }

    lemma Swept(all: seq<Obj>, prev: Obj?, keep: set<Obj>)
      requires Sweeping(objects, all, |all|, list, prev, null, keep)
      ensures Linked() && list == Kept(all, |all|, keep)
      ensures forall o :: o in all ==> !o.marked && (o.freed <==> o !in keep)
    {
      KeptIs(all, |all|, keep);
    }

    method SweepOne(ghost all: seq<Obj>, ghost sizes: map<Obj, nat>, ghost i: nat, ghost kept: seq<Obj>, prev: Obj?,
                    obj: Obj, ghost keep: set<Obj>) returns (ghost kept': seq<Obj>, prev': Obj?, next: Obj?)
      requires i < |all| && Sweeping(objects, all, i, kept, prev, obj, keep)
      requires Charged(sizes, kept, all, i, bytesAllocated) && obj.size == sizes[obj]
      modifies this`objects, this`bytesAllocated, all`marked, all`next, all`freed
      ensures Sweeping(objects, all, i + 1, kept', prev', next, keep)
      ensures Charged(sizes, kept', all, i + 1, bytesAllocated)
    {
      if obj.marked {
        KeptAccount(sizes, all, i, kept, bytesAllocated);
        next := KeepOne(all, i, kept, prev, obj, keep);
        kept', prev' := kept + [obj], obj;
      } else {
        FreedAccount(sizes, all, i, kept, bytesAllocated);
        next := FreeOne(all, i, kept, prev, obj, keep);
        kept', prev' := kept, prev;
      }
    }

    // The sweep is over when the cursor is null, and not before.
    static lemma SweptTo(head: Obj?, all: seq<Obj>, i: nat, kept: seq<Obj>, prev: Obj?, obj: Obj?, keep: set<Obj>)
      requires Sweeping(head, all, i, kept, prev, obj, keep)
      ensures if obj == null then i == |all| else i < |all| && obj == all[i]
    {
    }

    method SweepLoop(ghost all: seq<Obj>, ghost sizes: map<Obj, nat>, ghost keep: set<Obj>)
        returns (ghost kept: seq<Obj>, ghost last: Obj?)
      requires Sweeping(objects, all, 0, [], null, objects, keep)
      requires forall o :: o in all ==> o in sizes && o.size == sizes[o]
      requires bytesAllocated == Total(sizes, all, |all|)
      modifies this`objects, this`bytesAllocated, all`marked, all`next, all`freed
      ensures Sweeping(objects, all, |all|, kept, last, null, keep)
      ensures Charged(sizes, kept, all, |all|, bytesAllocated)
    {
      hide Sweeping, Charged, Total, Rest;
      ghost var i: nat := 0;
      kept := [];
      var prev: Obj? := null;
      var obj := objects;
      NoneSwept(sizes, all, bytesAllocated);
      while obj != null
        invariant Sweeping(objects, all, i, kept, prev, obj, keep)
        invariant Charged(sizes, kept, all, i, bytesAllocated)
        decreases |all| - i
      {
        SweptTo(objects, all, i, kept, prev, obj, keep);
        kept, prev, obj := SweepOne(all, sizes, i, kept, prev, obj, keep);
        i := i + 1;
      }
      SweptTo(objects, all, i, kept, prev, null, keep);
      last := prev;
    }

    method PushTemp(v: Obj?)
      requires Valid() && (v == null || v in list)
      modifies this`tempRoots
      ensures Valid() && tempRoots == old(tempRoots) + [v]
    {
      tempRoots := tempRoots + [v];
    }

    method PopTemp()
      requires Valid() && |tempRoots| > 0
      modifies this`tempRoots
      ensures Valid() && tempRoots == old(tempRoots)[..|old(tempRoots)| - 1]
    {
      tempRoots := tempRoots[..|tempRoots| - 1];
    }

    // ----- marking -----

    ghost function Unmarked(): set<Obj>
      reads this`list, list`marked
    {
      set o | o in list && !o.marked
    }

    // What marking keeps: only reachable objects are marked, and all that a
    // marked object refers to is marked, unless it is gray or being blackened.
    ghost predicate Tricolor(g: Graph, black: Obj?)
      reads this`list, this`tempRoots, this`externalRoots, this`grayStack, list`children, list`marked
    {
      && g == Edges()
      && (forall o :: o in list && o.marked ==> Reachable(g, Roots(), o))
      && (forall o :: o in grayStack ==> o in list && o.marked)
      && (forall o :: o in list && o.marked && o !in grayStack && o != black ==>
           forall c: Obj :: c in o.children && c in list ==> c.marked)
    }

    method MarkObject(obj: Obj?, ghost g: Graph, ghost black: Obj?)
      requires Closed() && Tricolor(g, black)
      requires obj != null ==> obj in list && Reachable(g, Roots(), obj)
      modifies this`grayStack, list`marked
      ensures Tricolor(g, black) && (obj != null ==> obj.marked)
      ensures forall o :: o in list && old(o.marked) ==> o.marked
      ensures Unmarked() == old(Unmarked()) - {obj}
      ensures Unmarked() == old(Unmarked()) ==> grayStack == old(grayStack)
    {
      if obj == null || obj.marked {
        return;
      }
      assert obj in old(Unmarked());
      obj.marked := true;
      grayStack := grayStack + [obj];
    }

    // blacken_object: mark everything obj refers to.
    method Blacken(obj: Obj, ghost g: Graph)
      requires Closed() && Tricolor(g, obj) && obj in list && obj.marked
      modifies this`grayStack, list`marked
      ensures Tricolor(g, null)
      ensures forall o :: o in list && old(o.marked) ==> o.marked
      ensures Unmarked() <= old(Unmarked())
      ensures Unmarked() == old(Unmarked()) ==> grayStack == old(grayStack)
    {
      var i := 0;
      while i < |obj.children|
        invariant 0 <= i <= |obj.children| && Closed() && Tricolor(g, obj)
        invariant forall o :: o in list && old(o.marked) ==> o.marked
        invariant Unmarked() <= old(Unmarked())
        invariant Unmarked() == old(Unmarked()) ==> grayStack == old(grayStack)
        invariant forall k :: 0 <= k < i ==> obj.children[k] != null ==> obj.children[k].marked
      {
        if obj.children[i] != null {
          ReachStep(g, Roots(), obj, obj.children[i]);
        }
        MarkObject(obj.children[i], g, obj);
        i := i + 1;
      }
    }

    method MarkAll(roots: seq<Obj?>, ghost g: Graph)
      requires Closed() && Tricolor(g, null)
      requires forall r: Obj :: r in roots ==> r in Roots()
      modifies this`grayStack, list`marked
      ensures Tricolor(g, null) && forall r: Obj :: r in roots ==> r.marked
      ensures forall o :: o in list && old(o.marked) ==> o.marked
    {
      var i := 0;
      while i < |roots|
        invariant 0 <= i <= |roots| && Closed() && Tricolor(g, null)
        invariant forall o :: o in list && old(o.marked) ==> o.marked
        invariant forall k :: 0 <= k < i ==> roots[k] != null ==> roots[k].marked
      {
        if roots[i] != null {
          assert roots[i] in roots && ReachesIn(g, Roots(), roots[i], 0);
        }
        MarkObject(roots[i], g, null);
        i := i + 1;
      }
    }

    method TraceReferences(ghost g: Graph)
      requires Closed() && Tricolor(g, null)
      modifies this`grayStack, list`marked
      ensures grayStack == [] && Tricolor(g, null)
      ensures forall o :: o in list && old(o.marked) ==> o.marked
    {
      while |grayStack| > 0
        invariant Closed() && Tricolor(g, null)
        invariant forall o :: o in list && old(o.marked) ==> o.marked
        decreases Unmarked(), |grayStack|
      {
        var n := |grayStack| - 1;
        var obj := grayStack[n];
        ghost var before := grayStack;
        grayStack := grayStack[..n];
        assert forall o :: o in before ==> o in grayStack || o == obj;
        Blacken(obj, g);
      }
    }

    // The tracked objects the program can still get at.
    ghost function Live(): set<Obj>
      reads this`list, this`tempRoots, this`externalRoots, list`children
    {
      set o | o in list && Reachable(Edges(), Roots(), o)
    }

    // mark_roots and trace_references: exactly the live objects get marked.
    method Mark(ghost live: set<Obj>)
      requires Valid() && live == Live()
      modifies this`grayStack, list`marked
      ensures grayStack == []
      ensures forall o :: o in list ==> (o.marked <==> o in live)
    {
      ghost var g := Edges();
      MarkAll(tempRoots, g);
      MarkAll(externalRoots, g);
      TraceReferences(g);
      MarkedAreLive(g, live);
    }

    lemma MarkedAreLive(g: Graph, live: set<Obj>)
      requires Closed() && Tricolor(g, null) && grayStack == []
      requires forall r: Obj :: r in Roots() ==> r.marked
      requires live == set o | o in list && Reachable(g, Roots(), o)
      ensures forall o :: o in list ==> (o.marked <==> o in live)
    {
      var black := set o | o in list && o.marked;
      forall o | o in list && Reachable(g, Roots(), o) ensures o.marked {
        var n: nat :| ReachesIn(g, Roots(), o, n);
        ClosedHoldsReachable(g, Roots(), black, o, n);
      }
    }

    // gc_collect: exactly the live objects survive, in their old order.
    method Collect()
      requires Valid()
      modifies this`objects, this`bytesAllocated, this`nextGC, this`list, this`grayStack
      modifies list`marked, list`next, list`freed
      ensures Valid() && list == Kept(old(list), |old(list)|, old(Live()))
      ensures forall o :: o in old(list) ==> (o.freed <==> o !in old(Live()))
      ensures nextGC == if bytesAllocated * GC_HEAP_GROW_FACTOR < INITIAL_NEXT_GC then INITIAL_NEXT_GC
                        else bytesAllocated * GC_HEAP_GROW_FACTOR
    {
      hide *;
      MarkAndSweep(Live());
      nextGC := bytesAllocated * GC_HEAP_GROW_FACTOR;
      if nextGC < INITIAL_NEXT_GC {
        nextGC := INITIAL_NEXT_GC;
      }
    }

    method MarkAndSweep(ghost live: set<Obj>)
      requires Valid() && live == Live()
      modifies this`objects, this`bytesAllocated, this`list, this`grayStack
      modifies list`marked, list`next, list`freed
      ensures Valid() && list == Kept(old(list), |old(list)|, live)
      ensures forall o :: o in old(list) ==> (o.freed <==> o !in live)
    {
      hide Kept, Reachable, Linked, Accounted;
      ghost var g := Edges();
      Mark(live);
      SweepClosed(g, live);
    }

    // Sweeping leaves no reference to what it freed.
    method SweepClosed(ghost g: Graph, ghost live: set<Obj>)
      requires Linked() && Accounted() && Closed() && g == Edges() && live == Live()
      requires forall o :: o in list ==> !o.freed && (o.marked <==> o in live)
      modifies this`objects, this`bytesAllocated, this`list, list`marked, list`next, list`freed
      ensures Linked() && Accounted() && Closed() && list == Kept(old(list), |old(list)|, live)
      ensures forall o :: o in list ==> !o.marked && !o.freed
      ensures forall o :: o in old(list) ==> (o.freed <==> o !in live)
    {
      ghost var all := list;
      Sweep(live);
      assert forall o :: o in all ==> o.children == g[o];
      SurvivorsClosed(g, all, live);
    }

    lemma SurvivorsClosed(g: Graph, all: seq<Obj>, live: set<Obj>)
      requires list == Kept(all, |all|, live)
      requires forall o :: o in all ==> o in g && g[o] == o.children
      requires forall o :: o in live <==> o in all && Reachable(g, Roots(), o)
      requires forall o, c: Obj :: o in all && c in g[o] ==> c in all
      requires forall r: Obj :: r in Roots() ==> r in all
      requires forall o :: o in all ==> !o.marked && (o.freed <==> o !in live)
      ensures Closed() && forall o :: o in list ==> !o.marked && !o.freed
    {
      KeptIs(all, |all|, live);
      assert all[..|all|] == all;
      forall o, c: Obj | o in list && c in o.children ensures c in list {
        ReachStep(g, Roots(), o, c);
      }
      forall r: Obj | r in Roots() ensures r in list {
        assert ReachesIn(g, Roots(), r, 0);
      }
    }

    // What allocators call: under stress every stressPeriod-th safepoint
    // collects, otherwise the heap having outgrown nextGC does.
    method MaybeCollect()
      requires Valid()
      modifies this`objects, this`bytesAllocated, this`nextGC, this`list, this`grayStack, this`stressCounter
      modifies list`marked, list`next, list`freed
      ensures Valid()
      ensures list == if old((stressPeriod != 0 && stressCounter + 1 >= stressPeriod) || bytesAllocated > nextGC)
                      then Kept(old(list), |old(list)|, old(Live())) else old(list)
      ensures stressCounter == if stressPeriod == 0 then old(stressCounter)
                               else if old(stressCounter) + 1 >= stressPeriod then 0 else old(stressCounter) + 1
    {
      hide *;
      var stressed := false;
      if stressPeriod != 0 {
        stressCounter := stressCounter + 1;
        if stressCounter >= stressPeriod {
          stressCounter := 0;
          stressed := true;
        }
      }
      if stressed || bytesAllocated > nextGC {
        Collect();
      }
    }

    // gc_free_all: shutdown frees every tracked object.
    method FreeAll()
      requires Valid()
      modifies this`objects, this`bytesAllocated, this`list, list`freed
      ensures list == [] && objects == null && bytesAllocated == 0
      ensures forall o :: o in old(list) ==> o.freed
    {
      var obj := objects;
      ghost var i: nat := 0;
      while obj != null
        invariant list == old(list) && Linked() && i <= |list| && obj == At(list, i)
        invariant forall k :: 0 <= k < i ==> list[k].freed
        invariant forall k :: i <= k < |list| ==> !list[k].freed
        decreases |list| - i
      {
        var next := obj.next;
        obj.freed := true;
        obj := next;
        i := i + 1;
      }
      objects, bytesAllocated, list := null, 0, [];
    }
  }

  lemma {:induction false} TotalCons(sizes: map<Obj, nat>, sizes': map<Obj, nat>, o: Obj, s: seq<Obj>, n: nat)
    requires n <= |s| && o in sizes' && forall x :: x in s ==> x in sizes && x in sizes' && sizes[x] == sizes'[x]
    ensures Total(sizes', [o] + s, n + 1) == sizes'[o] + Total(sizes, s, n)
    decreases n
  {
    if n > 0 {
      TotalCons(sizes, sizes', o, s, n - 1);
    }
  }
}
