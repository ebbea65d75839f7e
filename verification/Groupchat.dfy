// groupchat (native/groupchat.c): an insertion-ordered array of entries, with
// an open-addressed index over its string keys once there are enough of them.
module Groupchats {

  // Only strings are told apart from other values here; what else a key may be
  // does not matter to the index.
  datatype Value = Str(bytes: string) | Other(id: int)
  datatype Entry = Entry(key: Value, value: Value)

  // value_equal_narrow, as far as it is known: strings compare by content, and
  // never equal anything else.
  type Equality = (Value, Value) -> bool

  ghost predicate StringEquality(equal: Equality) {
    forall a: Value, b: Value {:trigger equal(a, b)} :: a.Str? || b.Str? ==> (equal(a, b) <==> a == b)
  }

  // ----- the simple ordered map -----

  // Where a linear scan finds key; |entries| when it does not.
  function Scan(entries: seq<Entry>, key: Value, equal: Equality, from: nat): (i: nat)
    requires from <= |entries|
    ensures from <= i <= |entries|
    ensures forall k :: from <= k < i ==> !equal(entries[k].key, key)
    ensures i < |entries| ==> equal(entries[i].key, key)
    decreases |entries| - from
  {
    if from == |entries| || equal(entries[from].key, key) then from
    else Scan(entries, key, equal, from + 1)
  }

  function Put(entries: seq<Entry>, key: Value, value: Value, equal: Equality): seq<Entry> {
    var i := Scan(entries, key, equal, 0);
    if i < |entries| then entries[i := entries[i].(value := value)] else entries + [Entry(key, value)]
  }

  function Without(entries: seq<Entry>, key: Value, equal: Equality): seq<Entry> {
    var i := Scan(entries, key, equal, 0);
    if i < |entries| then entries[..i] + entries[i + 1..] else entries
  }

  function PutAll(es: seq<Entry>, n: nat, equal: Equality): seq<Entry>
    requires n <= |es|
    decreases n
  {
    if n == 0 then [] else Put(PutAll(es, n - 1, equal), es[n - 1].key, es[n - 1].value, equal)
  }

  // The value stored under key, if any.
  ghost function Lookup(entries: seq<Entry>, key: Value, equal: Equality): seq<Value> {
    var i := Scan(entries, key, equal, 0);
    if i < |entries| then [entries[i].value] else []
  }

  ghost predicate StringsUnique(entries: seq<Entry>) {
    forall i, j :: 0 <= i < j < |entries| && entries[i].key.Str? ==> entries[i].key != entries[j].key
  }

  lemma ScanIs(entries: seq<Entry>, key: Value, equal: Equality, i: nat)
    requires i < |entries| && equal(entries[i].key, key)
    requires forall k :: 0 <= k < i ==> !equal(entries[k].key, key)
    ensures Scan(entries, key, equal, 0) == i
  {
  }

  lemma ScanNone(entries: seq<Entry>, key: Value, equal: Equality)
    requires forall k :: 0 <= k < |entries| ==> !equal(entries[k].key, key)
    ensures Scan(entries, key, equal, 0) == |entries|
  {
  }

  // Storing then reading ...
  lemma PutThenLookup(entries: seq<Entry>, key: Value, value: Value, equal: Equality)
    requires equal(key, key)
    ensures Lookup(Put(entries, key, value, equal), key, equal) == [value]
  {
    ScanIs(Put(entries, key, value, equal), key, equal, Scan(entries, key, equal, 0));
  }

  // ... finds what other keys were given, where either key is a string.
  lemma PutLeavesOthers(entries: seq<Entry>, key: Value, value: Value, equal: Equality, other: Value)
    requires StringEquality(equal) && other != key && (key.Str? || other.Str?)
    ensures Lookup(Put(entries, key, value, equal), other, equal) == Lookup(entries, other, equal)
  {
    var k, after := Scan(entries, other, equal, 0), Put(entries, key, value, equal);
    if k < |entries| {
      ScanIs(after, other, equal, k);
    } else {
      ScanNone(after, other, equal);
    }
  }

  // Removing a string key, where keys are unique, leaves the others findable.
  lemma WithoutThenLookup(entries: seq<Entry>, key: Value, equal: Equality, other: Value)
    requires key.Str? && other.Str? && StringEquality(equal) && StringsUnique(entries)
    ensures Lookup(Without(entries, key, equal), other, equal)
         == if other == key then [] else Lookup(entries, other, equal)
  {
    var i, after := Scan(entries, key, equal, 0), Without(entries, key, equal);
    var k := Scan(entries, other, equal, 0);
    if i < |entries| {
      forall m | 0 <= m < |after| ensures after[m] == entries[if m < i then m else m + 1] {
      }
      if other == key || k == |entries| {
        ScanNone(after, other, equal);
      } else {
        ScanIs(after, other, equal, if k < i then k else k - 1);
      }
    }
  }

  lemma PutMakesLonger(es: seq<Entry>, key: Value, value: Value, equal: Equality)
    ensures |es| <= |Put(es, key, value, equal)| <= |es| + 1
  {
  }

  lemma {:induction false} PutAllLength(es: seq<Entry>, n: nat, equal: Equality)
    requires n <= |es|
    ensures |PutAll(es, n, equal)| <= n
    decreases n
  {
    if n > 0 {
      PutAllLength(es, n - 1, equal);
    }
  }

  // ----- the index -----

  const GROUPCHAT_INDEX_MIN: nat := 12

  // At or over a load of GROUPCHAT_INDEX_LOAD_NUM / GROUPCHAT_INDEX_LOAD_DEN.
  predicate Overloaded(count: nat, capacity: nat) {
    count * 10 >= capacity * 7
  }

  // Doubled from w until it is large enough.
  function Capacity(count: nat, w: nat): nat
    requires w > 0
    decreases count * 10 - w * 7
  {
    if Overloaded(count, w) then Capacity(count, w * 2) else w
  }

  lemma StaysOverloaded(count: nat, capacity: nat)
    ensures Overloaded(count, capacity) ==> Overloaded(count + 1, capacity)
  {
  }

  // The slot d steps on from home, around a table of cap slots.
  function Slot(home: nat, d: nat, cap: nat): (s: nat)
    requires home < cap && d <= cap
  {
    if home + d < cap then home + d else home + d - cap
  }

  // Entry i sits where probing from home comes upon it.
  ghost predicate Located(index: seq<int>, home: nat, i: int) {
    exists d :: 0 <= d < |index| && LocatedAt(index, home, i, d)
  }

  ghost predicate LocatedAt(index: seq<int>, home: nat, i: int, d: nat) {
    && home < |index| && d < |index| && index[Slot(home, d, |index|)] == i
    && forall k :: 0 <= k < d ==> index[Slot(home, k, |index|)] != -1
  }

  ghost function Home(hash: string -> nat, key: Value, cap: nat): nat
    requires key.Str? && cap > 0
  {
    hash(key.bytes) % cap
  }

  // The index holds exactly the positions of string keys, once each, and
  // probing reaches every one of them.
  ghost predicate Agrees(index: seq<int>, entries: seq<Entry>, hash: string -> nat) {
    && |index| > 0
    && (forall s :: 0 <= s < |index| ==> index[s] == -1 || (0 <= index[s] < |entries| && entries[index[s]].key.Str?))
    && (forall s, t :: 0 <= s < t < |index| && index[s] != -1 ==> index[s] != index[t])
    && (forall i :: 0 <= i < |entries| && entries[i].key.Str? ==>
         Located(index, Home(hash, entries[i].key, |index|), i))
  }

  // ----- an empty slot is left -----

  lemma {:induction false} InjectiveCount(s: seq<int>, n: nat)
    requires forall k :: 0 <= k < |s| ==> 0 <= s[k] < n
    requires forall j, k :: 0 <= j < k < |s| ==> s[j] != s[k]
    ensures |s| <= n
    decreases n
  {
    if |s| > 0 {
      assert 0 <= s[0] < n;
      if m :| 0 <= m < |s| && s[m] == n - 1 {
        InjectiveCount(s[..m] + s[m + 1..], n - 1);
      } else {
        InjectiveCount(s, n - 1);
      }
    }
  }

  lemma EmptySlot(index: seq<int>, entries: seq<Entry>, hash: string -> nat) returns (s: nat)
    requires Agrees(index, entries, hash) && |entries| < |index|
    ensures s < |index| && index[s] == -1
  {
    if k :| 0 <= k < |index| && index[k] == -1 {
      s := k;
    } else {
      InjectiveCount(index, |entries|);
      assert false;
    }
  }

  // How far slot s is from home.
  function Distance(home: nat, s: nat, cap: nat): (d: nat)
    requires home < cap && s < cap
    ensures d < cap && Slot(home, d, cap) == s
  {
    if s >= home then s - home else s + cap - home
  }

  lemma NextSlot(home: nat, d: nat, cap: nat)
    requires home < cap && d < cap
    ensures (Slot(home, d, cap) + 1) % cap == Slot(home, d + 1, cap)
  {
    var s := Slot(home, d, cap);
    if s + 1 == cap {
      assert (s + 1) % cap == 0;
    }
  }

  lemma {:induction false} HomeInRange(h: nat, cap: nat)
    requires cap > 0
    ensures 0 <= h % cap < cap
  {
  }

  // Every slot is empty or names an entry that is in memory.
  ghost predicate InMemory(index: seq<int>, memory: seq<Entry>) {
    |index| > 0 && forall s :: 0 <= s < |index| ==> -1 <= index[s] < |memory|
  }

  ghost function Free(index: seq<int>): nat {
    multiset(index)[-1]
  }

  // The first empty slot from the new key's home takes its position.
  method IndexInsert(index: array<int>, hash: string -> nat, ghost memory: seq<Entry>, n: nat, bytes: string,
        ghost empty: nat)
    requires n < |memory| && memory[n].key == Str(bytes)
    requires InMemory(index[..], memory) && empty < index.Length && index[empty] == -1
    modifies index
    ensures InMemory(index[..], memory) && Free(index[..]) == old(Free(index[..])) - 1
    ensures old(Agrees(index[..], memory[..n], hash)) ==> Agrees(index[..], memory[..n + 1], hash)
  {
    hide Agrees;
    ghost var before := index[..];
    var slot, d := FirstEmpty(index, hash(bytes), empty);
    index[slot] := n;
    assert index[..] == before[slot := n];
    if Agrees(before, memory[..n], hash) {
      assert memory[..n + 1][..n] == memory[..n];
      assert LocatedAt(index[..], Home(hash, memory[n].key, index.Length), n, d);
      Filled(before, index[..], memory[..n], memory[..n + 1], hash, slot, d);
    }
  }

  method FirstEmpty(index: array<int>, h: nat, ghost empty: nat) returns (slot: nat, ghost d: nat)
    requires empty < index.Length && index[empty] == -1
    ensures d < index.Length && slot == Slot(h % index.Length, d, index.Length) < index.Length
    ensures index[slot] == -1
    ensures forall k :: 0 <= k < d ==> index[Slot(h % index.Length, k, index.Length)] != -1
  {
    HomeInRange(h, index.Length);
    ghost var cap, home: nat := index.Length, h % index.Length;
    slot, d := h % index.Length, 0;
    while index[slot] != -1
      invariant d <= Distance(home, empty, cap) && slot == Slot(home, d, cap)
      invariant forall k :: 0 <= k < d ==> index[Slot(home, k, cap)] != -1
      decreases cap - d
    {
      NextSlot(home, d, cap);
      slot := (slot + 1) % index.Length;
      d := d + 1;
    }
  }

  lemma Filled(before: seq<int>, after: seq<int>, es: seq<Entry>, es': seq<Entry>, hash: string -> nat, slot: nat,
        d: nat)
    requires slot < |before| && before[slot] == -1 && after == before[slot := |es|]
    requires Agrees(before, es, hash) && |es'| == |es| + 1 && es'[..|es|] == es && es'[|es|].key.Str?
    requires LocatedAt(after, Home(hash, es'[|es|].key, |after|), |es|, d)
    ensures Agrees(after, es', hash)
  {
    forall i | 0 <= i < |es'| && es'[i].key.Str?
      ensures Located(after, Home(hash, es'[i].key, |after|), i)
    {
      if i < |es| {
        assert es'[i] == es[i];
        var home := Home(hash, es[i].key, |before|);
        assert Located(before, home, i);
        var e :| 0 <= e < |before| && LocatedAt(before, home, i, e);
        assert LocatedAt(after, home, i, e);
      }
    }
  }

  lemma OtherKey(index: seq<int>, es: seq<Entry>, es': seq<Entry>, hash: string -> nat)
    requires Agrees(index, es, hash) && |es'| == |es| + 1 && es'[..|es|] == es && !es'[|es|].key.Str?
    ensures Agrees(index, es', hash)
  {
    forall i | 0 <= i < |es'| && es'[i].key.Str?
      ensures Located(index, Home(hash, es'[i].key, |index|), i)
    {
      assert es'[i] == es[i];
    }
  }

  // What probing comes to: an empty slot, the entry of the key, or back to where it
  // started, and so on for ever.
  datatype Probed = Absent | At(i: int) | Endless

  ghost function Probing(index: seq<int>, home: nat, d: nat, memory: seq<Entry>, bytes: string, equal: Equality): Probed
    requires home < |index| && d <= |index| && InMemory(index, memory)
    decreases |index| - d
  {
    if d == |index| then Endless
    else
      var e := index[Slot(home, d, |index|)];
      if e == -1 then Absent
      else if equal(memory[e].key, Str(bytes)) then At(e)
      else Probing(index, home, d + 1, memory, bytes, equal)
  }

  // The loop of groupchat_find, where it ends.
  method Probe(index: array<int>, hash: string -> nat, memory: seq<Entry>, bytes: string, equal: Equality)
      returns (found: bool, i: int)
    requires InMemory(index[..], memory)
    requires Probing(index[..], Home(hash, Str(bytes), index.Length), 0, memory, bytes, equal) != Endless
    ensures Probing(index[..], Home(hash, Str(bytes), index.Length), 0, memory, bytes, equal)
         == if found then At(i) else Absent
  {
    ghost var idx, cap := index[..], index.Length;
    HomeInRange(hash(bytes), index.Length);
    ghost var home, d: nat := Home(hash, Str(bytes), cap), 0;
    var slot := hash(bytes) % index.Length;
    while index[slot] != -1
      invariant d < cap && slot == Slot(home, d, cap)
      invariant Probing(idx, home, 0, memory, bytes, equal) == Probing(idx, home, d, memory, bytes, equal)
      decreases cap - d
    {
      i := index[slot];
      if equal(memory[i].key, Str(bytes)) {
        return true, i;
      }
      NextSlot(home, d, cap);
      slot := (slot + 1) % index.Length;
      d := d + 1;
    }
    return false, 0;
  }

  // Probing never ends if and only if no slot is empty and none is the key's.
  lemma EndlessIff(index: seq<int>, home: nat, memory: seq<Entry>, bytes: string, equal: Equality)
    requires home < |index| && InMemory(index, memory)
    ensures Probing(index, home, 0, memory, bytes, equal).Endless? <==>
      forall s :: 0 <= s < |index| ==> index[s] != -1 && !equal(memory[index[s]].key, Str(bytes))
  {
    EndlessFrom(index, home, 0, memory, bytes, equal);
    if Probing(index, home, 0, memory, bytes, equal).Endless? {
      forall s | 0 <= s < |index| ensures index[s] != -1 && !equal(memory[index[s]].key, Str(bytes)) {
        assert PassedOver(index[Slot(home, Distance(home, s, |index|), |index|)], memory, bytes, equal);
      }
    }
  }

  lemma {:induction false} EndlessFrom(index: seq<int>, home: nat, d: nat, memory: seq<Entry>, bytes: string,
        equal: Equality)
    requires home < |index| && d <= |index| && InMemory(index, memory)
    ensures Probing(index, home, d, memory, bytes, equal).Endless? <==>
      forall k :: d <= k < |index| ==> PassedOver(index[Slot(home, k, |index|)], memory, bytes, equal)
    decreases |index| - d
  {
    if d < |index| {
      EndlessFrom(index, home, d + 1, memory, bytes, equal);
    }
  }

  predicate PassedOver(e: int, memory: seq<Entry>, bytes: string, equal: Equality) {
    e != -1 && (0 <= e < |memory| ==> !equal(memory[e].key, Str(bytes)))
  }

  lemma {:induction false} ProbingStops(index: seq<int>, home: nat, d: nat, memory: seq<Entry>, bytes: string,
        equal: Equality)
      returns (s: nat)
    requires home < |index| && d <= |index| && InMemory(index, memory)
    requires !Probing(index, home, d, memory, bytes, equal).Endless?
    ensures s < |index|
    ensures match Probing(index, home, d, memory, bytes, equal)
      case Absent => index[s] == -1
      case At(i) => index[s] == i && 0 <= i < |memory| && equal(memory[i].key, Str(bytes))
    decreases |index| - d
  {
    var e := index[Slot(home, d, |index|)];
    if e == -1 || equal(memory[e].key, Str(bytes)) {
      s := Slot(home, d, |index|);
    } else {
      s := ProbingStops(index, home, d + 1, memory, bytes, equal);
    }
  }

  // The first d slots from home are taken, but not by this key.
  ghost predicate Missed(index: seq<int>, home: nat, d: nat, entries: seq<Entry>, bytes: string) {
    home < |index| && d <= |index| && forall k :: 0 <= k < d ==> MissedAt(index[Slot(home, k, |index|)], entries, bytes)
  }

  ghost predicate MissedAt(e: int, entries: seq<Entry>, bytes: string) {
    e != -1 && (0 <= e < |entries| ==> entries[e].key != Str(bytes))
  }

  // Probing comes upon a string key's entry among the first n, which the index is
  // about, or upon an empty slot.
  lemma ProbingScans(index: seq<int>, hash: string -> nat, memory: seq<Entry>, n: nat, bytes: string, equal: Equality)
    requires n <= |memory| && Agrees(index, memory[..n], hash) && n < |index|
    requires StringEquality(equal) && StringsUnique(memory[..n])
    ensures InMemory(index, memory)
    ensures var i := Scan(memory[..n], Str(bytes), equal, 0);
      Probing(index, Home(hash, Str(bytes), |index|), 0, memory, bytes, equal) == if i < n then At(i) else Absent
  {
    var empty := EmptySlot(index, memory[..n], hash);
    HomeInRange(hash(bytes), |index|);
    ProbingOn(index, hash, memory, n, bytes, equal, empty, 0);
  }

  lemma {:induction false} ProbingOn(index: seq<int>, hash: string -> nat, memory: seq<Entry>, n: nat, bytes: string,
                                     equal: Equality, empty: nat, d: nat)
    requires n <= |memory| && Agrees(index, memory[..n], hash) && InMemory(index, memory)
    requires StringEquality(equal) && StringsUnique(memory[..n])
    requires empty < |index| && index[empty] == -1 && d <= Distance(Home(hash, Str(bytes), |index|), empty, |index|)
    requires Missed(index, Home(hash, Str(bytes), |index|), d, memory[..n], bytes)
    ensures var i := Scan(memory[..n], Str(bytes), equal, 0);
      Probing(index, Home(hash, Str(bytes), |index|), d, memory, bytes, equal) == if i < n then At(i) else Absent
    decreases |index| - d
  {
    var es := memory[..n];
    var e := index[Slot(Home(hash, Str(bytes), |index|), d, |index|)];
    if e == -1 {
      NotIndexed(index, es, hash, bytes, d, equal);
    } else if equal(es[e].key, Str(bytes)) {
      OnlyHit(es, bytes, equal, e);
    } else {
      ProbingOn(index, hash, memory, n, bytes, equal, empty, d + 1);
    }
  }

  lemma OnlyHit(entries: seq<Entry>, bytes: string, equal: Equality, i: nat)
    requires StringEquality(equal) && StringsUnique(entries)
    requires i < |entries| && equal(entries[i].key, Str(bytes))
    ensures Scan(entries, Str(bytes), equal, 0) == i
  {
    ScanIs(entries, Str(bytes), equal, i);
  }

  lemma NotIndexed(index: seq<int>, entries: seq<Entry>, hash: string -> nat, bytes: string, d: nat, equal: Equality)
    requires StringEquality(equal) && Agrees(index, entries, hash) && d < |index|
    requires Missed(index, Home(hash, Str(bytes), |index|), d, entries, bytes)
    requires index[Slot(Home(hash, Str(bytes), |index|), d, |index|)] == -1
    ensures Scan(entries, Str(bytes), equal, 0) == |entries|
  {
    hide Agrees, Scan;
    var home := Home(hash, Str(bytes), |index|);
    forall i | 0 <= i < |entries| ensures entries[i].key != Str(bytes) {
      if entries[i].key == Str(bytes) {
        WhereIs(index, entries, hash, i);
        NotThere(index, home, i, d, entries, bytes);
      }
    }
    ScanNone(entries, Str(bytes), equal);
  }

  lemma NotThere(index: seq<int>, home: nat, i: nat, d: nat, entries: seq<Entry>, bytes: string)
    requires Missed(index, home, d, entries, bytes) && d < |index| && index[Slot(home, d, |index|)] == -1
    requires i < |entries| && Located(index, home, i)
    ensures entries[i].key != Str(bytes)
  {
    var e :| 0 <= e < |index| && LocatedAt(index, home, i, e);
    if e < d {
      assert MissedAt(index[Slot(home, e, |index|)], entries, bytes);
    }
  }

  lemma WhereIs(index: seq<int>, entries: seq<Entry>, hash: string -> nat, i: nat)
    requires Agrees(index, entries, hash) && i < |entries| && entries[i].key.Str?
    ensures Located(index, Home(hash, entries[i].key, |index|), i)
  {
  }

  lemma EmptyAgreesIff(index: seq<int>, es: seq<Entry>, hash: string -> nat)
    requires Agrees(index, es, hash)
    ensures Agrees(index, [], hash) <==> forall e :: e in es ==> !e.key.Str?
  {
    if e :| e in es && e.key.Str? {
      var i :| 0 <= i < |es| && es[i] == e;
      assert Located(index, Home(hash, e.key, |index|), i);
    }
  }

  lemma EmptyAgrees(index: seq<int>, hash: string -> nat)
    requires |index| > 0 && forall s :: 0 <= s < |index| ==> index[s] == -1
    ensures Agrees(index, [], hash)
  {
  }

  lemma AgreesInMemory(index: seq<int>, es: seq<Entry>, tail: seq<Entry>, hash: string -> nat)
    requires Agrees(index, es, hash)
    ensures InMemory(index, es + tail)
  {
  }

  lemma StaysInMemory(index: seq<int>, a: seq<Entry>, b: seq<Entry>)
    requires InMemory(index, a) && |a| <= |b|
    ensures InMemory(index, b)
  {
  }

  ghost predicate Distinct(keys: seq<string>) {
    forall i, j :: 0 <= i < j < |keys| ==> keys[i] != keys[j]
  }

  // How many of the first n entries have string keys.
  function Strings(es: seq<Entry>, n: nat): (k: nat)
    requires n <= |es|
    ensures k <= n
  {
    if n == 0 then 0 else Strings(es, n - 1) + if es[n - 1].key.Str? then 1 else 0
  }

  lemma {:induction false} AllStrings(es: seq<Entry>, n: nat)
    requires n <= |es| && forall j :: 0 <= j < |es| ==> es[j].key.Str?
    ensures Strings(es, n) == n
    decreases n
  {
    if n > 0 {
      AllStrings(es, n - 1);
    }
  }

  // Each string key is in one slot.
  ghost predicate Placed(index: seq<int>, es: seq<Entry>, n: nat)
    requires n <= |es|
  {
    && (forall s :: 0 <= s < |index| ==> index[s] == -1 || (0 <= index[s] < n && es[index[s]].key.Str?))
    && (forall s, t :: 0 <= s < t < |index| && index[s] != -1 ==> index[s] != index[t])
    && (forall i :: 0 <= i < n && es[i].key.Str? ==> i in index)
  }

  lemma PlacedWithout(index: seq<int>, es: seq<Entry>, n: nat, s: nat)
    requires 0 < n <= |es| && Placed(index, es, n) && s < |index| && index[s] == n - 1
    ensures Placed(index[s := -1], es, n - 1) && Free(index[s := -1]) == Free(index) + 1
  {
    forall i | 0 <= i < n - 1 && es[i].key.Str? ensures i in index[s := -1] {
      var u :| 0 <= u < |index| && index[u] == i;
      assert index[s := -1][u] == i;
    }
  }

  lemma {:induction false} PlacedCount(index: seq<int>, es: seq<Entry>, n: nat)
    requires n <= |es| && Placed(index, es, n)
    ensures Free(index) + Strings(es, n) == |index|
    decreases n
  {
    if n == 0 {
      AllFree(index);
    } else if es[n - 1].key.Str? {
      var s :| 0 <= s < |index| && index[s] == n - 1;
      PlacedWithout(index, es, n, s);
      PlacedCount(index[s := -1], es, n - 1);
    } else {
      PlacedCount(index, es, n - 1);
    }
  }

  lemma {:induction false} AllFree(index: seq<int>)
    requires forall s :: 0 <= s < |index| ==> index[s] == -1
    ensures Free(index) == |index|
  {
    if |index| > 0 {
      AllFree(index[1..]);
      assert index == [index[0]] + index[1..];
    }
  }

  // The index has a slot for each string key, and the others are empty.
  lemma FreeSlots(index: seq<int>, es: seq<Entry>, hash: string -> nat)
    requires Agrees(index, es, hash)
    ensures Free(index) + Strings(es, |es|) == |index|
  {
    forall i | 0 <= i < |es| && es[i].key.Str? ensures i in index {
      assert Located(index, Home(hash, es[i].key, |index|), i);
    }
    PlacedCount(index, es, |es|);
  }

  // ----- groupchats -----

  class Groupchat {
    var entries: seq<Entry>
    var tail: seq<Entry>  // what the array still holds past count
    var index: array?<int>  // NULL until there are enough entries
    const hash: string -> nat
    const equal: Equality

    ghost predicate Valid()
      reads this, index
    {
      && StringEquality(equal) && StringsUnique(entries)
      && (index != null ==>
           Agrees(index[..], entries, hash)
           && !Overloaded(|entries|, index.Length))
      && (|entries| >= GROUPCHAT_INDEX_MIN ==> index != null)
    }

    function Memory(): seq<Entry>
      reads this
    {
      entries + tail
    }

    // The index, if any, is about entries in memory.
    ghost predicate Sound()
      reads this, index
    {
      index != null ==> InMemory(index[..], Memory())
    }

    // What groupchat_find comes to.
    ghost function Finds(key: Value): Probed
      requires Sound()
      reads this, index
    {
      if index != null && key.Str? then
        Probing(index[..], Home(hash, key, index.Length), 0, Memory(), key.bytes, equal)
      else
        var i := Scan(entries, key, equal, 0);
        if i < |entries| then At(i) else Absent
    }

    // The index is about the first n entries in memory, be they counted or not.
    ghost predicate About(n: nat)
      reads this, index
    {
      && StringEquality(equal) && |entries| <= n <= |Memory()| && StringsUnique(Memory()[..n])
      && (index != null ==> Agrees(index[..], Memory()[..n], hash) && n < index.Length)
    }

    // What groupchat_find searches: what the index is about, for a string key.
    ghost function Searched(key: Value, n: nat): seq<Entry>
      reads this
      requires n <= |Memory()|
    {
      if index != null && key.Str? then Memory()[..n] else entries
    }

    // It finds what a linear scan finds there.
    lemma AboutFinds(key: Value, n: nat)
      requires About(n)
      ensures Sound()
      ensures var i := Scan(Searched(key, n), key, equal, 0);
        Finds(key) == if i < |Searched(key, n)| then At(i) else Absent
    {
      hide Agrees;
      if index != null {
        ProbingScans(index[..], hash, Memory(), n, if key.Str? then key.bytes else "", equal);
      }
    }

    lemma ValidFinds(key: Value)
      requires Valid()
      ensures Sound() && About(|entries|)
      ensures Finds(key) == if Scan(entries, key, equal, 0) < |entries|
        then At(Scan(entries, key, equal, 0)) else Absent
    {
      assert Memory()[..|entries|] == entries;
      AboutFinds(key, |entries|);
    }

    method RebuildIndex()
      modifies this`index
      ensures index != null && fresh(index) && index.Length == Capacity(|entries|, 8)
      ensures Agrees(index[..], entries, hash) && !Overloaded(|entries|, index.Length)
    {
      var wanted := 8;
      while Overloaded(|entries|, wanted)
        invariant wanted >= 8 && Capacity(|entries|, 8) == Capacity(|entries|, wanted)
        decreases |entries| * 10 - wanted * 7
      {
        wanted := wanted * 2;
      }
      var table := new int[wanted](_ => -1);
      EmptyAgrees(table[..], hash);
      hide Agrees, Capacity;
      var i := 0;
      assert entries[..i] == [];
      while i < |entries|
        invariant 0 <= i <= |entries| && table.Length == wanted && fresh(table)
        invariant Agrees(table[..], entries[..i], hash)
      {
        IndexEntry(table, i);
        i := i + 1;
      }
      assert entries[..i] == entries;
      index := table;
    }

    method IndexEntry(table: array<int>, i: nat)
      requires i < |entries| && i < table.Length && Agrees(table[..], entries[..i], hash)
      modifies table
      ensures Agrees(table[..], entries[..i + 1], hash)
    {
      hide Agrees;
      if entries[i].key.Str? {
        ghost var empty := EmptySlot(table[..], entries[..i], hash);
        AgreesInMemory(table[..], entries[..i], entries[i..], hash);
        assert entries[..i] + entries[i..] == entries;
        IndexInsert(table, hash, entries, i, entries[i].key.bytes, empty);
      } else {
        OtherKey(table[..], entries[..i], entries[..i + 1], hash);
      }
    }

    // groupchat_find, where it ends: the position of the entry, or NULL.
    method Find(key: Value) returns (found: bool, i: int)
      requires Sound() && Finds(key) != Endless
      ensures Finds(key) == if found then At(i) else Absent
    {
      if index != null && key.Str? {
        found, i := Probe(index, hash, Memory(), key.bytes, equal);
        return;
      }
      i := 0;
      while i < |entries| && !equal(entries[i].key, key)
        invariant 0 <= i <= |entries| && Scan(entries, key, equal, 0) == Scan(entries, key, equal, i)
      {
        i := i + 1;
      }
      found := i < |entries|;
    }

    // groupchat_set, where finding the key ends: whatever is found gets the value, be it
    // counted or not.
    method Set(key: Value, value: Value)
      requires Sound() && Finds(key) != Endless
      modifies this`entries, this`tail, this`index, index
      ensures Sound()
      ensures index != null && index != old(index) ==> fresh(index) && index.Length == Capacity(|entries|, 8)
      ensures match old(Finds(key))
        case At(i) =>
          && 0 <= i < |old(Memory())| && Memory() == old(Memory())[i := old(Memory())[i].(value := value)]
          && |entries| == |old(entries)| && index == old(index)
        case Absent =>
          && entries == old(entries) + [Entry(key, value)] && (tail == if old(tail) == [] then [] else old(tail)[1..])
          && (old(index) != null && key.Str? ==>
               if Overloaded(|entries|, old(index).Length)
               then index != null && Agrees(index[..], entries, hash) && !Overloaded(|entries|, index.Length)
               else index == old(index) && Free(index[..]) == old(Free(index[..])) - 1)
      ensures old(Valid()) ==> Valid() && entries == Put(old(entries), key, value, equal)
      ensures old(index) == null && |entries| < GROUPCHAT_INDEX_MIN ==> index == null
    {
      if Valid() {
        ValidFinds(key);
      }
      var found, i := Find(key);
      if found {
        Replace(key, i, value);
      } else {
        Append(key, value);
      }
    }

    method Replace(key: Value, i: int, value: Value)
      requires Sound() && Finds(key) == At(i)
      modifies this`entries, this`tail
      ensures 0 <= i < |old(Memory())| && Memory() == old(Memory())[i := old(Memory())[i].(value := value)]
      ensures |entries| == |old(entries)| && Sound()
      ensures old(Valid()) && i < |old(entries)| ==>
        Valid() && entries == old(entries)[i := old(entries)[i].(value := value)]
    {
      hide Agrees;
      if index != null && key.Str? {
        var _ := ProbingStops(index[..], Home(hash, key, index.Length), 0, Memory(), key.bytes, equal);
      }
      if i < |entries| {
        if Valid() {
          ReplaceKeeps(entries, i, value);
        }
        entries := entries[i := entries[i].(value := value)];
      } else {
        tail := tail[i - |entries| := tail[i - |entries|].(value := value)];
      }
    }

    method Append(key: Value, value: Value)
      requires Sound() && Finds(key) == Absent
      modifies this`entries, this`tail, this`index, index
      ensures entries == old(entries) + [Entry(key, value)] && tail == if old(tail) == [] then [] else old(tail)[1..]
      ensures Sound() && (|entries| >= GROUPCHAT_INDEX_MIN ==> index != null)
      ensures index != null && index != old(index) ==> fresh(index) && index.Length == Capacity(|entries|, 8)
      ensures old(index) == null ==> (index == null <==> |entries| < GROUPCHAT_INDEX_MIN)
      ensures old(index) != null && !Overloaded(|entries|, old(index).Length) && key.Str? ==>
        index == old(index) && Free(index[..]) == old(Free(index[..])) - 1
      ensures old(index) != null && Overloaded(|entries|, old(index).Length) ==>
        index != null && Agrees(index[..], entries, hash) && !Overloaded(|entries|, index.Length)
      ensures old(Valid()) ==> Valid()
    {
      ghost var empty := Unfound(key, value);
      hide Agrees, InMemory, Finds, StringsUnique, StringEquality;
      entries := entries + [Entry(key, value)];
      tail := if tail == [] then [] else tail[1..];
      assert entries[..|entries| - 1] == old(entries);
      if index != null {
        StaysInMemory(index[..], old(Memory()), Memory());
      }
      IndexLast(key, empty);
    }

    // A key that is not found leaves room for itself.
    lemma Unfound(key: Value, value: Value) returns (empty: nat)
      requires Sound() && Finds(key) == Absent
      ensures index != null && key.Str? ==> empty < index.Length && index[empty] == -1
      ensures Valid() ==> StringsUnique(entries + [Entry(key, value)])
    {
      hide Agrees;
      empty := 0;
      if index != null && key.Str? {
        empty := ProbingStops(index[..], Home(hash, key, index.Length), 0, Memory(), key.bytes, equal);
      }
      if Valid() {
        ValidFinds(key);
        AppendUnique(key, value);
      }
    }

    // The index after an entry has been appended.
    method IndexLast(key: Value, ghost empty: nat)
      requires |entries| > 0 && entries[|entries| - 1].key == key && Sound()
      requires index != null && key.Str? ==> empty < index.Length && index[empty] == -1
      modifies this`index, index
      ensures Sound() && (|entries| >= GROUPCHAT_INDEX_MIN ==> index != null)
      ensures index != null && index != old(index) ==> fresh(index) && index.Length == Capacity(|entries|, 8)
      ensures old(index) == null ==> (index == null <==> |entries| < GROUPCHAT_INDEX_MIN)
      ensures old(index) != null && !Overloaded(|entries|, old(index).Length) ==>
        index == old(index) && Free(index[..]) == old(Free(index[..])) - if key.Str? then 1 else 0
      ensures index != null && (index != old(index) || old(Agrees(index[..], entries[..|entries| - 1], hash))) ==>
        Agrees(index[..], entries, hash)
      ensures index != null ==> !Overloaded(|entries|, index.Length)
      ensures old(index) != null && Overloaded(|entries|, old(index).Length) ==> index != null && index != old(index)
    {
      hide Agrees;
      if (if index == null then |entries| >= GROUPCHAT_INDEX_MIN else Overloaded(|entries|, index.Length)) {
        RebuildIndex();
        AgreesInMemory(index[..], entries, tail, hash);
      } else if index != null && key.Str? {
        assert Memory()[..|entries|] == entries && Memory()[..|entries| - 1] == entries[..|entries| - 1];
        IndexInsert(index, hash, Memory(), |entries| - 1, key.bytes, empty);
      } else if index != null && Agrees(index[..], entries[..|entries| - 1], hash) {
        OtherKey(index[..], entries[..|entries| - 1], entries, hash);
      }
    }

    lemma AppendUnique(key: Value, value: Value)
      requires StringEquality(equal) && StringsUnique(entries) && Scan(entries, key, equal, 0) == |entries|
      ensures StringsUnique(entries + [Entry(key, value)])
    {
    }

    lemma ReplaceKeeps(es: seq<Entry>, i: nat, value: Value)
      requires i < |es| && StringsUnique(es)
      ensures var es' := es[i := es[i].(value := value)];
        StringsUnique(es') && forall idx :: Agrees(idx, es, hash) ==> Agrees(idx, es', hash)
    {
      var es' := es[i := es[i].(value := value)];
      assert forall k :: 0 <= k < |es| ==> es'[k].key == es[k].key;
      forall idx | Agrees(idx, es, hash) ensures Agrees(idx, es', hash) {
      }
    }

    method Remove(key: Value) returns (removed: bool)
      requires Sound()
      modifies this`entries, this`tail, this`index
      ensures Sound() && (old(Valid()) ==> Valid()) && entries == Without(old(entries), key, equal)
      ensures removed <==> Scan(old(entries), key, equal, 0) < |old(entries)|
      ensures !removed ==> tail == old(tail)
      ensures index != null ==> fresh(index) || index == old(index)
    {
      var i := 0;
      while i < |entries|
        invariant i <= |entries| && Scan(entries, key, equal, 0) == Scan(entries, key, equal, i)
      {
        if equal(entries[i].key, key) {
          CloseGap(i);
          return true;
        }
        i := i + 1;
      }
      return false;
    }

    method CloseGap(i: nat)
      requires Sound() && i < |entries|
      modifies this`entries, this`tail, this`index
      ensures Sound() && (old(Valid()) ==> Valid()) && entries == old(entries)[..i] + old(entries)[i + 1..]
      ensures index != null ==> fresh(index)
    {
      hide Agrees;
      if Valid() {
        StaysUnique(entries, i);
      }
      tail := [entries[|entries| - 1]] + tail;
      entries := entries[..i] + entries[i + 1..];
      if index != null {
        if |entries| < GROUPCHAT_INDEX_MIN {
          index := null;
        } else {
          RebuildIndex();
          AgreesInMemory(index[..], entries, tail, hash);
        }
      }
    }

    lemma StaysUnique(es: seq<Entry>, i: nat)
      requires i < |es| && StringsUnique(es)
      ensures StringsUnique(es[..i] + es[i + 1..])
    {
    }

    // groupchat_new: the given entries set one after another.
    constructor (es: seq<Entry>, hash: string -> nat, equal: Equality)
      requires StringEquality(equal)
      ensures Valid() && entries == PutAll(es, |es|, equal)
      ensures this.hash == hash && this.equal == equal && (index != null ==> fresh(index))
      ensures tail == [] && (|es| < GROUPCHAT_INDEX_MIN ==> index == null)
    {
      entries, tail, index := [], [], null;
      this.hash, this.equal := hash, equal;
      new;
      assert Valid();
      hide Valid, Sound, Finds, Scan, StringEquality, Put, Agrees, Probing, Overloaded, Capacity;
      var i := 0;
      while i < |es|
        invariant 0 <= i <= |es| && Valid() && this.hash == hash && this.equal == equal
        invariant entries == PutAll(es, i, equal)
        invariant index != null ==> fresh(index)
        invariant tail == [] && (|entries| < GROUPCHAT_INDEX_MIN ==> index == null)
      {
        ValidFinds(es[i].key);
        Set(es[i].key, es[i].value);
        PutMakesLonger(PutAll(es, i, equal), es[i].key, es[i].value, equal);
        i := i + 1;
      }
      PutAllLength(es, |es|, equal);
    }

    // The clear method empties the entries and leaves the index alone, so the
    // map is in order afterwards exactly when no string key was indexed.
    method Clear()
      requires Valid()
      modifies this`entries, this`tail
      ensures entries == [] && index == old(index) && Memory() == old(Memory()) && About(|old(entries)|)
      ensures Valid() <==> index == null || forall e :: e in old(entries) ==> !e.key.Str?
    {
      assert Memory()[..|entries|] == entries;
      tail := entries + tail;
      entries := [];
      assert Memory() == old(Memory());
      if index != null {
        EmptyAgreesIff(index[..], old(entries), hash);
      }
    }

    // After clearing, a string key is found if and only if it was indexed, and what
    // is found is its old entry, still in memory.
    method ClearThenFind(key: Value) returns (found: bool, i: int)
      requires Valid() && key.Str?
      modifies this`entries, this`tail
      ensures entries == []
      ensures found <==> index != null && exists k :: 0 <= k < |old(entries)| && old(entries)[k].key == key
      ensures found ==>
        0 <= i < |old(entries)| <= |Memory()| && Memory()[i] == old(entries)[i] && old(entries)[i].key == key
    {
      ghost var n := |entries|;
      ghost var before := entries;
      assert Memory()[..n] == before;
      Clear();
      AboutFinds(key, n);
      assert Memory()[..n] == before;
      found, i := Find(key);
      assert found ==> Memory()[i] == Memory()[..n][i];
    }

    // Setting such a key then writes to that old entry, and the map stays empty; and
    // there is nothing to remove.
    method ClearThenSet(key: Value, value: Value)
      requires Valid() && key.Str?
      modifies this`entries, this`tail, this`index, index
      ensures var i := Scan(old(entries), key, equal, 0);
        if old(index) != null && i < |old(entries)|
        then entries == [] && Memory() == old(Memory())[i := Entry(key, value)]
        else entries == [Entry(key, value)]
    {
      ghost var n := |entries|;
      ghost var before := entries;
      assert Memory()[..n] == before;
      Clear();
      AboutFinds(key, n);
      assert Memory()[..n] == before;
      Set(key, value);
    }

    // A string key that no entry in memory has is found absent if the index has an empty
    // slot; if it has none, looking for it never ends.
    lemma Unseen(key: Value)
      requires Sound() && index != null && key.Str? && StringEquality(equal)
      requires forall e :: e in Memory() ==> e.key != key
      ensures Finds(key) == if Free(index[..]) > 0 then Absent else Endless
    {
      var home := Home(hash, key, index.Length);
      EndlessIff(index[..], home, Memory(), key.bytes, equal);
      if Finds(key) != Endless {
        var s := ProbingStops(index[..], home, 0, Memory(), key.bytes, equal);
        assert index[..][s] == -1;
      } else {
        assert -1 !in index[..];
      }
    }

    // After clearing, k of the keys have been set.
    ghost predicate Filling(keys: seq<string>, k: nat, value: Value, idx: array<int>)
      reads this, index
    {
      && k <= |keys| && StringEquality(equal) && Sound() && index != null && |entries| == k
      && (forall j :: 0 <= j < k ==> entries[j] == Entry(Str(keys[j]), value))
      && (forall e, j :: e in Memory() && k <= j < |keys| ==> e.key != Str(keys[j]))
      && if Overloaded(k, idx.Length) then Valid() else index == idx && Free(index[..]) == |keys| - k
    }

    lemma NextIsAbsent(keys: seq<string>, k: nat, value: Value, idx: array<int>)
      requires Filling(keys, k, value, idx) && k < |keys|
      ensures Finds(Str(keys[k])) == Absent
    {
      hide Agrees, Finds;
      var key := Str(keys[k]);
      Unseen(key);
      if Valid() {
        ValidFinds(key);
      }
    }

    lemma OneMore(keys: seq<string>, k: nat, value: Value, es: seq<Entry>, rest: seq<Entry>)
      requires k < |keys| && Distinct(keys) && |es| == k
      requires forall j :: 0 <= j < k ==> es[j] == Entry(Str(keys[j]), value)
      requires forall e, j :: e in es + rest && k <= j < |keys| ==> e.key != Str(keys[j])
      requires entries == es + [Entry(Str(keys[k]), value)] && tail == if rest == [] then [] else rest[1..]
      ensures forall j :: 0 <= j < k + 1 ==> entries[j] == Entry(Str(keys[j]), value)
      ensures forall e, j :: e in Memory() && k + 1 <= j < |keys| ==> e.key != Str(keys[j])
      ensures StringsUnique(entries)
    {
      forall e | e in Memory() ensures e in es + rest || e == Entry(Str(keys[k]), value) {
      }
    }

    method FillOne(keys: seq<string>, k: nat, value: Value, ghost idx: array<int>)
      requires Filling(keys, k, value, idx) && k < |keys| && Distinct(keys)
      modifies this`entries, this`tail, this`index, index
      ensures Filling(keys, k + 1, value, idx) && (index == old(index) || fresh(index))
    {
      NextIsAbsent(keys, k, value, idx);
      hide Agrees, Finds, InMemory, Put, StringEquality, Valid, Overloaded, StringsUnique;
      Set(Str(keys[k]), value);
      OneMore(keys, k, value, old(entries), old(tail));
      hide Distinct;
      StaysOverloaded(k, idx.Length);
      if !Overloaded(k, idx.Length) && Overloaded(k + 1, idx.Length) {
        InOrder();
      }
    }

    lemma InOrder()
      requires StringEquality(equal) && StringsUnique(entries) && index != null
      requires Agrees(index[..], entries, hash) && !Overloaded(|entries|, index.Length)
      ensures Valid()
    {
    }

    // Clearing, and then setting as many new string keys as the index has empty slots.
    // If that calls for a larger index, or did so before, the map is in order again. If
    // not the index is full, and from then on looking for a new string key, as setting it
    // does, never ends.
    method ClearThenFill(keys: seq<string>, value: Value)
      requires Valid() && index != null && |keys| == index.Length - Strings(entries, |entries|)
      requires Distinct(keys) && forall e, j :: e in Memory() && 0 <= j < |keys| ==> e.key != Str(keys[j])
      modifies this`entries, this`tail, this`index, index
      ensures Sound() && |entries| == |keys| && forall j :: 0 <= j < |keys| ==> entries[j] == Entry(Str(keys[j]), value)
      ensures Overloaded(|keys|, old(index).Length) ==> Valid()
      ensures !Overloaded(|keys|, old(index).Length) ==> index != null
      ensures !Overloaded(|keys|, old(index).Length) ==>
        forall key: string :: (forall e :: e in Memory() ==> e.key != Str(key)) ==> Finds(Str(key)) == Endless
    {
      ghost var idx := index;
      FreeSlots(index[..], entries, hash);
      ghost var free := EmptySlot(index[..], entries, hash);
      hide Agrees, Finds;
      Clear();
      var k := 0;
      while k < |keys|
        invariant Filling(keys, k, value, idx) && (index == idx || fresh(index))
      {
        FillOne(keys, k, value, idx);
        k := k + 1;
      }
      if !Overloaded(k, idx.Length) {
        forall key: string | forall e :: e in Memory() ==> e.key != Str(key) ensures Finds(Str(key)) == Endless {
          Unseen(Str(key));
        }
      }
    }

    method ClearThenRemove(key: Value) returns (removed: bool)
      requires Valid()
      modifies this`entries, this`tail, this`index
      ensures !removed && entries == [] && Memory() == old(Memory())
    {
      ghost var n := |entries|;
      Clear();
      AboutFinds(key, n);
      removed := Remove(key);
    }
  }

  lemma {:induction false} PutAllDistinct(es: seq<Entry>, n: nat, equal: Equality)
    requires n <= |es| && StringEquality(equal) && StringsUnique(es) && forall k :: 0 <= k < |es| ==> es[k].key.Str?
    ensures PutAll(es, n, equal) == es[..n]
    decreases n
  {
    if n > 0 {
      PutAllDistinct(es, n - 1, equal);
      ScanNone(es[..n - 1], es[n - 1].key, equal);
    }
  }

  // Such maps there are: any twelve string keys are indexed, and all found after
  // clearing.
  method ClearedMapRemembers(es: seq<Entry>, hash: string -> nat, equal: Equality, k: nat)
        returns (g: Groupchat, found: bool)
    requires StringEquality(equal) && StringsUnique(es) && k < |es| && GROUPCHAT_INDEX_MIN <= |es|
    requires forall j :: 0 <= j < |es| ==> es[j].key.Str?
    ensures found && g.entries == [] && !g.Valid()
  {
    PutAllDistinct(es, |es|, equal);
    assert es[..|es|] == es;
    g := new Groupchat(es, hash, equal);
    var i;
    ghost var indexed := g.index;
    found, i := g.ClearThenFind(es[k].key);
  }

  // A map of twelve string keys, cleared and given twenty others, is such a map.
  method TwelveThenTwenty(es: seq<Entry>, keys: seq<string>, hash: string -> nat, equal: Equality, value: Value)
      returns (g: Groupchat)
    requires StringEquality(equal) && |es| == 12 && StringsUnique(es) && forall j :: 0 <= j < |es| ==> es[j].key.Str?
    requires |keys| == 20 && Distinct(keys) && forall e, j :: e in es && 0 <= j < |keys| ==> e.key != Str(keys[j])
    ensures g.Sound() && |g.entries| == 20 && forall j :: 0 <= j < 20 ==> g.entries[j] == Entry(Str(keys[j]), value)
    ensures forall key: string :: (forall e :: e in g.Memory() ==> e.key != Str(key)) ==> g.Finds(Str(key)) == Endless
  {
    g := TwelveKeys(es, hash, equal);
    AllStrings(es, 12);
    g.ClearThenFill(keys, value);
  }

  method TwelveKeys(es: seq<Entry>, hash: string -> nat, equal: Equality) returns (g: Groupchat)
    requires StringEquality(equal) && |es| == 12 && StringsUnique(es) && forall j :: 0 <= j < |es| ==> es[j].key.Str?
    ensures fresh(g) && g.Valid() && g.entries == es && g.tail == []
    ensures g.index != null && fresh(g.index) && g.index.Length == 32
  {
    LastPut(es, equal);
    hide StringsUnique, PutAll, Put, Scan;
    g := new Groupchat(es[..11], hash, equal);
    var last := es[11];
    hide *;
    g.ValidFinds(last.key);
    g.Set(last.key, last.value);
    CapacityFor12();
  }

  lemma CapacityFor12()
    ensures Capacity(12, 8) == 32
  {
  }

  lemma LastPut(es: seq<Entry>, equal: Equality)
    requires StringEquality(equal) && |es| > 0 && StringsUnique(es) && forall j :: 0 <= j < |es| ==> es[j].key.Str?
    ensures PutAll(es[..|es| - 1], |es| - 1, equal) == es[..|es| - 1]
    ensures Put(es[..|es| - 1], es[|es| - 1].key, es[|es| - 1].value, equal) == es
  {
    hide StringEquality, PutAll, Put;
    var n := |es| - 1;
    var before, last := es[..n], es[n];
    PutAllDistinct(before, n, equal);
    assert before[..n] == before;
    PutNew(before, last, equal);
    assert before + [last] == es;
  }

  lemma PutNew(es: seq<Entry>, e: Entry, equal: Equality)
    requires StringEquality(equal) && e.key.Str? && forall j :: 0 <= j < |es| ==> es[j].key != e.key
    ensures Put(es, e.key, e.value, equal) == es + [e]
  {
    ScanNone(es, e.key, equal);
  }
}
