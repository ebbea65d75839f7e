// The writer of native/json.c: a buffer appended to, over values on the heap, with a
// trail of the containers being written so that a cycle is refused.
module JsonWriter {
  import opened Utf8
  import opened Json
  import opened Trails
  import opened Wrappers
  import Blob
  import DecimalText

  // A value on the heap.  Shown is any other kind, by the text it displays as; NotFinite
  // is nan or an infinity.
  datatype HeapValue =
    | Null
    | Truth(b: bool)
    | Whole(n: int)
    | Real(literal: Text)
    | NotFinite
    | Yapstring(s: Text)
    | Bytes(bytes: seq<Byte>)
    | Shown(text: Text)
    | Ref(c: Container)

  // An ObjStash, or an ObjGroupChat with a key for each item, by the text it is written
  // as: a string key itself, another one what it displays as.
  class Container {
    const isMap: bool
    var keys: seq<Text>
    var items: seq<HeapValue>

    constructor (isMap: bool)
      ensures this.isMap == isMap && keys == [] && items == []
    {
      this.isMap := isMap;
      keys, items := [], [];
    }

    ghost predicate Ok()
      reads this
    {
      isMap ==> |keys| == |items|
    }
  }

  // A heap: nothing in it refers outside it.
  ghost predicate Closed(all: set<Container>)
    reads all
  {
    forall c :: c in all ==> c.Ok() && forall v :: v in c.items ==> In(v, all)
  }

  ghost predicate In(v: HeapValue, all: set<Container>) {
    v.Ref? ==> v.c in all
  }

  // ----- what a value is as JSON -----

  // What is written for a value that is no container.
  function Leaf(v: HeapValue): Value
    requires !v.Ref?
  {
    match v
    case Null => Ghost
    case Truth(b) => Bool(b)
    case Whole(n) => Int(n)
    case Real(literal) => Float(literal)
    case NotFinite => Ghost
    case Yapstring(s) => Str(s)
    case Bytes(bytes) => Str(Blob.Encode64(bytes, 0))
    case Shown(text) => Str(text)
  }

  function Paired(keys: seq<Text>, values: seq<Value>): seq<Entry>
    requires |keys| == |values|
  {
    seq(|values|, k requires 0 <= k < |values| => Entry(keys[k], values[k]))
  }

  ghost function Made(c: Container, values: seq<Value>): Value
    requires c.Ok() && |values| == |c.items|
    reads c
  {
    if c.isMap then Chat(Paired(c.keys, values)) else Stash(values)
  }

  // The tree of a value, if it has one that does not come back to the trail.
  ghost function Tree(v: HeapValue, all: set<Container>, trail: seq<Container>): (r: Option<Value>)
    requires Closed(all) && In(v, all)
    reads all
    decreases Off(all, trail), 2
  {
    if !v.Ref? then Some(Leaf(v))
    else if v.c in trail then None
    else
      PushShrinks(all, trail, v.c);
      var items := Trees(v.c, all, trail + [v.c], 0);
      if items.None? then None else Some(Made(v.c, items.value))
  }

  // Those of the items from i on.
  ghost function Trees(c: Container, all: set<Container>, trail: seq<Container>, i: nat): (r: Option<seq<Value>>)
    requires Closed(all) && c in all && i <= |c.items|
    reads all
    ensures r.Some? ==> |r.value| == |c.items| - i
    decreases Off(all, trail), 3, |c.items| - i
  {
    if i == |c.items| then Some([])
    else
      var first := Tree(c.items[i], all, trail);
      if first.None? then None
      else
        var rest := Trees(c, all, trail, i + 1);
        if rest.None? then None else Some([first.value] + rest.value)
  }

  lemma {:induction false} TreesAre(c: Container, all: set<Container>, trail: seq<Container>, i: nat)
    requires Closed(all) && c in all && i <= |c.items| && Trees(c, all, trail, i).Some?
    ensures forall k :: i <= k < |c.items| ==>
      Tree(c.items[k], all, trail) == Some(Trees(c, all, trail, i).value[k - i])
    decreases |c.items| - i
  {
    if i < |c.items| {
      TreesAre(c, all, trail, i + 1);
    }
  }

  lemma {:induction false} NoTree(c: Container, all: set<Container>, trail: seq<Container>, i: nat)
        returns (v: HeapValue)
    requires Closed(all) && c in all && i <= |c.items| && Trees(c, all, trail, i).None?
    ensures v in c.items && Tree(v, all, trail).None?
    decreases |c.items| - i
  {
    if Tree(c.items[i], all, trail).None? {
      v := c.items[i];
    } else {
      v := NoTree(c, all, trail, i + 1);
    }
  }

  // ----- values that contain themselves -----

  // p[0] holds p[1], p[1] holds p[2], and so on.
  ghost predicate Path(older p: seq<Container>, all: set<Container>)
    reads all
  {
    && p != [] && (forall k :: 0 <= k < |p| ==> p[k] in all)
    && forall k :: 0 <= k < |p| - 1 ==> Ref(p[k + 1]) in p[k].items
  }

  // It ends where it has been, or where the trail has.
  ghost predicate ComesBack(p: seq<Container>, trail: seq<Container>)
    requires p != []
  {
    p[|p| - 1] in p[..|p| - 1] || p[|p| - 1] in trail
  }

  // Something that v leads to, through the values in containers, contains itself.
  ghost predicate Cyclic(v: HeapValue, all: set<Container>, trail: seq<Container>)
    reads all
  {
    v.Ref? && exists p :: Path(p, all) && p[0] == v.c && ComesBack(p, trail)
  }

  lemma PathRest(p: seq<Container>, all: set<Container>)
    requires Path(p, all) && |p| > 1
    ensures Path(p[1..], all)
  {
    var q := p[1..];
    forall k | 0 <= k < |q| - 1 ensures Ref(q[k + 1]) in q[k].items {
      assert Ref(p[k + 2]) in p[k + 1].items;
    }
  }

  lemma PathOnto(c: Container, q: seq<Container>, all: set<Container>)
    requires c in all && Path(q, all) && Ref(q[0]) in c.items
    ensures Path([c] + q, all)
  {
    var p := [c] + q;
    forall k | 0 <= k < |p| - 1 ensures Ref(p[k + 1]) in p[k].items {
      if k > 0 {
        assert Ref(q[k]) in q[k - 1].items;
      }
    }
  }

  lemma {:induction false} TreeHasNoCycle(p: seq<Container>, all: set<Container>, trail: seq<Container>)
    requires Closed(all) && Path(p, all) && Tree(Ref(p[0]), all, trail).Some?
    ensures !ComesBack(p, trail)
    decreases |p|
  {
    var c := p[0];
    if |p| > 1 {
      assert Ref(p[1]) in c.items;
      TreesAre(c, all, trail + [c], 0);
      PathRest(p, all);
      TreeHasNoCycle(p[1..], all, trail + [c]);
      assert p[..|p| - 1] == [c] + p[1..][..|p| - 2];
    }
  }

  lemma {:induction false} NoTreeHasCycle(c: Container, all: set<Container>, trail: seq<Container>)
        returns (p: seq<Container>)
    requires Closed(all) && c in all && Tree(Ref(c), all, trail).None?
    ensures Path(p, all) && p[0] == c && ComesBack(p, trail)
    decreases Off(all, trail)
  {
    p := [c];
    if c !in trail {
      var v := NoTree(c, all, trail + [c], 0);
      PushShrinks(all, trail, c);
      var q := NoTreeHasCycle(v.c, all, trail + [c]);
      PathOnto(c, q, all);
      p := [c] + q;
      assert p[..|p| - 1] == [c] + q[..|q| - 1];
    }
  }

  // A value is a tree exactly when nothing it leads to contains itself.
  lemma TreeIffAcyclic(v: HeapValue, all: set<Container>, trail: seq<Container>)
    requires Closed(all) && In(v, all)
    ensures Tree(v, all, trail).Some? <==> !Cyclic(v, all, trail)
  {
    if v.Ref? {
      if Tree(v, all, trail).Some? {
        forall p | Path(p, all) && p[0] == v.c ensures !ComesBack(p, trail) {
          TreeHasNoCycle(p, all, trail);
        }
      } else {
        var p := NoTreeHasCycle(v.c, all, trail);
      }
    }
  }

  // ----- writing -----

  // Whether bignum_to_decimal_string has room for every integer in v.
  predicate Prints(v: Json.Value)
    decreases v
  {
    match v
    case Int(n) => DecimalText.ChunksFit(if n < 0 then -n else n)
    case Stash(items) => forall k :: 0 <= k < |items| ==> Prints(items[k])
    case Chat(entries) => forall k :: 0 <= k < |entries| ==> Prints(entries[k].value)
    case _ => true
  }

  // What stands before item k of a container.
  function Head(isMap: bool, keys: seq<Text>, k: nat, pretty: bool, depth: nat): Text
    requires isMap ==> k < |keys|
  {
    (if k > 0 then [0x2C] else []) + NewLine(pretty, depth + 1)
    + if isMap then WriteString(keys[k]) + [0x3A] + (if pretty then [0x20] else []) else []
  }

  // The items of a container from k on, and what closes it.
  function Rest(v: Value, k: nat, pretty: bool, depth: nat): Text
    requires (v.Stash? && k <= |v.items|) || (v.Chat? && k <= |v.entries|)
  {
    if v.Stash? then WriteItems(v, k, pretty, depth) else WriteEntries(v, k, pretty, depth)
  }

  lemma RestIs(keys: seq<Text>, values: seq<Value>, isMap: bool, k: nat, pretty: bool, depth: nat)
    requires k < |values| && (isMap ==> |keys| == |values|)
    ensures var v := if isMap then Chat(Paired(keys, values)) else Stash(values);
      Rest(v, k, pretty, depth)
      == (Head(isMap, keys, k, pretty, depth) + Write(values[k], pretty, depth + 1)) + Rest(v, k + 1, pretty, depth)
  {
    hide NewLine, Write, WriteString;
    var comma: Text, line := if k > 0 then [0x2C] else [], NewLine(pretty, depth + 1);
    var text := Write(values[k], pretty, depth + 1);
    Empties(comma + line);
    if isMap {
      var v := Chat(Paired(keys, values));
      Grouped(comma, line, WriteString(keys[k]), [0x3A], if pretty then [0x20] else [], text,
              WriteEntries(v, k + 1, pretty, depth));
    }
  }

  lemma Grouped(a: Text, b: Text, c: Text, d: Text, e: Text, f: Text, g: Text)
    ensures a + b + c + d + e + f + g == ((a + b + (c + d + e)) + f) + g
  {
  }

  lemma LeafWrites(v: HeapValue, pretty: bool, depth: nat)
    requires !v.Ref?
    ensures Write(Leaf(v), pretty, depth) == Write(Leaf(v), false, 0)
  {
  }

  lemma OkThere(c: Container, all: set<Container>)
    requires Closed(all) && c in all
    ensures c.Ok() && forall k :: 0 <= k < |c.items| ==> In(c.items[k], all)
  {
  }

  lemma NothingIn(c: Container, all: set<Container>, trail: seq<Container>, pretty: bool, depth: nat)
    requires Closed(all) && c in all && c.items == [] && c !in trail
    ensures Tree(Ref(c), all, trail).Some?
    ensures var tree := Tree(Ref(c), all, trail).value;
      Write(tree, pretty, depth) == (if c.isMap then [0x7B, 0x7D] else [0x5B, 0x5D]) && Prints(tree)
  {
    PushShrinks(all, trail, c);
    assert Trees(c, all, trail + [c], 0) == Some([]);
  }

  // The first n of them print.
  ghost predicate AllPrint(values: seq<Value>, n: nat) {
    n <= |values| && forall k :: 0 <= k < n ==> Prints(values[k])
  }

  lemma OnePrints(values: seq<Value>, i: nat)
    requires i < |values|
    ensures AllPrint(values, i + 1) <==> AllPrint(values, i) && Prints(values[i])
  {
    hide Prints;
  }

  lemma OneTree(c: Container, all: set<Container>, trail: seq<Container>, i: nat)
    requires Closed(all) && c in all && i < |c.items|
    ensures Trees(c, all, trail, i).Some? <==> Tree(c.items[i], all, trail).Some? && Trees(c, all, trail, i + 1).Some?
  {
    hide Tree;
  }

  lemma NoneLeft(c: Container, all: set<Container>, trail: seq<Container>)
    requires Closed(all) && c in all
    ensures Trees(c, all, trail, |c.items|).Some?
  {
  }

  lemma MadeStarts(c: Container, values: seq<Value>, pretty: bool, depth: nat)
    requires c.Ok() && |values| == |c.items| > 0
    ensures Write(Made(c, values), pretty, depth)
         == [if c.isMap then 0x7B else 0x5B] + Rest(Made(c, values), 0, pretty, depth)
  {
    hide WriteItems, WriteEntries;
  }

  lemma MadeEnds(c: Container, values: seq<Value>, pretty: bool, depth: nat)
    requires c.Ok() && |values| == |c.items|
    ensures Rest(Made(c, values), |values|, pretty, depth) == NewLine(pretty, depth) + [if c.isMap then 0x7D else 0x5D]
    ensures Prints(Made(c, values)) <==> AllPrint(values, |values|)
  {
    if c.isMap {
      assert forall k :: 0 <= k < |values| ==> Paired(c.keys, values)[k].value == values[k];
    }
  }

  lemma Appends3(o: Text, a: Text, b: Text, c: Text)
    ensures ((o + a) + b) + c == o + (a + b + c)
  {
  }

  class Trail {
    var items: seq<Container>

    constructor ()
      ensures items == []
    {
      items := [];
    }

    // trail_contains
    method Contains(c: Container) returns (found: bool)
      ensures found <==> c in items
    {
      for i := 0 to |items|
        invariant c !in items[..i]
      {
        if items[i] == c {
          return true;
        }
      }
      return false;
    }

    method Push(c: Container)
      modifies this
      ensures items == old(items) + [c]
    {
      items := items + [c];
    }

    method Pop()
      requires |items| > 0
      modifies this
      ensures items == old(items)[..|old(items)| - 1]
    {
      items := items[..|items| - 1];
    }
  }

  class Buf {
    var data: Text
    // Whether an integer was too long to print; what the source does then is not
    // part of this model.
    var overran: bool

    constructor ()
      ensures data == [] && !overran
    {
      data, overran := [], false;
    }

    method Put(t: Text)
      modifies this`data
      ensures data == old(data) + t
    {
      data := data + t;
    }

    method WriteString(s: Text)
      modifies this`data
      ensures data == old(data) + Json.WriteString(s)
    {
      hide Json.Escape, LineEnd;
      Put([0x22]);
      ghost var whole := old(data) + Json.WriteString(s);
      Regroup(old(data), [0x22], WriteChars(s, 0));
      var i := 0;
      while i < |s|
        invariant 0 <= i <= |s| && data + WriteChars(s, i) == whole
      {
        var escape, n := Json.Escape(s, i), Escaped(s, i);
        EscapedFits(s, i);
        Regroup(data, escape, WriteChars(s, i + n));
        Put(escape);
        i := i + n;
      }
      Put([0x22]);
    }

    method NewLineIndent(pretty: bool, depth: nat)
      modifies this`data
      ensures data == old(data) + NewLine(pretty, depth)
    {
      if !pretty {
        Empties(data);
        return;
      }
      Put([0x0A]);
      Empties(data);
      for i := 0 to depth
        invariant data == (old(data) + [0x0A]) + Indent(i)
      {
        Regroup(old(data) + [0x0A], Indent(i), [0x20, 0x20]);
        Put([0x20, 0x20]);
      }
      Regroup(old(data), [0x0A], Indent(depth));
    }

    method LeafValue(v: HeapValue)
      requires !v.Ref?
      modifies this
      ensures data == old(data) + Write(Leaf(v), false, 0) && overran == (old(overran) || !Prints(Leaf(v)))
    {
      hide Json.WriteString;
      match v
      case Null => Put(NULL);
      case Truth(b) => Put(if b then TRUE else FALSE);
      case Whole(n) =>
        Put(WriteInt(n));
        overran := overran || !DecimalText.ChunksFit(if n < 0 then -n else n);
      case Real(literal) => Put(literal);
      case NotFinite => Put(NULL);
      case Yapstring(s) => WriteString(s);
      case Bytes(bytes) =>
        var text := Blob.Base64Encode(bytes);
        WriteString(text);
      case Shown(text) => WriteString(text);
    }

    // write_value: true, and the text of the value's tree appended, if it has a tree.
    method Value(v: HeapValue, pretty: bool, depth: nat, trail: Trail, ghost all: set<Container>) returns (ok: bool)
      requires Closed(all) && In(v, all)
      modifies this, trail
      ensures ok <==> Tree(v, all, old(trail.items)).Some?
      ensures ok ==> var tree := Tree(v, all, old(trail.items)).value;
        && trail.items == old(trail.items) && data == old(data) + Write(tree, pretty, depth)
        && overran == (old(overran) || !Prints(tree))
      decreases Off(all, trail.items), 2
    {
      hide Closed, Off, Trees, Rest;
      if !v.Ref? {
        LeafWrites(v, pretty, depth);
        LeafValue(v);
        return true;
      }
      var c := v.c;
      var found := trail.Contains(c);
      if found {
        return false;
      }
      PushShrinks(all, trail.items, c);
      if |c.items| == 0 {
        NothingIn(c, all, trail.items, pretty, depth);
        Put(if c.isMap then [0x7B, 0x7D] else [0x5B, 0x5D]);
        return true;
      }
      OkThere(c, all);
      trail.Push(c);
      Put(if c.isMap then [0x7B] else [0x5B]);
      ok := Items(c, pretty, depth, trail, all);
      if ok {
        trail.Pop();
        ghost var values := Trees(c, all, old(trail.items) + [c], 0).value;
        MadeStarts(c, values, pretty, depth);
        Regroup(old(data), [if c.isMap then 0x7B else 0x5B], Rest(Made(c, values), 0, pretty, depth));
      }
    }

    method Items(c: Container, pretty: bool, depth: nat, trail: Trail, ghost all: set<Container>) returns (ok: bool)
      requires Closed(all) && c in all
      modifies this, trail
      ensures ok <==> Trees(c, all, old(trail.items), 0).Some?
      ensures ok ==> var tree := Made(c, Trees(c, all, old(trail.items), 0).value);
        && trail.items == old(trail.items) && data == old(data) + Rest(tree, 0, pretty, depth)
        && overran == (old(overran) || !Prints(tree))
      decreases Off(all, trail.items), 5
    {
      hide Closed, Off, Tree, Trees, Rest, Prints, NewLine, Written;
      OkThere(c, all);
      ghost var was, before, over := trail.items, data, overran;
      NothingWritten(c, all, was, pretty, depth);
      var i := 0;
      while i < |c.items|
        invariant 0 <= i <= |c.items| && trail.items == was
        invariant Trees(c, all, was, 0).Some? <==> Trees(c, all, was, i).Some?
        invariant Written(c, all, was, i, before, over, pretty, depth)
      {
        OneTree(c, all, was, i);
        ok := Turn(c, i, pretty, depth, trail, all, before, over);
        if !ok {
          return;
        }
        i := i + 1;
      }
      NoneLeft(c, all, was);
      AllWritten(c, all, was, before, over, pretty, depth);
      NewLineIndent(pretty, depth);
      Put([if c.isMap then 0x7D else 0x5D]);
      return true;
    }

    // The first i items have been written after `before`, if the container has a tree.
    ghost predicate Written(c: Container, all: set<Container>, was: seq<Container>, i: nat, before: Text, over: bool,
                            pretty: bool, depth: nat)
      requires Closed(all) && c in all
      reads this, all
    {
      var trees := Trees(c, all, was, 0);
      trees.Some? ==>
        && c.Ok() && i <= |c.items| && overran == (over || !AllPrint(trees.value, i))
        && data + Rest(Made(c, trees.value), i, pretty, depth) == before + Rest(Made(c, trees.value), 0, pretty, depth)
    }

    lemma NothingWritten(c: Container, all: set<Container>, was: seq<Container>, pretty: bool, depth: nat)
      requires Closed(all) && c in all
      ensures Written(c, all, was, 0, data, overran, pretty, depth)
    {
      hide Trees, Rest;
      OkThere(c, all);
    }

    lemma AllWritten(c: Container, all: set<Container>, was: seq<Container>, before: Text, over: bool,
                     pretty: bool, depth: nat)
      requires Closed(all) && c in all && c.Ok() && Trees(c, all, was, 0).Some?
      requires Written(c, all, was, |c.items|, before, over, pretty, depth)
      ensures var tree := Made(c, Trees(c, all, was, 0).value);
        && overran == (over || !Prints(tree))
        && data + NewLine(pretty, depth) + [if c.isMap then 0x7D else 0x5D] == before + Rest(tree, 0, pretty, depth)
    {
      hide Trees, Rest, NewLine, Closed;
      MadeEnds(c, Trees(c, all, was, 0).value, pretty, depth);
      Regroup(data, NewLine(pretty, depth), [if c.isMap then 0x7D else 0x5D]);
    }

    // A turn of the loop over the items.
    method Turn(c: Container, i: nat, pretty: bool, depth: nat, trail: Trail, ghost all: set<Container>,
                ghost before: Text, ghost over: bool) returns (ok: bool)
      requires Closed(all) && c in all && i < |c.items| && c.Ok() && In(c.items[i], all)
      requires Written(c, all, trail.items, i, before, over, pretty, depth)
      modifies this, trail
      ensures ok <==> Tree(c.items[i], all, old(trail.items)).Some?
      ensures ok ==> trail.items == old(trail.items) && Written(c, all, trail.items, i + 1, before, over, pretty, depth)
      decreases Off(all, trail.items), 4
    {
      hide Closed, Off, Tree, Trees, Rest, Prints, AllPrint, Head, Write;
      ghost var was := trail.items;
      ghost var trees := Trees(c, all, was, 0);
      ok := Item(c, i, pretty, depth, trail, all);
      if ok && trees.Some? {
        TreesAre(c, all, was, 0);
        RestIs(c.keys, trees.value, c.isMap, i, pretty, depth);
        OnePrints(trees.value, i);
        Regroup(old(data), Head(c.isMap, c.keys, i, pretty, depth) + Write(trees.value[i], pretty, depth + 1),
                Rest(Made(c, trees.value), i + 1, pretty, depth));
      }
    }

    // One item, after its comma and its key.
    method Item(c: Container, i: nat, pretty: bool, depth: nat, trail: Trail, ghost all: set<Container>)
          returns (ok: bool)
      requires Closed(all) && c in all && i < |c.items| && c.Ok() && In(c.items[i], all)
      modifies this, trail
      ensures ok <==> Tree(c.items[i], all, old(trail.items)).Some?
      ensures ok ==> var tree := Tree(c.items[i], all, old(trail.items)).value;
        && trail.items == old(trail.items)
        && data == old(data) + (Head(c.isMap, c.keys, i, pretty, depth) + Write(tree, pretty, depth + 1))
        && overran == (old(overran) || !Prints(tree))
      decreases Off(all, trail.items), 3
    {
      hide Closed, Off, Tree, Write, NewLine, Json.WriteString, Prints;
      ItemHead(c, i, pretty, depth);
      ghost var before := data;
      ok := Value(c.items[i], pretty, depth + 1, trail, all);
      if ok {
        Regroup(old(data), Head(c.isMap, c.keys, i, pretty, depth),
                Write(Tree(c.items[i], all, old(trail.items)).value, pretty, depth + 1));
      }
    }

    method ItemHead(c: Container, i: nat, pretty: bool, depth: nat)
      requires c.isMap ==> i < |c.keys|
      modifies this`data
      ensures data == old(data) + Head(c.isMap, c.keys, i, pretty, depth)
    {
      hide NewLine, Json.WriteString;
      ghost var comma: Text, line, key: Text := if i > 0 then [0x2C] else [], NewLine(pretty, depth + 1), [];
      Empties(data);
      if i > 0 {
        Put([0x2C]);
      }
      NewLineIndent(pretty, depth + 1);
      if c.isMap {
        key := Json.WriteString(c.keys[i]) + [0x3A] + if pretty then [0x20] else [];
        KeyAndColon(c.keys[i], pretty);
      } else {
        Empties(data);
      }
      Appends3(old(data), comma, line, key);
    }

    method KeyAndColon(key: Text, pretty: bool)
      modifies this`data
      ensures data == old(data) + (Json.WriteString(key) + [0x3A] + if pretty then [0x20] else [])
    {
      hide Json.WriteString;
      WriteString(key);
      Put([0x3A]);
      if pretty {
        Put([0x20]);
      } else {
        Empties(data);
      }
      Appends3(old(data), Json.WriteString(key), [0x3A], if pretty then [0x20] else []);
    }
  }

  // json.spill
  method Spill(v: HeapValue, pretty: bool, ghost all: set<Container>) returns (r: Option<Text>, ok: bool)
    requires Closed(all) && In(v, all)
    ensures r.None? <==> Cyclic(v, all, [])
    ensures r.Some? ==> Tree(v, all, []).Some? && r.value == Spilled(Tree(v, all, []).value, pretty)
    ensures r.Some? ==> (ok <==> Prints(Tree(v, all, []).value))
  {
    hide Write, Tree, Prints;
    TreeIffAcyclic(v, all, []);
    var out := new Buf();
    var trail := new Trail();
    var written := out.Value(v, pretty, 0, trail, all);
    if !written {
      return None, true;
    }
    Empties(out.data);
    Empties(Write(Tree(v, all, []).value, pretty, 0));
    if pretty {
      out.Put([0x0A]);
    }
    r, ok := Some(out.data), !out.overran;
  }
}
