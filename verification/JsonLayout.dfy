// How json.spill lays text out (native/json.c), said of the text alone: it is read from
// left to right, and what stands within a string is left alone.
module JsonLayout {
  import opened Utf8
  import opened Json
  import opened JsonNumbers
  import opened JsonRoundTrip

  // ----- text, whatever value it is of -----

  // Space, line feed, carriage return and tab are all the white space there is.
  predicate White(c: Byte) {
    c == ' ' as int || c == '\n' as int || c == '\r' as int || c == '\t' as int
  }

  predicate Quote(c: Byte) {
    c == '"' as int
  }

  predicate Opens(c: Byte) {
    c == '[' as int || c == '{' as int
  }

  predicate Closes(c: Byte) {
    c == ']' as int || c == '}' as int
  }

  // How much of the text the rest of a string takes, the closing quote included.
  function Inside(t: Text): (n: nat)
    ensures n <= |t| && (t != [] ==> n > 0)
    decreases |t|
  {
    if t == [] then 0
    else if Quote(t[0]) then 1
    else if t[0] == '\\' as int && |t| > 1 then 2 + Inside(t[2..])
    else 1 + Inside(t[1..])
  }

  // The text without the white space outside strings.
  function Stripped(t: Text): Text
    decreases |t|
  {
    if t == [] then []
    else if Quote(t[0]) then t[..1 + Inside(t[1..])] + Stripped(t[1 + Inside(t[1..])..])
    else if White(t[0]) then Stripped(t[1..])
    else [t[0]] + Stripped(t[1..])
  }

  // A new line, and two spaces for each container that is open.
  function Break(open: nat): Text {
    ['\n' as int] + seq(2 * open, _ => ' ' as int)
  }

  // Text without white space spread over lines: a new line after what opens a container,
  // after each comma and before what closes the container, unless it is empty, so that
  // every item stands alone on its line; and a space after each colon.
  function Spread(t: Text, open: nat): Text
    decreases |t|
  {
    if t == [] then []
    else if Quote(t[0]) then t[..1 + Inside(t[1..])] + Spread(t[1 + Inside(t[1..])..], open)
    else if Opens(t[0]) then
      if |t| > 1 && Closes(t[1]) then t[..2] + Spread(t[2..], open)
      else [t[0]] + Break(open + 1) + Spread(t[1..], open + 1)
    else if Closes(t[0]) then
      var left := if open > 0 then open - 1 else 0;
      Break(left) + [t[0]] + Spread(t[1..], left)
    else if t[0] == ',' as int then [t[0]] + Break(open) + Spread(t[1..], open)
    else if t[0] == ':' as int then [t[0], ' ' as int] + Spread(t[1..], open)
    else [t[0]] + Spread(t[1..], open)
  }

  // Neither white space nor any of the characters that structure a text.
  predicate Quiet(c: Byte) {
    !White(c) && !Quote(c) && !Opens(c) && !Closes(c) && c != ',' as int && c != ':' as int
  }

  lemma TailOf(c: Byte, x: Text)
    ensures ([c] + x)[0] == c && ([c] + x)[1..] == x
  {
  }

  lemma HeadOff(a: Text, x: Text)
    requires a != []
    ensures (a + x)[0] == a[0] && (a + x)[1..] == a[1..] + x && [a[0]] + a[1..] == a
  {
  }

  lemma StripOne(c: Byte, x: Text)
    requires !White(c) && !Quote(c)
    ensures Stripped([c] + x) == [c] + Stripped(x)
  {
    TailOf(c, x);
  }

  lemma {:induction false} StripQuiet(a: Text, x: Text)
    requires forall k :: 0 <= k < |a| ==> Quiet(a[k])
    ensures Stripped(a + x) == a + Stripped(x)
    decreases |a|
  {
    if a == [] {
      Empties(x);
      Empties(Stripped(x));
    } else {
      StripQuiet(a[1..], x);
      HeadOff(a, x);
      Regroup([a[0]], a[1..], Stripped(x));
    }
  }

  lemma {:induction false} StripBlank(a: Text, x: Text)
    requires forall k :: 0 <= k < |a| ==> White(a[k])
    ensures Stripped(a + x) == Stripped(x)
    decreases |a|
  {
    if a == [] {
      Empties(x);
    } else {
      StripBlank(a[1..], x);
      HeadOff(a, x);
    }
  }

  lemma {:induction false} SpreadQuiet(a: Text, x: Text, open: nat)
    requires forall k :: 0 <= k < |a| ==> Quiet(a[k])
    ensures Spread(a + x, open) == a + Spread(x, open)
    decreases |a|
  {
    if a == [] {
      Empties(x);
      Empties(Spread(x, open));
    } else {
      SpreadQuiet(a[1..], x, open);
      HeadOff(a, x);
      Regroup([a[0]], a[1..], Spread(x, open));
    }
  }

  // ----- strings -----

  // Characters that neither end a string nor escape anything.
  lemma {:induction false} InsidePlain(a: Text, x: Text)
    requires forall k :: 0 <= k < |a| ==> !Quote(a[k]) && a[k] != '\\' as int
    ensures Inside(a + x) == |a| + Inside(x)
    decreases |a|
  {
    if a == [] {
      Empties(x);
    } else {
      InsidePlain(a[1..], x);
      HeadOff(a, x);
    }
  }

  lemma InsideEscape(s: Text, k: nat, x: Text)
    requires k < |s|
    ensures Inside(Escape(s, k) + x) == |Escape(s, k)| + Inside(x)
  {
    var t := Escape(s, k);
    if |t| == 1 {
      PlainChar(s, k);
      hide Escape;
      InsidePlain(t, x);
    } else {
      assert t[0] == '\\' as int && forall i :: 2 <= i < |t| ==> !Quote(t[i]) && t[i] != '\\' as int;
      hide Escape;
      assert (t + x)[2..] == t[2..] + x;
      InsidePlain(t[2..], x);
    }
  }

  lemma {:induction false} InsideChars(s: Text, k: nat, x: Text)
    requires k <= |s|
    ensures Inside(WriteChars(s, k) + x) == |WriteChars(s, k)|
    decreases |s| - k
  {
    if k == |s| {
      TailOf(0x22, x);
    } else {
      EscapedFits(s, k);
      var rest := WriteChars(s, k + Escaped(s, k));
      assert WriteChars(s, k) == Escape(s, k) + rest;
      hide WriteChars, Inside, Escape;
      InsideChars(s, k + Escaped(s, k), x);
      InsideEscape(s, k, rest + x);
      Regroup(Escape(s, k), rest, x);
    }
  }

  // A string is left alone.
  lemma StringStays(s: Text, x: Text, open: nat)
    ensures Stripped(WriteString(s) + x) == WriteString(s) + Stripped(x)
    ensures Spread(WriteString(s) + x, open) == WriteString(s) + Spread(x, open)
  {
    var chars := WriteChars(s, 0);
    InsideChars(s, 0, x);
    hide WriteChars, Inside;
    var t := WriteString(s) + x;
    assert t[0] == 0x22;
    assert t[1..] == chars + x;
    assert t[..1 + |chars|] == WriteString(s) && t[1 + |chars|..] == x;
  }

  // ----- values -----

  lemma BreakIs(depth: nat)
    ensures NewLine(true, depth) == Break(depth)
  {
    IndentIs(depth);
  }

  lemma {:induction false} IndentIs(depth: nat)
    ensures Indent(depth) == seq(2 * depth, _ => ' ' as int)
    decreases depth
  {
    if depth > 0 {
      IndentIs(depth - 1);
    }
  }

  lemma NewLineIsWhite(pretty: bool, depth: nat)
    ensures forall k :: 0 <= k < |NewLine(pretty, depth)| ==> White(NewLine(pretty, depth)[k])
  {
    IndentIsSpaces(depth);
  }

  lemma DigitsAreQuiet(n: nat)
    ensures forall k :: 0 <= k < |DecimalBytes(n)| ==> Quiet(DecimalBytes(n)[k])
    decreases n
  {
    if n >= 10 {
      DigitsAreQuiet(n / 10);
    }
  }

  lemma LiteralIsQuiet(t: Text)
    requires FloatLiteral(t)
    ensures forall k :: 0 <= k < |t| ==> Quiet(t[k])
  {
    var a: nat, b: nat :| LooseParts(t, 0, a, b, |t|) && a < |t|;
  }

  // What is written for a value that is no string and no container.
  lemma ScalarIsQuiet(v: Value, pretty: bool, depth: nat)
    requires Plain(v) && !v.Str? && !v.Stash? && !v.Chat?
    ensures forall k :: 0 <= k < |Write(v, pretty, depth)| ==> Quiet(Write(v, pretty, depth)[k])
    ensures Write(v, pretty, depth) == Write(v, false, depth) == Write(v, true, depth)
  {
    if v.Int? {
      DigitsAreQuiet(if v.n < 0 then -v.n else v.n);
    } else if v.Float? {
      LiteralIsQuiet(v.literal);
    }
  }

  // ----- without its white space pretty text is the compact text -----

  lemma StripStep(comma: Text, nl: Text, w: Text, rest: Text, x: Text, w': Text, rest': Text)
    requires (comma == [] || comma == [0x2C]) && forall k :: 0 <= k < |nl| ==> White(nl[k])
    requires Stripped(w + (rest + x)) == w' + Stripped(rest + x) && Stripped(rest + x) == rest' + Stripped(x)
    ensures Stripped(comma + (nl + (w + rest)) + x) == comma + ([] + (w' + rest')) + Stripped(x)
  {
    hide Stripped;
    var more := nl + (w + (rest + x));
    StripBlank(nl, w + (rest + x));
    StripComma(comma, more);
    assert comma + (nl + (w + rest)) + x == comma + more;
    assert comma + ([] + (w' + rest')) + Stripped(x) == comma + (w' + (rest' + Stripped(x)));
  }

  lemma StripComma(comma: Text, x: Text)
    requires comma == [] || comma == [0x2C]
    ensures Stripped(comma + x) == comma + Stripped(x)
  {
    if comma == [] {
      Empties(x);
      Empties(Stripped(x));
    } else {
      StripOne(0x2C, x);
    }
  }

  lemma StripClose(nl: Text, close: Byte, x: Text)
    requires (forall k :: 0 <= k < |nl| ==> White(nl[k])) && Closes(close)
    ensures Stripped(nl + [close] + x) == [] + [close] + Stripped(x)
  {
    hide Stripped;
    StripBlank(nl, [close] + x);
    StripOne(close, x);
    Regroup(nl, [close], x);
    Empties([close]);
  }

  lemma {:induction false} StripItems(v: Value, k: nat, pretty: bool, depth: nat, x: Text)
    requires v.Stash? && Plain(v) && k <= |v.items|
    ensures Stripped(WriteItems(v, k, pretty, depth) + x) == WriteItems(v, k, false, depth) + Stripped(x)
    decreases v, 0, |v.items| - k
  {
    if k == |v.items| {
      NewLineIsWhite(pretty, depth);
      StripClose(NewLine(pretty, depth), 0x5D, x);
    } else {
      hide *;
      PlainItem(v, k);
      StripItems(v, k + 1, pretty, depth, x);
      StripWrite(v.items[k], pretty, depth + 1, WriteItems(v, k + 1, pretty, depth) + x);
      ItemParts(v, k, pretty, depth);
      ItemParts(v, k, false, depth);
      NewLineIsWhite(pretty, depth + 1);
      StripStep(if k > 0 then [0x2C] else [], NewLine(pretty, depth + 1), Write(v.items[k], pretty, depth + 1),
                WriteItems(v, k + 1, pretty, depth), x, Write(v.items[k], false, depth + 1),
                WriteItems(v, k + 1, false, depth));
    }
  }

  lemma ItemParts(v: Value, k: nat, pretty: bool, depth: nat)
    requires v.Stash? && k < |v.items|
    ensures WriteItems(v, k, pretty, depth) == (if k > 0 then [0x2C] else [])
      + (NewLine(pretty, depth + 1) + (Write(v.items[k], pretty, depth + 1) + WriteItems(v, k + 1, pretty, depth)))
    ensures NewLine(false, depth + 1) == []
  {
    WriteItemsIs(v, k, pretty, depth);
  }

  // A key, its colon and the value.
  function PairText(v: Value, k: nat, pretty: bool, depth: nat): Text
    requires v.Chat? && k < |v.entries|
  {
    WriteString(v.entries[k].key)
    + ([0x3A] + ((if pretty then [0x20] else []) + Write(v.entries[k].value, pretty, depth + 1)))
  }

  lemma EntryParts(v: Value, k: nat, pretty: bool, depth: nat)
    requires v.Chat? && k < |v.entries|
    ensures WriteEntries(v, k, pretty, depth) == (if k > 0 then [0x2C] else [])
      + (NewLine(pretty, depth + 1) + (PairText(v, k, pretty, depth) + WriteEntries(v, k + 1, pretty, depth)))
    ensures NewLine(false, depth + 1) == []
  {
    hide WriteEntries, PairText;
    WriteEntriesIs(v, k, pretty, depth);
    EntryIsPair(v, k, pretty, depth);
  }

  lemma EntryIsPair(v: Value, k: nat, pretty: bool, depth: nat)
    requires v.Chat? && k < |v.entries|
    ensures EntryText(v, k, pretty, depth) == PairText(v, k, pretty, depth) + WriteEntries(v, k + 1, pretty, depth)
  {
    var key, space: Text := WriteString(v.entries[k].key), if pretty then [0x20] else [];
    var w, rest := Write(v.entries[k].value, pretty, depth + 1), WriteEntries(v, k + 1, pretty, depth);
    assert EntryText(v, k, pretty, depth) == key + ([0x3A] + (space + (w + rest)));
    hide WriteString, Write, WriteEntries, EntryText;
    PairSplits(key, space, w, rest);
  }

  lemma PairSplits(key: Text, space: Text, w: Text, rest: Text)
    ensures key + ([0x3A] + (space + (w + rest))) == (key + ([0x3A] + (space + w))) + rest
  {
  }

  lemma StripPair(v: Value, k: nat, pretty: bool, depth: nat, x: Text)
    requires v.Chat? && k < |v.entries|
    requires Stripped(Write(v.entries[k].value, pretty, depth + 1) + x)
      == Write(v.entries[k].value, false, depth + 1) + Stripped(x)
    ensures Stripped(PairText(v, k, pretty, depth) + x) == PairText(v, k, false, depth) + Stripped(x)
  {
    var key, space: Text := v.entries[k].key, if pretty then [0x20] else [];
    var w, w' := Write(v.entries[k].value, pretty, depth + 1), Write(v.entries[k].value, false, depth + 1);
    hide Write, WriteString, Stripped;
    StringStays(key, [0x3A] + (space + (w + x)), 0);
    StripOne(0x3A, space + (w + x));
    StripBlank(space, w + x);
    PairSplits(WriteString(key), space, w, x);
    PairSplits(WriteString(key), [], w', Stripped(x));
    Empties(w' + Stripped(x));
  }

  lemma {:induction false} StripEntries(v: Value, k: nat, pretty: bool, depth: nat, x: Text)
    requires v.Chat? && Plain(v) && k <= |v.entries|
    ensures Stripped(WriteEntries(v, k, pretty, depth) + x) == WriteEntries(v, k, false, depth) + Stripped(x)
    decreases v, 0, |v.entries| - k
  {
    if k == |v.entries| {
      NewLineIsWhite(pretty, depth);
      StripClose(NewLine(pretty, depth), 0x7D, x);
    } else {
      hide *;
      PlainEntry(v, k);
      StripEntries(v, k + 1, pretty, depth, x);
      StripWrite(v.entries[k].value, pretty, depth + 1, WriteEntries(v, k + 1, pretty, depth) + x);
      StripPair(v, k, pretty, depth, WriteEntries(v, k + 1, pretty, depth) + x);
      EntryParts(v, k, pretty, depth);
      EntryParts(v, k, false, depth);
      NewLineIsWhite(pretty, depth + 1);
      StripStep(if k > 0 then [0x2C] else [], NewLine(pretty, depth + 1), PairText(v, k, pretty, depth),
                WriteEntries(v, k + 1, pretty, depth), x, PairText(v, k, false, depth),
                WriteEntries(v, k + 1, false, depth));
    }
  }

  lemma PlainEntry(v: Value, k: nat)
    requires v.Chat? && Plain(v)
    ensures k < |v.entries| ==> Plain(v.entries[k].value)
  {
  }

  lemma StripBrackets(open: Byte, close: Byte, x: Text)
    requires Opens(open) && Closes(close)
    ensures Stripped([open, close] + x) == [open, close] + Stripped(x)
  {
    assert [open, close] + x == [open] + ([close] + x);
    StripOne(open, [close] + x);
    StripOne(close, x);
  }

  lemma {:induction false} StripWrite(v: Value, pretty: bool, depth: nat, x: Text)
    requires Plain(v)
    ensures Stripped(Write(v, pretty, depth) + x) == Write(v, false, depth) + Stripped(x)
    decreases v, 1
  {
    match v
    case Str(str) => StringStays(str, x, 0);
    case Stash(items) => StripStash(v, pretty, depth, x);
    case Chat(entries) => StripChat(v, pretty, depth, x);
    case _ =>
      ScalarIsQuiet(v, pretty, depth);
      StripQuiet(Write(v, pretty, depth), x);
  }

  lemma {:induction false} StripStash(v: Value, pretty: bool, depth: nat, x: Text)
    requires v.Stash? && Plain(v)
    ensures Stripped(Write(v, pretty, depth) + x) == Write(v, false, depth) + Stripped(x)
    decreases v, 0, |v.items| + 1
  {
    hide WriteItems, Plain, Stripped;
    if v.items == [] {
      StripBrackets(0x5B, 0x5D, x);
    } else {
      StripItems(v, 0, pretty, depth, x);
      StripOne(0x5B, WriteItems(v, 0, pretty, depth) + x);
      Regroup([0x5B], WriteItems(v, 0, pretty, depth), x);
      Regroup([0x5B], WriteItems(v, 0, false, depth), Stripped(x));
    }
  }

  lemma {:induction false} StripChat(v: Value, pretty: bool, depth: nat, x: Text)
    requires v.Chat? && Plain(v)
    ensures Stripped(Write(v, pretty, depth) + x) == Write(v, false, depth) + Stripped(x)
    decreases v, 0, |v.entries| + 1
  {
    hide WriteEntries, Plain, Stripped;
    if v.entries == [] {
      StripBrackets(0x7B, 0x7D, x);
    } else {
      StripEntries(v, 0, pretty, depth, x);
      StripOne(0x7B, WriteEntries(v, 0, pretty, depth) + x);
      Regroup([0x7B], WriteEntries(v, 0, pretty, depth), x);
      Regroup([0x7B], WriteEntries(v, 0, false, depth), Stripped(x));
    }
  }

  // Compact text has no white space outside strings, and pretty text is the same text
  // with some.
  lemma WhiteSpaceAside(v: Value, pretty: bool)
    requires Plain(v)
    ensures Stripped(Spilled(v, pretty)) == Spilled(v, false)
  {
    var tail: Text := if pretty then [0x0A] else [];
    StripWrite(v, pretty, 0, tail);
    StripBlank(tail, []);
    Empties(tail);
    hide Write;
  }

  // ----- spread over lines the compact text is the pretty one -----

  lemma SpreadComma(x: Text, open: nat)
    ensures Spread([0x2C] + x, open) == [0x2C] + (NewLine(true, open) + Spread(x, open))
  {
    TailOf(0x2C, x);
    BreakIs(open);
    Regroup([0x2C], NewLine(true, open), Spread(x, open));
  }

  lemma SpreadClose(close: Byte, x: Text, open: nat)
    requires Closes(close)
    ensures Spread([close] + x, open + 1) == NewLine(true, open) + [close] + Spread(x, open)
  {
    TailOf(close, x);
    BreakIs(open);
  }

  lemma SpreadOpen(bracket: Byte, x: Text, open: nat)
    requires Opens(bracket) && x != [] && !Closes(x[0])
    ensures Spread([bracket] + x, open) == [bracket] + (NewLine(true, open + 1) + Spread(x, open + 1))
  {
    TailOf(bracket, x);
    BreakIs(open + 1);
    assert ([bracket] + x)[1] == x[0];
    Regroup([bracket], NewLine(true, open + 1), Spread(x, open + 1));
  }

  lemma SpreadColon(x: Text, open: nat)
    ensures Spread([0x3A] + x, open) == [0x3A] + ([0x20] + Spread(x, open))
  {
    TailOf(0x3A, x);
    assert [0x3A, 0x20] + Spread(x, open) == [0x3A] + ([0x20] + Spread(x, open));
  }

  lemma SpreadBrackets(bracket: Byte, close: Byte, x: Text, open: nat)
    requires Opens(bracket) && Closes(close)
    ensures Spread([bracket, close] + x, open) == [bracket, close] + Spread(x, open)
  {
    var t := [bracket, close] + x;
    assert t[..2] == [bracket, close] && t[2..] == x;
  }

  // An item and all that follows it.
  lemma SpreadNext(w: Text, rest: Text, x: Text, w': Text, rest': Text, open: nat, outer: nat)
    requires Spread(w + (rest + x), open) == w' + Spread(rest + x, open)
    requires Spread(rest + x, open) == rest' + Spread(x, outer)
    ensures Spread(w + rest + x, open) == w' + rest' + Spread(x, outer)
  {
    Regroup(w, rest, x);
    Regroup(w', rest', Spread(x, outer));
  }

  lemma SpreadAfterComma(t: Text, x: Text, t': Text, open: nat, outer: nat)
    requires Spread(t + x, open) == t' + Spread(x, outer)
    ensures Spread([0x2C] + ([] + t) + x, open) == [0x2C] + (NewLine(true, open) + t') + Spread(x, outer)
  {
    hide Spread, NewLine;
    SpreadComma(t + x, open);
    assert [0x2C] + ([] + t) + x == [0x2C] + (t + x);
    assert [0x2C] + (NewLine(true, open) + t') + Spread(x, outer)
      == [0x2C] + (NewLine(true, open) + (t' + Spread(x, outer)));
  }

  lemma SpreadAfterOpen(bracket: Byte, t: Text, x: Text, t': Text, open: nat)
    requires Opens(bracket) && t != [] && !Closes(t[0]) && Spread(t + x, open + 1) == t' + Spread(x, open)
    ensures Spread([bracket] + ([] + t) + x, open) == [bracket] + (NewLine(true, open + 1) + t') + Spread(x, open)
  {
    hide Spread, NewLine;
    HeadOff(t, x);
    SpreadOpen(bracket, t + x, open);
    assert [bracket] + ([] + t) + x == [bracket] + (t + x);
    assert [bracket] + (NewLine(true, open + 1) + t') + Spread(x, open)
      == [bracket] + (NewLine(true, open + 1) + (t' + Spread(x, open)));
  }

  // All that follows item k - 1.
  lemma {:induction false} SpreadItems(v: Value, k: nat, depth: nat, x: Text)
    requires v.Stash? && Plain(v) && 0 < k <= |v.items|
    ensures Spread(WriteItems(v, k, false, depth) + x, depth + 1) == WriteItems(v, k, true, depth) + Spread(x, depth)
    decreases v, 0, |v.items| - k, 0
  {
    if k == |v.items| {
      Empties([0x5D]);
      SpreadClose(0x5D, x, depth);
    } else {
      hide *;
      SpreadItem(v, k, depth, x);
      WriteItemsIs(v, k, false, depth);
      WriteItemsIs(v, k, true, depth);
      NoBreak(depth + 1);
      SpreadAfterComma(ItemText(v, k, false, depth), x, ItemText(v, k, true, depth), depth + 1, depth);
    }
  }

  lemma NoBreak(depth: nat)
    ensures NewLine(false, depth) == []
  {
  }

  // Item k and all that follows it.
  lemma {:induction false} SpreadItem(v: Value, k: nat, depth: nat, x: Text)
    requires v.Stash? && Plain(v) && k < |v.items|
    ensures Spread(ItemText(v, k, false, depth) + x, depth + 1) == ItemText(v, k, true, depth) + Spread(x, depth)
    decreases v, 0, |v.items| - k - 1, 1
  {
    hide WriteItems, Write, Spread, Plain;
    PlainItem(v, k);
    SpreadWrite(v.items[k], depth + 1, WriteItems(v, k + 1, false, depth) + x);
    SpreadItems(v, k + 1, depth, x);
    SpreadNext(Write(v.items[k], false, depth + 1), WriteItems(v, k + 1, false, depth), x,
               Write(v.items[k], true, depth + 1), WriteItems(v, k + 1, true, depth), depth + 1, depth);
  }

  lemma {:induction false} SpreadStash(v: Value, depth: nat, x: Text)
    requires v.Stash? && Plain(v)
    ensures Spread(Write(v, false, depth) + x, depth) == Write(v, true, depth) + Spread(x, depth)
    decreases v, 0, |v.items| + 1
  {
    if v.items == [] {
      SpreadBrackets(0x5B, 0x5D, x, depth);
    } else {
      hide *;
      PlainItem(v, 0);
      FirstOfItem(v, depth);
      SpreadItem(v, 0, depth, x);
      WriteStash(v, false, depth);
      WriteStash(v, true, depth);
      NoBreak(depth + 1);
      SpreadAfterOpen(0x5B, ItemText(v, 0, false, depth), x, ItemText(v, 0, true, depth), depth);
    }
  }

  lemma FirstOfItem(v: Value, depth: nat)
    requires v.Stash? && v.items != [] && Plain(v.items[0])
    ensures ItemText(v, 0, false, depth) != [] && !Closes(ItemText(v, 0, false, depth)[0]) && Opens(0x5B)
  {
    FirstByte(v.items[0], false, depth + 1);
    hide Write, WriteItems;
    assert ItemText(v, 0, false, depth)[0] == Write(v.items[0], false, depth + 1)[0];
  }

  lemma {:induction false} SpreadEntries(v: Value, k: nat, depth: nat, x: Text)
    requires v.Chat? && Plain(v) && 0 < k <= |v.entries|
    ensures Spread(WriteEntries(v, k, false, depth) + x, depth + 1)
      == WriteEntries(v, k, true, depth) + Spread(x, depth)
    decreases v, 0, |v.entries| - k, 0
  {
    if k == |v.entries| {
      Empties([0x7D]);
      SpreadClose(0x7D, x, depth);
    } else {
      hide *;
      SpreadEntry(v, k, depth, x);
      EntryParts(v, k, false, depth);
      EntryParts(v, k, true, depth);
      NoBreak(depth + 1);
      SpreadAfterComma(PairText(v, k, false, depth) + WriteEntries(v, k + 1, false, depth), x,
                       PairText(v, k, true, depth) + WriteEntries(v, k + 1, true, depth), depth + 1, depth);
    }
  }

  lemma {:induction false} SpreadEntry(v: Value, k: nat, depth: nat, x: Text)
    requires v.Chat? && Plain(v) && k < |v.entries|
    ensures Spread(PairText(v, k, false, depth) + WriteEntries(v, k + 1, false, depth) + x, depth + 1)
      == PairText(v, k, true, depth) + WriteEntries(v, k + 1, true, depth) + Spread(x, depth)
    decreases v, 0, |v.entries| - k - 1, 1
  {
    hide WriteEntries, Write, Spread, Plain, PairText;
    PlainEntry(v, k);
    SpreadWrite(v.entries[k].value, depth + 1, WriteEntries(v, k + 1, false, depth) + x);
    SpreadPair(v, k, depth, WriteEntries(v, k + 1, false, depth) + x);
    SpreadEntries(v, k + 1, depth, x);
    SpreadNext(PairText(v, k, false, depth), WriteEntries(v, k + 1, false, depth), x, PairText(v, k, true, depth),
               WriteEntries(v, k + 1, true, depth), depth + 1, depth);
  }

  lemma SpreadPair(v: Value, k: nat, depth: nat, x: Text)
    requires v.Chat? && k < |v.entries|
    requires Spread(Write(v.entries[k].value, false, depth + 1) + x, depth + 1)
      == Write(v.entries[k].value, true, depth + 1) + Spread(x, depth + 1)
    ensures Spread(PairText(v, k, false, depth) + x, depth + 1)
      == PairText(v, k, true, depth) + Spread(x, depth + 1)
  {
    var key := v.entries[k].key;
    var w, w' := Write(v.entries[k].value, false, depth + 1), Write(v.entries[k].value, true, depth + 1);
    hide Write, WriteString, Spread;
    StringStays(key, [0x3A] + (w + x), depth + 1);
    SpreadColon(w + x, depth + 1);
    PairSplits(WriteString(key), [], w, x);
    Empties(w + x);
    PairSplits(WriteString(key), [0x20], w', Spread(x, depth + 1));
  }

  lemma {:induction false} SpreadChat(v: Value, depth: nat, x: Text)
    requires v.Chat? && Plain(v)
    ensures Spread(Write(v, false, depth) + x, depth) == Write(v, true, depth) + Spread(x, depth)
    decreases v, 0, |v.entries| + 1
  {
    if v.entries == [] {
      SpreadBrackets(0x7B, 0x7D, x, depth);
    } else {
      hide *;
      ChatParts(v, false, depth);
      ChatParts(v, true, depth);
      FirstOfPair(v, depth);
      SpreadEntry(v, 0, depth, x);
      NoBreak(depth + 1);
      SpreadAfterOpen(0x7B, PairText(v, 0, false, depth) + WriteEntries(v, 1, false, depth), x,
                      PairText(v, 0, true, depth) + WriteEntries(v, 1, true, depth), depth);
    }
  }

  lemma ChatParts(v: Value, pretty: bool, depth: nat)
    requires v.Chat? && v.entries != []
    ensures Write(v, pretty, depth)
      == [0x7B] + (NewLine(pretty, depth + 1) + (PairText(v, 0, pretty, depth) + WriteEntries(v, 1, pretty, depth)))
  {
    hide *;
    WriteChat(v, pretty, depth);
    EntryIsPair(v, 0, pretty, depth);
  }

  lemma FirstOfPair(v: Value, depth: nat)
    requires v.Chat? && v.entries != []
    ensures var t := PairText(v, 0, false, depth) + WriteEntries(v, 1, false, depth);
            t != [] && !Closes(t[0]) && Opens(0x7B)
  {
    hide Write, WriteEntries, WriteChars;
    assert WriteString(v.entries[0].key)[0] == 0x22;
    assert PairText(v, 0, false, depth)[0] == 0x22;
  }

  lemma {:induction false} SpreadWrite(v: Value, depth: nat, x: Text)
    requires Plain(v)
    ensures Spread(Write(v, false, depth) + x, depth) == Write(v, true, depth) + Spread(x, depth)
    decreases v, 1
  {
    match v
    case Str(str) => StringStays(str, x, depth);
    case Stash(items) => SpreadStash(v, depth, x);
    case Chat(entries) => SpreadChat(v, depth, x);
    case _ =>
      ScalarIsQuiet(v, false, depth);
      SpreadQuiet(Write(v, false, depth), x, depth);
  }

  // Pretty text is the compact text, spread over lines, and a new line at the end.
  lemma PrettyIsSpread(v: Value)
    requires Plain(v)
    ensures Spilled(v, true) == Spread(Spilled(v, false), 0) + ['\n' as int]
  {
    SpreadWrite(v, 0, []);
    hide Write;
    Empties(Write(v, false, 0));
    Empties(Write(v, true, 0));
  }
}
