// JSON text (native/json.c): what is written for a value and what is read back.
// Values here are trees; fixnums and bignums are one kind, and a float is kept as
// the text of its literal.
module Json {
  import opened Utf8

  type Text = seq<Byte>

  datatype Value =
    | Ghost
    | Bool(b: bool)
    | Int(n: int)
    | Float(literal: Text)
    | Str(s: Text)
    | Stash(items: seq<Value>)
    | Chat(entries: seq<Entry>)

  datatype Entry = Entry(key: Text, value: Value)

  datatype Problem =
    | NeverClosed | NeedsHex | NoSuchEscape | RawControl
    | NeedsDigits | NeedsFraction | NeedsExponent
    | NeedsWord | NeedsCommaOrEnd | NeedsKey | NeedsColon
    | TooDeep | EndedTooSoon | Unexpected | MoreAfterEnd

  datatype Parse<T> = Fail(at: nat, what: Problem) | Ok(value: T, next: nat)

  const MAX_DEPTH := 512

  // groupchat_set on string keys: a key seen before keeps its place.
  function Set(entries: seq<Entry>, key: Text, value: Value, i: nat): seq<Entry>
    requires i <= |entries|
    decreases |entries| - i
  {
    if i == |entries| then entries + [Entry(key, value)]
    else if entries[i].key == key then entries[i := Entry(key, value)]
    else Set(entries, key, value, i + 1)
  }

  ghost predicate FirstWith(entries: seq<Entry>, key: Text, k: nat)
    requires k < |entries|
  {
    entries[k].key == key && forall j :: 0 <= j < k ==> entries[j].key != key
  }

  // Setting a key keeps all keys in their places, and any other value; a key not there yet goes
  // last.  What was set is what is found.
  lemma {:induction false} SetKeepsPlaces(entries: seq<Entry>, key: Text, value: Value, i: nat)
    requires i <= |entries| && forall k :: 0 <= k < i ==> entries[k].key != key
    ensures var after := Set(entries, key, value, i);
            && |entries| <= |after| <= |entries| + 1
            && (|after| == |entries| <==> exists k :: 0 <= k < |entries| && entries[k].key == key)
            && (|after| > |entries| ==> after[|entries|] == Entry(key, value))
            && (forall k :: 0 <= k < |entries| ==> after[k].key == entries[k].key)
            && (forall k :: 0 <= k < |entries| && entries[k].key != key ==> after[k] == entries[k])
            && (forall k :: 0 <= k < |entries| && FirstWith(entries, key, k) ==> after[k] == Entry(key, value))
    decreases |entries| - i
  {
    if i < |entries| && entries[i].key != key {
      SetKeepsPlaces(entries, key, value, i + 1);
    }
  }

  // ----- reading, as functions -----

  predicate Space(c: Byte) {
    c == 0x20 || c == 0x0A || c == 0x0D || c == 0x09
  }

  function SkipSpace(s: Text, i: nat): (r: nat)
    requires i <= |s|
    ensures i <= r <= |s|
    decreases |s| - i
  {
    if i < |s| && Space(s[i]) then SkipSpace(s, i + 1) else i
  }

  // The byte at the cursor, and NUL at the end.
  function Peek(s: Text, i: nat): Byte {
    if i < |s| then s[i] else 0
  }

  // t stands in s at i.
  predicate At(s: Text, i: nat, t: Text) {
    i + |t| <= |s| && forall k :: 0 <= k < |t| ==> s[i + k] == t[k]
  }

  const TRUE: Text := [0x74, 0x72, 0x75, 0x65]
  const FALSE: Text := [0x66, 0x61, 0x6C, 0x73, 0x65]
  const NULL: Text := [0x6E, 0x75, 0x6C, 0x6C]

  function ReadWord(s: Text, i: nat, word: Text, v: Value): Parse<Value> {
    if At(s, i, word) then Ok(v, i + |word|) else Fail(i, NeedsWord)
  }

  function HexDigit(c: Byte): (d: int)
    ensures -1 <= d < 16
  {
    if 0x30 <= c <= 0x39 then c - 0x30
    else if 0x61 <= c <= 0x66 then c - 0x61 + 10
    else if 0x41 <= c <= 0x46 then c - 0x41 + 10
    else -1
  }

  // Four hex digits at i; -1 if there are not.
  function Hex4(s: Text, i: nat): (v: int)
    ensures -1 <= v < 0x1_0000
  {
    if i + 4 > |s| then -1
    else if HexDigit(s[i]) < 0 || HexDigit(s[i + 1]) < 0 || HexDigit(s[i + 2]) < 0 || HexDigit(s[i + 3]) < 0 then -1
    else ((HexDigit(s[i]) * 16 + HexDigit(s[i + 1])) * 16 + HexDigit(s[i + 2])) * 16 + HexDigit(s[i + 3])
  }

  predicate HighHalf(cp: int) {
    0xD800 <= cp <= 0xDBFF
  }

  predicate LowHalf(cp: int) {
    0xDC00 <= cp <= 0xDFFF
  }

  // Two halves of a pair spell one character.
  function Paired(high: int, low: int): (cp: nat)
    requires HighHalf(high) && LowHalf(low)
    ensures 0x1_0000 <= cp <= 0x10FFFF
  {
    0x1_0000 + (high - 0xD800) * 0x400 + (low - 0xDC00)
  }

  // The escape \uXXXX at i, with its other half if one follows; a half alone is
  // U+FFFD.
  function ReadUnicode(s: Text, i: nat): (r: Parse<Text>)
    ensures r.Ok? ==> i < r.next <= |s|
  {
    var cp := Hex4(s, i + 2);
    if cp < 0 then Fail(i, NeedsHex)
    else if HighHalf(cp) && i + 11 < |s| && s[i + 6] == 0x5C && s[i + 7] == 0x75 then
      var low := Hex4(s, i + 8);
      if low < 0 then Fail(i, NeedsHex)
      else if LowHalf(low) then Ok(Encoded(Paired(cp, low)), i + 12)
      else Ok(Encoded(0xFFFD), i + 6)
    else if HighHalf(cp) || LowHalf(cp) then Ok(Encoded(0xFFFD), i + 6)
    else Ok(Encoded(cp), i + 6)
  }

  // What a one-letter escape stands for; -1 if JSON has no such escape.
  function ShortEscape(c: Byte): (b: int)
    ensures -1 <= b < 0x100
  {
    if c == 0x6E then 0x0A
    else if c == 0x74 then 0x09
    else if c == 0x72 then 0x0D
    else if c == 0x62 then 0x08
    else if c == 0x66 then 0x0C
    else if c == 0x22 || c == 0x5C || c == 0x2F then c
    else -1
  }

  // The letters of section 7 of RFC 8259 and what they stand for: backspace, form feed, line
  // feed, carriage return and tab; a quotation mark, a backslash and a slash for themselves.
  lemma EscapeLetters(c: Byte)
    ensures ShortEscape('b' as int) == 8 && ShortEscape('f' as int) == 12 && ShortEscape('n' as int) == 10
    ensures ShortEscape('r' as int) == 13 && ShortEscape('t' as int) == 9
    ensures ShortEscape('"' as int) == 34 && ShortEscape('\\' as int) == 92 && ShortEscape('/' as int) == 47
    ensures c as char !in "bfnrt\"\\/" ==> ShortEscape(c) == -1
  {
  }

  // The escape at i.
  function ReadEscape(s: Text, i: nat): (r: Parse<Text>)
    requires i < |s|
    ensures r.Ok? ==> i < r.next <= |s|
  {
    if i + 1 >= |s| then Fail(i, NeverClosed)
    else if ShortEscape(s[i + 1]) >= 0 then Ok([ShortEscape(s[i + 1])], i + 2)
    else if s[i + 1] == 0x75 then ReadUnicode(s, i)
    else Fail(i, NoSuchEscape)
  }

  // The rest of a string, `out` having been read.
  function ReadChars(s: Text, i: nat, out: Text): (r: Parse<Text>)
    requires i <= |s|
    ensures r.Ok? ==> i < r.next <= |s|
    decreases |s| - i
  {
    if i == |s| then Fail(i, NeverClosed)
    else if s[i] == 0x22 then Ok(out, i + 1)
    else if s[i] == 0x5C then
      var e := ReadEscape(s, i);
      if e.Fail? then Fail(e.at, e.what) else ReadChars(s, e.next, out + e.value)
    else if s[i] < 0x20 then Fail(i, RawControl)
    else ReadChars(s, i + 1, out + [s[i]])
  }

  predicate Digit(c: Byte) {
    0x30 <= c <= 0x39
  }

  function SkipDigits(s: Text, i: nat): (r: nat)
    requires i <= |s|
    ensures i <= r <= |s| && (r < |s| ==> !Digit(s[r]))
    ensures forall k :: i <= k < r ==> Digit(s[k])
    decreases |s| - i
  {
    if i < |s| && Digit(s[i]) then SkipDigits(s, i + 1) else i
  }

  // The number the digits from i to j spell.
  function Spell(s: Text, i: nat, j: nat): int
    requires i <= j <= |s|
    decreases j
  {
    if i == j then 0 else Spell(s, i, j - 1) * 10 + HexDigit(s[j - 1])
  }

  function SkipFraction(s: Text, i: nat): (r: Parse<bool>)
    requires i <= |s|
    ensures r.Ok? ==> i <= r.next <= |s| && (!r.value ==> r.next == i)
  {
    if Peek(s, i) != 0x2E || i == |s| then Ok(false, i)
    else
      var j := SkipDigits(s, i + 1);
      if j == i + 1 then Fail(j, NeedsFraction) else Ok(true, j)
  }

  function SkipExponent(s: Text, i: nat): (r: Parse<bool>)
    requires i <= |s|
    ensures r.Ok? ==> i <= r.next <= |s| && (!r.value ==> r.next == i)
  {
    if i == |s| || (s[i] != 0x65 && s[i] != 0x45) then Ok(false, i)
    else
      var k := if i + 1 < |s| && (s[i + 1] == 0x2B || s[i + 1] == 0x2D) then i + 2 else i + 1;
      var j := SkipDigits(s, k);
      if j == k then Fail(j, NeedsExponent) else Ok(true, j)
  }

  // What ends a number.
  predicate Ends(s: Text, i: nat) {
    i >= |s| || !(Digit(s[i]) || s[i] == 0x2E || s[i] == 0x65 || s[i] == 0x45)
  }

  // Leading zeros are let through.
  function ReadNumber(s: Text, i: nat): (r: Parse<Value>)
    requires i < |s|
    ensures r.Ok? ==> i < r.next <= |s|
  {
    var digitsAt := if s[i] == 0x2D then i + 1 else i;
    var j := SkipDigits(s, digitsAt);
    if j == digitsAt then Fail(j, NeedsDigits)
    else
      var f := SkipFraction(s, j);
      if f.Fail? then Fail(f.at, f.what)
      else
        var e := SkipExponent(s, f.next);
        if e.Fail? then Fail(e.at, e.what)
        else if f.value || e.value then Ok(Float(s[i..e.next]), e.next)
        else Ok(Int(if s[i] == 0x2D then -Spell(s, digitsAt, j) else Spell(s, digitsAt, j)), j)
  }

  // A value at i, `depth` containers down.
  function ReadValue(s: Text, i: nat, depth: nat): (r: Parse<Value>)
    requires i <= |s|
    ensures r.Ok? ==> i < r.next <= |s|
    decreases |s| - i, 1
  {
    if depth > MAX_DEPTH then Fail(i, TooDeep)
    else if i == |s| then Fail(i, EndedTooSoon)
    else if s[i] == 0x7B then ReadObject(s, i + 1, depth)
    else if s[i] == 0x5B then ReadArray(s, i + 1, depth)
    else if s[i] == 0x22 then
      var t := ReadChars(s, i + 1, []);
      if t.Fail? then Fail(t.at, t.what) else Ok(Str(t.value), t.next)
    else if s[i] == 0x74 then ReadWord(s, i, TRUE, Bool(true))
    else if s[i] == 0x66 then ReadWord(s, i, FALSE, Bool(false))
    else if s[i] == 0x6E then ReadWord(s, i, NULL, Ghost)
    else if s[i] == 0x2D || Digit(s[i]) then ReadNumber(s, i)
    else if s[i] == 0 then Fail(i, EndedTooSoon)
    else Fail(i, Unexpected)
  }

  // After '['.
  function ReadArray(s: Text, i: nat, depth: nat): (r: Parse<Value>)
    requires i <= |s|
    ensures r.Ok? ==> i < r.next <= |s|
    decreases |s| - i, 3
  {
    var j := SkipSpace(s, i);
    if Peek(s, j) == 0x5D then Ok(Stash([]), j + 1) else ReadItems(s, j, depth, [])
  }

  function ReadItems(s: Text, i: nat, depth: nat, out: seq<Value>): (r: Parse<Value>)
    requires i <= |s|
    ensures r.Ok? ==> i < r.next <= |s|
    decreases |s| - i, 2
  {
    var item := ReadValue(s, SkipSpace(s, i), depth + 1);
    if item.Fail? then item
    else
      var k := SkipSpace(s, item.next);
      if Peek(s, k) == 0x5D then Ok(Stash(out + [item.value]), k + 1)
      else if Peek(s, k) == 0x2C then ReadItems(s, k + 1, depth, out + [item.value])
      else Fail(k, NeedsCommaOrEnd)
  }

  // After '{'.
  function ReadObject(s: Text, i: nat, depth: nat): (r: Parse<Value>)
    requires i <= |s|
    ensures r.Ok? ==> i < r.next <= |s|
    decreases |s| - i, 4
  {
    var j := SkipSpace(s, i);
    if Peek(s, j) == 0x7D then Ok(Chat([]), j + 1) else ReadEntries(s, j, depth, [])
  }

  // A key and the colon after it.
  function ReadKey(s: Text, i: nat): (r: Parse<Text>)
    requires i <= |s|
    ensures r.Ok? ==> i < r.next <= |s|
  {
    if Peek(s, i) != 0x22 then Fail(i, NeedsKey)
    else
      var t := ReadChars(s, i + 1, []);
      if t.Fail? then t
      else
        var j := SkipSpace(s, t.next);
        if Peek(s, j) != 0x3A then Fail(j, NeedsColon) else Ok(t.value, j + 1)
  }

  // A key, its colon and its value.
  function ReadEntry(s: Text, i: nat, depth: nat): (r: Parse<Entry>)
    requires i <= |s|
    ensures r.Ok? ==> i < r.next <= |s|
    decreases |s| - i, 2
  {
    var key := ReadKey(s, SkipSpace(s, i));
    if key.Fail? then Fail(key.at, key.what)
    else
      var value := ReadValue(s, SkipSpace(s, key.next), depth + 1);
      if value.Fail? then Fail(value.at, value.what) else Ok(Entry(key.value, value.value), value.next)
  }

  function ReadEntries(s: Text, i: nat, depth: nat, out: seq<Entry>): (r: Parse<Value>)
    requires i <= |s|
    ensures r.Ok? ==> i < r.next <= |s|
    decreases |s| - i, 3
  {
    var entry := ReadEntry(s, i, depth);
    if entry.Fail? then Fail(entry.at, entry.what)
    else
      var entries := Set(out, entry.value.key, entry.value.value, 0);
      var k := SkipSpace(s, entry.next);
      if Peek(s, k) == 0x7D then Ok(Chat(entries), k + 1)
      else if Peek(s, k) == 0x2C then ReadEntries(s, k + 1, depth, entries)
      else Fail(k, NeedsCommaOrEnd)
  }

  // json.parse
  function Parsed(s: Text): Parse<Value> {
    var v := ReadValue(s, SkipSpace(s, 0), 0);
    if v.Fail? then v
    else
      var i := SkipSpace(s, v.next);
      if i < |s| then Fail(i, MoreAfterEnd) else Ok(v.value, i)
  }

  // ----- writing, as functions -----

  // \u00XX for a control character
  function ControlEscape(c: Byte): (t: Text)
    requires c < 0x20
    ensures |t| == 6
  {
    [0x5C, 0x75, 0x30, 0x30,
     if c < 0x10 then 0x30 else 0x31, if c % 0x10 < 10 then 0x30 + c % 0x10 else 0x61 + (c % 0x10 - 10)]
  }

  // U+2028 or U+2029 at i.
  predicate LineEnd(s: Text, i: nat) {
    i + 2 < |s| && s[i] == 0xE2 && s[i + 1] == 0x80 && (s[i + 2] == 0xA8 || s[i + 2] == 0xA9)
  }

  // What is written for the character at i, and how many bytes that was.
  function Escape(s: Text, i: nat): (t: Text)
    requires i < |s|
    ensures t != []
  {
    var c := s[i];
    if c == 0x22 || c == 0x5C then [0x5C, c]
    else if c == 0x0A then [0x5C, 0x6E]
    else if c == 0x0D then [0x5C, 0x72]
    else if c == 0x09 then [0x5C, 0x74]
    else if c < 0x20 then ControlEscape(c)
    else if LineEnd(s, i) then [0x5C, 0x75, 0x32, 0x30, 0x32, if s[i + 2] == 0xA8 then 0x38 else 0x39]
    else [c]
  }

  function Escaped(s: Text, i: nat): nat
    requires i < |s|
  {
    if s[i] >= 0x20 && LineEnd(s, i) then 3 else 1
  }

  lemma EscapedFits(str: Text, k: nat)
    requires k < |str|
    ensures k + Escaped(str, k) <= |str|
  {
  }

  // The characters from i on, and the closing quote.
  function WriteChars(s: Text, i: nat): Text
    requires i <= |s|
    decreases |s| - i
  {
    if i == |s| then [0x22] else Escape(s, i) + WriteChars(s, i + Escaped(s, i))
  }

  function WriteString(s: Text): Text {
    [0x22] + WriteChars(s, 0)
  }

  // Two spaces for each level of depth.
  function Indent(depth: nat): Text
    decreases depth
  {
    if depth == 0 then [] else Indent(depth - 1) + [0x20, 0x20]
  }

  function NewLine(pretty: bool, depth: nat): Text {
    if pretty then [0x0A] + Indent(depth) else []
  }

  function WriteInt(n: int): Text {
    (if n < 0 then [0x2D] else []) + DecimalBytes(if n < 0 then -n else n)
  }

  function DecimalBytes(n: nat): (t: Text)
    ensures |t| > 0
    decreases n
  {
    if n < 10 then [0x30 + n] else DecimalBytes(n / 10) + [0x30 + n % 10]
  }

  function Write(v: Value, pretty: bool, depth: nat): Text
    decreases v, 1
  {
    match v
    case Ghost => NULL
    case Bool(b) => if b then TRUE else FALSE
    case Int(n) => WriteInt(n)
    case Float(literal) => literal
    case Str(s) => WriteString(s)
    case Stash(items) => if items == [] then [0x5B, 0x5D] else [0x5B] + WriteItems(v, 0, pretty, depth)
    case Chat(entries) => if entries == [] then [0x7B, 0x7D] else [0x7B] + WriteEntries(v, 0, pretty, depth)
  }

  // The items from k on, and the closing bracket.
  function WriteItems(v: Value, k: nat, pretty: bool, depth: nat): Text
    requires v.Stash? && k <= |v.items|
    decreases v, 0, |v.items| - k
  {
    if k == |v.items| then NewLine(pretty, depth) + [0x5D]
    else
      (if k > 0 then [0x2C] else []) + NewLine(pretty, depth + 1) + Write(v.items[k], pretty, depth + 1)
      + WriteItems(v, k + 1, pretty, depth)
  }

  function WriteEntries(v: Value, k: nat, pretty: bool, depth: nat): Text
    requires v.Chat? && k <= |v.entries|
    decreases v, 0, |v.entries| - k
  {
    if k == |v.entries| then NewLine(pretty, depth) + [0x7D]
    else
      (if k > 0 then [0x2C] else []) + NewLine(pretty, depth + 1) + WriteString(v.entries[k].key) + [0x3A]
      + (if pretty then [0x20] else []) + Write(v.entries[k].value, pretty, depth + 1)
      + WriteEntries(v, k + 1, pretty, depth)
  }

  // json.spill
  function Spilled(v: Value, pretty: bool): Text {
    Write(v, pretty, 0) + (if pretty then [0x0A] else [])
  }
}
