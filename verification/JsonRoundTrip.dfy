// Reading what was written: json.parse(json.spill(v)) is v again.
module JsonRoundTrip {
  import opened Utf8
  import opened Json
  import opened JsonNumbers
  import DecimalText

  // ----- text at a place -----

  lemma AtConcat(s: Text, i: nat, a: Text, b: Text)
    ensures At(s, i, a + b) <==> At(s, i, a) && At(s, i + |a|, b)
  {
    if At(s, i, a + b) {
      forall k | 0 <= k < |a| ensures s[i + k] == a[k] {
        assert (a + b)[k] == a[k];
      }
      forall k | 0 <= k < |b| ensures s[i + |a| + k] == b[k] {
        assert (a + b)[|a| + k] == b[k];
      }
    }
  }

  // ----- strings -----

  lemma ControlBack(s: Text, i: nat, c: Byte)
    requires c < 0x20 && At(s, i, ControlEscape(c))
    ensures ReadUnicode(s, i) == Ok([c], i + 6)
  {
    var t := ControlEscape(c);
    assert s[i + 2] == t[2] && s[i + 3] == t[3] && s[i + 4] == t[4] && s[i + 5] == t[5];
    assert Hex4(s, i + 2) == c;
  }

  lemma LineEndBack(s: Text, i: nat, last: Byte)
    requires (last == 0x38 || last == 0x39) && At(s, i, [0x5C, 0x75, 0x32, 0x30, 0x32, last])
    ensures ReadUnicode(s, i) == Ok([0xE2, 0x80, if last == 0x38 then 0xA8 else 0xA9], i + 6)
  {
    var t: Text := [0x5C, 0x75, 0x32, 0x30, 0x32, last];
    assert s[i + 2] == t[2] && s[i + 3] == t[3] && s[i + 4] == t[4] && s[i + 5] == t[5];
    assert Hex4(s, i + 2) == 0x2028 + (last - 0x38);
  }

  // One character's escape is read as that character.
  lemma EscapeBack(s: Text, i: nat, str: Text, k: nat)
    requires k < |str| && At(s, i, Escape(str, k)) && |Escape(str, k)| > 1
    ensures s[i] == 0x5C && k + Escaped(str, k) <= |str|
    ensures ReadEscape(s, i) == Ok(str[k..k + Escaped(str, k)], i + |Escape(str, k)|)
  {
    var t, c := Escape(str, k), str[k];
    assert s[i] == t[0] && s[i + 1] == t[1] && str[k..k + 1] == [c];
    if c < 0x20 && c != 0x0A && c != 0x0D && c != 0x09 {
      ControlBack(s, i, c);
    } else if c >= 0x20 && LineEnd(str, k) && c != 0x22 && c != 0x5C {
      LineEndBack(s, i, if str[k + 2] == 0xA8 then 0x38 else 0x39);
      assert str[k..k + 3] == [str[k], str[k + 1], str[k + 2]];
    }
  }

  lemma PlainChar(str: Text, k: nat)
    requires k < |str| && |Escape(str, k)| == 1
    ensures Escape(str, k) == [str[k]] && Escaped(str, k) == 1 && str[k] >= 0x20 && str[k] != 0x22 && str[k] != 0x5C
  {
  }

  lemma TakeMore(out: Text, str: Text, k: nat, n: nat)
    requires k + n <= |str|
    ensures (out + str[k..k + n]) + str[k + n..] == out + str[k..]
  {
    CutAt(str, k, k + n);
    Regroup(out, str[k..k + n], str[k + n..]);
  }

  lemma {:induction false} CharsBack(s: Text, i: nat, str: Text, k: nat, out: Text)
    requires k <= |str| && At(s, i, WriteChars(str, k))
    ensures ReadChars(s, i, out) == Ok(out + str[k..], i + |WriteChars(str, k)|)
    decreases |str| - k
  {
    hide Escape, LineEnd, ReadEscape;
    if k == |str| {
      assert s[i] == WriteChars(str, k)[0];
      Empties(out);
    } else {
      var t, n := Escape(str, k), Escaped(str, k);
      EscapedFits(str, k);
      AtConcat(s, i, t, WriteChars(str, k + n));
      if |t| == 1 {
        PlainChar(str, k);
        assert s[i + 0] == t[0];
        assert str[k..k + n] == [str[k]];
      } else {
        EscapeBack(s, i, str, k);
      }
      CharsBack(s, i + |t|, str, k + n, out + str[k..k + n]);
      TakeMore(out, str, k, n);
    }
  }

  // A string comes back byte for byte.
  lemma StringBack(s: Text, i: nat, str: Text, depth: nat)
    requires At(s, i, WriteString(str)) && depth <= MAX_DEPTH
    ensures At(s, i, [0x22]) && ReadChars(s, i + 1, []) == Ok(str, i + |WriteString(str)|)
    ensures ReadValue(s, i, depth) == Ok(Value.Str(str), i + |WriteString(str)|)
  {
    hide ReadChars, WriteChars, ReadArray, ReadObject, ReadNumber, ReadWord, Digit;
    AtConcat(s, i, [0x22], WriteChars(str, 0));
    CharsBack(s, i + 1, str, 0, []);
    Empties(str);
    assert str[0..] == str;
    assert s[i] == [0x22][0];
  }

  // ----- escapes for characters beyond the 16-bit ones -----

  // Any character written as one escape, or as two for a pair of halves, is read
  // as its UTF-8.
  lemma UnicodeEscapes(s: Text, i: nat, cp: nat)
    requires Scalar(cp)
    requires cp < 0x1_0000 ==> Hex4(s, i + 2) == cp
    requires cp >= 0x1_0000 ==> i + 12 <= |s| && s[i + 6] == 0x5C && s[i + 7] == 0x75
    requires cp >= 0x1_0000 ==> Hex4(s, i + 2) == 0xD800 + (cp - 0x1_0000) / 0x400
    requires cp >= 0x1_0000 ==> Hex4(s, i + 8) == 0xDC00 + (cp - 0x1_0000) % 0x400
    ensures ReadUnicode(s, i) == Ok(Encoded(cp), if cp < 0x1_0000 then i + 6 else i + 12)
    ensures WellFormed(ReadUnicode(s, i).value, 0)
  {
    EncodeThenDecode(cp);
    if cp >= 0x1_0000 {
      assert Paired(Hex4(s, i + 2), Hex4(s, i + 8)) == cp;
    }
  }

  // ----- numbers -----

  lemma {:induction false} DecimalBack(s: Text, i: nat, n: nat)
    requires At(s, i, DecimalBytes(n))
    ensures Spell(s, i, i + |DecimalBytes(n)|) == n
    ensures forall k :: i <= k < i + |DecimalBytes(n)| ==> Digit(s[k])
    decreases n
  {
    if n < 10 {
      assert s[i] == DecimalBytes(n)[0];
    } else {
      var high, low: Text := DecimalBytes(n / 10), [0x30 + n % 10];
      AtConcat(s, i, high, low);
      DecimalBack(s, i, n / 10);
      assert s[i + |high|] == low[0];
    }
  }

  lemma {:induction false} DigitsSkipped(s: Text, i: nat, j: nat)
    requires i <= j <= |s| && (forall k :: i <= k < j ==> Digit(s[k])) && Ends(s, j)
    ensures SkipDigits(s, i) == j
    decreases j - i
  {
    if i < j {
      DigitsSkipped(s, i + 1, j);
    }
  }

  lemma IntBack(s: Text, i: nat, n: int)
    requires At(s, i, WriteInt(n)) && Ends(s, i + |WriteInt(n)|)
    ensures i < |s| && (s[i] == 0x2D || Digit(s[i]))
    ensures ReadNumber(s, i) == Ok(Int(n), i + |WriteInt(n)|)
  {
    var m := if n < 0 then -n else n;
    var sign: Text := if n < 0 then [0x2D] else [];
    AtConcat(s, i, sign, DecimalBytes(m));
    DecimalBack(s, i + |sign|, m);
    var j := i + |WriteInt(n)|;
    DigitsSkipped(s, i + |sign|, j);
    if n < 0 {
      assert s[i] == sign[0];
    }
  }

  // These are the digits of bignum_to_decimal_string, and of snprintf's %lld.
  lemma {:induction false} DecimalBytesAre(n: nat)
    ensures |DecimalBytes(n)| == |DecimalText.Decimal(n)|
    ensures forall k :: 0 <= k < |DecimalBytes(n)| ==> DecimalText.Decimal(n)[k] as int == DecimalBytes(n)[k]
    decreases n
  {
    if n >= 10 {
      DecimalBytesAre(n / 10);
    }
  }

  // ----- what comes back -----

  // How many containers deep a value goes.
  function Height(v: Value): nat
    decreases v, 1
  {
    match v
    case Stash(items) => if items == [] then 0 else 1 + TallestItem(v, 0)
    case Chat(entries) => if entries == [] then 0 else 1 + TallestEntry(v, 0)
    case _ => 0
  }

  function TallestItem(v: Value, k: nat): nat
    requires v.Stash? && k <= |v.items|
    decreases v, 0, |v.items| - k
  {
    if k == |v.items| then 0 else Max(Height(v.items[k]), TallestItem(v, k + 1))
  }

  function TallestEntry(v: Value, k: nat): nat
    requires v.Chat? && k <= |v.entries|
    decreases v, 0, |v.entries| - k
  {
    if k == |v.entries| then 0 else Max(Height(v.entries[k].value), TallestEntry(v, k + 1))
  }

  function Max(a: nat, b: nat): nat {
    if a < b then b else a
  }

  // What a groupchat always is: no key twice.
  predicate DistinctKeys(entries: seq<Entry>) {
    forall i, j :: 0 <= i < j < |entries| ==> entries[i].key != entries[j].key
  }

  // Values as JSON has them: a float is a literal with a fraction or an exponent, and
  // no key of a groupchat is there twice.
  ghost predicate Plain(v: Value)
    decreases v
  {
    match v
    case Float(literal) => FloatLiteral(literal)
    case Stash(items) => forall k :: 0 <= k < |items| ==> Plain(items[k])
    case Chat(entries) => DistinctKeys(entries) && forall k :: 0 <= k < |entries| ==> Plain(entries[k].value)
    case _ => true
  }

  // v is read, ending at `end`; or, if it goes deeper than is allowed, refused.
  predicate Back(r: Parse<Value>, v: Value, fits: bool, end: nat) {
    if fits then r == Ok(v, end) else r.Fail? && r.what == TooDeep
  }

  // ----- spaces -----

  lemma {:induction false} SpacesSkipped(s: Text, i: nat, j: nat)
    requires i <= j <= |s| && (forall k :: i <= k < j ==> Space(s[k])) && (j < |s| ==> !Space(s[j]))
    ensures SkipSpace(s, i) == j
    decreases j - i
  {
    if i < j {
      SpacesSkipped(s, i + 1, j);
    }
  }

  lemma {:induction false} IndentIsSpaces(depth: nat)
    ensures forall k :: 0 <= k < |Indent(depth)| ==> Indent(depth)[k] == 0x20
    decreases depth
  {
    if depth > 0 {
      IndentIsSpaces(depth - 1);
    }
  }

  // White space, and then something else.
  lemma BlankSkipped(s: Text, i: nat, blank: Text)
    requires At(s, i, blank) && (forall k :: 0 <= k < |blank| ==> Space(blank[k]))
    requires i + |blank| < |s| ==> !Space(s[i + |blank|])
    ensures SkipSpace(s, i) == i + |blank|
  {
    forall k | i <= k < i + |blank| ensures Space(s[k]) {
      assert s[i + (k - i)] == blank[k - i];
    }
    SpacesSkipped(s, i, i + |blank|);
  }

  lemma NewLineSkipped(s: Text, i: nat, pretty: bool, depth: nat)
    requires At(s, i, NewLine(pretty, depth))
    requires i + |NewLine(pretty, depth)| < |s| ==> !Space(s[i + |NewLine(pretty, depth)|])
    ensures SkipSpace(s, i) == i + |NewLine(pretty, depth)|
  {
    IndentIsSpaces(depth);
    BlankSkipped(s, i, NewLine(pretty, depth));
  }

  // Nothing that starts a value is white space or ends a container.
  predicate Starts(c: Byte) {
    c == 0x6E || c == 0x74 || c == 0x66 || c == 0x2D || Digit(c) || c == 0x22 || c == 0x5B || c == 0x7B
  }

  lemma {:induction false} DigitFirst(n: nat)
    ensures Digit(DecimalBytes(n)[0])
    decreases n
  {
    if n >= 10 {
      DigitFirst(n / 10);
    }
  }

  lemma LiteralFirst(t: Text)
    requires FloatLiteral(t)
    ensures |t| > 0 && (t[0] == 0x2D || Digit(t[0]))
  {
    var a: nat, b: nat :| LooseParts(t, 0, a, b, |t|) && a < |t|;
    assert Digit(t[AfterMinus(t, 0)]);
  }

  lemma FirstByte(v: Value, pretty: bool, depth: nat)
    requires Plain(v)
    ensures |Write(v, pretty, depth)| > 0 && Starts(Write(v, pretty, depth)[0])
  {
    if v.Int? {
      DigitFirst(if v.n < 0 then -v.n else v.n);
    } else if v.Float? {
      LiteralFirst(v.literal);
    }
  }

  // ----- one item after another -----

  // Item k and all that follows it.
  function ItemText(v: Value, k: nat, pretty: bool, depth: nat): Text
    requires v.Stash? && k < |v.items|
  {
    Write(v.items[k], pretty, depth + 1) + WriteItems(v, k + 1, pretty, depth)
  }

  lemma WriteItemsIs(v: Value, k: nat, pretty: bool, depth: nat)
    requires v.Stash? && k < |v.items|
    ensures WriteItems(v, k, pretty, depth)
      == (if k > 0 then [0x2C] else []) + (NewLine(pretty, depth + 1) + ItemText(v, k, pretty, depth))
  {
    var comma: Text := if k > 0 then [0x2C] else [];
    var nl, w := NewLine(pretty, depth + 1), Write(v.items[k], pretty, depth + 1);
    var rest := WriteItems(v, k + 1, pretty, depth);
    assert WriteItems(v, k, pretty, depth) == comma + nl + w + rest;
    hide *;
    Regroup(comma + nl, w, rest);
    Regroup(comma, nl, w + rest);
  }

  // A line break, then item k at the place returned.
  lemma ItemAt(s: Text, i: nat, v: Value, k: nat, pretty: bool, depth: nat) returns (q: nat)
    requires v.Stash? && k < |v.items| && Plain(v.items[k])
    requires At(s, i, NewLine(pretty, depth + 1) + ItemText(v, k, pretty, depth))
    ensures SkipSpace(s, i) == q == i + |NewLine(pretty, depth + 1)| && At(s, q, ItemText(v, k, pretty, depth))
    ensures q < |s| && Starts(s[q])
  {
    hide Write, WriteItems, NewLine, Plain;
    var nl, text := NewLine(pretty, depth + 1), ItemText(v, k, pretty, depth);
    AtConcat(s, i, nl, text);
    q := i + |nl|;
    FirstByte(v.items[k], pretty, depth + 1);
    assert s[q + 0] == text[0] == Write(v.items[k], pretty, depth + 1)[0];
    NewLineSkipped(s, i, pretty, depth + 1);
  }

  // After the last item: a line break and the closing bracket.
  lemma CloseAt(s: Text, i: nat, close: Byte, pretty: bool, depth: nat)
    requires At(s, i, NewLine(pretty, depth) + [close]) && (close == 0x5D || close == 0x7D)
    ensures var k := SkipSpace(s, i); k + 1 == i + |NewLine(pretty, depth)| + 1 && k < |s| && s[k] == close
    ensures Ends(s, i)
  {
    var nl := NewLine(pretty, depth);
    AtConcat(s, i, nl, [close]);
    assert s[i + |nl|] == [close][0];
    NewLineSkipped(s, i, pretty, depth);
    if pretty {
      assert s[i] == nl[0];
    }
  }

  lemma CommaAt(s: Text, i: nat, rest: Text)
    requires At(s, i, [0x2C] + rest)
    ensures i < |s| && s[i] == 0x2C && SkipSpace(s, i) == i && At(s, i + 1, rest) && Ends(s, i)
  {
    AtConcat(s, i, [0x2C], rest);
    assert s[i] == [0x2C][0];
  }

  lemma ItemsEnd(s: Text, m: nat, v: Value, k: nat, pretty: bool, depth: nat)
    requires v.Stash? && 0 < k <= |v.items| && At(s, m, WriteItems(v, k, pretty, depth))
    ensures Ends(s, m)
  {
    if k == |v.items| {
      CloseAt(s, m, 0x5D, pretty, depth);
    } else {
      WriteItemsIs(v, k, pretty, depth);
      CommaAt(s, m, NewLine(pretty, depth + 1) + ItemText(v, k, pretty, depth));
    }
  }

  // One turn of the reading loop, at item k.
  lemma ItemsTurn(s: Text, p: nat, i: nat, v: Value, k: nat, pretty: bool, wd: nat, depth: nat, item: Parse<Value>)
      returns (p': nat, i': nat)
    requires v.Stash? && k < |v.items| && p <= |s| && SkipSpace(s, p) == i && item == ReadValue(s, i, depth + 1)
    requires At(s, i, ItemText(v, k, pretty, wd))
    requires item == Ok(v.items[k], i + |Write(v.items[k], pretty, wd + 1)|)
    requires k + 1 < |v.items| ==> Plain(v.items[k + 1])
    ensures k + 1 == |v.items| ==> ReadItems(s, p, depth, v.items[..k]) == Ok(v, i + |ItemText(v, k, pretty, wd)|)
    ensures k + 1 < |v.items| ==> p' <= |s| && SkipSpace(s, p') == i' && At(s, i', ItemText(v, k + 1, pretty, wd))
    ensures k + 1 < |v.items| ==> ReadItems(s, p, depth, v.items[..k]) == ReadItems(s, p', depth, v.items[..k + 1])
    ensures k + 1 < |v.items| ==> i' + |ItemText(v, k + 1, pretty, wd)| == i + |ItemText(v, k, pretty, wd)|
  {
    hide ReadValue, Write, Plain, NewLine;
    var m := item.next;
    AtConcat(s, i, Write(v.items[k], pretty, wd + 1), WriteItems(v, k + 1, pretty, wd));
    assert v.items[..k] + [v.items[k]] == v.items[..k + 1];
    if k + 1 == |v.items| {
      CloseAt(s, m, 0x5D, pretty, wd);
      assert v.items[..k + 1] == v.items;
      p', i' := p, i;
    } else {
      WriteItemsIs(v, k + 1, pretty, wd);
      CommaAt(s, m, NewLine(pretty, wd + 1) + ItemText(v, k + 1, pretty, wd));
      p' := m + 1;
      i' := ItemAt(s, m + 1, v, k + 1, pretty, wd);
    }
  }

  // ----- one entry after another -----

  // Entry k and all that follows it.
  function EntryText(v: Value, k: nat, pretty: bool, depth: nat): Text
    requires v.Chat? && k < |v.entries|
  {
    WriteString(v.entries[k].key) + ([0x3A] + ((if pretty then [0x20] else []) + ValueText(v, k, pretty, depth)))
  }

  // The value of entry k, and all that follows it.
  function ValueText(v: Value, k: nat, pretty: bool, depth: nat): Text
    requires v.Chat? && k < |v.entries|
  {
    Write(v.entries[k].value, pretty, depth + 1) + WriteEntries(v, k + 1, pretty, depth)
  }

  lemma Regroup6(a: Text, b: Text, c: Text, d: Text, e: Text, f: Text, g: Text)
    ensures a + b + c + d + e + f + g == a + (b + (c + (d + (e + (f + g)))))
  {
    Regroup(a, b, c + (d + (e + (f + g))));
    Regroup(a + b, c, d + (e + (f + g)));
    Regroup(a + b + c, d, e + (f + g));
    Regroup(a + b + c + d, e, f + g);
    Regroup(a + b + c + d + e, f, g);
  }

  lemma WriteEntriesIs(v: Value, k: nat, pretty: bool, depth: nat)
    requires v.Chat? && k < |v.entries|
    ensures WriteEntries(v, k, pretty, depth)
      == (if k > 0 then [0x2C] else []) + (NewLine(pretty, depth + 1) + EntryText(v, k, pretty, depth))
  {
    var comma, space: Text := if k > 0 then [0x2C] else [], if pretty then [0x20] else [];
    var nl, key := NewLine(pretty, depth + 1), WriteString(v.entries[k].key);
    var w, rest := Write(v.entries[k].value, pretty, depth + 1), WriteEntries(v, k + 1, pretty, depth);
    assert WriteEntries(v, k, pretty, depth) == comma + nl + key + [0x3A] + space + w + rest;
    assert EntryText(v, k, pretty, depth) == key + ([0x3A] + (space + (w + rest)));
    hide *;
    Regroup6(comma, nl, key, [0x3A], space, w, rest);
  }

  lemma EntryAt(s: Text, i: nat, v: Value, k: nat, pretty: bool, depth: nat) returns (q: nat)
    requires v.Chat? && k < |v.entries|
    requires At(s, i, NewLine(pretty, depth + 1) + EntryText(v, k, pretty, depth))
    ensures SkipSpace(s, i) == q == i + |NewLine(pretty, depth + 1)| && At(s, q, EntryText(v, k, pretty, depth))
    ensures q < |s| && s[q] == 0x22
  {
    var nl, text := NewLine(pretty, depth + 1), EntryText(v, k, pretty, depth);
    assert text[0] == 0x22 by {
      hide ValueText, WriteChars;
    }
    hide EntryText, NewLine, At, SkipSpace;
    FirstOf(s, i, nl, text);
    q := i + |nl|;
    NewLineSkipped(s, i, pretty, depth + 1);
  }

  lemma FirstOf(s: Text, i: nat, nl: Text, text: Text)
    requires At(s, i, nl + text) && text != []
    ensures At(s, i, nl) && At(s, i + |nl|, text) && i + |nl| < |s| && s[i + |nl|] == text[0]
  {
    AtConcat(s, i, nl, text);
    assert s[i + |nl| + 0] == text[0];
  }

  lemma EntriesEnd(s: Text, m: nat, v: Value, k: nat, pretty: bool, depth: nat)
    requires v.Chat? && 0 < k <= |v.entries| && At(s, m, WriteEntries(v, k, pretty, depth))
    ensures Ends(s, m)
  {
    if k == |v.entries| {
      CloseAt(s, m, 0x7D, pretty, depth);
    } else {
      WriteEntriesIs(v, k, pretty, depth);
      CommaAt(s, m, NewLine(pretty, depth + 1) + EntryText(v, k, pretty, depth));
    }
  }

  lemma QuoteAt(s: Text, i: nat, str: Text)
    requires At(s, i, WriteString(str))
    ensures Peek(s, i) == 0x22 && ReadChars(s, i + 1, []) == Ok(str, i + |WriteString(str)|)
  {
    StringBack(s, i, str, 0);
    hide ReadChars, WriteString, ReadValue;
    assert s[i + 0] == [0x22][0];
  }

  // A key, a colon, perhaps a space, and some text that starts a value.
  lemma KeyTextBack(s: Text, i: nat, key: Text, space: Text, text: Text) returns (r: nat)
    requires At(s, i, WriteString(key) + ([0x3A] + (space + text))) && (space == [] || space == [0x20])
    requires text != [] && Starts(text[0])
    ensures ReadKey(s, i).Ok? && ReadKey(s, i).value == key && SkipSpace(s, ReadKey(s, i).next) == r
    ensures r == i + |WriteString(key)| + 1 + |space| && At(s, r, text)
  {
    hide WriteString, ReadChars;
    AtConcat(s, i, WriteString(key), [0x3A] + (space + text));
    QuoteAt(s, i, key);
    var colon := i + |WriteString(key)|;
    AtConcat(s, colon, [0x3A], space + text);
    assert s[colon + 0] == [0x3A][0];
    BlankSkipped(s, colon, []);
    FirstOf(s, colon + 1, space, text);
    BlankSkipped(s, colon + 1, space);
    r := colon + 1 + |space|;
  }

  // The key of entry k is read, and its value is next; r is its place.
  lemma KeyBack(s: Text, i: nat, v: Value, k: nat, pretty: bool, depth: nat) returns (r: nat)
    requires v.Chat? && k < |v.entries| && Plain(v.entries[k].value) && At(s, i, EntryText(v, k, pretty, depth))
    ensures ReadKey(s, i).Ok? && ReadKey(s, i).value == v.entries[k].key && SkipSpace(s, ReadKey(s, i).next) == r
    ensures i <= r && At(s, r, ValueText(v, k, pretty, depth))
    ensures r + |ValueText(v, k, pretty, depth)| == i + |EntryText(v, k, pretty, depth)|
  {
    var key, text := v.entries[k].key, ValueText(v, k, pretty, depth);
    var space: Text := if pretty then [0x20] else [];
    FirstByte(v.entries[k].value, pretty, depth + 1);
    assert text != [] && Starts(text[0]) by {
      hide Write, WriteEntries;
    }
    hide WriteString, ValueText, ReadKey, Write, Plain;
    r := KeyTextBack(s, i, key, space, text);
  }

  // A new key goes last.
  lemma {:induction false} SetAppends(entries: seq<Entry>, key: Text, value: Value, i: nat)
    requires i <= |entries| && forall k :: i <= k < |entries| ==> entries[k].key != key
    ensures Set(entries, key, value, i) == entries + [Entry(key, value)]
    decreases |entries| - i
  {
    if i < |entries| {
      SetAppends(entries, key, value, i + 1);
    }
  }

  // What the reading loop has after entry k, whose value has been read.
  lemma EntryRead(s: Text, p: nat, i: nat, v: Value, k: nat, depth: nat, r: nat)
    requires v.Chat? && k < |v.entries| && p <= |s| && SkipSpace(s, p) == i && i <= r <= |s| && DistinctKeys(v.entries)
    requires ReadKey(s, i).Ok? && ReadKey(s, i).value == v.entries[k].key && SkipSpace(s, ReadKey(s, i).next) == r
    requires ReadValue(s, r, depth + 1).Ok? && ReadValue(s, r, depth + 1).value == v.entries[k].value
    ensures var m := SkipSpace(s, ReadValue(s, r, depth + 1).next);
      ReadEntries(s, p, depth, v.entries[..k]) ==
        if Peek(s, m) == 0x7D then Ok(Chat(v.entries[..k + 1]), m + 1)
        else if Peek(s, m) == 0x2C then ReadEntries(s, m + 1, depth, v.entries[..k + 1])
        else Fail(m, NeedsCommaOrEnd)
  {
    SetAppends(v.entries[..k], v.entries[k].key, v.entries[k].value, 0);
    assert v.entries[..k] + [v.entries[k]] == v.entries[..k + 1];
    assert Entry(v.entries[k].key, v.entries[k].value) == v.entries[k];
    OneEntry(s, p, i, depth, r);
    hide ReadValue, ReadKey, ReadEntry, Set, DistinctKeys;
  }

  lemma OneEntry(s: Text, p: nat, i: nat, depth: nat, r: nat)
    requires p <= |s| && SkipSpace(s, p) == i && i <= r <= |s|
    requires ReadKey(s, i).Ok? && SkipSpace(s, ReadKey(s, i).next) == r && ReadValue(s, r, depth + 1).Ok?
    ensures var value := ReadValue(s, r, depth + 1);
      ReadEntry(s, p, depth) == Ok(Entry(ReadKey(s, i).value, value.value), value.next)
  {
    hide ReadValue, ReadKey;
  }

  // The last turn of the reading loop.
  lemma LastEntry(s: Text, p: nat, i: nat, v: Value, k: nat, pretty: bool, wd: nat, depth: nat, r: nat)
    requires v.Chat? && k + 1 == |v.entries| && p <= |s| && SkipSpace(s, p) == i && i <= r <= |s|
      && DistinctKeys(v.entries)
    requires ReadKey(s, i).Ok? && ReadKey(s, i).value == v.entries[k].key && SkipSpace(s, ReadKey(s, i).next) == r
    requires At(s, r, ValueText(v, k, pretty, wd))
    requires ReadValue(s, r, depth + 1) == Ok(v.entries[k].value, r + |Write(v.entries[k].value, pretty, wd + 1)|)
    ensures ReadEntries(s, p, depth, v.entries[..k]) == Ok(v, r + |ValueText(v, k, pretty, wd)|)
  {
    hide ReadValue, ReadKey, ReadEntries, Write, NewLine, Set, EntryText, DistinctKeys;
    EntryRead(s, p, i, v, k, depth, r);
    var m := r + |Write(v.entries[k].value, pretty, wd + 1)|;
    AtConcat(s, r, Write(v.entries[k].value, pretty, wd + 1), WriteEntries(v, k + 1, pretty, wd));
    CloseAt(s, m, 0x7D, pretty, wd);
    assert v.entries[..k + 1] == v.entries;
  }

  // Any other turn: entry k + 1 is next.
  lemma NextEntry(s: Text, p: nat, i: nat, v: Value, k: nat, pretty: bool, wd: nat, depth: nat, r: nat)
      returns (p': nat, i': nat)
    requires v.Chat? && k + 1 < |v.entries| && p <= |s| && SkipSpace(s, p) == i && i <= r <= |s|
      && DistinctKeys(v.entries)
    requires ReadKey(s, i).Ok? && ReadKey(s, i).value == v.entries[k].key && SkipSpace(s, ReadKey(s, i).next) == r
    requires At(s, r, ValueText(v, k, pretty, wd))
    requires ReadValue(s, r, depth + 1) == Ok(v.entries[k].value, r + |Write(v.entries[k].value, pretty, wd + 1)|)
    ensures p' <= |s| && SkipSpace(s, p') == i' && At(s, i', EntryText(v, k + 1, pretty, wd))
    ensures ReadEntries(s, p, depth, v.entries[..k]) == ReadEntries(s, p', depth, v.entries[..k + 1])
    ensures i' + |EntryText(v, k + 1, pretty, wd)| == r + |ValueText(v, k, pretty, wd)|
  {
    hide ReadValue, ReadKey, ReadEntries, Write, WriteEntries, NewLine, Set, EntryText, DistinctKeys;
    EntryRead(s, p, i, v, k, depth, r);
    var m := r + |Write(v.entries[k].value, pretty, wd + 1)|;
    AtConcat(s, r, Write(v.entries[k].value, pretty, wd + 1), WriteEntries(v, k + 1, pretty, wd));
    WriteEntriesIs(v, k + 1, pretty, wd);
    CommaAt(s, m, NewLine(pretty, wd + 1) + EntryText(v, k + 1, pretty, wd));
    p' := m + 1;
    i' := EntryAt(s, m + 1, v, k + 1, pretty, wd);
  }

  // ----- the round trip -----

  // What there is to know of item k: if it is refused, so is the stash.
  lemma ItemFacts(s: Text, p: nat, v: Value, k: nat, pretty: bool, wd: nat, depth: nat)
    requires v.Stash? && Plain(v) && k < |v.items| && p <= |s|
    ensures Plain(v.items[k]) && TallestItem(v, k) == Max(Height(v.items[k]), TallestItem(v, k + 1))
    ensures ItemText(v, k, pretty, wd) == Write(v.items[k], pretty, wd + 1) + WriteItems(v, k + 1, pretty, wd)
    ensures var item := ReadValue(s, SkipSpace(s, p), depth + 1); item.Fail? ==>
      ReadItems(s, p, depth, v.items[..k]) == item
    ensures k + 1 == |v.items| ==> TallestItem(v, k + 1) == 0
  {
    hide ReadValue, SkipSpace, Write, WriteItems, Height;
  }

  lemma {:induction false} ItemsBack(s: Text, p: nat, i: nat, v: Value, k: nat, pretty: bool, wd: nat, depth: nat)
    requires v.Stash? && Plain(v) && k < |v.items| && p <= |s| && SkipSpace(s, p) == i
    requires At(s, i, ItemText(v, k, pretty, wd))
    ensures Back(ReadItems(s, p, depth, v.items[..k]), v, depth + 1 + TallestItem(v, k) <= MAX_DEPTH,
                 i + |ItemText(v, k, pretty, wd)|)
    decreases v, 0, |v.items| - k
  {
    hide ReadValue, ReadItems, Write, WriteItems, ItemText, Plain, Height, TallestItem, SkipSpace, At, Ends;
    var item := v.items[k];
    ItemFacts(s, p, v, k, pretty, wd, depth);
    AtConcat(s, i, Write(item, pretty, wd + 1), WriteItems(v, k + 1, pretty, wd));
    ItemsEnd(s, i + |Write(item, pretty, wd + 1)|, v, k + 1, pretty, wd);
    ValueBack(s, i, item, pretty, wd + 1, depth + 1);
    if depth + 1 + Height(item) <= MAX_DEPTH {
      PlainItem(v, k + 1);
      var p', i' := ItemsTurn(s, p, i, v, k, pretty, wd, depth, ReadValue(s, i, depth + 1));
      if k + 1 < |v.items| {
        ItemsBack(s, p', i', v, k + 1, pretty, wd, depth);
      }
    }
  }

  lemma PlainItem(v: Value, k: nat)
    requires v.Stash? && Plain(v)
    ensures k < |v.items| ==> Plain(v.items[k])
  {
  }

  lemma EntryFacts(s: Text, p: nat, v: Value, k: nat, pretty: bool, wd: nat, depth: nat)
    requires v.Chat? && Plain(v) && k < |v.entries| && p <= |s|
    ensures Plain(v.entries[k].value) && DistinctKeys(v.entries)
    ensures TallestEntry(v, k) == Max(Height(v.entries[k].value), TallestEntry(v, k + 1))
    ensures ValueText(v, k, pretty, wd)
      == Write(v.entries[k].value, pretty, wd + 1) + WriteEntries(v, k + 1, pretty, wd)
    ensures var key := ReadKey(s, SkipSpace(s, p));
      key.Ok? ==> var value := ReadValue(s, SkipSpace(s, key.next), depth + 1);
      value.Fail? ==> ReadEntries(s, p, depth, v.entries[..k]) == value
    ensures k + 1 == |v.entries| ==> TallestEntry(v, k + 1) == 0
  {
    hide ReadValue, ReadKey, SkipSpace, Write, WriteEntries, Height, Set, DistinctKeys;
  }

  lemma {:induction false} EntriesBack(s: Text, p: nat, i: nat, v: Value, k: nat, pretty: bool, wd: nat, depth: nat)
    requires v.Chat? && Plain(v) && k < |v.entries| && p <= |s| && SkipSpace(s, p) == i
    requires At(s, i, EntryText(v, k, pretty, wd))
    ensures Back(ReadEntries(s, p, depth, v.entries[..k]), v, depth + 1 + TallestEntry(v, k) <= MAX_DEPTH,
                 i + |EntryText(v, k, pretty, wd)|)
    decreases v, 0, |v.entries| - k
  {
    hide ReadValue, ReadKey, ReadEntries, Write, WriteEntries, EntryText, ValueText, Plain, Height, TallestEntry,
      SkipSpace, At, Ends, DistinctKeys;
    var value := v.entries[k].value;
    EntryFacts(s, p, v, k, pretty, wd, depth);
    var r := KeyBack(s, i, v, k, pretty, wd);
    AtConcat(s, r, Write(value, pretty, wd + 1), WriteEntries(v, k + 1, pretty, wd));
    EntriesEnd(s, r + |Write(value, pretty, wd + 1)|, v, k + 1, pretty, wd);
    ValueBack(s, r, value, pretty, wd + 1, depth + 1);
    if depth + 1 + Height(value) <= MAX_DEPTH {
      if k + 1 == |v.entries| {
        LastEntry(s, p, i, v, k, pretty, wd, depth, r);
      } else {
        var p', i' := NextEntry(s, p, i, v, k, pretty, wd, depth, r);
        EntriesBack(s, p', i', v, k + 1, pretty, wd, depth);
      }
    }
  }

  // Whatever stands before and after it, the text of a value is read as that
  // value, if it is not nested too deep, and refused if it is.
  lemma {:induction false} ValueBack(s: Text, i: nat, v: Value, pretty: bool, wd: nat, depth: nat)
    requires Plain(v) && At(s, i, Write(v, pretty, wd)) && Ends(s, i + |Write(v, pretty, wd)|)
    ensures i <= |s| && Back(ReadValue(s, i, depth), v, depth + Height(v) <= MAX_DEPTH, i + |Write(v, pretty, wd)|)
    decreases v, 1
  {
    if depth <= MAX_DEPTH {
      FirstByte(v, pretty, wd);
      assert s[i + 0] == Write(v, pretty, wd)[0];
      match v
      case Ghost =>
      case Bool(_) =>
      case Int(n) => IntBack(s, i, n);
      case Float(literal) => FloatBack(s, i, literal);
      case Str(str) => StringBack(s, i, str, depth);
      case Stash(items) => StashBack(s, i, v, pretty, wd, depth);
      case Chat(entries) => ChatBack(s, i, v, pretty, wd, depth);
    }
  }

  lemma BracketsAt(s: Text, i: nat, open: Byte, close: Byte)
    requires At(s, i, [open, close]) && !Space(close)
    ensures i + 1 < |s| && s[i] == open && s[i + 1] == close && SkipSpace(s, i + 1) == i + 1
  {
    assert s[i + 0] == [open, close][0] && s[i + 1] == [open, close][1];
  }

  lemma ByteThen(s: Text, i: nat, b: Byte, text: Text)
    requires At(s, i, [b] + text)
    ensures i < |s| && s[i] == b && At(s, i + 1, text)
  {
    AtConcat(s, i, [b], text);
    assert s[i + 0] == [b][0];
  }

  lemma EmptyBack(s: Text, i: nat, v: Value, pretty: bool, wd: nat, depth: nat)
    requires (v == Stash([]) || v == Chat([])) && At(s, i, Write(v, pretty, wd)) && depth <= MAX_DEPTH
    ensures i <= |s| && Back(ReadValue(s, i, depth), v, depth + Height(v) <= MAX_DEPTH, i + |Write(v, pretty, wd)|)
  {
    BracketsAt(s, i, if v.Stash? then 0x5B else 0x7B, if v.Stash? then 0x5D else 0x7D);
  }

  lemma OpenStash(s: Text, i: nat, q: nat, depth: nat)
    requires i < q < |s| && s[i] == 0x5B && SkipSpace(s, i + 1) == q && Starts(s[q]) && depth <= MAX_DEPTH
    ensures ReadValue(s, i, depth) == ReadItems(s, q, depth, [])
  {
    hide ReadItems, ReadWord, ReadNumber, SkipSpace;
  }

  lemma OpenChat(s: Text, i: nat, q: nat, depth: nat)
    requires i < q < |s| && s[i] == 0x7B && SkipSpace(s, i + 1) == q && s[q] != 0x7D && depth <= MAX_DEPTH
    ensures ReadValue(s, i, depth) == ReadEntries(s, q, depth, [])
  {
    hide ReadEntries, ReadWord, ReadNumber, SkipSpace;
  }

  lemma WriteStash(v: Value, pretty: bool, wd: nat)
    requires v.Stash? && v.items != []
    ensures Write(v, pretty, wd) == [0x5B] + (NewLine(pretty, wd + 1) + ItemText(v, 0, pretty, wd))
    ensures Height(v) == 1 + TallestItem(v, 0)
  {
    WriteItemsIs(v, 0, pretty, wd);
    Empties(NewLine(pretty, wd + 1) + ItemText(v, 0, pretty, wd));
  }

  lemma WriteChat(v: Value, pretty: bool, wd: nat)
    requires v.Chat? && v.entries != []
    ensures Write(v, pretty, wd) == [0x7B] + (NewLine(pretty, wd + 1) + EntryText(v, 0, pretty, wd))
    ensures Height(v) == 1 + TallestEntry(v, 0)
  {
    WriteEntriesIs(v, 0, pretty, wd);
    Empties(NewLine(pretty, wd + 1) + EntryText(v, 0, pretty, wd));
  }

  lemma {:induction false} StashBack(s: Text, i: nat, v: Value, pretty: bool, wd: nat, depth: nat)
    requires v.Stash? && Plain(v) && At(s, i, Write(v, pretty, wd)) && depth <= MAX_DEPTH
    ensures i <= |s| && Back(ReadValue(s, i, depth), v, depth + Height(v) <= MAX_DEPTH, i + |Write(v, pretty, wd)|)
    decreases v, 0, |v.items| + 1
  {
    hide *;
    if v.items == [] {
      EmptyBack(s, i, v, pretty, wd, depth);
    } else {
      WriteStash(v, pretty, wd);
      ByteThen(s, i, 0x5B, NewLine(pretty, wd + 1) + ItemText(v, 0, pretty, wd));
      PlainItem(v, 0);
      var q := ItemAt(s, i + 1, v, 0, pretty, wd);
      SkipAgain(s, i + 1);
      OpenStash(s, i, q, depth);
      ItemsBack(s, q, q, v, 0, pretty, wd, depth);
      assert v.items[..0] == [];
    }
  }

  lemma {:induction false} SkipAgain(s: Text, i: nat)
    requires i <= |s|
    ensures SkipSpace(s, SkipSpace(s, i)) == SkipSpace(s, i)
    decreases |s| - i
  {
    if i < |s| && Space(s[i]) {
      SkipAgain(s, i + 1);
    }
  }

  lemma {:induction false} ChatBack(s: Text, i: nat, v: Value, pretty: bool, wd: nat, depth: nat)
    requires v.Chat? && Plain(v) && At(s, i, Write(v, pretty, wd)) && depth <= MAX_DEPTH
    ensures i <= |s| && Back(ReadValue(s, i, depth), v, depth + Height(v) <= MAX_DEPTH, i + |Write(v, pretty, wd)|)
    decreases v, 0, |v.entries| + 1
  {
    hide *;
    if v.entries == [] {
      EmptyBack(s, i, v, pretty, wd, depth);
    } else {
      WriteChat(v, pretty, wd);
      ByteThen(s, i, 0x7B, NewLine(pretty, wd + 1) + EntryText(v, 0, pretty, wd));
      var q := EntryAt(s, i + 1, v, 0, pretty, wd);
      SkipAgain(s, i + 1);
      OpenChat(s, i, q, depth);
      EntriesBack(s, q, q, v, 0, pretty, wd, depth);
      assert v.entries[..0] == [];
    }
  }

  // json.parse(json.spill(v)) is v, compact or pretty, if and only if v is
  // nested at most MAX_DEPTH deep; otherwise the text is refused.
  lemma SpillThenParse(v: Value, pretty: bool)
    requires Plain(v)
    ensures var r := Parsed(Spilled(v, pretty));
      if Height(v) <= MAX_DEPTH then r == Ok(v, |Spilled(v, pretty)|) else r.Fail? && r.what == TooDeep
  {
    hide ReadValue, Write, Spilled, Starts, Ends, Plain, Height;
    var s, w := Spilled(v, pretty), Write(v, pretty, 0);
    SpilledStands(v, pretty);
    ValueBack(s, 0, v, pretty, 0, 0);
    SpacesSkipped(s, 0, 0);
    if |w| < |s| {
      assert s[|w|] == 0x0A;
    }
    SpacesSkipped(s, |w|, |s|);
  }

  lemma SpilledStands(v: Value, pretty: bool)
    requires Plain(v)
    ensures var s, w := Spilled(v, pretty), Write(v, pretty, 0);
      && At(s, 0, w) && Ends(s, |w|) && s != [] && !Space(s[0]) && |w| <= |s| <= |w| + 1
      && (|w| < |s| ==> s[|w|] == 0x0A)
  {
    var s, w := Spilled(v, pretty), Write(v, pretty, 0);
    var tail: Text := if pretty then [0x0A] else [];
    assert s == w + tail;
    AtConcat(s, 0, w, tail);
    FirstByte(v, pretty, 0);
    assert s[0] == w[0];
  }
}
