// What json.parse takes (native/json.c): JSON text by the grammar of RFC 8259, to a depth,
// with two things more, zeros in front of a number and any bytes in a string; and what it
// makes of such text.
module JsonAccepts {
  import opened Utf8
  import opened Json
  import opened JsonNumbers
  import opened JsonRoundTrip
  import opened JsonGrammar

  // ----- strings -----

  // As in the grammar, but any byte from 0x20 on may stand for itself.
  predicate LooseChars(t: Text)
    decreases |t|
  {
    t != [] &&
    if t[0] == 0x22 then |t| == 1
    else if t[0] == 0x5C then
      || (|t| > 1 && Escapable(t[1]) && LooseChars(t[2..]))
      || (|t| > 5 && t[1] == 0x75 && HexDig(t[2]) && HexDig(t[3]) && HexDig(t[4]) && HexDig(t[5]) && LooseChars(t[6..]))
    else t[0] >= 0x20 && LooseChars(t[1..])
  }

  type Code = u: int | 0 <= u < 0x1_0000

  // A byte, or what the four digits of an escape spell.
  datatype Unit = Raw(b: Byte) | Escape16(u: Code)

  // A digit is worth its place among 0 to 9 and a to f, or A to F.
  lemma HexDigitIsPlace(c: Byte, v: int)
    requires 0 <= v < 16
    ensures HexDigit(c) == v <==>
      c == (if v < 10 then '0' as int + v else 'a' as int + v - 10) || (v >= 10 && c == 'A' as int + v - 10)
    ensures HexDigit(c) >= 0 <==> HexDig(c)
  {
  }

  function Units(t: Text): seq<Unit>
    requires LooseChars(t)
    decreases |t|
  {
    if t[0] == 0x22 then []
    else if t[0] == 0x5C && t[1] == 0x75 then
      [Escape16(((HexDigit(t[2]) * 16 + HexDigit(t[3])) * 16 + HexDigit(t[4])) * 16 + HexDigit(t[5]))] + Units(t[6..])
    else if t[0] == 0x5C then [Raw(ShortEscape(t[1]))] + Units(t[2..])
    else [Raw(t[0])] + Units(t[1..])
  }

  // Section 7 of RFC 8259: a pair of halves is one character; a half alone is U+FFFD.
  function Said(units: seq<Unit>): Text
    decreases |units|
  {
    if units == [] then []
    else match units[0]
      case Raw(b) => [b] + Said(units[1..])
      case Escape16(u) =>
        if HighHalf(u) && |units| > 1 && units[1].Escape16? && LowHalf(units[1].u) then
          Encoded(0x1_0000 + (u - 0xD800) * 0x400 + (units[1].u - 0xDC00)) + Said(units[2..])
        else Encoded(if HighHalf(u) || LowHalf(u) then 0xFFFD else u) + Said(units[1..])
  }

  function Meant(t: Text): Text
    requires LooseChars(t)
  {
    Said(Units(t))
  }

  // What is left of a stretch after its first n bytes.
  lemma Rest(s: Text, i: nat, j: nat, n: nat)
    requires i + n <= j <= |s|
    ensures s[i..j][n..] == s[i + n..j] && forall k :: 0 <= k < j - i ==> s[i..j][k] == s[i + k]
  {
  }

  lemma HexIsHex(s: Text, i: nat)
    ensures Hex4(s, i) >= 0 <==>
      i + 4 <= |s| && HexDig(s[i]) && HexDig(s[i + 1]) && HexDig(s[i + 2]) && HexDig(s[i + 3])
  {
  }

  lemma ShortIsEscapable(c: Byte)
    ensures ShortEscape(c) >= 0 <==> Escapable(c)
    ensures Escapable(c) ==> c != 0x75
  {
  }

  // The escape \uXXXX at i, within a string that ends at j.
  lemma UnicodeTaken(s: Text, i: nat, j: nat)
    requires i + 1 < j <= |s| && s[i] == 0x5C && s[i + 1] == 0x75 && LooseChars(s[i..j])
    ensures i + 6 < j && Hex4(s, i + 2) >= 0 && LooseChars(s[i + 6..j])
    ensures Units(s[i..j]) == [Escape16(Hex4(s, i + 2))] + Units(s[i + 6..j])
  {
    Rest(s, i, j, 0);
    Rest(s, i, j, 6);
    HexIsHex(s, i + 2);
    hide Units;
    UnitsOfEscape(s[i..j]);
  }

  lemma UnitsOfEscape(t: Text)
    requires LooseChars(t) && t[0] == 0x5C && t[1] == 0x75
    ensures |t| > 6 && LooseChars(t[6..]) && Units(t) == [Escape16(Hex4(t, 2))] + Units(t[6..])
    ensures HexDig(t[2]) && HexDig(t[3]) && HexDig(t[4]) && HexDig(t[5])
  {
  }

  // Text that goes on with no \u says what it says.
  lemma NoCodeFirst(t: Text)
    requires LooseChars(t) && !(|t| > 1 && t[0] == 0x5C && t[1] == 0x75)
    ensures Units(t) == [] || Units(t)[0].Raw?
  {
  }

  lemma SaidOne(unit: Unit, more: seq<Unit>)
    ensures unit.Raw? ==> Said([unit] + more) == [unit.b] + Said(more)
    ensures unit.Escape16? && !(HighHalf(unit.u) && more != [] && more[0].Escape16? && LowHalf(more[0].u)) ==>
      Said([unit] + more) == Encoded(if HighHalf(unit.u) || LowHalf(unit.u) then 0xFFFD else unit.u) + Said(more)
  {
    assert ([unit] + more)[1..] == more;
  }

  lemma SaidPair(high: Code, low: Code, more: seq<Unit>)
    requires HighHalf(high) && LowHalf(low)
    ensures Said([Escape16(high)] + ([Escape16(low)] + more)) == Encoded(Paired(high, low)) + Said(more)
  {
    var units := [Escape16(high)] + ([Escape16(low)] + more);
    assert units[0] == Escape16(high) && units[1] == Escape16(low) && units[2..] == more;
  }

  // What the escape at i is read as, if the string it is in ends at j.
  lemma CodeTaken(s: Text, i: nat, j: nat)
    requires i + 1 < j <= |s| && s[i] == 0x5C && s[i + 1] == 0x75 && LooseChars(s[i..j])
    ensures var e := ReadUnicode(s, i);
            e.Ok? && e.next < j && LooseChars(s[e.next..j]) && Meant(s[i..j]) == e.value + Meant(s[e.next..j])
  {
    UnicodeTaken(s, i, j);
    var cp, rest := Hex4(s, i + 2), s[i + 6..j];
    Rest(s, i + 6, j, 0);
    hide Units, Said, LooseChars, Encoded, Hex4;
    if |rest| > 1 && rest[0] == 0x5C && rest[1] == 0x75 {
      UnicodeTaken(s, i + 6, j);
      var low, more := Hex4(s, i + 8), Units(s[i + 12..j]);
      if HighHalf(cp) && LowHalf(low) {
        SaidPair(cp, low, more);
      } else {
        SaidOne(Escape16(cp), [Escape16(low)] + more);
      }
    } else {
      LooseIsMore(rest);
      NoCodeFirst(rest);
      SaidOne(Escape16(cp), Units(rest));
    }
  }

  lemma LooseIsMore(t: Text)
    requires LooseChars(t)
    ensures t != [] && (t[0] == 0x5C ==> |t| > 1)
  {
  }

  lemma EscapeTaken(s: Text, i: nat, j: nat)
    requires i < j <= |s| && s[i] == 0x5C && LooseChars(s[i..j])
    ensures var e := ReadEscape(s, i);
            e.Ok? && e.next < j && LooseChars(s[e.next..j]) && Meant(s[i..j]) == e.value + Meant(s[e.next..j])
  {
    LooseIsMore(s[i..j]);
    Rest(s, i, j, 0);
    ShortIsEscapable(s[i + 1]);
    if s[i + 1] == 0x75 {
      hide ReadUnicode, LooseChars, Units, Said;
      CodeTaken(s, i, j);
    } else {
      Rest(s, i, j, 2);
      ShortTaken(s[i..j]);
    }
  }

  lemma ShortTaken(t: Text)
    requires LooseChars(t) && t[0] == 0x5C && t[1] != 0x75
    ensures Escapable(t[1]) && |t| > 2 && LooseChars(t[2..]) && Meant(t) == [ShortEscape(t[1])] + Meant(t[2..])
  {
    assert Units(t) == [Raw(ShortEscape(t[1]))] + Units(t[2..]);
    hide Units;
    SaidOne(Raw(ShortEscape(t[1])), Units(t[2..]));
  }

  // And an escape that is read is one.
  lemma EscapeGiven(s: Text, i: nat, j: nat)
    requires i < |s| && s[i] == 0x5C && ReadEscape(s, i).Ok? && ReadEscape(s, i).next <= j <= |s|
    requires LooseChars(s[ReadEscape(s, i).next..j])
    ensures LooseChars(s[i..j])
  {
    ShortIsEscapable(s[i + 1]);
    if s[i + 1] == 0x75 {
      HexIsHex(s, i + 2);
      HexIsHex(s, i + 8);
      if ReadEscape(s, i).next == i + 12 {
        CodeGiven(s, i + 6, j);
      }
      CodeGiven(s, i, j);
    } else {
      Rest(s, i, j, 2);
    }
  }

  lemma CodeGiven(s: Text, i: nat, j: nat)
    requires i + 6 <= j <= |s| && s[i] == 0x5C && s[i + 1] == 0x75 && LooseChars(s[i + 6..j])
    requires HexDig(s[i + 2]) && HexDig(s[i + 3]) && HexDig(s[i + 4]) && HexDig(s[i + 5])
    ensures LooseChars(s[i..j])
  {
    Rest(s, i, j, 6);
  }

  // A string that is in the text is read as what it means.
  lemma {:induction false} CharsTaken(s: Text, i: nat, j: nat, out: Text)
    requires i < j <= |s| && LooseChars(s[i..j])
    ensures ReadChars(s, i, out) == Ok(out + Meant(s[i..j]), j)
    decreases j - i
  {
    Rest(s, i, j, 0);
    if s[i] == 0x22 {
      Empties(out);
    } else if s[i] == 0x5C {
      EscapeTaken(s, i, j);
      var e := ReadEscape(s, i);
      hide LooseChars, Units, Said, ReadEscape;
      CharsTaken(s, e.next, j, out + e.value);
      Regroup(out, e.value, Meant(s[e.next..j]));
    } else {
      Rest(s, i, j, 1);
      PlainTaken(s[i..j]);
      hide LooseChars, Units, Said;
      CharsTaken(s, i + 1, j, out + [s[i]]);
      Regroup(out, [s[i]], Meant(s[i + 1..j]));
    }
  }

  lemma PlainTaken(t: Text)
    requires LooseChars(t) && t[0] != 0x22 && t[0] != 0x5C
    ensures t[0] >= 0x20 && |t| > 1 && LooseChars(t[1..]) && Meant(t) == [t[0]] + Meant(t[1..])
  {
    assert Units(t) == [Raw(t[0])] + Units(t[1..]);
    hide Units;
    SaidOne(Raw(t[0]), Units(t[1..]));
  }

  // And what is read as a string is one.
  lemma {:induction false} CharsGiven(s: Text, i: nat, out: Text)
    requires i <= |s| && ReadChars(s, i, out).Ok?
    ensures LooseChars(s[i..ReadChars(s, i, out).next])
    decreases |s| - i
  {
    var j := ReadChars(s, i, out).next;
    Rest(s, i, j, 0);
    if s[i] == 0x22 {
    } else if s[i] == 0x5C {
      var e := ReadEscape(s, i);
      CharsGiven(s, e.next, out + e.value);
      EscapeGiven(s, i, j);
    } else {
      CharsGiven(s, i + 1, out + [s[i]]);
      Rest(s, i, j, 1);
    }
  }

  // ----- numbers -----

  // A number of the grammar, or one with zeros in front.
  ghost predicate LooseNumber(t: Text) {
    exists a: nat, b: nat :: LooseParts(t, 0, a, b, |t|)
  }

  predicate WholeText(t: Text) {
    forall k :: AfterMinus(t, 0) <= k < |t| ==> Digit(t[k])
  }

  // An integer if there is neither a fraction nor an exponent.
  function NumberSaid(t: Text): Value {
    if !WholeText(t) then Float(t)
    else if AfterMinus(t, 0) == 1 then Int(-Spell(t, 1, |t|)) else Int(Spell(t, 0, |t|))
  }

  lemma {:induction false} SpellMoves(s: Text, i: nat, t: Text, d: nat, j: nat)
    requires At(s, i, t) && d <= j <= |t|
    ensures Spell(s, i + d, i + j) == Spell(t, d, j)
    decreases j
  {
    if d < j {
      SpellMoves(s, i, t, d, j - 1);
    }
  }

  // With a fraction or an exponent there is something that is no digit.
  lemma WholeIff(t: Text, a: nat, b: nat)
    requires LooseParts(t, 0, a, b, |t|)
    ensures WholeText(t) <==> a == |t|
  {
    if a < |t| {
      assert !Digit(t[a]);
    }
  }

  lemma NumberTaken(s: Text, i: nat, t: Text)
    requires At(s, i, t) && LooseNumber(t) && Ends(s, i + |t|)
    ensures i < |s| && t != [] && s[i] == t[0] && (s[i] == 0x2D || Digit(s[i]))
    ensures ReadNumber(s, i) == Ok(NumberSaid(t), i + |t|)
  {
    var a: nat, b: nat :| LooseParts(t, 0, a, b, |t|);
    WholeIff(t, a, b);
    if a < |t| {
      FloatBack(s, i, t);
      assert s[i] == t[0];
    } else {
      PartsMoved(t, s, i, a, b);
      ReachesEnd(s, i, i + a, i + b, i + |t|);
      var d := AfterMinus(t, 0);
      assert s[i] == t[0] && AfterMinus(s, i) == i + d;
      DigitsSkipped(s, i + d, i + |t|);
      SpellMoves(s, i, t, d, |t|);
      IntegerIs(s, i, i + d, i + |t|);
    }
  }

  // Digits only, where a number can end.
  lemma IntegerIs(s: Text, i: nat, d: nat, j: nat)
    requires i < |s| && d == AfterMinus(s, i) && d < j <= |s| && SkipDigits(s, d) == j && Ends(s, j)
    ensures ReadNumber(s, i) == Ok(Int(if s[i] == 0x2D then -Spell(s, d, j) else Spell(s, d, j)), j)
  {
    hide Spell, SkipDigits;
  }

  lemma NumberGiven(s: Text, i: nat)
    requires i < |s| && ReadNumber(s, i).Ok?
    ensures LooseNumber(s[i..ReadNumber(s, i).next])
    ensures ReadNumber(s, i).value == NumberSaid(s[i..ReadNumber(s, i).next])
  {
    hide ReadNumber, LooseParts, WholeText, Spell, SkipDigits;
    var a, b := ReadHasParts(s, i);
    var j := ReadNumber(s, i).next;
    PartsBack(s, i, a, b, j);
    WholeIff(s[i..j], a - i, b - i);
    if a == j {
      IntegerRead(s, i);
      WholeSaid(s, i, j);
    }
  }

  lemma WholeSaid(s: Text, i: nat, j: nat)
    requires AfterMinus(s, i) <= j <= |s| && i < j && WholeText(s[i..j])
    ensures var d := AfterMinus(s, i);
            NumberSaid(s[i..j]) == Int(if s[i] == 0x2D then -Spell(s, d, j) else Spell(s, d, j))
  {
    var t, d := s[i..j], AfterMinus(s, i);
    hide Spell, WholeText;
    Rest(s, i, j, 0);
    assert At(s, i, t) && t[0] == s[i];
    SpellMoves(s, i, t, d - i, |t|);
  }

  lemma IntegerRead(s: Text, i: nat)
    requires i < |s| && ReadNumber(s, i).Ok? && !ReadNumber(s, i).value.Float?
    ensures var d, j := AfterMinus(s, i), ReadNumber(s, i).next;
            d <= j && ReadNumber(s, i).value == Int(if s[i] == 0x2D then -Spell(s, d, j) else Spell(s, d, j))
  {
    hide Spell;
  }

  lemma PartsBack(s: Text, i: nat, a: nat, b: nat, j: nat)
    requires j <= |s| && LooseParts(s, i, a, b, j)
    ensures i < a <= b <= j && LooseParts(s[i..j], 0, a - i, b - i, j - i) && s[i..j][0] == s[i]
  {
    var t := s[i..j];
    assert forall k :: 0 <= k < |t| ==> t[k] == s[i + k];
    assert Digit(s[AfterMinus(s, i)]);
  }

  // ----- text and what it means -----

  predicate LooseString(t: Text) {
    t != [] && t[0] == 0x22 && LooseChars(t[1..])
  }

  // Derived as in the grammar, but for such strings and such numbers.
  ghost predicate Loose(n: Node)
    decreases n
  {
    match n
    case Word(t) => Spells(t, "false") || Spells(t, "null") || Spells(t, "true")
    case Number(t) => LooseNumber(t)
    case String(t) => LooseString(t)
    case Array(items, blank) => Ws(blank) && forall k :: 0 <= k < |items| ==> LooseItem(items[k])
    case Object(members, blank) => Ws(blank) && forall k :: 0 <= k < |members| ==> LooseMember(members[k])
  }

  ghost predicate LooseItem(item: Item)
    decreases item
  {
    Ws(item.before) && Loose(item.node) && Ws(item.after)
  }

  ghost predicate LooseMember(m: Member)
    decreases m
  {
    && Ws(m.before) && LooseString(m.name) && Ws(m.colonBefore) && Ws(m.colonAfter) && Loose(m.node) && Ws(m.after)
  }

  function StringSaid(t: Text): Text {
    if LooseString(t) then Meant(t[1..]) else []
  }

  // What the text derived so stands for: a later entry replaces an earlier one with its key.
  function Meaning(n: Node): Value
    decreases n
  {
    match n
    case Word(t) => if Spells(t, "true") then Bool(true) else if Spells(t, "false") then Bool(false) else Ghost
    case Number(t) => NumberSaid(t)
    case String(t) => Str(StringSaid(t))
    case Array(items, _) => Stash(seq(|items|, k requires 0 <= k < |items| => Meaning(items[k].node)))
    case Object(members, _) => Chat(SetAll([], seq(|members|, k requires 0 <= k < |members| =>
        Entry(StringSaid(members[k].name), Meaning(members[k].node))), 0))
  }

  function SetAll(out: seq<Entry>, entries: seq<Entry>, k: nat): seq<Entry>
    requires k <= |entries|
    decreases |entries| - k
  {
    if k == |entries| then out else SetAll(Set(out, entries[k].key, entries[k].value, 0), entries, k + 1)
  }

  function EntryOf(n: Node, k: nat): Entry
    requires n.Object? && k < |n.members|
  {
    Entry(StringSaid(n.members[k].name), Meaning(n.members[k].node))
  }

  // How many containers deep the text goes.
  function Deep(n: Node): nat
    decreases n, 1
  {
    match n
    case Array(items, _) => if items == [] then 0 else 1 + DeepItems(n, 0)
    case Object(members, _) => if members == [] then 0 else 1 + DeepMembers(n, 0)
    case _ => 0
  }

  // The deepest from item k on.
  function DeepItems(n: Node, k: nat): nat
    requires n.Array? && k <= |n.items|
    decreases n, 0, |n.items| - k
  {
    if k == |n.items| then 0 else Max(Deep(n.items[k].node), DeepItems(n, k + 1))
  }

  function DeepMembers(n: Node, k: nat): nat
    requires n.Object? && k <= |n.members|
    decreases n, 0, |n.members| - k
  {
    if k == |n.members| then 0 else Max(Deep(n.members[k].node), DeepMembers(n, k + 1))
  }

  // Item k and all that follows it.
  function ItemRest(n: Node, k: nat): Text
    requires n.Array? && k < |n.items|
  {
    n.items[k].before + (Yield(n.items[k].node) + (n.items[k].after + YieldItems(n, k + 1)))
  }

  // Member k and all that follows it.
  function MemberRest(n: Node, k: nat): Text
    requires n.Object? && k < |n.members|
  {
    var m := n.members[k];
    m.before + (m.name + (m.colonBefore + ([':' as int] + (m.colonAfter +
      (Yield(m.node) + (m.after + YieldMembers(n, k + 1)))))))
  }

  // ----- all such text is taken -----

  lemma WordFirst(t: Text)
    requires Spells(t, "false") || Spells(t, "null") || Spells(t, "true")
    ensures t != [] && Starts(t[0])
  {
  }

  lemma NodeFirst(n: Node)
    requires Loose(n)
    ensures Yield(n) != [] && Starts(Yield(n)[0])
  {
    match n
    case Word(t) => WordFirst(t);
    case Number(t) =>
      var a: nat, b: nat :| LooseParts(t, 0, a, b, |t|);
      assert Digit(t[AfterMinus(t, 0)]);
    case _ =>
  }

  // White space, and then something else.
  lemma WsSkipped(s: Text, i: nat, blank: Text)
    requires At(s, i, blank) && Ws(blank) && (i + |blank| < |s| ==> !Space(s[i + |blank|]))
    ensures SkipSpace(s, i) == i + |blank|
  {
    BlankSkipped(s, i, blank);
  }

  // Nothing that can come after a value goes on with a number.
  lemma WsEnds(s: Text, i: nat, blank: Text)
    requires At(s, i, blank) && Ws(blank) && Ends(s, i + |blank|)
    ensures Ends(s, i)
  {
    if blank != [] {
      assert s[i + 0] == blank[0];
    }
  }

  lemma AfterItem(s: Text, q: nat, n: Node, k: nat)
    requires n.Array? && 0 < k <= |n.items| && At(s, q, YieldItems(n, k))
    ensures q < |s| && !Space(s[q]) && Ends(s, q) && s[q] == if k == |n.items| then 0x5D else 0x2C
    ensures k < |n.items| ==> At(s, q + 1, ItemRest(n, k)) && |YieldItems(n, k)| == 1 + |ItemRest(n, k)|
    ensures k == |n.items| ==> |YieldItems(n, k)| == 1
  {
    if k < |n.items| {
      assert YieldItems(n, k) == [0x2C] + ItemRest(n, k);
      AtConcat(s, q, [0x2C], ItemRest(n, k));
    }
    assert s[q + 0] == YieldItems(n, k)[0];
  }

  // Where the parts of item k are: the value from p to m, and what comes after it at q.
  lemma ItemPlaces(s: Text, i: nat, n: Node, k: nat) returns (p: nat, m: nat, q: nat)
    requires n.Array? && Loose(n) && k < |n.items| && At(s, i, ItemRest(n, k))
    ensures i <= p <= m <= q < |s| && SkipSpace(s, i) == p && SkipSpace(s, m) == q && Ends(s, m)
    ensures At(s, p, Yield(n.items[k].node)) && m == p + |Yield(n.items[k].node)| && Starts(s[p])
    ensures At(s, q, YieldItems(n, k + 1)) && q + |YieldItems(n, k + 1)| == i + |ItemRest(n, k)|
    ensures Loose(n.items[k].node)
  {
    var item := n.items[k];
    assert LooseItem(item);
    NodeFirst(item.node);
    hide Yield, YieldItems, Loose;
    AtConcat(s, i, item.before, Yield(item.node) + (item.after + YieldItems(n, k + 1)));
    p := i + |item.before|;
    AtConcat(s, p, Yield(item.node), item.after + YieldItems(n, k + 1));
    m := p + |Yield(item.node)|;
    AtConcat(s, m, item.after, YieldItems(n, k + 1));
    q := m + |item.after|;
    assert s[p + 0] == Yield(item.node)[0];
    WsSkipped(s, i, item.before);
    AfterItem(s, q, n, k + 1);
    WsSkipped(s, m, item.after);
    WsEnds(s, m, item.after);
  }

  lemma AfterMember(s: Text, q: nat, n: Node, k: nat)
    requires n.Object? && 0 < k <= |n.members| && At(s, q, YieldMembers(n, k))
    ensures q < |s| && !Space(s[q]) && Ends(s, q) && s[q] == if k == |n.members| then 0x7D else 0x2C
    ensures k < |n.members| ==> At(s, q + 1, MemberRest(n, k)) && |YieldMembers(n, k)| == 1 + |MemberRest(n, k)|
    ensures k == |n.members| ==> |YieldMembers(n, k)| == 1
  {
    if k < |n.members| {
      assert YieldMembers(n, k) == [0x2C] + MemberRest(n, k);
      AtConcat(s, q, [0x2C], MemberRest(n, k));
    }
    assert s[q + 0] == YieldMembers(n, k)[0];
  }

  lemma StringTaken(s: Text, i: nat, t: Text)
    requires At(s, i, t) && LooseString(t)
    ensures i < |s| && s[i] == 0x22 && ReadChars(s, i + 1, []) == Ok(StringSaid(t), i + |t|)
  {
    assert s[i + 0] == t[0];
    assert s[i + 1..i + |t|] == t[1..];
    hide LooseChars, ReadChars, Units, Said;
    CharsTaken(s, i + 1, i + |t|, []);
    Empties(Meant(t[1..]));
  }

  // The key of member k is read, and its value is at p.
  lemma KeyTaken(s: Text, i: nat, m: Member, more: Text) returns (p: nat)
    requires LooseString(m.name) && Ws(m.before) && Ws(m.colonBefore) && Ws(m.colonAfter)
    requires more != [] && Starts(more[0])
    requires At(s, i, m.before + (m.name + (m.colonBefore + ([':' as int] + (m.colonAfter + more)))))
    ensures i <= p <= |s| && SkipSpace(s, i) <= |s|
    ensures var key := ReadKey(s, SkipSpace(s, i));
            key.Ok? && key.value == StringSaid(m.name) && SkipSpace(s, key.next) == p
    ensures At(s, p, more)
    ensures p + |more| == i + |m.before + (m.name + (m.colonBefore + ([':' as int] + (m.colonAfter + more))))|
  {
    hide LooseChars, Units, Said, ReadChars, SkipSpace;
    var colon: Text := [':' as int];
    AtConcat(s, i, m.before, m.name + (m.colonBefore + (colon + (m.colonAfter + more))));
    var a := i + |m.before|;
    AtConcat(s, a, m.name, m.colonBefore + (colon + (m.colonAfter + more)));
    StringTaken(s, a, m.name);
    WsSkipped(s, i, m.before);
    var b := a + |m.name|;
    AtConcat(s, b, m.colonBefore, colon + (m.colonAfter + more));
    var c := b + |m.colonBefore|;
    AtConcat(s, c, colon, m.colonAfter + more);
    assert s[c + 0] == colon[0];
    WsSkipped(s, b, m.colonBefore);
    AtConcat(s, c + 1, m.colonAfter, more);
    p := c + 1 + |m.colonAfter|;
    assert s[p + 0] == more[0];
    WsSkipped(s, c + 1, m.colonAfter);
  }

  lemma MemberIsLoose(n: Node, k: nat)
    requires n.Object? && Loose(n) && k < |n.members|
    ensures LooseMember(n.members[k])
  {
  }

  lemma MemberRestIs(n: Node, k: nat)
    requires n.Object? && k < |n.members|
    ensures var m := n.members[k];
            MemberRest(n, k) == m.before + (m.name + (m.colonBefore + ([':' as int] + (m.colonAfter +
              (Yield(m.node) + (m.after + YieldMembers(n, k + 1)))))))
  {
    hide Yield, YieldMembers;
  }

  // The same for member k.
  lemma MemberPlaces(s: Text, i: nat, n: Node, k: nat) returns (p: nat, m: nat, q: nat)
    requires n.Object? && Loose(n) && k < |n.members| && At(s, i, MemberRest(n, k))
    ensures i <= p <= m <= q < |s| && SkipSpace(s, m) == q && Ends(s, m) && i <= |s|
    ensures var key := ReadKey(s, SkipSpace(s, i));
            key.Ok? && key.value == StringSaid(n.members[k].name) && SkipSpace(s, key.next) == p
    ensures At(s, p, Yield(n.members[k].node)) && m == p + |Yield(n.members[k].node)|
    ensures At(s, q, YieldMembers(n, k + 1)) && q + |YieldMembers(n, k + 1)| == i + |MemberRest(n, k)|
    ensures Loose(n.members[k].node)
  {
    hide Yield, YieldMembers, Loose, LooseString, MemberRest, ReadKey, SkipSpace, Starts, Ends, Space;
    var member := n.members[k];
    MemberIsLoose(n, k);
    MemberRestIs(n, k);
    NodeFirst(member.node);
    var more := Yield(member.node) + (member.after + YieldMembers(n, k + 1));
    assert more[0] == Yield(member.node)[0];
    p := KeyTaken(s, i, member, more);
    AtConcat(s, p, Yield(member.node), member.after + YieldMembers(n, k + 1));
    m := p + |Yield(member.node)|;
    AtConcat(s, m, member.after, YieldMembers(n, k + 1));
    q := m + |member.after|;
    AfterMember(s, q, n, k + 1);
    WsSkipped(s, m, member.after);
    WsEnds(s, m, member.after);
  }

  // What has been read of the items before item k.
  ghost predicate ReadSoFar(out: seq<Value>, n: Node, k: nat)
    requires n.Array? && k <= |n.items|
  {
    |out| == k && forall j :: 0 <= j < k ==> out[j] == Meaning(n.items[j].node)
  }

  lemma AllRead(out: seq<Value>, n: Node)
    requires n.Array? && ReadSoFar(out, n, |n.items|)
    ensures Meaning(n) == Stash(out)
  {
    assert Meaning(n).items == out;
  }

  lemma DeepestItem(n: Node, k: nat)
    requires n.Array? && k < |n.items|
    ensures DeepItems(n, k) == Max(Deep(n.items[k].node), DeepItems(n, k + 1))
    ensures k + 1 == |n.items| ==> DeepItems(n, k + 1) == 0
  {
    hide Deep;
  }

  lemma DeepestMember(n: Node, k: nat)
    requires n.Object? && k < |n.members|
    ensures DeepMembers(n, k) == Max(Deep(n.members[k].node), DeepMembers(n, k + 1))
    ensures k + 1 == |n.members| ==> DeepMembers(n, k + 1) == 0
  {
    hide Deep;
  }

  // One turn of the reading loop.
  lemma ItemTurn(s: Text, i: nat, depth: nat, out: seq<Value>, p: nat, q: nat)
    requires i <= |s| && SkipSpace(s, i) == p <= |s|
    requires var item := ReadValue(s, p, depth + 1); item.Ok? ==> SkipSpace(s, item.next) == q
    ensures var item := ReadValue(s, p, depth + 1);
            && (item.Fail? ==> ReadItems(s, i, depth, out) == item)
            && (item.Ok? && Peek(s, q) == 0x5D ==>
                  ReadItems(s, i, depth, out) == Ok(Stash(out + [item.value]), q + 1))
            && (item.Ok? && Peek(s, q) == 0x2C ==>
                  q + 1 <= |s| && ReadItems(s, i, depth, out) == ReadItems(s, q + 1, depth, out + [item.value]))
  {
    hide ReadValue, SkipSpace;
  }

  lemma {:induction false} ItemsTaken(s: Text, i: nat, n: Node, k: nat, depth: nat, out: seq<Value>)
    requires n.Array? && Loose(n) && k < |n.items| && At(s, i, ItemRest(n, k)) && ReadSoFar(out, n, k)
    ensures i <= |s| && Back(ReadItems(s, i, depth, out), Meaning(n), depth + 1 + DeepItems(n, k) <= MAX_DEPTH,
                             i + |ItemRest(n, k)|)
    decreases n, 0, |n.items| - k
  {
    hide ReadValue, ReadItems, Loose, Meaning, Deep, DeepItems, ItemRest, YieldItems, Yield, SkipSpace, At, Starts,
      Ends, Space;
    var p, m, q := ItemPlaces(s, i, n, k);
    AfterItem(s, q, n, k + 1);
    DeepestItem(n, k);
    NodeTaken(s, p, n.items[k].node, depth + 1);
    ItemTurn(s, i, depth, out, p, q);
    var item := ReadValue(s, p, depth + 1);
    if item.Ok? {
      var more := out + [item.value];
      assert ReadSoFar(more, n, k + 1);
      if k + 1 == |n.items| {
        AllRead(more, n);
      } else {
        ItemsTaken(s, q + 1, n, k + 1, depth, more);
      }
    }
  }

  // The entries, before any of them replaces another.
  function EntriesOf(n: Node): seq<Entry>
    requires n.Object?
  {
    seq(|n.members|, k requires 0 <= k < |n.members| => EntryOf(n, k))
  }

  lemma SetNext(out: seq<Entry>, n: Node, k: nat)
    requires n.Object? && k < |n.members|
    ensures var entry := EntryOf(n, k);
            var more := Set(out, entry.key, entry.value, 0);
            && entry.key == StringSaid(n.members[k].name) && entry.value == Meaning(n.members[k].node)
            && SetAll(out, EntriesOf(n), k) == SetAll(more, EntriesOf(n), k + 1)
            && (k + 1 == |n.members| ==> SetAll(more, EntriesOf(n), k + 1) == more)
  {
    assert EntriesOf(n)[k] == EntryOf(n, k);
    hide Set, Meaning, StringSaid;
  }

  lemma MeaningOfObject(n: Node)
    requires n.Object?
    ensures Meaning(n) == Chat(SetAll([], EntriesOf(n), 0))
  {
    assert EntriesOf(n) == seq(|n.members|, k requires 0 <= k < |n.members| =>
        Entry(StringSaid(n.members[k].name), Meaning(n.members[k].node)));
  }

  lemma MemberTurn(s: Text, i: nat, depth: nat, out: seq<Entry>, p: nat, q: nat)
    requires i <= |s| && ReadKey(s, SkipSpace(s, i)).Ok? && SkipSpace(s, ReadKey(s, SkipSpace(s, i)).next) == p <= |s|
    requires var value := ReadValue(s, p, depth + 1); value.Ok? ==> SkipSpace(s, value.next) == q
    ensures var key, value := ReadKey(s, SkipSpace(s, i)).value, ReadValue(s, p, depth + 1);
            && (value.Fail? ==> ReadEntries(s, i, depth, out) == value)
            && (value.Ok? && Peek(s, q) == 0x7D ==>
                  ReadEntries(s, i, depth, out) == Ok(Chat(Set(out, key, value.value, 0)), q + 1))
            && (value.Ok? && Peek(s, q) == 0x2C ==> q + 1 <= |s|)
            && (value.Ok? && Peek(s, q) == 0x2C ==>
                  ReadEntries(s, i, depth, out) == ReadEntries(s, q + 1, depth, Set(out, key, value.value, 0)))
  {
    hide ReadValue, SkipSpace, ReadKey, Set;
  }

  lemma {:induction false} MembersTaken(s: Text, i: nat, n: Node, k: nat, depth: nat, out: seq<Entry>)
    requires n.Object? && Loose(n) && k < |n.members| && At(s, i, MemberRest(n, k))
    ensures i <= |s|
    ensures Back(ReadEntries(s, i, depth, out), Chat(SetAll(out, EntriesOf(n), k)),
                 depth + 1 + DeepMembers(n, k) <= MAX_DEPTH, i + |MemberRest(n, k)|)
    decreases n, 0, |n.members| - k
  {
    hide ReadValue, ReadEntries, Loose, Meaning, Deep, DeepMembers, MemberRest, YieldMembers, Yield, SkipSpace, At,
      ReadKey, Set, SetAll, EntriesOf, StringSaid, Starts, Ends, Space;
    var p, m, q := MemberPlaces(s, i, n, k);
    AfterMember(s, q, n, k + 1);
    DeepestMember(n, k);
    NodeTaken(s, p, n.members[k].node, depth + 1);
    MemberTurn(s, i, depth, out, p, q);
    var value, entry := ReadValue(s, p, depth + 1), EntryOf(n, k);
    SetNext(out, n, k);
    var more := Set(out, entry.key, entry.value, 0);
    if value.Ok? && k + 1 < |n.members| {
      MembersTaken(s, q + 1, n, k + 1, depth, more);
    }
  }

  lemma ArrayOpens(s: Text, i: nat, depth: nat)
    requires i < |s| && s[i] == 0x5B && depth <= MAX_DEPTH
    ensures var j := SkipSpace(s, i + 1);
            ReadValue(s, i, depth)
              == if Peek(s, j) == 0x5D then Ok(Stash([]), j + 1) else ReadItems(s, i + 1, depth, [])
  {
    SkipAgain(s, i + 1);
    SkippedAhead(s, i + 1, depth);
    hide ReadItems, SkipSpace;
  }

  lemma SkippedAhead(s: Text, i: nat, depth: nat)
    requires i <= |s| && SkipSpace(s, SkipSpace(s, i)) == SkipSpace(s, i)
    ensures ReadItems(s, SkipSpace(s, i), depth, []) == ReadItems(s, i, depth, [])
    ensures ReadEntries(s, SkipSpace(s, i), depth, []) == ReadEntries(s, i, depth, [])
  {
    hide ReadValue, SkipSpace, ReadKey, Set;
  }

  lemma ObjectOpens(s: Text, i: nat, depth: nat)
    requires i < |s| && s[i] == 0x7B && depth <= MAX_DEPTH
    ensures var j := SkipSpace(s, i + 1);
            ReadValue(s, i, depth)
              == if Peek(s, j) == 0x7D then Ok(Chat([]), j + 1) else ReadEntries(s, i + 1, depth, [])
  {
    SkipAgain(s, i + 1);
    SkippedAhead(s, i + 1, depth);
    hide ReadEntries, SkipSpace;
  }

  lemma EmptyTaken(s: Text, i: nat, n: Node, depth: nat)
    requires (n.Array? && n.items == []) || (n.Object? && n.members == [])
    requires Ws(n.blank) && At(s, i, Yield(n)) && depth <= MAX_DEPTH
    ensures i <= |s| && ReadValue(s, i, depth) == Ok(Meaning(n), i + |Yield(n)|)
  {
    var open: Byte, close: Byte := if n.Array? then 0x5B else 0x7B, if n.Array? then 0x5D else 0x7D;
    assert Yield(n) == [open] + (n.blank + [close]);
    EmptyMeans(n);
    hide Yield, Meaning, ReadValue, Ws, SkipSpace, At;
    Bracketed(s, i, open, n.blank, close);
    WsSkipped(s, i + 1, n.blank);
    if n.Array? {
      ArrayOpens(s, i, depth);
    } else {
      ObjectOpens(s, i, depth);
    }
  }

  lemma Bracketed(s: Text, i: nat, open: Byte, blank: Text, close: Byte)
    requires At(s, i, [open] + (blank + [close]))
    ensures i + 1 + |blank| < |s| && s[i] == open && At(s, i + 1, blank) && s[i + 1 + |blank|] == close
  {
    AtConcat(s, i, [open], blank + [close]);
    AtConcat(s, i + 1, blank, [close]);
    assert s[i + 0] == [open][0] && s[i + 1 + |blank| + 0] == [close][0];
  }

  lemma EmptyMeans(n: Node)
    ensures n.Array? && n.items == [] ==> Meaning(n) == Stash([])
    ensures n.Object? && n.members == [] ==> Meaning(n) == Chat([])
  {
    if n.Array? && n.items == [] {
      AllRead([], n);
    }
    if n.Object? && n.members == [] {
      MeaningOfObject(n);
    }
  }

  lemma ArrayParts(n: Node)
    requires n.Array? && n.items != []
    ensures Deep(n) == 1 + DeepItems(n, 0) && Yield(n) == [0x5B] + ItemRest(n, 0)
  {
    hide DeepItems;
    Empties(ItemRest(n, 0));
    assert YieldItems(n, 0) == [] + ItemRest(n, 0);
  }

  lemma ObjectParts(n: Node)
    requires n.Object? && n.members != []
    ensures Deep(n) == 1 + DeepMembers(n, 0) && Yield(n) == [0x7B] + MemberRest(n, 0)
  {
    hide DeepMembers;
    Empties(MemberRest(n, 0));
    assert YieldMembers(n, 0) == [] + MemberRest(n, 0);
  }

  lemma {:induction false} ArrayTaken(s: Text, i: nat, n: Node, depth: nat)
    requires n.Array? && n.items != [] && Loose(n) && At(s, i, Yield(n)) && depth <= MAX_DEPTH
    ensures i <= |s| && Back(ReadValue(s, i, depth), Meaning(n), depth + Deep(n) <= MAX_DEPTH, i + |Yield(n)|)
    decreases n, 0, |n.items| + 1
  {
    hide Yield, YieldItems, ItemRest, DeepItems, Deep, ReadValue, ReadItems, Meaning, Loose, SkipSpace, At;
    ArrayParts(n);
    ByteThen(s, i, 0x5B, ItemRest(n, 0));
    var p, m, q := ItemPlaces(s, i + 1, n, 0);
    ArrayOpens(s, i, depth);
    ItemsTaken(s, i + 1, n, 0, depth, []);
  }

  lemma FirstKey(s: Text, i: nat)
    requires i <= |s| && ReadKey(s, SkipSpace(s, i)).Ok?
    ensures Peek(s, SkipSpace(s, i)) == 0x22
  {
    hide ReadChars, SkipSpace;
  }

  lemma {:induction false} ObjectTaken(s: Text, i: nat, n: Node, depth: nat)
    requires n.Object? && n.members != [] && Loose(n) && At(s, i, Yield(n)) && depth <= MAX_DEPTH
    ensures i <= |s| && Back(ReadValue(s, i, depth), Meaning(n), depth + Deep(n) <= MAX_DEPTH, i + |Yield(n)|)
    decreases n, 0, |n.members| + 1
  {
    hide Yield, YieldMembers, MemberRest, DeepMembers, Deep, ReadValue, ReadEntries, Meaning, Loose, ReadKey, SkipSpace,
      At, SetAll, EntriesOf;
    ObjectParts(n);
    MeaningOfObject(n);
    ByteThen(s, i, 0x7B, MemberRest(n, 0));
    var p, m, q := MemberPlaces(s, i + 1, n, 0);
    FirstKey(s, i + 1);
    ObjectOpens(s, i, depth);
    MembersTaken(s, i + 1, n, 0, depth, []);
  }

  lemma WordTaken(s: Text, i: nat, n: Node, depth: nat)
    requires n.Word? && Loose(n) && At(s, i, n.t) && depth <= MAX_DEPTH
    ensures i <= |s| && ReadValue(s, i, depth) == Ok(Meaning(n), i + |n.t|)
  {
    var t := n.t;
    assert s[i + 0] == t[0];
    assert Spells(t, "true") ==> t == TRUE;
    assert Spells(t, "false") ==> t == FALSE;
    assert Spells(t, "null") ==> t == NULL;
  }

  lemma NumberNodeTaken(s: Text, i: nat, n: Node, depth: nat)
    requires n.Number? && Loose(n) && At(s, i, n.t) && Ends(s, i + |n.t|) && depth <= MAX_DEPTH
    ensures i < |s| && ReadValue(s, i, depth) == Ok(Meaning(n), i + |n.t|)
  {
    NumberTaken(s, i, n.t);
    hide ReadNumber, NumberSaid, LooseNumber;
  }

  lemma StringNodeTaken(s: Text, i: nat, n: Node, depth: nat)
    requires n.String? && Loose(n) && At(s, i, n.t) && depth <= MAX_DEPTH
    ensures i < |s| && ReadValue(s, i, depth) == Ok(Meaning(n), i + |n.t|)
  {
    StringTaken(s, i, n.t);
    hide ReadChars, StringSaid, LooseString;
  }

  lemma LeafIs(n: Node)
    requires n.Word? || n.Number? || n.String?
    ensures Yield(n) == n.t && Deep(n) == 0
  {
  }

  lemma EmptyNode(n: Node)
    requires Loose(n) && ((n.Array? && n.items == []) || (n.Object? && n.members == []))
    ensures Deep(n) == 0 && Ws(n.blank)
  {
  }

  // Wherever such text stands, and whatever comes after it that does not go on with a
  // number, it is read as what it means, or refused for its depth.
  lemma {:induction false} NodeTaken(s: Text, i: nat, n: Node, depth: nat)
    requires Loose(n) && At(s, i, Yield(n)) && Ends(s, i + |Yield(n)|)
    ensures i <= |s| && Back(ReadValue(s, i, depth), Meaning(n), depth + Deep(n) <= MAX_DEPTH, i + |Yield(n)|)
    decreases n, 1
  {
    if depth > MAX_DEPTH {
      Starting(s, i, Yield(n));
      TooDeepFails(s, i, depth);
    } else {
      hide ReadValue, Loose, Yield, Meaning, Deep, At, Ends, Ws;
      match n
      case Word(t) =>
        LeafIs(n);
        WordTaken(s, i, n, depth);
      case Number(t) =>
        LeafIs(n);
        NumberNodeTaken(s, i, n, depth);
      case String(t) =>
        LeafIs(n);
        StringNodeTaken(s, i, n, depth);
      case Array(items, blank) =>
        if items == [] {
          EmptyNode(n);
          EmptyTaken(s, i, n, depth);
        } else {
          ArrayTaken(s, i, n, depth);
        }
      case Object(members, blank) =>
        if members == [] {
          EmptyNode(n);
          EmptyTaken(s, i, n, depth);
        } else {
          ObjectTaken(s, i, n, depth);
        }
    }
  }

  lemma Starting(s: Text, i: nat, t: Text)
    requires At(s, i, t)
    ensures i <= |s|
  {
  }

  lemma TooDeepFails(s: Text, i: nat, depth: nat)
    requires i <= |s| && depth > MAX_DEPTH
    ensures ReadValue(s, i, depth) == Fail(i, TooDeep)
  {
  }

  // ----- and nothing else is -----

  lemma {:induction false} SpaceGiven(s: Text, i: nat)
    requires i <= |s|
    ensures Ws(s[i..SkipSpace(s, i)])
    decreases |s| - i
  {
    if i < |s| && Space(s[i]) {
      SpaceGiven(s, i + 1);
      assert s[i..SkipSpace(s, i)] == [s[i]] + s[i + 1..SkipSpace(s, i)];
    }
  }

  lemma Join(s: Text, i: nat, j: nat, k: nat)
    requires i <= j <= k <= |s|
    ensures s[i..j] + s[j..k] == s[i..k]
  {
  }

  lemma One(s: Text, i: nat)
    requires i < |s|
    ensures s[i..i + 1] == [s[i]]
  {
  }

  // What a turn of the reading loop has found, if it has.
  lemma ItemFound(s: Text, i: nat, depth: nat, out: seq<Value>)
    requires i <= |s| && ReadItems(s, i, depth, out).Ok?
    ensures var p := SkipSpace(s, i);
            var item := ReadValue(s, p, depth + 1);
            && item.Ok?
            && var q := SkipSpace(s, item.next);
               var more := out + [item.value];
               && q < |s| && (s[q] == 0x5D || s[q] == 0x2C)
               && (s[q] == 0x5D ==> ReadItems(s, i, depth, out) == Ok(Stash(more), q + 1))
               && (s[q] == 0x2C ==> ReadItems(s, i, depth, out) == ReadItems(s, q + 1, depth, more))
  {
    hide ReadValue, SkipSpace;
  }

  lemma RestOfLast(n: Node)
    requires n.Array? && n.items != []
    ensures YieldItems(n, |n.items|) == [0x5D] && DeepItems(n, |n.items|) == 0
  {
  }

  // The text of an item, put together.
  lemma ItemTogether(s: Text, i: nat, p: nat, m: nat, q: nat, j: nat, n: Node, k: nat)
    requires i <= p <= m <= q <= j <= |s| && n.Array? && k < |n.items|
    requires n.items[k].before == s[i..p] && Yield(n.items[k].node) == s[p..m] && n.items[k].after == s[m..q]
    requires YieldItems(n, k + 1) == s[q..j]
    ensures ItemRest(n, k) == s[i..j]
  {
    hide Yield, YieldItems;
    Join(s, m, q, j);
    Join(s, p, m, j);
    Join(s, i, p, j);
  }

  lemma NextItems(n: Node, k: nat, s: Text, q: nat, j: nat)
    requires n.Array? && 0 < k < |n.items| && q < j <= |s| && s[q] == 0x2C && ItemRest(n, k) == s[q + 1..j]
    ensures YieldItems(n, k) == s[q..j]
  {
    assert YieldItems(n, k) == [0x2C] + ItemRest(n, k);
    hide ItemRest, YieldItems;
    One(s, q);
    Join(s, q, q + 1, j);
  }

  ghost predicate ItemsBy(n: Node, done: seq<Item>, text: Text, room: int) {
    && n.Array? && n.blank == [] && |done| < |n.items| && n.items[..|done|] == done
    && (forall k :: |done| <= k < |n.items| ==> LooseItem(n.items[k]))
    && ItemRest(n, |done|) == text && DeepItems(n, |done|) <= room
  }

  lemma {:induction false} ItemsGiven(s: Text, i: nat, depth: nat, out: seq<Value>, done: seq<Item>)
      returns (n: Node)
    requires i <= |s| && ReadItems(s, i, depth, out).Ok?
    ensures ItemsBy(n, done, s[i..ReadItems(s, i, depth, out).next], MAX_DEPTH - depth - 1)
    decreases |s| - i, 2
  {
    hide ReadValue, ReadItems, SkipSpace, Yield, YieldItems, Loose, DeepItems, Deep, ItemRest, Ws;
    ItemFound(s, i, depth, out);
    var p := SkipSpace(s, i);
    var item := ReadValue(s, p, depth + 1);
    var m, j := item.next, ReadItems(s, i, depth, out).next;
    var q := SkipSpace(s, m);
    var x := ValueGiven(s, p, depth + 1);
    SpaceGiven(s, i);
    SpaceGiven(s, m);
    var all := done + [Item(s[i..p], x, s[m..q])];
    if s[q] == 0x5D {
      n := Array(all, []);
      RestOfLast(n);
      One(s, q);
    } else {
      n := ItemsGiven(s, q + 1, depth, out + [item.value], all);
      NextItems(n, |all|, s, q, j);
      assert n.items[..|done|] == all[..|done|];
    }
    assert n.items[|done|] == all[|done|];
    ItemTogether(s, i, p, m, q, j, n, |done|);
    DeepestItem(n, |done|);
  }

  lemma KeyFound(s: Text, a: nat)
    requires a <= |s| && ReadKey(s, a).Ok?
    ensures a < |s| && s[a] == 0x22
    ensures var t := ReadChars(s, a + 1, []);
            && t.Ok?
            && var c := SkipSpace(s, t.next);
               c < |s| && s[c] == 0x3A && ReadKey(s, a) == Ok(t.value, c + 1)
  {
    hide ReadChars, SkipSpace;
  }

  lemma EntryFound(s: Text, i: nat, depth: nat, out: seq<Entry>)
    requires i <= |s| && ReadEntries(s, i, depth, out).Ok?
    ensures var key := ReadKey(s, SkipSpace(s, i));
            && key.Ok?
            && var value := ReadValue(s, SkipSpace(s, key.next), depth + 1);
               && value.Ok?
               && var q := SkipSpace(s, value.next);
                  var more := Set(out, key.value, value.value, 0);
                  && q < |s| && (s[q] == 0x7D || s[q] == 0x2C)
                  && (s[q] == 0x7D ==> ReadEntries(s, i, depth, out) == Ok(Chat(more), q + 1))
                  && (s[q] == 0x2C ==> ReadEntries(s, i, depth, out) == ReadEntries(s, q + 1, depth, more))
  {
    hide ReadValue, SkipSpace, ReadKey, Set;
  }

  lemma StringGiven(s: Text, a: nat)
    requires a < |s| && s[a] == 0x22 && ReadChars(s, a + 1, []).Ok?
    ensures LooseString(s[a..ReadChars(s, a + 1, []).next])
  {
    hide ReadChars, LooseChars;
    CharsGiven(s, a + 1, []);
    Rest(s, a, ReadChars(s, a + 1, []).next, 1);
  }

  lemma RestOfLastMember(n: Node)
    requires n.Object? && n.members != []
    ensures YieldMembers(n, |n.members|) == [0x7D] && DeepMembers(n, |n.members|) == 0
  {
  }

  // The text of a member, put together.
  lemma MemberTogether(s: Text, i: nat, a: nat, b: nat, c: nat, p: nat, m: nat, q: nat, j: nat, n: Node, k: nat)
    requires i <= a <= b <= c < p <= m <= q <= j <= |s| && s[c] == 0x3A
    requires n.Object? && k < |n.members|
    requires var e := n.members[k];
             && e.before == s[i..a] && e.name == s[a..b] && e.colonBefore == s[b..c] && e.colonAfter == s[c + 1..p]
             && Yield(e.node) == s[p..m] && e.after == s[m..q]
    requires YieldMembers(n, k + 1) == s[q..j]
    ensures MemberRest(n, k) == s[i..j]
  {
    hide Yield, YieldMembers, MemberRest;
    MemberRestIs(n, k);
    ValueTogether(s, c, p, m, q, j);
    Join(s, b, c, j);
    Join(s, a, b, j);
    Join(s, i, a, j);
  }

  lemma ValueTogether(s: Text, c: nat, p: nat, m: nat, q: nat, j: nat)
    requires c < p <= m <= q <= j <= |s|
    ensures [s[c]] + (s[c + 1..p] + (s[p..m] + (s[m..q] + s[q..j]))) == s[c..j]
  {
    Join(s, m, q, j);
    Join(s, p, m, j);
    Join(s, c + 1, p, j);
    One(s, c);
    Join(s, c, c + 1, j);
  }

  lemma NextMembers(n: Node, k: nat, s: Text, q: nat, j: nat)
    requires n.Object? && 0 < k < |n.members| && q < j <= |s| && s[q] == 0x2C && MemberRest(n, k) == s[q + 1..j]
    ensures YieldMembers(n, k) == s[q..j]
  {
    assert YieldMembers(n, k) == [0x2C] + MemberRest(n, k);
    hide MemberRest, YieldMembers;
    One(s, q);
    Join(s, q, q + 1, j);
  }

  ghost predicate MembersBy(n: Node, done: seq<Member>, text: Text, room: int) {
    && n.Object? && n.blank == [] && |done| < |n.members| && n.members[..|done|] == done
    && (forall k :: |done| <= k < |n.members| ==> LooseMember(n.members[k]))
    && MemberRest(n, |done|) == text && DeepMembers(n, |done|) <= room
  }

  lemma LooseParted(m: Member)
    requires Ws(m.before) && LooseString(m.name) && Ws(m.colonBefore) && Ws(m.colonAfter) && Loose(m.node)
      && Ws(m.after)
    ensures LooseMember(m)
  {
  }

  lemma {:induction false} MembersGiven(s: Text, i: nat, depth: nat, out: seq<Entry>, done: seq<Member>)
      returns (n: Node)
    requires i <= |s| && ReadEntries(s, i, depth, out).Ok?
    ensures MembersBy(n, done, s[i..ReadEntries(s, i, depth, out).next], MAX_DEPTH - depth - 1)
    decreases |s| - i, 2
  {
    hide ReadValue, ReadEntries, ReadKey, ReadChars, Set, SkipSpace, Yield, YieldMembers, Loose, LooseString,
      DeepMembers, Deep, MemberRest, Ws;
    EntryFound(s, i, depth, out);
    var a := SkipSpace(s, i);
    KeyFound(s, a);
    StringGiven(s, a);
    var b := ReadChars(s, a + 1, []).next;
    var c := SkipSpace(s, b);
    var p := SkipSpace(s, c + 1);
    var value := ReadValue(s, p, depth + 1);
    var m, j := value.next, ReadEntries(s, i, depth, out).next;
    var q := SkipSpace(s, m);
    var x := ValueGiven(s, p, depth + 1);
    SpaceGiven(s, i);
    SpaceGiven(s, b);
    SpaceGiven(s, c + 1);
    SpaceGiven(s, m);
    var all := done + [Member(s[i..a], s[a..b], s[b..c], s[c + 1..p], x, s[m..q])];
    LooseParted(all[|done|]);
    hide LooseMember;
    if s[q] == 0x7D {
      n := Object(all, []);
      RestOfLastMember(n);
      One(s, q);
    } else {
      n := MembersGiven(s, q + 1, depth, Set(out, ReadKey(s, a).value, value.value, 0), all);
      NextMembers(n, |all|, s, q, j);
      assert n.members[..|done|] == all[..|done|];
    }
    assert n.members[|done|] == all[|done|];
    MemberTogether(s, i, a, b, c, p, m, q, j, n, |done|);
    DeepestMember(n, |done|);
  }

  lemma {:induction false} ArrayGiven(s: Text, i: nat, depth: nat) returns (n: Node)
    requires i < |s| && s[i] == 0x5B && ReadValue(s, i, depth).Ok? && depth <= MAX_DEPTH
    ensures Loose(n) && Yield(n) == s[i..ReadValue(s, i, depth).next] && depth + Deep(n) <= MAX_DEPTH
    decreases |s| - i, 0
  {
    ArrayOpens(s, i, depth);
    hide ReadValue, ReadItems, SkipSpace, YieldItems, DeepItems, ItemRest, Ws;
    var j, next := SkipSpace(s, i + 1), ReadValue(s, i, depth).next;
    SpaceGiven(s, i + 1);
    One(s, i);
    if Peek(s, j) == 0x5D {
      n := Array([], s[i + 1..j]);
      EmptyTogether(s, i, j);
    } else {
      n := ItemsGiven(s, i + 1, depth, [], []);
      ArrayParts(n);
      Join(s, i, i + 1, next);
      NoBlank();
    }
  }

  lemma NoBlank()
    ensures Ws([])
  {
  }

  lemma EmptyTogether(s: Text, i: nat, j: nat)
    requires i + 1 <= j < |s|
    ensures [s[i]] + (s[i + 1..j] + [s[j]]) == s[i..j + 1]
  {
  }

  lemma {:induction false} ObjectGiven(s: Text, i: nat, depth: nat) returns (n: Node)
    requires i < |s| && s[i] == 0x7B && ReadValue(s, i, depth).Ok? && depth <= MAX_DEPTH
    ensures Loose(n) && Yield(n) == s[i..ReadValue(s, i, depth).next] && depth + Deep(n) <= MAX_DEPTH
    decreases |s| - i, 0
  {
    ObjectOpens(s, i, depth);
    hide ReadValue, ReadEntries, SkipSpace, YieldMembers, DeepMembers, MemberRest, Ws;
    var j, next := SkipSpace(s, i + 1), ReadValue(s, i, depth).next;
    SpaceGiven(s, i + 1);
    One(s, i);
    if Peek(s, j) == 0x7D {
      n := Object([], s[i + 1..j]);
      EmptyTogether(s, i, j);
    } else {
      n := MembersGiven(s, i + 1, depth, [], []);
      ObjectParts(n);
      Join(s, i, i + 1, next);
      NoBlank();
    }
  }

  lemma WordGiven(s: Text, i: nat, depth: nat) returns (n: Node)
    requires i < |s| && ReadValue(s, i, depth).Ok? && (s[i] == 0x74 || s[i] == 0x66 || s[i] == 0x6E)
    ensures Loose(n) && Yield(n) == s[i..ReadValue(s, i, depth).next] && Deep(n) == 0 && depth <= MAX_DEPTH
  {
    var t := if s[i] == 0x74 then TRUE else if s[i] == 0x66 then FALSE else NULL;
    WordsAreSpelled();
    n := Word(t);
    assert At(s, i, t);
    assert s[i..i + |t|] == t;
  }

  // What is read as a value is the text of one, not too deep.
  lemma {:induction false} ValueGiven(s: Text, i: nat, depth: nat) returns (n: Node)
    requires i <= |s| && ReadValue(s, i, depth).Ok?
    ensures Loose(n) && Yield(n) == s[i..ReadValue(s, i, depth).next] && depth + Deep(n) <= MAX_DEPTH
    decreases |s| - i, 1
  {
    ScalarGiven(s, i, depth);
    if s[i] == 0x5B {
      n := ArrayGiven(s, i, depth);
    } else if s[i] == 0x7B {
      n := ObjectGiven(s, i, depth);
    } else if s[i] == 0x22 {
      StringGiven(s, i);
      n := String(s[i..ReadValue(s, i, depth).next]);
    } else if s[i] == 0x74 || s[i] == 0x66 || s[i] == 0x6E {
      n := WordGiven(s, i, depth);
    } else {
      NumberGiven(s, i);
      n := Number(s[i..ReadValue(s, i, depth).next]);
    }
  }

  lemma ScalarGiven(s: Text, i: nat, depth: nat)
    requires i <= |s| && ReadValue(s, i, depth).Ok?
    ensures i < |s| && depth <= MAX_DEPTH
    ensures s[i] == 0x22 ==>
      var t := ReadChars(s, i + 1, []); t.Ok? && ReadValue(s, i, depth) == Ok(Value.Str(t.value), t.next)
    ensures s[i] == 0x5B || s[i] == 0x7B || s[i] == 0x22 || s[i] == 0x74 || s[i] == 0x66 || s[i] == 0x6E ||
      ReadValue(s, i, depth) == ReadNumber(s, i)
  {
    hide ReadArray, ReadObject, ReadChars, ReadNumber, ReadWord;
  }

  // ----- json.parse -----

  // ws value ws, of a text so derived.
  ghost predicate LooseJsonBy(t: Text, before: Text, n: Node, after: Text) {
    Ws(before) && Loose(n) && Ws(after) && t == before + (Yield(n) + after)
  }

  ghost predicate Takes(t: Text) {
    exists before: Text, n: Node, after: Text :: LooseJsonBy(t, before, n, after) && Deep(n) <= MAX_DEPTH
  }

  // Text so derived is read as what it means, or refused for its depth, however it is derived.
  lemma Taken(t: Text, before: Text, n: Node, after: Text)
    requires LooseJsonBy(t, before, n, after)
    ensures Back(Parsed(t), Meaning(n), Deep(n) <= MAX_DEPTH, |t|)
  {
    hide Loose, Yield, Meaning, Deep, ReadValue, SkipSpace, Parsed;
    NodeFirst(n);
    var i, j := |before|, |before| + |Yield(n)|;
    ThreeParts(before, Yield(n), after);
    WsSkipped(t, 0, before);
    WsSkipped(t, j, after);
    WsEnds(t, j, after);
    NodeTaken(t, i, n, 0);
    ParsedFrom(t, i);
  }

  lemma ThreeParts(a: Text, b: Text, c: Text)
    requires b != []
    ensures var t := a + (b + c);
            && At(t, 0, a) && At(t, |a|, b) && At(t, |a| + |b|, c) && t[|a|] == b[0] && |t| == |a| + |b| + |c|
  {
  }

  lemma ParsedFrom(t: Text, i: nat)
    requires SkipSpace(t, 0) == i <= |t|
    requires var v := ReadValue(t, i, 0); v.Ok? ==> SkipSpace(t, v.next) == |t|
    ensures var v := ReadValue(t, i, 0); Parsed(t) == if v.Fail? then v else Ok(v.value, |t|)
  {
    hide ReadValue, SkipSpace;
  }

  lemma ParsedIs(t: Text)
    requires Parsed(t).Ok?
    ensures var v := ReadValue(t, SkipSpace(t, 0), 0); v.Ok? && SkipSpace(t, v.next) == |t|
  {
    hide ReadValue, SkipSpace;
  }

  // And text that is read is so derived.
  lemma Given(t: Text) returns (before: Text, n: Node, after: Text)
    requires Parsed(t).Ok?
    ensures LooseJsonBy(t, before, n, after) && Deep(n) <= MAX_DEPTH
  {
    ParsedIs(t);
    var i := SkipSpace(t, 0);
    var j := ReadValue(t, i, 0).next;
    n := ValueGiven(t, i, 0);
    SpaceGiven(t, 0);
    SpaceGiven(t, j);
    hide ReadValue, SkipSpace, Loose, Yield, Ws, Deep;
    before, after := t[0..i], t[j..|t|];
    Join(t, i, j, |t|);
    Join(t, 0, i, |t|);
    assert t[0..|t|] == t;
  }

  // json.parse takes a text if and only if it is one of this grammar that goes at most
  // MAX_DEPTH deep, and then makes of it what it means.
  lemma ParseIff(t: Text)
    ensures Parsed(t).Ok? <==> Takes(t)
    ensures forall before: Text, n: Node, after: Text :: LooseJsonBy(t, before, n, after) && Deep(n) <= MAX_DEPTH ==>
      Parsed(t) == Ok(Meaning(n), |t|)
  {
    if Parsed(t).Ok? {
      var before, n, after := Given(t);
      assert Takes(t);
    }
    forall before: Text, n: Node, after: Text | LooseJsonBy(t, before, n, after)
      ensures Back(Parsed(t), Meaning(n), Deep(n) <= MAX_DEPTH, |t|)
    {
      Taken(t, before, n, after);
    }
    hide Parsed, LooseJsonBy, Meaning;
  }

  // ----- JSON text -----

  lemma {:induction false} CharsAreLoose(t: Text)
    requires Chars(t)
    ensures LooseChars(t)
    decreases |t|
  {
    if t[0] == 0x22 {
    } else if t[0] == 0x5C {
      var n := if Escapable(t[1]) && Chars(t[2..]) then 2 else 6;
      CharsAreLoose(t[n..]);
    } else {
      var n := CharLen(t, 0);
      CharsAreLoose(t[n..]);
      HighBytesFirst(t, n);
    }
  }

  lemma {:induction false} HighBytesFirst(t: Text, n: nat)
    requires n <= |t| && LooseChars(t[n..]) && (forall k :: 0 <= k < n ==> t[k] >= 0x20 && t[k] != 0x22 && t[k] != 0x5C)
    ensures LooseChars(t)
    decreases n
  {
    if n == 0 {
      assert t[0..] == t;
    } else {
      assert t[1..][n - 1..] == t[n..];
      HighBytesFirst(t[1..], n - 1);
    }
  }

  lemma {:induction false} DerivedIsLoose(n: Node)
    requires Derived(n)
    ensures Loose(n)
    decreases n
  {
    match n
    case Word(t) =>
    case Number(t) =>
      var a: nat, b: nat :| Parts(t, 0, a, b, |t|);
      assert LooseParts(t, 0, a, b, |t|);
    case String(t) => CharsAreLoose(t[1..]);
    case Array(items, blank) =>
      forall k | 0 <= k < |items| ensures LooseItem(items[k]) {
        DerivedIsLoose(items[k].node);
      }
    case Object(members, blank) =>
      forall k | 0 <= k < |members| ensures LooseMember(members[k]) {
        CharsAreLoose(members[k].name[1..]);
        DerivedIsLoose(members[k].node);
      }
  }

  // Every JSON text by the grammar of RFC 8259 is read as what it means, if it goes at most
  // MAX_DEPTH deep, and otherwise refused for that.
  lemma JsonIsTaken(t: Text, before: Text, n: Node, after: Text)
    requires IsJsonBy(t, before, n, after)
    ensures Back(Parsed(t), Meaning(n), Deep(n) <= MAX_DEPTH, |t|)
  {
    DerivedIsLoose(n);
    Taken(t, before, n, after);
  }
}
