// JSON text by the grammar of sections 2 to 5 and 7 of RFC 8259, with the numbers of
// section 6, and that json.spill (native/json.c) writes it.
module JsonGrammar {
  import opened Utf8
  import opened Json
  import opened JsonNumbers
  import opened JsonRoundTrip

  // ----- the grammar -----

  // ws = *( %x20 / %x09 / %x0A / %x0D )
  predicate Ws(t: Text) {
    forall k :: 0 <= k < |t| ==> t[k] == 0x20 || t[k] == 0x09 || t[k] == 0x0A || t[k] == 0x0D
  }

  predicate Spells(t: Text, word: string) {
    |t| == |word| && forall k :: 0 <= k < |t| ==> t[k] == word[k] as int
  }

  predicate HexDig(c: Byte) {
    Digit(c) || 'A' as int <= c <= 'F' as int || 'a' as int <= c <= 'f' as int
  }

  // What may follow a backslash alone: " \ / b f n r t
  predicate Escapable(c: Byte) {
    c == 0x22 || c == 0x5C || c == 0x2F || c == 0x62 || c == 0x66 || c == 0x6E || c == 0x72 || c == 0x74
  }

  // *char quotation-mark, and no more.  char is an unescaped character, from %x20 on but for
  // quotation-mark and backslash; or a backslash and what may follow it; or \u and four HEXDIG.
  predicate Chars(t: Text)
    decreases |t|
  {
    t != [] &&
    if t[0] == 0x22 then |t| == 1
    else if t[0] == 0x5C then
      || (|t| > 1 && Escapable(t[1]) && Chars(t[2..]))
      || (|t| > 5 && t[1] == 0x75 && HexDig(t[2]) && HexDig(t[3]) && HexDig(t[4]) && HexDig(t[5]) && Chars(t[6..]))
    else t[0] >= 0x20 && CharLen(t, 0) > 0 && Chars(t[CharLen(t, 0)..])
  }

  // string = quotation-mark *char quotation-mark
  predicate IsString(t: Text) {
    t != [] && t[0] == 0x22 && Chars(t[1..])
  }

  // How a text is derived: each piece of it, and the white space around what structures it.
  datatype Node =
    | Word(t: Text)
    | Number(t: Text)
    | String(t: Text)
    | Array(items: seq<Item>, blank: Text)
    | Object(members: seq<Member>, blank: Text)

  datatype Item = Item(before: Text, node: Node, after: Text)

  datatype Member = Member(before: Text, name: Text, colonBefore: Text, colonAfter: Text, node: Node, after: Text)

  // The text derived.
  function Yield(n: Node): Text
    decreases n, 1
  {
    match n
    case Word(t) => t
    case Number(t) => t
    case String(t) => t
    case Array(items, blank) => ['[' as int] + if items == [] then blank + [']' as int] else YieldItems(n, 0)
    case Object(members, blank) => ['{' as int] + if members == [] then blank + ['}' as int] else YieldMembers(n, 0)
  }

  function YieldItems(n: Node, k: nat): Text
    requires n.Array? && k <= |n.items|
    decreases n, 0, |n.items| - k
  {
    if k == |n.items| then [']' as int]
    else
      (if k > 0 then [',' as int] else []) + (n.items[k].before + (Yield(n.items[k].node) + (n.items[k].after +
        YieldItems(n, k + 1))))
  }

  function YieldMembers(n: Node, k: nat): Text
    requires n.Object? && k <= |n.members|
    decreases n, 0, |n.members| - k
  {
    if k == |n.members| then ['}' as int]
    else
      var m := n.members[k];
      (if k > 0 then [',' as int] else []) + (m.before + (m.name + (m.colonBefore + ([':' as int] + (m.colonAfter +
        (Yield(m.node) + (m.after + YieldMembers(n, k + 1))))))))
  }

  // value = false / null / true / object / array / number / string
  // array = begin-array [ value *( value-separator value ) ] end-array
  // object = begin-object [ member *( value-separator member ) ] end-object
  // member = string name-separator value
  // with ws on both sides of each of the six structural characters
  ghost predicate Derived(n: Node)
    decreases n
  {
    match n
    case Word(t) => Spells(t, "false") || Spells(t, "null") || Spells(t, "true")
    case Number(t) => IsNumber(t, 0, |t|)
    case String(t) => IsString(t)
    case Array(items, blank) =>
      Ws(blank) && forall k :: 0 <= k < |items| ==> Ws(items[k].before) && Derived(items[k].node) && Ws(items[k].after)
    case Object(members, blank) =>
      && Ws(blank)
      && forall k :: 0 <= k < |members| ==>
        && Ws(members[k].before) && IsString(members[k].name) && Ws(members[k].colonBefore)
        && Ws(members[k].colonAfter) && Derived(members[k].node) && Ws(members[k].after)
  }

  // JSON-text = ws value ws
  ghost predicate IsJson(t: Text) {
    exists before: Text, n: Node, after: Text :: IsJsonBy(t, before, n, after)
  }

  ghost predicate IsJsonBy(t: Text, before: Text, n: Node, after: Text) {
    Ws(before) && Derived(n) && Ws(after) && t == before + (Yield(n) + after)
  }

  // ----- well-formed UTF-8 -----

  lemma {:induction false} JoinsFrom(a: Text, i: nat, b: Text)
    requires i <= |a| && WellFormed(a, i)
    ensures WellFormed(a + b, i) <==> WellFormed(b, 0)
    decreases |a| - i
  {
    if i == |a| {
      AfterPrefix(a, b, 0);
    } else {
      assert CharLen(a + b, i) == CharLen(a, i);
      JoinsFrom(a, i + CharLen(a, i), b);
    }
  }

  lemma {:induction false} CutsFrom(a: Text, i: nat, b: Text)
    requires i <= |a| && WellFormed(a + b, i) && (b == [] || b[0] < 0x80)
    ensures WellFormed(a, i)
    decreases |a| - i
  {
    if i < |a| {
      CharFits(a, i, b);
      CutsFrom(a, i + CharLen(a, i), b);
    }
  }

  // No character goes on over an ASCII one.
  lemma CharFits(a: Text, i: nat, b: Text)
    requires i < |a| && CharLen(a + b, i) > 0 && (b == [] || b[0] < 0x80)
    ensures CharLen(a, i) == CharLen(a + b, i)
  {
    var t, n := a + b, CharLen(a + b, i);
    assert forall k :: i < k < i + n ==> t[k] >= 0x80;
    assert b != [] ==> t[|a|] == b[0];
    assert forall k :: i <= k < i + n ==> a[k] == t[k];
  }

  // Text in two parts, the second of which starts with an ASCII character, is well-formed
  // if and only if both are.
  lemma InTwo(a: Text, b: Text)
    requires b == [] || b[0] < 0x80
    ensures WellFormed(a + b, 0) <==> WellFormed(a, 0) && WellFormed(b, 0)
  {
    if WellFormed(a + b, 0) {
      CutsFrom(a, 0, b);
    }
    if WellFormed(a, 0) {
      JoinsFrom(a, 0, b);
    }
  }

  lemma {:induction false} AsciiIsWellFormed(t: Text, i: nat)
    requires i <= |t| && forall k :: 0 <= k < |t| ==> t[k] < 0x80
    ensures WellFormed(t, i)
    decreases |t| - i
  {
    if i < |t| {
      AsciiIsWellFormed(t, i + 1);
    }
  }

  lemma AsciiThen(a: Text, b: Text)
    requires forall k :: 0 <= k < |a| ==> a[k] < 0x80
    ensures WellFormed(a + b, 0) <==> WellFormed(b, 0)
  {
    AsciiIsWellFormed(a, 0);
    JoinsFrom(a, 0, b);
  }

  // ----- strings -----

  // What is written for a byte is itself, if it goes on with a character, and otherwise
  // starts with one that does not.
  lemma EscapeTails(s: Text, k: nat)
    requires k < |s|
    ensures if Tail(s[k]) then Escape(s, k) == [s[k]] && Escaped(s, k) == 1 else !Tail(Escape(s, k)[0])
  {
  }

  lemma AsItIs(s: Text, k: nat)
    requires k < |s| && s[k] >= 0x80 && !LineEnd(s, k)
    ensures WriteChars(s, k) == [s[k]] + WriteChars(s, k + 1)
  {
    hide LineEnd;
  }

  lemma {:induction false} CharsFrom(s: Text, k: nat, n: nat)
    requires k + n <= |s| && forall j :: k <= j < k + n ==> s[j] >= 0x80 && !LineEnd(s, j)
    ensures WriteChars(s, k) == s[k..k + n] + WriteChars(s, k + n)
    decreases n
  {
    hide WriteChars, LineEnd;
    if n == 0 {
      Empties(WriteChars(s, k));
      assert s[k..k] == [];
    } else {
      AsItIs(s, k);
      CharsFrom(s, k + 1, n - 1);
      assert s[k..k + n] == [s[k]] + s[k + 1..k + n];
      Regroup([s[k]], s[k + 1..k + n], WriteChars(s, k + n));
    }
  }

  // How many bytes after the one at k go on with its character, of three at most.
  function Tails(s: Text, k: nat, most: nat): (m: nat)
    requires k < |s|
    ensures m <= most && k + m < |s| && forall j :: k < j <= k + m ==> Tail(s[j])
    ensures m < most && k + m + 1 < |s| ==> !Tail(s[k + m + 1])
    decreases most
  {
    if most == 0 || k + 1 == |s| || !Tail(s[k + 1]) then 0 else 1 + Tails(s, k + 1, most - 1)
  }

  lemma NextIsNoTail(s: Text, k: nat)
    requires k <= |s| && (k < |s| ==> !Tail(s[k]))
    ensures WriteChars(s, k) != [] && !Tail(WriteChars(s, k)[0])
  {
    if k < |s| {
      EscapeTails(s, k);
      hide Escape;
    }
  }

  // A character of more than one byte is written as it is, and what is no character is none
  // as written.
  lemma LongChar(s: Text, k: nat)
    requires k < |s| && s[k] >= 0x80 && !LineEnd(s, k)
    ensures var t, n := WriteChars(s, k), CharLen(s, k);
            && t != [] && t[0] == s[k] && CharLen(t, 0) == n
            && (n > 0 ==> t[..n] == s[k..k + n] && t[n..] == WriteChars(s, k + n))
  {
    hide WriteChars, CharLen, LineEnd;
    LongCharLen(s, k);
    if CharLen(s, k) > 0 {
      LongCharText(s, k, CharLen(s, k));
    }
  }

  lemma LongCharLen(s: Text, k: nat)
    requires k < |s| && s[k] >= 0x80 && !LineEnd(s, k)
    ensures var t := WriteChars(s, k); t != [] && t[0] == s[k] && CharLen(t, 0) == CharLen(s, k)
  {
    var t, m := WriteChars(s, k), Tails(s, k, 3);
    CharsFrom(s, k, 1 + m);
    if m < 3 {
      NextIsNoTail(s, k + 1 + m);
    }
    hide WriteChars, CharLen;
    SameTails(s, k, t, m);
  }

  lemma LongCharText(s: Text, k: nat, n: nat)
    requires k < |s| && s[k] >= 0x80 && !LineEnd(s, k) && n == CharLen(s, k) > 0
    ensures var t := WriteChars(s, k); n <= |t| && t[..n] == s[k..k + n] && t[n..] == WriteChars(s, k + n)
  {
    CharsFrom(s, k, n);
    hide WriteChars;
    CutThere(s[k..k + n], WriteChars(s, k + n));
  }

  lemma CutThere(a: Text, b: Text)
    ensures (a + b)[..|a|] == a && (a + b)[|a|..] == b
  {
  }

  // How long a character is depends on its first byte and the tails after it.
  lemma SameTails(s: Text, k: nat, t: Text, m: nat)
    requires k < |s| && m <= 3 && k + m < |s| && m < |t|
    requires forall j :: 0 <= j <= m ==> t[j] == s[k + j]
    requires m < 3 ==> (k + m + 1 < |s| ==> !Tail(s[k + m + 1])) && (m + 1 < |t| ==> !Tail(t[m + 1]))
    requires s[k] >= 0x80
    ensures CharLen(t, 0) == CharLen(s, k)
  {
    assert t[0] == s[k] && (m > 0 ==> t[1] == s[k + 1]) && (m > 1 ==> t[2] == s[k + 2]) &&
      (m > 2 ==> t[3] == s[k + 3]);
  }

  // The text of a string from a character on is one of the grammar, and well-formed UTF-8,
  // if and only if the string is.
  ghost predicate CharsAgree(s: Text, k: nat)
    requires k <= |s|
  {
    && (Chars(WriteChars(s, k)) <==> WellFormed(s, k))
    && (WellFormed(WriteChars(s, k), 0) <==> WellFormed(s, k))
  }

  // An escape takes one or two bytes, or six, and what follows it is what counts.
  lemma EscapePasses(s: Text, k: nat)
    requires k < |s| && (s[k] < 0x80 || LineEnd(s, k))
    ensures CharLen(s, k) == Escaped(s, k)
    ensures forall x: Text :: Chars(Escape(s, k) + x) <==> Chars(x)
    ensures forall i :: 0 <= i < |Escape(s, k)| ==> Escape(s, k)[i] < 0x80
  {
    var t := Escape(s, k);
    forall x: Text ensures Chars(t + x) <==> Chars(x) {
      EscapeThen(t, x);
    }
  }

  lemma EscapeThen(t: Text, x: Text)
    requires (|t| == 1 && 0x20 <= t[0] < 0x80 && t[0] != 0x22 && t[0] != 0x5C) ||
      (|t| == 2 && t[0] == 0x5C && Escapable(t[1])) ||
      (|t| == 6 && t[0] == 0x5C && t[1] == 0x75 && HexDig(t[2]) && HexDig(t[3]) && HexDig(t[4]) && HexDig(t[5]))
    ensures Chars(t + x) <==> Chars(x)
  {
    var u := t + x;
    assert u[|t|..] == x;
    assert forall i :: 0 <= i < |t| ==> u[i] == t[i];
  }

  lemma ShortAgrees(s: Text, k: nat)
    requires k < |s| && (s[k] < 0x80 || LineEnd(s, k))
    requires k + Escaped(s, k) <= |s| && CharsAgree(s, k + Escaped(s, k))
    ensures CharsAgree(s, k)
  {
    EscapePasses(s, k);
    var rest := WriteChars(s, k + Escaped(s, k));
    assert WriteChars(s, k) == Escape(s, k) + rest;
    hide WriteChars, Escape, LineEnd, Chars, CharLen;
    AsciiThen(Escape(s, k), rest);
  }

  lemma LongAgrees(s: Text, k: nat)
    requires k < |s| && s[k] >= 0x80 && !LineEnd(s, k)
    requires CharLen(s, k) > 0 ==> CharsAgree(s, k + CharLen(s, k))
    ensures CharsAgree(s, k)
  {
    LongChar(s, k);
    var t, n := WriteChars(s, k), CharLen(s, k);
    hide WriteChars, LineEnd, CharLen;
    if n > 0 {
      OneCharThen(t, n);
    }
  }

  lemma OneCharThen(t: Text, n: nat)
    requires t != [] && t[0] >= 0x80 && CharLen(t, 0) == n > 0
    ensures WellFormed(t, 0) <==> WellFormed(t[n..], 0)
  {
    AfterPrefix(t[..n], t[n..], 0);
    assert t[..n] + t[n..] == t;
  }

  lemma NothingAgrees(s: Text)
    ensures CharsAgree(s, |s|)
  {
    AsciiIsWellFormed(WriteChars(s, |s|), 0);
  }

  lemma {:induction false} StringAgrees(s: Text, k: nat)
    requires k <= |s|
    ensures CharsAgree(s, k)
    decreases |s| - k
  {
    hide CharsAgree;
    if k == |s| {
      NothingAgrees(s);
    } else if s[k] < 0x80 || LineEnd(s, k) {
      EscapedFits(s, k);
      StringAgrees(s, k + Escaped(s, k));
      ShortAgrees(s, k);
    } else {
      if CharLen(s, k) > 0 {
        StringAgrees(s, k + CharLen(s, k));
      }
      LongAgrees(s, k);
    }
  }

  // What is written for a string is a string of the grammar, and well-formed UTF-8, if and
  // only if the string is well-formed.
  lemma StringIff(s: Text)
    ensures IsString(WriteString(s)) <==> WellFormed(s, 0)
    ensures WellFormed(WriteString(s), 0) <==> WellFormed(s, 0)
  {
    StringAgrees(s, 0);
    hide WriteChars, Chars;
    TailOfQuote(WriteChars(s, 0));
    AsciiThen([0x22], WriteChars(s, 0));
  }

  lemma TailOfQuote(x: Text)
    ensures ([0x22] + x)[0] == 0x22 && ([0x22] + x)[1..] == x
  {
  }

  // ----- JSON text is UTF-8 -----

  lemma {:induction false} CharsAreUtf8(t: Text)
    requires Chars(t)
    ensures WellFormed(t, 0)
    decreases |t|
  {
    if t[0] == 0x22 {
    } else {
      var n := if t[0] != 0x5C then CharLen(t, 0) else if Escapable(t[1]) && Chars(t[2..]) then 2 else 6;
      CharsAreUtf8(t[n..]);
      assert t[..n] + t[n..] == t;
      if t[0] == 0x5C {
        AsciiThen(t[..n], t[n..]);
      } else {
        AfterPrefix(t[..n], t[n..], 0);
      }
    }
  }

  lemma StringIsUtf8(t: Text)
    requires IsString(t)
    ensures WellFormed(t, 0)
  {
    CharsAreUtf8(t[1..]);
    assert [0x22] + t[1..] == t;
    AsciiThen([0x22], t[1..]);
  }

  lemma NumberIsAscii(t: Text)
    requires IsNumber(t, 0, |t|)
    ensures forall k :: 0 <= k < |t| ==> t[k] < 0x80
  {
    var a: nat, b: nat :| Parts(t, 0, a, b, |t|);
  }

  lemma {:induction false} DerivedIsUtf8(n: Node)
    requires Derived(n)
    ensures WellFormed(Yield(n), 0)
    decreases n, 1
  {
    match n
    case Word(t) => AsciiIsWellFormed(t, 0);
    case Number(t) =>
      NumberIsAscii(t);
      AsciiIsWellFormed(t, 0);
    case String(t) => StringIsUtf8(t);
    case Array(items, blank) =>
      if items == [] {
        AsciiIsWellFormed(Yield(n), 0);
      } else {
        ItemsAreUtf8(n, 0);
        AsciiThen(['[' as int], YieldItems(n, 0));
      }
    case Object(members, blank) =>
      if members == [] {
        AsciiIsWellFormed(Yield(n), 0);
      } else {
        MembersAreUtf8(n, 0);
        AsciiThen(['{' as int], YieldMembers(n, 0));
      }
  }

  lemma {:induction false} ItemsAreUtf8(n: Node, k: nat)
    requires n.Array? && k <= |n.items| && Derived(n)
    ensures WellFormed(YieldItems(n, k), 0)
    decreases n, 0, |n.items| - k
  {
    if k == |n.items| {
      AsciiIsWellFormed([']' as int], 0);
    } else {
      var item, rest := n.items[k], YieldItems(n, k + 1);
      DerivedIsUtf8(item.node);
      ItemsAreUtf8(n, k + 1);
      hide WellFormed;
      AsciiThen(item.after, rest);
      JoinsFrom(Yield(item.node), 0, item.after + rest);
      AsciiThen(item.before, Yield(item.node) + (item.after + rest));
      AsciiThen(if k > 0 then [',' as int] else [], item.before + (Yield(item.node) + (item.after + rest)));
    }
  }

  lemma {:induction false} MembersAreUtf8(n: Node, k: nat)
    requires n.Object? && k <= |n.members| && Derived(n)
    ensures WellFormed(YieldMembers(n, k), 0)
    decreases n, 0, |n.members| - k
  {
    if k == |n.members| {
      AsciiIsWellFormed(['}' as int], 0);
    } else {
      DerivedIsUtf8(n.members[k].node);
      MembersAreUtf8(n, k + 1);
      MemberIsUtf8(n.members[k], YieldMembers(n, k + 1), if k > 0 then [',' as int] else []);
    }
  }

  lemma MemberIsUtf8(m: Member, rest: Text, comma: Text)
    requires Ws(m.before) && Ws(m.colonBefore) && Ws(m.colonAfter) && Ws(m.after) && IsString(m.name)
    requires WellFormed(Yield(m.node), 0) && WellFormed(rest, 0) && (comma == [] || comma == [',' as int])
    ensures WellFormed(comma + (m.before + (m.name + (m.colonBefore + ([':' as int] + (m.colonAfter +
      (Yield(m.node) + (m.after + rest))))))), 0)
  {
    hide WellFormed, Yield, IsString;
    var value := Yield(m.node) + (m.after + rest);
    AsciiThen(m.after, rest);
    JoinsFrom(Yield(m.node), 0, m.after + rest);
    AsciiThen(m.colonAfter, value);
    AsciiThen([':' as int], m.colonAfter + value);
    AsciiThen(m.colonBefore, [':' as int] + (m.colonAfter + value));
    StringIsUtf8(m.name);
    JoinsFrom(m.name, 0, m.colonBefore + ([':' as int] + (m.colonAfter + value)));
    AsciiThen(m.before, m.name + (m.colonBefore + ([':' as int] + (m.colonAfter + value))));
    AsciiThen(comma, m.before + (m.name + (m.colonBefore + ([':' as int] + (m.colonAfter + value)))));
  }

  lemma JsonIsUtf8(t: Text)
    requires IsJson(t)
    ensures WellFormed(t, 0)
  {
    var before: Text, n: Node, after: Text :| IsJsonBy(t, before, n, after);
    DerivedIsUtf8(n);
    hide WellFormed, Yield, Derived;
    AsciiWs(after);
    JoinsFrom(Yield(n), 0, after);
    AsciiThen(before, Yield(n) + after);
  }

  lemma AsciiWs(t: Text)
    requires Ws(t)
    ensures WellFormed(t, 0)
  {
    AsciiIsWellFormed(t, 0);
  }

  // ----- what is written -----

  // All strings are well-formed, keys too.
  ghost predicate Unicode(v: Value)
    decreases v
  {
    match v
    case Str(s) => WellFormed(s, 0)
    case Stash(items) => forall k :: 0 <= k < |items| ==> Unicode(items[k])
    case Chat(entries) =>
      forall k :: 0 <= k < |entries| ==> WellFormed(entries[k].key, 0) && Unicode(entries[k].value)
    case _ => true
  }

  // A float is kept as a number of the grammar, as numfmt_repr writes it.
  ghost predicate Numeric(v: Value)
    decreases v
  {
    match v
    case Float(literal) => IsNumber(literal, 0, |literal|)
    case Stash(items) => forall k :: 0 <= k < |items| ==> Numeric(items[k])
    case Chat(entries) => forall k :: 0 <= k < |entries| ==> Numeric(entries[k].value)
    case _ => true
  }

  // How the text of a value is derived.
  function Derivation(v: Value, pretty: bool, depth: nat): Node
    decreases v
  {
    match v
    case Ghost => Word(NULL)
    case Bool(b) => Word(if b then TRUE else FALSE)
    case Int(n) => Number(WriteInt(n))
    case Float(literal) => Number(literal)
    case Str(s) => String(WriteString(s))
    case Stash(items) =>
      Array(seq(|items|, k requires 0 <= k < |items| =>
              Item(NewLine(pretty, depth + 1), Derivation(items[k], pretty, depth + 1),
                   if k + 1 == |items| then NewLine(pretty, depth) else [])), [])
    case Chat(entries) =>
      Object(seq(|entries|, k requires 0 <= k < |entries| =>
               Member(NewLine(pretty, depth + 1), WriteString(entries[k].key), [], if pretty then [0x20] else [],
                      Derivation(entries[k].value, pretty, depth + 1),
                      if k + 1 == |entries| then NewLine(pretty, depth) else [])), [])
  }

  lemma StashDerivation(v: Value, pretty: bool, depth: nat)
    requires v.Stash?
    ensures var n := Derivation(v, pretty, depth);
            && n.Array? && n.blank == [] && |n.items| == |v.items|
            && forall k :: 0 <= k < |v.items| ==> (n.items[k] ==
                 Item(NewLine(pretty, depth + 1), Derivation(v.items[k], pretty, depth + 1),
                      if k + 1 == |v.items| then NewLine(pretty, depth) else []))
  {
    hide NewLine;
  }

  lemma ChatDerivation(v: Value, pretty: bool, depth: nat)
    requires v.Chat?
    ensures var n := Derivation(v, pretty, depth);
            && n.Object? && n.blank == [] && |n.members| == |v.entries|
            && forall k :: 0 <= k < |v.entries| ==> (n.members[k] ==
                 Member(NewLine(pretty, depth + 1), WriteString(v.entries[k].key), [],
                        if pretty then [0x20] else [], Derivation(v.entries[k].value, pretty, depth + 1),
                        if k + 1 == |v.entries| then NewLine(pretty, depth) else []))
  {
    hide NewLine, WriteString;
  }

  lemma {:induction false} YieldsItems(v: Value, k: nat, pretty: bool, depth: nat)
    requires v.Stash? && k < |v.items|
    ensures var n := Derivation(v, pretty, depth);
            n.Array? && |n.items| == |v.items| && YieldItems(n, k) == WriteItems(v, k, pretty, depth)
    decreases v, 0, |v.items| - k
  {
    StashDerivation(v, pretty, depth);
    hide Derivation, Write, Yield;
    Yields(v.items[k], pretty, depth + 1);
    WriteItemsIs(v, k, pretty, depth);
    if k + 1 < |v.items| {
      YieldsItems(v, k + 1, pretty, depth);
      Empties(WriteItems(v, k + 1, pretty, depth));
    } else {
      assert WriteItems(v, k + 1, pretty, depth) == NewLine(pretty, depth) + [0x5D];
    }
  }

  lemma {:induction false} YieldsMembers(v: Value, k: nat, pretty: bool, depth: nat)
    requires v.Chat? && k < |v.entries|
    ensures var n := Derivation(v, pretty, depth);
            n.Object? && |n.members| == |v.entries| && YieldMembers(n, k) == WriteEntries(v, k, pretty, depth)
    decreases v, 0, |v.entries| - k
  {
    ChatDerivation(v, pretty, depth);
    hide Derivation, Write, Yield, WriteString;
    Yields(v.entries[k].value, pretty, depth + 1);
    WriteEntriesIs(v, k, pretty, depth);
    Empties([0x3A] + ((if pretty then [0x20] else []) + ValueText(v, k, pretty, depth)));
    if k + 1 < |v.entries| {
      YieldsMembers(v, k + 1, pretty, depth);
      Empties(WriteEntries(v, k + 1, pretty, depth));
    } else {
      assert WriteEntries(v, k + 1, pretty, depth) == NewLine(pretty, depth) + [0x7D];
    }
  }

  lemma {:induction false} YieldsStash(v: Value, pretty: bool, depth: nat)
    requires v.Stash?
    ensures Yield(Derivation(v, pretty, depth)) == Write(v, pretty, depth)
    decreases v, 0, |v.items| + 1
  {
    StashDerivation(v, pretty, depth);
    hide Derivation, WriteItems, YieldItems;
    if v.items != [] {
      YieldsItems(v, 0, pretty, depth);
    }
  }

  lemma {:induction false} YieldsChat(v: Value, pretty: bool, depth: nat)
    requires v.Chat?
    ensures Yield(Derivation(v, pretty, depth)) == Write(v, pretty, depth)
    decreases v, 0, |v.entries| + 1
  {
    ChatDerivation(v, pretty, depth);
    hide Derivation, WriteEntries, YieldMembers;
    if v.entries != [] {
      YieldsMembers(v, 0, pretty, depth);
    }
  }

  lemma {:induction false} Yields(v: Value, pretty: bool, depth: nat)
    ensures Yield(Derivation(v, pretty, depth)) == Write(v, pretty, depth)
    decreases v, 1
  {
    match v
    case Stash(items) => YieldsStash(v, pretty, depth);
    case Chat(entries) => YieldsChat(v, pretty, depth);
    case _ =>
  }

  lemma NewLineIsWs(pretty: bool, depth: nat)
    ensures Ws(NewLine(pretty, depth))
  {
    IndentIsSpaces(depth);
  }

  lemma {:induction false} NoZeroInFront(n: nat)
    ensures Digits(DecimalBytes(n), 0, |DecimalBytes(n)|)
    ensures DecimalBytes(n)[0] == 0x30 ==> |DecimalBytes(n)| == 1
    ensures n > 0 ==> DecimalBytes(n)[0] != 0x30
    decreases n
  {
    if n >= 10 {
      NoZeroInFront(n / 10);
    }
  }

  lemma IntIsNumber(n: int)
    ensures var t := WriteInt(n); IsNumber(t, 0, |t|)
  {
    var t, m := WriteInt(n), if n < 0 then -n else n;
    NoZeroInFront(m);
    var d := if n < 0 then 1 else 0;
    assert forall k :: d <= k < |t| ==> t[k] == DecimalBytes(m)[k - d];
    hide DecimalBytes;
    assert Digits(t, d, |t|) && Whole(t, d, |t|);
    assert Parts(t, 0, |t|, |t|, |t|);
  }

  lemma {:induction false} IsDerived(v: Value, pretty: bool, depth: nat)
    requires Unicode(v) && Numeric(v)
    ensures Derived(Derivation(v, pretty, depth))
    decreases v
  {
    match v
    case Int(n) => IntIsNumber(n);
    case Str(s) => StringIff(s);
    case Stash(items) => StashIsDerived(v, pretty, depth);
    case Chat(entries) => ChatIsDerived(v, pretty, depth);
    case _ => WordsAreSpelled();
  }

  lemma WordsAreSpelled()
    ensures Spells(NULL, "null") && Spells(TRUE, "true") && Spells(FALSE, "false")
  {
  }

  lemma {:induction false} StashIsDerived(v: Value, pretty: bool, depth: nat)
    requires v.Stash? && Unicode(v) && Numeric(v)
    ensures Derived(Derivation(v, pretty, depth))
    decreases v, 0
  {
    NewLineIsWs(pretty, depth + 1);
    NewLineIsWs(pretty, depth);
    forall k | 0 <= k < |v.items| ensures Derived(Derivation(v.items[k], pretty, depth + 1)) {
      IsDerived(v.items[k], pretty, depth + 1);
    }
    StashDerivation(v, pretty, depth);
    hide Derivation, NewLine, Unicode, Numeric;
  }

  lemma {:induction false} ChatIsDerived(v: Value, pretty: bool, depth: nat)
    requires v.Chat? && Unicode(v) && Numeric(v)
    ensures Derived(Derivation(v, pretty, depth))
    decreases v, 0
  {
    forall k | 0 <= k < |v.entries|
      ensures WellFormed(v.entries[k].key, 0) && Derived(Derivation(v.entries[k].value, pretty, depth + 1))
    {
      IsDerived(v.entries[k].value, pretty, depth + 1);
    }
    ChatDerivation(v, pretty, depth);
    var n := Derivation(v, pretty, depth);
    hide Derivation, Unicode, Numeric, WellFormed, MemberOk;
    forall k | 0 <= k < |n.members| ensures MemberOk(n.members[k]) {
      PairIsDerived(v, k, pretty, depth, n.members[k]);
    }
    ObjectIsDerived(n);
  }

  ghost predicate MemberOk(m: Member) {
    && Ws(m.before) && IsString(m.name) && Ws(m.colonBefore) && Ws(m.colonAfter) && Derived(m.node) && Ws(m.after)
  }

  lemma ObjectIsDerived(n: Node)
    requires n.Object? && Ws(n.blank) && forall k :: 0 <= k < |n.members| ==> MemberOk(n.members[k])
    ensures Derived(n)
  {
    hide Ws, IsString;
    forall k | 0 <= k < |n.members|
      ensures && Ws(n.members[k].before) && IsString(n.members[k].name) && Ws(n.members[k].colonBefore)
        && Ws(n.members[k].colonAfter) && Derived(n.members[k].node) && Ws(n.members[k].after)
    {
      assert MemberOk(n.members[k]);
    }
  }

  lemma PairIsDerived(v: Value, k: nat, pretty: bool, depth: nat, m: Member)
    requires v.Chat? && k < |v.entries| && WellFormed(v.entries[k].key, 0)
    requires Derived(Derivation(v.entries[k].value, pretty, depth + 1))
    requires m == Member(NewLine(pretty, depth + 1), WriteString(v.entries[k].key), [],
                         if pretty then [0x20] else [], Derivation(v.entries[k].value, pretty, depth + 1),
                         if k + 1 == |v.entries| then NewLine(pretty, depth) else [])
    ensures MemberOk(m)
  {
    StringIff(v.entries[k].key);
    NewLineIsWs(pretty, depth + 1);
    NewLineIsWs(pretty, depth);
    hide Derivation, WriteString, NewLine, IsString, Derived;
  }

  // ----- and nothing else is -----

  lemma NewLineIsAscii(pretty: bool, depth: nat)
    ensures forall k :: 0 <= k < |NewLine(pretty, depth)| ==> NewLine(pretty, depth)[k] < 0x80
  {
    NewLineIsWs(pretty, depth);
  }

  lemma ItemsStart(v: Value, k: nat, pretty: bool, depth: nat)
    requires v.Stash? && 0 < k <= |v.items|
    ensures WriteItems(v, k, pretty, depth) != [] && WriteItems(v, k, pretty, depth)[0] < 0x80
  {
    if k < |v.items| {
      WriteItemsIs(v, k, pretty, depth);
    } else {
      NewLineIsAscii(pretty, depth);
    }
  }

  lemma ItemTells(v: Value, k: nat, pretty: bool, depth: nat)
    requires v.Stash? && k < |v.items| && WellFormed(WriteItems(v, k, pretty, depth), 0)
    ensures WellFormed(Write(v.items[k], pretty, depth + 1), 0) && WellFormed(WriteItems(v, k + 1, pretty, depth), 0)
  {
    var w, rest := Write(v.items[k], pretty, depth + 1), WriteItems(v, k + 1, pretty, depth);
    assert ItemText(v, k, pretty, depth) == w + rest;
    hide *;
    WriteItemsIs(v, k, pretty, depth);
    ItemsStart(v, k + 1, pretty, depth);
    AsciiThen(if k > 0 then [0x2C] else [], NewLine(pretty, depth + 1) + (w + rest));
    NewLineIsAscii(pretty, depth + 1);
    AsciiThen(NewLine(pretty, depth + 1), w + rest);
    InTwo(w, rest);
  }

  lemma {:induction false} ItemsTell(v: Value, k: nat, pretty: bool, depth: nat)
    requires v.Stash? && k <= |v.items| && WellFormed(WriteItems(v, k, pretty, depth), 0)
    ensures forall j :: k <= j < |v.items| ==> Unicode(v.items[j])
    decreases v, 0, |v.items| - k
  {
    hide *;
    if k < |v.items| {
      ItemTells(v, k, pretty, depth);
      Tells(v.items[k], pretty, depth + 1);
      ItemsTell(v, k + 1, pretty, depth);
    }
  }

  lemma EntriesStart(v: Value, k: nat, pretty: bool, depth: nat)
    requires v.Chat? && 0 < k <= |v.entries|
    ensures WriteEntries(v, k, pretty, depth) != [] && WriteEntries(v, k, pretty, depth)[0] < 0x80
  {
    if k < |v.entries| {
      WriteEntriesIs(v, k, pretty, depth);
    } else {
      NewLineIsAscii(pretty, depth);
    }
  }

  lemma EntryTells(v: Value, k: nat, pretty: bool, depth: nat)
    requires v.Chat? && k < |v.entries| && WellFormed(WriteEntries(v, k, pretty, depth), 0)
    ensures WellFormed(v.entries[k].key, 0) && WellFormed(Write(v.entries[k].value, pretty, depth + 1), 0)
    ensures WellFormed(WriteEntries(v, k + 1, pretty, depth), 0)
  {
    hide *;
    var key, space: Text := v.entries[k].key, if pretty then [0x20] else [];
    var w, rest := Write(v.entries[k].value, pretty, depth + 1), WriteEntries(v, k + 1, pretty, depth);
    WriteEntriesIs(v, k, pretty, depth);
    EntryTextIs(v, k, pretty, depth);
    EntriesStart(v, k + 1, pretty, depth);
    NewLineIsAscii(pretty, depth + 1);
    PairTells(if k > 0 then [0x2C] else [], NewLine(pretty, depth + 1), WriteString(key), space, w, rest);
    StringIff(key);
  }

  lemma {:induction false} EntriesTell(v: Value, k: nat, pretty: bool, depth: nat)
    requires v.Chat? && k <= |v.entries| && WellFormed(WriteEntries(v, k, pretty, depth), 0)
    ensures forall j :: k <= j < |v.entries| ==> WellFormed(v.entries[j].key, 0) && Unicode(v.entries[j].value)
    decreases v, 0, |v.entries| - k
  {
    hide *;
    if k < |v.entries| {
      EntryTells(v, k, pretty, depth);
      Tells(v.entries[k].value, pretty, depth + 1);
      EntriesTell(v, k + 1, pretty, depth);
    }
  }

  lemma EntryTextIs(v: Value, k: nat, pretty: bool, depth: nat)
    requires v.Chat? && k < |v.entries|
    ensures EntryText(v, k, pretty, depth) == WriteString(v.entries[k].key) + ([0x3A] + ((if pretty then [0x20] else [])
      + (Write(v.entries[k].value, pretty, depth + 1) + WriteEntries(v, k + 1, pretty, depth))))
  {
  }

  lemma PairTells(comma: Text, nl: Text, key: Text, space: Text, w: Text, rest: Text)
    requires (comma == [] || comma == [0x2C]) && (space == [] || space == [0x20])
    requires (forall k :: 0 <= k < |nl| ==> nl[k] < 0x80) && rest != [] && rest[0] < 0x80
    requires WellFormed(comma + (nl + (key + ([0x3A] + (space + (w + rest))))), 0)
    ensures WellFormed(key, 0) && WellFormed(w, 0) && WellFormed(rest, 0)
  {
    hide WellFormed;
    var value := space + (w + rest);
    AsciiThen(comma, nl + (key + ([0x3A] + value)));
    AsciiThen(nl, key + ([0x3A] + value));
    InTwo(key, [0x3A] + value);
    AsciiThen([0x3A], value);
    AsciiThen(space, w + rest);
    InTwo(w, rest);
  }

  // Well-formed text is of a value whose strings are.
  lemma {:induction false} Tells(v: Value, pretty: bool, depth: nat)
    requires WellFormed(Write(v, pretty, depth), 0)
    ensures Unicode(v)
    decreases v, 1
  {
    match v
    case Str(s) => StringIff(s);
    case Stash(items) =>
      if items != [] {
        AsciiThen([0x5B], WriteItems(v, 0, pretty, depth));
        ItemsTell(v, 0, pretty, depth);
      }
    case Chat(entries) =>
      if entries != [] {
        AsciiThen([0x7B], WriteEntries(v, 0, pretty, depth));
        EntriesTell(v, 0, pretty, depth);
      }
    case _ =>
  }

  // json.spill writes JSON text if and only if every string in the value is well-formed
  // UTF-8; a yapstring of other bytes goes into the text as it is.
  lemma SpilledIsJson(v: Value, pretty: bool)
    requires Numeric(v)
    ensures IsJson(Spilled(v, pretty)) <==> Unicode(v)
  {
    var w := Write(v, pretty, 0);
    var tail: Text := if pretty then [0x0A] else [];
    if Unicode(v) {
      IsDerived(v, pretty, 0);
      Yields(v, pretty, 0);
      hide Write, Derivation, Derived;
      Empties(w + tail);
      assert IsJsonBy(Spilled(v, pretty), [], Derivation(v, pretty, 0), tail);
    }
    if IsJson(Spilled(v, pretty)) {
      JsonIsUtf8(Spilled(v, pretty));
      hide WellFormed, Write;
      InTwo(w, tail);
      Tells(v, pretty, 0);
    }
  }
}
