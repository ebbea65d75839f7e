// The parser of native/json.c: a cursor moved over the text.
module JsonParser {
  import opened Utf8
  import opened Json

  class Parser {
    const src: Text
    var i: nat
    var failed: bool
    var at: nat
    var what: Problem
    var character: nat  // where that is in the text somebody is looking at

    constructor (text: Text)
      ensures src == text && i == 0 && !failed
    {
      src := text;
      i, failed, at, what, character := 0, false, 0, Unexpected, 0;
    }

    // The first failure is the one reported, with the place it happened at, counted
    // in characters.
    method Report(problem: Problem)
      requires i <= |src|
      modifies this`failed, this`at, this`what, this`character
      ensures failed
      ensures if old(failed) then at == old(at) && what == old(what) && character == old(character)
        else at == i && what == problem && character == Count(src, i, 0)
    {
      if failed {
        return;
      }
      failed, at, what := true, i, problem;
      character := CodepointCount(src, i);
    }

    // This is how the parser stands after reading what r says was read.
    ghost predicate Agrees<T>(r: Parse<T>)
      reads this`i, this`failed, this`at, this`what, this`character
    {
      if r.Ok? then !failed && i == r.next
      else failed && at == r.at <= |src| && what == r.what && character == Count(src, at, 0)
    }

    method SkipSpaces()
      requires i <= |src|
      modifies this`i
      ensures i == SkipSpace(src, old(i))
    {
      while i < |src|
        invariant old(i) <= i <= |src| && SkipSpace(src, i) == SkipSpace(src, old(i))
      {
        if !Space(src[i]) {
          return;
        }
        i := i + 1;
      }
    }

    method ExpectWord(word: Text, value: Value) returns (v: Value)
      requires !failed && i <= |src|
      modifies this`i, this`failed, this`at, this`what, this`character
      ensures Agrees(ReadWord(src, old(i), word, value))
      ensures v == if failed then Ghost else value
    {
      AtSlice(src, i, word);
      if i + |word| > |src| || src[i..i + |word|] != word {
        Report(NeedsWord);
        return Ghost;
      }
      i := i + |word|;
      return value;
    }

    // Four hex digits at `from`; -1, reported, on anything else.
    method ReadHex4(from: nat) returns (value: int)
      requires !failed && i <= |src|
      modifies this`failed, this`at, this`what, this`character
      ensures value == Hex4(src, from)
      ensures failed == (value < 0) && (failed ==> at == i && what == NeedsHex && character == Count(src, i, 0))
    {
      value := 0;
      var k := 0;
      HexUpTo4(src, from);
      while k < 4
        invariant 0 <= k <= 4 && !failed && value == HexUpTo(src, from, k) >= 0
      {
        var d := if from + k < |src| then HexDigit(src[from + k]) else -1;
        if d < 0 {
          HexSpoilt(src, from, k + 1, 4);
          Report(NeedsHex);
          return -1;
        }
        value := value * 16 + d;
        k := k + 1;
      }
    }

    // \uXXXX at the cursor, perhaps with its other half.
    method UnicodeEscape() returns (bytes: Text)
      requires !failed && i < |src|
      modifies this`i, this`failed, this`at, this`what, this`character
      ensures Agrees(ReadUnicode(src, old(i)))
      ensures !failed ==> bytes == ReadUnicode(src, old(i)).value
    {
      hide Hex4, Encoded;
      bytes := [];
      var j := i;
      var cp := ReadHex4(j + 2);
      if cp < 0 {
        return;
      }
      j := j + 4;
      if 0xD800 <= cp <= 0xDBFF && j + 7 < |src| && src[j + 2] == 0x5C && src[j + 3] == 0x75 {
        var low := ReadHex4(j + 4);
        if low < 0 {
          return;
        }
        if 0xDC00 <= low <= 0xDFFF {
          cp := 0x1_0000 + (cp - 0xD800) * 0x400 + (low - 0xDC00);
          j := j + 6;
        }
      }
      if 0xD800 <= cp <= 0xDFFF {
        cp := 0xFFFD;
      }
      bytes := Encoded(cp);
      i := j + 2;
    }

    method Escape() returns (bytes: Text)
      requires !failed && i < |src|
      modifies this`i, this`failed, this`at, this`what, this`character
      ensures Agrees(ReadEscape(src, old(i)))
      ensures !failed ==> bytes == ReadEscape(src, old(i)).value
    {
      hide ReadUnicode;
      bytes := [];
      if i + 1 >= |src| {
        Report(NeverClosed);
        return;
      }
      var esc := src[i + 1];
      if ShortEscape(esc) >= 0 {
        bytes := [ShortEscape(esc)];
        i := i + 2;
      } else if esc == 0x75 {
        bytes := UnicodeEscape();
      } else {
        Report(NoSuchEscape);
      }
    }

    // From the opening quote to past the closing one.
    method ReadString() returns (out: Text)
      requires !failed && i < |src|
      modifies this`i, this`failed, this`at, this`what, this`character
      ensures Agrees(ReadChars(src, old(i) + 1, []))
      ensures !failed ==> out == ReadChars(src, old(i) + 1, []).value
    {
      hide ReadEscape;
      ghost var r := ReadChars(src, i + 1, []);
      out := [];
      i := i + 1;
      while true
        invariant !failed && i <= |src| && ReadChars(src, i, out) == r
        decreases |src| - i
      {
        if i >= |src| {
          Report(NeverClosed);
          return;
        }
        var ch := src[i];
        if ch == 0x22 {
          i := i + 1;
          return;
        }
        if ch == 0x5C {
          var bytes := Escape();
          if failed {
            return;
          }
          out := out + bytes;
        } else if ch < 0x20 {
          Report(RawControl);
          return;
        } else {
          out := out + [ch];
          i := i + 1;
        }
      }
    }

    method Digits()
      requires i <= |src|
      modifies this`i
      ensures i == SkipDigits(src, old(i))
    {
      while i < |src| && Digit(src[i])
        invariant old(i) <= i <= |src| && SkipDigits(src, i) == SkipDigits(src, old(i))
      {
        i := i + 1;
      }
    }

    method Fraction() returns (isFloat: bool)
      requires !failed && i <= |src|
      modifies this`i, this`failed, this`at, this`what, this`character
      ensures Agrees(SkipFraction(src, old(i)))
      ensures !failed ==> isFloat == SkipFraction(src, old(i)).value
    {
      isFloat := false;
      if i < |src| && src[i] == 0x2E {
        isFloat := true;
        i := i + 1;
        var fracAt := i;
        Digits();
        if i == fracAt {
          Report(NeedsFraction);
        }
      }
    }

    method Exponent() returns (isFloat: bool)
      requires !failed && i <= |src|
      modifies this`i, this`failed, this`at, this`what, this`character
      ensures Agrees(SkipExponent(src, old(i)))
      ensures !failed ==> isFloat == SkipExponent(src, old(i)).value
    {
      isFloat := false;
      if i < |src| && (src[i] == 0x65 || src[i] == 0x45) {
        isFloat := true;
        i := i + 1;
        if i < |src| && (src[i] == 0x2B || src[i] == 0x2D) {
          i := i + 1;
        }
        var expAt := i;
        Digits();
        if i == expAt {
          Report(NeedsExponent);
        }
      }
    }

    // strtoll, and bignum_from_digits where that overflows.
    method IntegerAt(digitsAt: nat, end: nat, negative: bool) returns (v: Value)
      requires digitsAt <= end <= |src|
      ensures v == Int(if negative then -Spell(src, digitsAt, end) else Spell(src, digitsAt, end))
    {
      var n := 0;
      for j := digitsAt to end
        invariant n == Spell(src, digitsAt, j)
      {
        n := n * 10 + HexDigit(src[j]);
      }
      v := Int(if negative then -n else n);
    }

    method Number() returns (v: Value)
      requires !failed && i < |src|
      modifies this`i, this`failed, this`at, this`what, this`character
      ensures Agrees(ReadNumber(src, old(i)))
      ensures v == if failed then Ghost else ReadNumber(src, old(i)).value
    {
      hide SkipDigits, SkipFraction, SkipExponent, Spell;
      var start := i;
      var negative := src[i] == 0x2D;
      if negative {
        i := i + 1;
      }
      var digitsAt := i;
      Digits();
      if i == digitsAt {
        Report(NeedsDigits);
        return Ghost;
      }
      var intEnd := i;
      var fraction := Fraction();
      if failed {
        return Ghost;
      }
      var exponent := Exponent();
      if failed {
        return Ghost;
      }
      if fraction || exponent {
        return Float(src[start..i]);
      }
      v := IntegerAt(digitsAt, intEnd, negative);
    }

    // read_value: a value at the cursor, `depth` containers down.
    method Value(depth: nat) returns (v: Json.Value)
      requires !failed && i <= |src|
      modifies this`i, this`failed, this`at, this`what, this`character
      ensures Agrees(ReadValue(src, old(i), depth))
      ensures v == if failed then Ghost else ReadValue(src, old(i), depth).value
      decreases |src| - i, 1
    {
      hide ReadNumber, ReadChars, ReadArray, ReadObject;
      if depth > MAX_DEPTH {
        Report(TooDeep);
        return Ghost;
      }
      var ch := Peek(src, i);
      if ch == 0x7B {
        v := Object(depth);
      } else if ch == 0x5B {
        v := Array(depth);
      } else if ch == 0x22 {
        var s := ReadString();
        v := if failed then Ghost else Str(s);
      } else if ch == 0x74 {
        v := ExpectWord(TRUE, Bool(true));
      } else if ch == 0x66 {
        v := ExpectWord(FALSE, Bool(false));
      } else if ch == 0x6E {
        v := ExpectWord(NULL, Ghost);
      } else if ch == 0x2D || Digit(ch) {
        v := Number();
      } else {
        Report(if ch == 0 then EndedTooSoon else Unexpected);
        v := Ghost;
      }
    }

    method Array(depth: nat) returns (v: Json.Value)
      requires !failed && i < |src|
      modifies this`i, this`failed, this`at, this`what, this`character
      ensures Agrees(ReadArray(src, old(i) + 1, depth))
      ensures v == if failed then Ghost else ReadArray(src, old(i) + 1, depth).value
      decreases |src| - i, 0
    {
      hide ReadValue, SkipSpace;
      ghost var r := ReadArray(src, i + 1, depth);
      i := i + 1;
      SkipSpaces();
      if Peek(src, i) == 0x5D {
        i := i + 1;
        return Stash([]);
      }
      var out: seq<Json.Value> := [];
      while true
        invariant !failed && old(i) < i <= |src| && ReadItems(src, i, depth, out) == r
        decreases |src| - i
      {
        SkipSpaces();
        var item := Value(depth + 1);
        if failed {
          return Ghost;
        }
        out := out + [item];
        SkipSpaces();
        var next := Peek(src, i);
        i := i + 1;
        if next == 0x5D {
          return Stash(out);
        }
        if next != 0x2C {
          i := i - 1;
          Report(NeedsCommaOrEnd);
          return Ghost;
        }
      }
    }

    // A key and its colon.
    method Key() returns (key: Text)
      requires !failed && i <= |src|
      modifies this`i, this`failed, this`at, this`what, this`character
      ensures Agrees(ReadKey(src, old(i)))
      ensures !failed ==> key == ReadKey(src, old(i)).value
    {
      hide ReadChars, SkipSpace;
      key := [];
      if Peek(src, i) != 0x22 {
        Report(NeedsKey);
        return;
      }
      key := ReadString();
      if failed {
        return;
      }
      SkipSpaces();
      if Peek(src, i) != 0x3A {
        Report(NeedsColon);
        return;
      }
      i := i + 1;
    }

    // An entry of an object, up to the end of its value.
    method Pair(depth: nat) returns (entry: Entry)
      requires !failed && i <= |src|
      modifies this`i, this`failed, this`at, this`what, this`character
      ensures Agrees(ReadEntry(src, old(i), depth))
      ensures !failed ==> entry == ReadEntry(src, old(i), depth).value
      decreases |src| - i, 2
    {
      hide ReadValue, ReadKey, SkipSpace;
      entry := Entry([], Ghost);
      SkipSpaces();
      var key := Key();
      if failed {
        return;
      }
      SkipSpaces();
      var value := Value(depth + 1);
      entry := Entry(key, value);
    }

    method Object(depth: nat) returns (v: Json.Value)
      requires !failed && i < |src|
      modifies this`i, this`failed, this`at, this`what, this`character
      ensures Agrees(ReadObject(src, old(i) + 1, depth))
      ensures v == if failed then Ghost else ReadObject(src, old(i) + 1, depth).value
      decreases |src| - i, 0
    {
      hide ReadEntry, SkipSpace, Set;
      ghost var r := ReadObject(src, i + 1, depth);
      i := i + 1;
      SkipSpaces();
      if Peek(src, i) == 0x7D {
        i := i + 1;
        return Chat([]);
      }
      var out: seq<Entry> := [];
      while true
        invariant !failed && old(i) < i <= |src| && ReadEntries(src, i, depth, out) == r
        decreases |src| - i
      {
        var entry := Pair(depth);
        if failed {
          return Ghost;
        }
        out := Set(out, entry.key, entry.value, 0);
        SkipSpaces();
        var next := Peek(src, i);
        i := i + 1;
        if next == 0x7D {
          return Chat(out);
        }
        if next != 0x2C {
          i := i - 1;
          Report(NeedsCommaOrEnd);
          return Ghost;
        }
      }
    }
  }

  // json.parse
  method Parse(text: Text) returns (r: Json.Parse<Json.Value>, character: nat)
    ensures r == Parsed(text)
    ensures r.Fail? ==> r.at <= |text| && character == Count(text, r.at, 0)
  {
    hide ReadValue, SkipSpace;
    var p := new Parser(text);
    p.SkipSpaces();
    var v := p.Value(0);
    if p.failed {
      return Fail(p.at, p.what), p.character;
    }
    p.SkipSpaces();
    if p.i < |text| {
      p.Report(MoreAfterEnd);
      return Fail(p.at, p.what), p.character;
    }
    r, character := Ok(v, p.i), 0;
  }

  lemma AtSlice(s: Text, i: nat, t: Text)
    ensures At(s, i, t) <==> i + |t| <= |s| && s[i..i + |t|] == t
  {
    if i + |t| <= |s| && s[i..i + |t|] == t {
      forall k | 0 <= k < |t| ensures s[i + k] == t[k] {
        assert s[i..i + |t|][k] == t[k];
      }
    }
  }

  // What k hex digits make; -1 if there are not that many.
  function HexUpTo(s: Text, from: nat, k: nat): (v: int)
    ensures v >= -1
    decreases k
  {
    if k == 0 then 0
    else if HexUpTo(s, from, k - 1) < 0 || from + k > |s| || HexDigit(s[from + k - 1]) < 0 then -1
    else HexUpTo(s, from, k - 1) * 16 + HexDigit(s[from + k - 1])
  }

  lemma HexUpTo4(s: Text, from: nat)
    ensures HexUpTo(s, from, 4) == Hex4(s, from)
  {
    assert HexUpTo(s, from, 1) == if from < |s| then HexDigit(s[from]) else -1;
    assert HexUpTo(s, from, 2) >= 0 ==> HexUpTo(s, from, 2) == HexDigit(s[from]) * 16 + HexDigit(s[from + 1]);
  }

  lemma {:induction false} HexSpoilt(s: Text, from: nat, k: nat, n: nat)
    requires k <= n && HexUpTo(s, from, k) < 0
    ensures HexUpTo(s, from, n) == -1
    decreases n
  {
    if k < n {
      HexSpoilt(s, from, k, n - 1);
    }
  }
}
