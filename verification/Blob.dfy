// Byte strings (native/blob.c): base64 (section 4 of RFC 4648), hex, and split
// and join.
module Blob {
  import opened Utf8
  import opened Wrappers

  // ----- base64 -----

  const PAD: Byte := 0x3D

  // B64_ALPHABET
  function Char64(v: int): (c: Byte)
    requires 0 <= v < 64
    ensures c != PAD
  {
    if v < 26 then 0x41 + v
    else if v < 52 then 0x61 + (v - 26)
    else if v < 62 then 0x30 + (v - 52)
    else if v == 62 then 0x2B
    else 0x2F
  }

  function Value64(c: Byte): (v: int)
    ensures -1 <= v < 64
    ensures v >= 0 ==> Char64(v) == c
  {
    if 0x41 <= c <= 0x5A then c - 0x41
    else if 0x61 <= c <= 0x7A then c - 0x61 + 26
    else if 0x30 <= c <= 0x39 then c - 0x30 + 52
    else if c == 0x2B then 62
    else if c == 0x2F then 63
    else -1
  }

  // So many characters in a row, from this one on.
  function Row(first: char, n: nat): seq<Byte>
    requires first as int + n <= 0x100
  {
    seq(n, k requires 0 <= k < n => first as int + k)
  }

  // Table 1 of RFC 4648: the capital letters, the small ones, the digits, + and /.
  function Alphabet(): (table: seq<Byte>)
    ensures |table| == 64
  {
    Row('A', 26) + Row('a', 26) + Row('0', 10) + Row('+', 1) + Row('/', 1)
  }

  lemma Char64IsInTable(v: int)
    requires 0 <= v < 64
    ensures Char64(v) == Alphabet()[v]
  {
    var upper, lower, digits := Row('A', 26), Row('a', 26), Row('0', 10);
    assert Alphabet() == upper + (lower + (digits + (Row('+', 1) + Row('/', 1))));
  }

  // What the character is worth is its place in the table.
  lemma Value64IsPlace(c: Byte)
    ensures if c in Alphabet() then Value64(c) >= 0 && Alphabet()[Value64(c)] == c else Value64(c) == -1
  {
    if Value64(c) >= 0 {
      Char64IsInTable(Value64(c));
    }
    if c in Alphabet() {
      var v :| 0 <= v < 64 && Alphabet()[v] == c;
      Char64IsInTable(v);
    }
  }

  // The byte at i, and 0 past the end.
  function ByteAt(bytes: seq<Byte>, i: nat): Byte {
    if i < |bytes| then bytes[i] else 0
  }

  // 24 bits, of which the missing bytes are 0.
  function Group24(bytes: seq<Byte>, i: nat): (n: int)
    ensures 0 <= n < 0x100_0000
  {
    ByteAt(bytes, i) * 0x1_0000 + ByteAt(bytes, i + 1) * 0x100 + ByteAt(bytes, i + 2)
  }

  // The four characters for the three bytes at i.
  function Quad(bytes: seq<Byte>, i: nat): (q: seq<Byte>)
    requires i < |bytes|
    ensures |q| == 4
  {
    var bits := Group24(bytes, i);
    [Char64(bits / 0x4_0000), Char64(bits / 0x1000 % 0x40),
     if i + 1 < |bytes| then Char64(bits / 0x40 % 0x40) else PAD, if i + 2 < |bytes| then Char64(bits % 0x40) else PAD]
  }

  function Groups(bytes: seq<Byte>): nat {
    (|bytes| + 2) / 3
  }

  function Encode64(bytes: seq<Byte>, g: nat): (text: seq<Byte>)
    requires g <= Groups(bytes)
    ensures |text| == 4 * (Groups(bytes) - g)
    decreases Groups(bytes) - g
  {
    if g == Groups(bytes) then [] else Quad(bytes, 3 * g) + Encode64(bytes, g + 1)
  }

  ghost predicate QuadAt(text: seq<Byte>, bytes: seq<Byte>, g: nat) {
    3 * g < |bytes| && 4 * g + 4 <= |text| && text[4 * g..4 * g + 4] == Quad(bytes, 3 * g)
  }

  lemma {:induction false} QuadsMake(text: seq<Byte>, bytes: seq<Byte>, g: nat)
    requires g <= Groups(bytes) && |text| == 4 * Groups(bytes)
    requires forall k :: 0 <= k < Groups(bytes) ==> QuadAt(text, bytes, k)
    ensures text[4 * g..] == Encode64(bytes, g)
    decreases Groups(bytes) - g
  {
    hide Quad;
    if g < Groups(bytes) {
      QuadsMake(text, bytes, g + 1);
      assert QuadAt(text, bytes, g);
      CutAt(text, 4 * g, 4 * g + 4);
    }
  }

  lemma QuadKept(before: seq<Byte>, after: seq<Byte>, bytes: seq<Byte>, g: nat, o: nat)
    requires QuadAt(before, bytes, g) && 4 * g + 4 <= o <= |before| == |after| && before[..o] == after[..o]
    ensures QuadAt(after, bytes, g)
  {
    assert after[4 * g..4 * g + 4] == after[..o][4 * g..4 * g + 4];
    assert before[4 * g..4 * g + 4] == before[..o][4 * g..4 * g + 4];
  }

  method PutQuad(bytes: seq<Byte>, g: nat, out: array<Byte>)
    requires 3 * g < |bytes| && 4 * g + 4 <= out.Length
    modifies out
    ensures QuadAt(out[..], bytes, g) && out[..4 * g] == old(out[..4 * g])
  {
    var quad, o := Quad(bytes, 3 * g), 4 * g;
    out[o], out[o + 1], out[o + 2], out[o + 3] := quad[0], quad[1], quad[2], quad[3];
    assert out[..][o..o + 4] == quad;
  }

  method Base64Encode(bytes: seq<Byte>) returns (text: seq<Byte>)
    ensures text == Encode64(bytes, 0)
  {
    var out := new Byte[Groups(bytes) * 4](_ => 0);
    var g := 0;
    while 3 * g < |bytes|
      invariant g <= Groups(bytes)
      invariant forall k :: 0 <= k < g ==> QuadAt(out[..], bytes, k)
    {
      ghost var before := out[..];
      PutQuad(bytes, g, out);
      assert before[..4 * g] == out[..][..4 * g];
      forall k | 0 <= k < g ensures QuadAt(out[..], bytes, k) {
        QuadKept(before, out[..], bytes, k, 4 * g);
      }
      g := g + 1;
    }
    text := out[..];
    QuadsMake(text, bytes, 0);
    assert text[0..] == text;
  }

  // ----- base64, backwards -----

  // A character of the last group that may be '='.
  predicate PadOk(text: seq<Byte>, i: nat, k: nat)
    requires i + 4 <= |text| && k < 4
  {
    i + 4 == |text| && k >= 2 && (k == 2 ==> text[i + 3] == PAD)
  }

  predicate CharOk(text: seq<Byte>, i: nat, k: nat)
    requires i + 4 <= |text| && k < 4
  {
    if text[i + k] == PAD then PadOk(text, i, k) else Value64(text[i + k]) >= 0
  }

  predicate QuadOk(text: seq<Byte>, i: nat)
    requires i + 4 <= |text|
  {
    CharOk(text, i, 0) && CharOk(text, i, 1) && CharOk(text, i, 2) && CharOk(text, i, 3)
  }

  // Six bits; '=' stands for zeros.
  function Bits6(c: Byte): (v: int)
    ensures 0 <= v < 64
  {
    if Value64(c) < 0 then 0 else Value64(c)
  }

  function Bits24(text: seq<Byte>, i: nat): (n: int)
    requires i + 4 <= |text|
    ensures 0 <= n < 0x100_0000
  {
    ((Bits6(text[i]) * 0x40 + Bits6(text[i + 1])) * 0x40 + Bits6(text[i + 2])) * 0x40 + Bits6(text[i + 3])
  }

  function Triple(text: seq<Byte>, i: nat): (t: seq<Byte>)
    requires i + 4 <= |text|
    ensures |t| == 3
  {
    var bits := Bits24(text, i);
    [bits / 0x1_0000, bits / 0x100 % 0x100, bits % 0x100]
  }

  // The bytes of the n groups of text, from group g on.
  function Decode64(text: seq<Byte>, n: nat, g: nat): Option<seq<Byte>>
    requires |text| == 4 * n && g <= n
    decreases n - g
  {
    if g == n then Some([])
    else if !QuadOk(text, 4 * g) then None
    else Prepend(Triple(text, 4 * g), Decode64(text, n, g + 1))
  }

  function Prepend(front: seq<Byte>, rest: Option<seq<Byte>>): Option<seq<Byte>> {
    if rest.None? then None else Some(front + rest.value)
  }

  function Padding(text: seq<Byte>): nat {
    (if |text| >= 1 && text[|text| - 1] == PAD then 1 else 0)
    + (if |text| >= 2 && text[|text| - 2] == PAD then 1 else 0)
  }

  // What base64_decode answers: nothing for text that is not base64.
  function Decoded64(text: seq<Byte>): Option<seq<Byte>> {
    if |text| % 4 != 0 then None
    else
      var all := Decode64(text, |text| / 4, 0);
      if all.None? || |all.value| < Padding(text) then None else Some(all.value[..|all.value| - Padding(text)])
  }

  method CheckQuad(text: seq<Byte>, i: nat) returns (ok: bool)
    requires i + 4 <= |text|
    ensures ok == QuadOk(text, i)
  {
    ok := true;
    for k := 0 to 4
      invariant forall j :: 0 <= j < k ==> CharOk(text, i, j)
    {
      var c := text[i + k];
      if c == PAD {
        var lastGroup := i + 4 == |text|;
        if !lastGroup || k < 2 || (k == 2 && text[i + 3] != PAD) {
          assert !CharOk(text, i, k);
          return false;
        }
      } else if Value64(c) < 0 {
        assert !CharOk(text, i, k);
        return false;
      }
    }
    assert QuadOk(text, i);
  }

  // With `out` decoded from g groups, the rest decides.
  ghost predicate Decoding(text: seq<Byte>, n: nat, g: nat, out: seq<Byte>)
    requires |text| == 4 * n && g <= n
  {
    Decode64(text, n, 0) == Prepend(out, Decode64(text, n, g))
  }

  lemma PrependTwice(a: seq<Byte>, b: seq<Byte>, rest: Option<seq<Byte>>)
    ensures Prepend(a, Prepend(b, rest)) == Prepend(a + b, rest) && Prepend([], rest) == rest
  {
    if rest.Some? {
      Regroup(a, b, rest.value);
      Empties(rest.value);
    }
  }

  lemma DecodingNext(text: seq<Byte>, n: nat, g: nat, out: seq<Byte>)
    requires |text| == 4 * n && g < n && Decoding(text, n, g, out) && QuadOk(text, 4 * g)
    ensures Decoding(text, n, g + 1, out + Triple(text, 4 * g))
  {
    hide Triple, QuadOk;
    PrependTwice(out, Triple(text, 4 * g), Decode64(text, n, g + 1));
  }

  method Base64Decode(text: seq<Byte>) returns (r: Option<seq<Byte>>)
    ensures r == Decoded64(text)
  {
    hide QuadOk, Triple;
    if |text| % 4 != 0 {
      return None;
    }
    var n := |text| / 4;
    PrependTwice([], [], Decode64(text, n, 0));
    var out: seq<Byte> := [];
    var g := 0;
    while 4 * g < |text|
      invariant 0 <= g <= n && |out| == 3 * g && Decoding(text, n, g, out)
    {
      var ok := CheckQuad(text, 4 * g);
      if !ok {
        return None;
      }
      DecodingNext(text, n, g, out);
      out := out + Triple(text, 4 * g);
      g := g + 1;
    }
    Empties(out);
    PaddingFits(text, n);
    r := Some(out[..|out| - Padding(text)]);
  }

  lemma PaddingFits(text: seq<Byte>, n: nat)
    requires |text| == 4 * n
    ensures Padding(text) <= 3 * n
  {
  }

  // ----- decoding undoes encoding -----

  // The bytes from group g on, filled up with zeros.
  function Filled(bytes: seq<Byte>, g: nat): (t: seq<Byte>)
    requires g <= Groups(bytes)
    ensures |t| == 3 * (Groups(bytes) - g)
  {
    seq<Byte>(3 * (Groups(bytes) - g), k requires 0 <= k => ByteAt(bytes, 3 * g + k))
  }

  lemma {:induction false} QuadsOf(bytes: seq<Byte>, g: nat, text: seq<Byte>, from: nat)
    requires from <= g < Groups(bytes) && text == Encode64(bytes, from)
    ensures text[4 * (g - from)..4 * (g - from) + 4] == Quad(bytes, 3 * g)
    decreases g - from
  {
    hide Quad;
    if from < g {
      var rest := Encode64(bytes, from + 1);
      QuadsOf(bytes, g, rest, from + 1);
      var k := 4 * (g - from);
      assert text[k..k + 4] == rest[k - 4..k];
    }
  }

  lemma SplitBits(x: Byte, y: Byte, z: Byte)
    ensures var n := x * 0x1_0000 + y * 0x100 + z;
      && n / 0x1_0000 == x && n / 0x100 % 0x100 == y && n % 0x100 == z
      && ((n / 0x4_0000 * 0x40 + n / 0x1000 % 0x40) * 0x40 + n / 0x40 % 0x40) * 0x40 + n % 0x40 == n
  {
    var n := x * 0x1_0000 + y * 0x100 + z;
    SixMore(n);
    SixMore(n / 0x40);
  }

  // A missing byte leaves zero bits behind it.
  lemma MissingBits(x: Byte, y: Byte)
    ensures (x * 0x1_0000 + y * 0x100) % 0x40 == 0
    ensures (x * 0x1_0000) / 0x40 % 0x40 == 0 && (x * 0x1_0000) % 0x40 == 0
  {
  }

  // One group: its characters are fine, and its bytes are the ones encoded.
  lemma QuadDecodes(bytes: seq<Byte>, i: nat, text: seq<Byte>, o: nat)
    requires i < |bytes| && o + 4 <= |text| && text[o..o + 4] == Quad(bytes, i)
    requires i + 3 > |bytes| ==> o + 4 == |text|
    ensures QuadOk(text, o)
    ensures Triple(text, o) == [ByteAt(bytes, i), ByteAt(bytes, i + 1), ByteAt(bytes, i + 2)]
  {
    var q := Quad(bytes, i);
    assert text[o] == q[0] && text[o + 1] == q[1] && text[o + 2] == q[2] && text[o + 3] == q[3];
    var bits := Group24(bytes, i);
    CharInverts(bits / 0x4_0000);
    CharInverts(bits / 0x1000 % 0x40);
    CharInverts(bits / 0x40 % 0x40);
    CharInverts(bits % 0x40);
    SplitBits(ByteAt(bytes, i), ByteAt(bytes, i + 1), ByteAt(bytes, i + 2));
    MissingBits(ByteAt(bytes, i), ByteAt(bytes, i + 1));
    assert Bits24(text, o) == Group24(bytes, i);
  }

  lemma CharInverts(v: int)
    requires 0 <= v < 64
    ensures Value64(Char64(v)) == v
  {
  }

  lemma FilledNext(bytes: seq<Byte>, g: nat)
    requires g < Groups(bytes)
    ensures Filled(bytes, g)
      == [ByteAt(bytes, 3 * g), ByteAt(bytes, 3 * g + 1), ByteAt(bytes, 3 * g + 2)] + Filled(bytes, g + 1)
  {
  }

  // Encoded text decodes to the bytes and the zeros they were filled up with.
  lemma {:induction false} DecodesFilled(bytes: seq<Byte>, text: seq<Byte>, n: nat, g: nat)
    requires text == Encode64(bytes, 0) && n == Groups(bytes) && g <= n
    ensures Decode64(text, n, g) == Some(Filled(bytes, g))
    decreases n - g
  {
    hide Quad, QuadOk, Triple, ByteAt, Encode64;
    if g < n {
      DecodesFilled(bytes, text, n, g + 1);
      QuadsOf(bytes, g, text, 0);
      GroupBounds(bytes);
      QuadDecodes(bytes, 3 * g, text, 4 * g);
      FilledNext(bytes, g);
    } else {
      assert Filled(bytes, g) == [];
    }
  }

  lemma GroupBounds(bytes: seq<Byte>)
    ensures 3 * Groups(bytes) - 2 <= |bytes| <= 3 * Groups(bytes)
  {
  }

  lemma QuadPads(bytes: seq<Byte>, i: nat)
    requires i < |bytes|
    ensures Quad(bytes, i)[2] == PAD <==> i + 1 >= |bytes|
    ensures Quad(bytes, i)[3] == PAD <==> i + 2 >= |bytes|
  {
  }

  // How the last group ends.
  lemma LastQuad(bytes: seq<Byte>, text: seq<Byte>, g: nat)
    requires g + 1 == Groups(bytes) && text == Encode64(bytes, 0)
    ensures |text| == 4 * g + 4
    ensures text[4 * g + 3] == PAD <==> |bytes| < 3 * g + 3
    ensures text[4 * g + 2] == PAD <==> |bytes| < 3 * g + 2
  {
    hide Quad, Encode64;
    GroupBounds(bytes);
    QuadsOf(bytes, g, text, 0);
    QuadPads(bytes, 3 * g);
    var last := text[4 * g..4 * g + 4];
    assert last[2] == text[4 * g + 2] && last[3] == text[4 * g + 3];
  }

  // The padding says how many those zeros are.
  lemma PaddingIsFilling(bytes: seq<Byte>, text: seq<Byte>)
    requires text == Encode64(bytes, 0)
    ensures Padding(text) == 3 * Groups(bytes) - |bytes|
  {
    hide *;
    GroupBounds(bytes);
    if bytes != [] {
      LastQuad(bytes, text, Groups(bytes) - 1);
      PadsCount(text, |bytes|, Groups(bytes) - 1);
    } else {
      NoPads(bytes, text);
    }
  }

  lemma NoPads(bytes: seq<Byte>, text: seq<Byte>)
    requires bytes == [] && text == Encode64(bytes, 0)
    ensures Padding(text) == 0 == Groups(bytes)
  {
  }

  lemma PadsCount(text: seq<Byte>, n: nat, g: nat)
    requires |text| == 4 * g + 4 && 3 * g < n <= 3 * g + 3
    requires text[4 * g + 3] == PAD <==> n < 3 * g + 3
    requires text[4 * g + 2] == PAD <==> n < 3 * g + 2
    ensures Padding(text) == 3 * (g + 1) - n
  {
  }

  lemma FilledStarts(bytes: seq<Byte>)
    ensures |bytes| <= |Filled(bytes, 0)| && Filled(bytes, 0)[..|bytes|] == bytes
  {
    GroupBounds(bytes);
    var x := Filled(bytes, 0)[..|bytes|];
    forall k | 0 <= k < |bytes| ensures x[k] == bytes[k] {
      assert x[k] == Filled(bytes, 0)[k] == ByteAt(bytes, 3 * 0 + k);
    }
  }

  lemma TakeFilled(text: seq<Byte>, n: nat, filled: seq<Byte>, bytes: seq<Byte>)
    requires |text| == 4 * n && Decode64(text, n, 0) == Some(filled)
    requires |bytes| <= |filled| && |filled| == |bytes| + Padding(text) && filled[..|bytes|] == bytes
    ensures Decoded64(text) == Some(bytes)
  {
    hide Decode64, Padding;
  }

  lemma Base64RoundTrip(bytes: seq<Byte>)
    ensures Decoded64(Encode64(bytes, 0)) == Some(bytes)
  {
    hide *;
    var text := Encode64(bytes, 0);
    DecodesFilled(bytes, text, Groups(bytes), 0);
    PaddingIsFilling(bytes, text);
    FilledStarts(bytes);
    TakeFilled(text, Groups(bytes), Filled(bytes, 0), bytes);
  }

  // Exactly the texts of whole groups of base64 characters decode, '=' being
  // allowed in the last two places only, and before the last only if it is last.
  lemma {:induction false} DecodesIff(text: seq<Byte>, n: nat, g: nat)
    requires |text| == 4 * n && g <= n
    ensures Decode64(text, n, g).Some? <==> forall k :: 4 * g <= k < |text| ==> Acceptable(text, k)
    ensures Decode64(text, n, g).Some? ==> |Decode64(text, n, g).value| == 3 * (n - g)
    decreases n - g
  {
    hide Triple;
    if g < n {
      var i := 4 * g;
      DecodesIff(text, n, g + 1);
      assert QuadOk(text, i) <==>
        Acceptable(text, i) && Acceptable(text, i + 1) && Acceptable(text, i + 2) && Acceptable(text, i + 3);
    }
  }

  predicate Acceptable(text: seq<Byte>, k: nat)
    requires k < |text|
  {
    if text[k] == PAD then k + 2 >= |text| && text[|text| - 1] == PAD else Value64(text[k]) >= 0
  }

  lemma Base64Accepts(text: seq<Byte>)
    ensures Decoded64(text).Some? <==> |text| % 4 == 0 && forall k :: 0 <= k < |text| ==> Acceptable(text, k)
  {
    hide Decode64, Acceptable, Padding;
    if |text| % 4 == 0 {
      DecodesIff(text, |text| / 4, 0);
      PaddingFits(text, |text| / 4);
    }
  }

  // ----- hex -----

  // HEX_DIGITS
  function HexDigit(v: int): Byte
    requires 0 <= v < 16
  {
    if v < 10 then 0x30 + v else 0x61 + (v - 10)
  }

  function HexValue(c: Byte): (v: int)
    ensures -1 <= v < 16
  {
    if 0x30 <= c <= 0x39 then c - 0x30
    else if 0x61 <= c <= 0x66 then c - 0x61 + 10
    else if 0x41 <= c <= 0x46 then c - 0x41 + 10
    else -1
  }

  // A digit's character is the one in its place among 0 to 9 and a to f; A to F are read too.
  lemma HexIsPlace(c: Byte, v: int)
    requires 0 <= v < 16
    ensures HexDigit(v) == (Row('0', 10) + Row('a', 6))[v]
    ensures HexValue(c) == v <==> c == (Row('0', 10) + Row('a', 6))[v] || c == (Row('0', 10) + Row('A', 6))[v]
  {
  }

  function Hex(bytes: seq<Byte>): (text: seq<Byte>)
    ensures |text| == 2 * |bytes|
  {
    seq<Byte>(2 * |bytes|, k requires 0 <= k < 2 * |bytes| =>
      HexDigit(if k % 2 == 0 then bytes[k / 2] / 16 else bytes[k / 2] % 16))
  }

  method HexEncode(bytes: seq<Byte>) returns (text: seq<Byte>)
    ensures text == Hex(bytes)
  {
    var out := new Byte[2 * |bytes|](_ => 0);
    for i := 0 to |bytes|
      invariant forall k :: 0 <= k < 2 * i ==> out[k] == Hex(bytes)[k]
    {
      out[2 * i] := HexDigit(bytes[i] / 16);
      out[2 * i + 1] := HexDigit(bytes[i] % 16);
    }
    text := out[..];
  }

  ghost predicate AllHex(text: seq<Byte>) {
    forall k :: 0 <= k < |text| ==> HexValue(text[k]) >= 0
  }

  // Both cases of digits are read; anything else, or an odd one, is refused.
  method HexDecode(text: seq<Byte>) returns (r: Option<seq<Byte>>)
    ensures r.Some? <==> |text| % 2 == 0 && AllHex(text)
    ensures r.Some? ==> 2 * |r.value| == |text|
    ensures r.Some? ==> forall i :: 0 <= i < |r.value| ==>
      r.value[i] == HexValue(text[2 * i]) * 16 + HexValue(text[2 * i + 1])
  {
    if |text| % 2 != 0 {
      return None;
    }
    var out: seq<Byte> := [];
    var i := 0;
    while i < |text|
      invariant 0 <= i <= |text| && i % 2 == 0 && 2 * |out| == i
      invariant forall k :: 0 <= k < i ==> HexValue(text[k]) >= 0
      invariant forall k :: 0 <= k < |out| ==> out[k] == HexValue(text[2 * k]) * 16 + HexValue(text[2 * k + 1])
    {
      var hi, lo := HexValue(text[i]), HexValue(text[i + 1]);
      if hi < 0 || lo < 0 {
        return None;
      }
      out := out + [hi * 16 + lo];
      i := i + 2;
    }
    r := Some(out);
  }

  // What is written in hex is read back, byte for byte.
  lemma HexRoundTrip(bytes: seq<Byte>)
    ensures AllHex(Hex(bytes)) && |Hex(bytes)| % 2 == 0
    ensures forall i :: 0 <= i < |bytes| ==>
      bytes[i] == HexValue(Hex(bytes)[2 * i]) * 16 + HexValue(Hex(bytes)[2 * i + 1])
  {
    forall i | 0 <= i < |bytes|
      ensures bytes[i] == HexValue(Hex(bytes)[2 * i]) * 16 + HexValue(Hex(bytes)[2 * i + 1])
    {
      HexPair(bytes, i);
    }
    forall k | 0 <= k < |Hex(bytes)| ensures HexValue(Hex(bytes)[k]) >= 0 {
      HexPair(bytes, k / 2);
    }
  }

  lemma HexInverts(v: int)
    requires 0 <= v < 16
    ensures HexValue(HexDigit(v)) == v
  {
  }

  lemma HexPair(bytes: seq<Byte>, i: nat)
    requires i < |bytes|
    ensures HexValue(Hex(bytes)[2 * i]) == bytes[i] / 16 && HexValue(Hex(bytes)[2 * i + 1]) == bytes[i] % 16
  {
    HexInverts(bytes[i] / 16);
    HexInverts(bytes[i] % 16);
    assert (2 * i) / 2 == i && (2 * i) % 2 == 0 && (2 * i + 1) / 2 == i && (2 * i + 1) % 2 == 1;
  }

  // ----- split and join -----

  // memcmp: sep is in b at i.
  predicate MatchAt(b: seq<Byte>, sep: seq<Byte>, i: nat) {
    i + |sep| <= |b| && b[i..i + |sep|] == sep
  }

  // The first place at or after i; |b| if there is none.
  function NextMatch(b: seq<Byte>, sep: seq<Byte>, i: nat): (r: nat)
    requires i <= |b|
    ensures i <= r <= |b|
    ensures forall k :: i <= k < r ==> !MatchAt(b, sep, k)
    ensures r < |b| ==> MatchAt(b, sep, r)
    decreases |b| - i
  {
    if i == |b| || MatchAt(b, sep, i) then i else NextMatch(b, sep, i + 1)
  }

  method FindBytes(hay: seq<Byte>, needle: seq<Byte>) returns (r: int)
    ensures r == -1 <==> forall k :: 0 <= k <= |hay| ==> !MatchAt(hay, needle, k)
    ensures r != -1 ==> r >= 0 && MatchAt(hay, needle, r) && forall k :: 0 <= k < r ==> !MatchAt(hay, needle, k)
  {
    if |needle| == 0 {
      assert MatchAt(hay, needle, 0);
      return 0;
    }
    if |needle| > |hay| {
      return -1;
    }
    var i := 0;
    while i + |needle| <= |hay|
      invariant 0 <= i <= |hay|
      invariant forall k :: 0 <= k < i ==> !MatchAt(hay, needle, k)
    {
      if hay[i..i + |needle|] == needle {
        assert MatchAt(hay, needle, i);
        return i;
      }
      i := i + 1;
    }
    r := -1;
  }

  // The pieces of b from `start` on, cut at each place the separator is next
  // found, left to right.
  function SplitFrom(b: seq<Byte>, sep: seq<Byte>, start: nat): (pieces: seq<seq<Byte>>)
    requires start <= |b| && sep != []
    ensures pieces != []
    decreases |b| - start
  {
    var i := NextMatch(b, sep, start);
    if i == |b| then [b[start..]] else [b[start..i]] + SplitFrom(b, sep, i + |sep|)
  }

  // With `out` cut off, what is left from `start` on is still to be split.
  ghost predicate Splitting(b: seq<Byte>, sep: seq<Byte>, start: nat, out: seq<seq<Byte>>)
    requires start <= |b| && sep != []
  {
    out + SplitFrom(b, sep, start) == SplitFrom(b, sep, 0)
  }

  lemma SplitStep(b: seq<Byte>, sep: seq<Byte>, start: nat, i: nat)
    requires start <= i < |b| && sep != [] && NextMatch(b, sep, start) == i
    ensures i + |sep| <= |b| && SplitFrom(b, sep, start) == [b[start..i]] + SplitFrom(b, sep, i + |sep|)
  {
    assert MatchAt(b, sep, i);
  }

  lemma SplittingNext(b: seq<Byte>, sep: seq<Byte>, start: nat, out: seq<seq<Byte>>, i: nat)
    requires start <= i < |b| && sep != [] && NextMatch(b, sep, start) == i
    requires Splitting(b, sep, start, out)
    ensures i + |sep| <= |b| && Splitting(b, sep, i + |sep|, out + [b[start..i]])
  {
    hide NextMatch, MatchAt, SplitFrom;
    SplitStep(b, sep, start, i);
    RegroupPieces(out, [b[start..i]], SplitFrom(b, sep, i + |sep|));
  }

  lemma RegroupPieces(a: seq<seq<Byte>>, b: seq<seq<Byte>>, c: seq<seq<Byte>>)
    ensures a + (b + c) == (a + b) + c && [] + c == c
  {
  }

  method Split(b: seq<Byte>, sep: seq<Byte>) returns (r: Option<seq<seq<Byte>>>)
    ensures r.None? <==> sep == []
    ensures r.Some? ==> r.value == SplitFrom(b, sep, 0)
  {
    if sep == [] {
      return None;
    }
    var out: seq<seq<Byte>> := [];
    var start: nat, i: nat := 0, 0;
    RegroupPieces([], [], SplitFrom(b, sep, 0));
    while i + |sep| <= |b|
      invariant start <= i <= |b|
      invariant NextMatch(b, sep, i) == NextMatch(b, sep, start)
      invariant Splitting(b, sep, start, out)
    {
      if b[i..i + |sep|] == sep {
        SplittingNext(b, sep, start, out, i);
        out := out + [b[start..i]];
        i := i + |sep|;
        start := i;
      } else {
        i := i + 1;
      }
    }
    NoneLeft(b, sep, i);
    r := Some(out + [b[start..]]);
  }

  lemma {:induction false} NoneLeft(b: seq<Byte>, sep: seq<Byte>, i: nat)
    requires i <= |b| && sep != [] && i + |sep| > |b|
    ensures NextMatch(b, sep, i) == |b|
    decreases |b| - i
  {
    if i < |b| {
      NoneLeft(b, sep, i + 1);
    }
  }

  // The parts from k on, with separators between them.
  function Joined(sep: seq<Byte>, parts: seq<seq<Byte>>, k: nat): seq<Byte>
    requires k <= |parts|
    decreases |parts| - k
  {
    if k == |parts| then []
    else (if k > 0 then sep else []) + parts[k] + Joined(sep, parts, k + 1)
  }

  method Join(sep: seq<Byte>, parts: seq<seq<Byte>>) returns (buf: seq<Byte>)
    ensures buf == Joined(sep, parts, 0)
  {
    buf := [];
    var i := 0;
    Empties(Joined(sep, parts, 0));
    while i < |parts|
      invariant 0 <= i <= |parts|
      invariant buf + Joined(sep, parts, i) == Joined(sep, parts, 0)
    {
      Regroup(buf, (if i > 0 then sep else []) + parts[i], Joined(sep, parts, i + 1));
      Regroup(buf, if i > 0 then sep else [], parts[i]);
      if i > 0 && |sep| > 0 {
        buf := buf + sep;
      } else {
        Empties(buf);
      }
      buf := buf + parts[i];
      i := i + 1;
    }
    Empties(buf);
  }

  lemma {:induction false} JoinedTail(sep: seq<Byte>, first: seq<Byte>, rest: seq<seq<Byte>>, k: nat)
    requires 0 < k <= |rest|
    ensures Joined(sep, [first] + rest, k + 1) == Joined(sep, rest, k)
    decreases |rest| - k
  {
    if k < |rest| {
      JoinedTail(sep, first, rest, k + 1);
    }
  }

  lemma JoinedCons(sep: seq<Byte>, first: seq<Byte>, rest: seq<seq<Byte>>)
    requires rest != []
    ensures Joined(sep, [first] + rest, 0) == first + (sep + Joined(sep, rest, 0))
  {
    var all := [first] + rest;
    JoinedTail(sep, first, rest, 1);
    var tail := Joined(sep, rest, 1);
    assert Joined(sep, all, 1) == sep + rest[0] + tail;
    assert Joined(sep, rest, 0) == [] + rest[0] + tail;
    Empties(rest[0]);
    Empties(first);
    Regroup(sep, rest[0], tail);
  }

  lemma LastJoined(sep: seq<Byte>, last: seq<Byte>)
    ensures Joined(sep, [last], 0) == last
  {
    assert Joined(sep, [last], 1) == [];
    Empties(last);
  }

  lemma CutTwice(b: seq<Byte>, i: nat, j: nat, k: nat)
    requires i <= j <= k <= |b|
    ensures b[i..j] + (b[j..k] + b[k..]) == b[i..]
  {
    CutAt(b, j, k);
    CutAt(b, i, j);
  }

  // Joining the pieces gives the bytes back.
  lemma {:induction false} SplitThenJoin(b: seq<Byte>, sep: seq<Byte>, start: nat)
    requires start <= |b| && sep != []
    ensures Joined(sep, SplitFrom(b, sep, start), 0) == b[start..]
    decreases |b| - start
  {
    hide Joined, NextMatch;
    var i := NextMatch(b, sep, start);
    if i == |b| {
      LastJoined(sep, b[start..]);
    } else {
      SplitThenJoin(b, sep, i + |sep|);
      JoinedCons(sep, b[start..i], SplitFrom(b, sep, i + |sep|));
      CutTwice(b, start, i, i + |sep|);
    }
  }

  lemma MatchInside(b: seq<Byte>, sep: seq<Byte>, start: nat, end: nat, q: nat)
    requires start <= end <= |b| && MatchAt(b[start..end], sep, q)
    ensures MatchAt(b, sep, start + q)
  {
    SliceOfSlice(b, start, end, q, q + |sep|);
  }

  lemma SliceOfSlice(b: seq<Byte>, start: nat, end: nat, lo: nat, hi: nat)
    requires start <= end <= |b| && lo <= hi <= end - start
    ensures b[start..end][lo..hi] == b[start + lo..start + hi]
  {
    var x, y := b[start..end][lo..hi], b[start + lo..start + hi];
    assert |x| == |y|;
    forall k | 0 <= k < |x| ensures x[k] == y[k] {
      assert x[k] == b[start..end][lo + k];
    }
  }

  // No piece contains the separator; nor is it found across the end of a piece
  // before the place where it was cut out, so it was cut at the first place.
  lemma {:induction false} PiecesAreFree(b: seq<Byte>, sep: seq<Byte>, start: nat, p: nat, q: nat)
    requires start <= |b| && sep != [] && p < |SplitFrom(b, sep, start)|
    ensures !MatchAt(SplitFrom(b, sep, start)[p], sep, q)
    ensures p + 1 < |SplitFrom(b, sep, start)| && MatchAt(SplitFrom(b, sep, start)[p] + sep, sep, q) ==>
      q == |SplitFrom(b, sep, start)[p]|
    decreases |b| - start
  {
    var i := NextMatch(b, sep, start);
    if p > 0 {
      PiecesAreFree(b, sep, i + |sep|, p - 1, q);
    } else {
      assert SplitFrom(b, sep, start)[0] == b[start..i];
      FirstIsFree(b, sep, start, i, q);
    }
  }

  lemma FirstIsFree(b: seq<Byte>, sep: seq<Byte>, start: nat, i: nat, q: nat)
    requires start <= i <= |b| && sep != [] && forall k :: start <= k < i ==> !MatchAt(b, sep, k)
    ensures !MatchAt(b[start..i], sep, q)
    ensures i < |b| && MatchAt(b, sep, i) && MatchAt(b[start..i] + sep, sep, q) ==> q == i - start
  {
    if MatchAt(b[start..i], sep, q) {
      MatchInside(b, sep, start, i, q);
    }
    if i < |b| && MatchAt(b, sep, i) && MatchAt(b[start..i] + sep, sep, q) {
      SliceOfSlice(b, start, |b|, i - start, i - start + |sep|);
      assert b[start..i] + sep == b[start..i + |sep|];
      MatchInside(b, sep, start, i + |sep|, q);
    }
  }

  // ----- what the text says -----

  // Section 4 of RFC 4648: the characters for three bytes, as digits to base 64, are the number
  // that the bytes are to base 256; for two bytes or one there are three or two of them, with
  // zero bits added, and '=' in the place of the others.
  lemma QuadSpells(bytes: seq<Byte>, i: nat)
    requires i < |bytes|
    ensures var q, d := Quad(bytes, i), (k requires 0 <= k < 4 => Value64(Quad(bytes, i)[k]));
            var a, b, c := ByteAt(bytes, i) as int, ByteAt(bytes, i + 1) as int, ByteAt(bytes, i + 2);
            var left := |bytes| - i;
            && (q[2] == PAD <==> left < 2) && (q[3] == PAD <==> left < 3)
            && d(0) >= 0 && d(1) >= 0 && (left > 1 ==> d(2) >= 0) && (left > 2 ==> d(3) >= 0)
            && (left > 2 ==> ((d(0) * 64 + d(1)) * 64 + d(2)) * 64 + d(3) == (a * 256 + b) * 256 + c as int)
            && (left == 2 ==> (d(0) * 64 + d(1)) * 64 + d(2) == (a * 256 + b) * 4)
            && (left == 1 ==> d(0) * 64 + d(1) == a * 16)
  {
    var n := Group24(bytes, i);
    CharInverts(n / 0x4_0000);
    CharInverts(n / 0x1000 % 0x40);
    CharInverts(n / 0x40 % 0x40);
    CharInverts(n % 0x40);
    SixBitsEach(n);
  }

  lemma SixBitsEach(n: int)
    requires 0 <= n < 0x100_0000
    ensures ((n / 0x4_0000 * 64 + n / 0x1000 % 0x40) * 64 + n / 0x40 % 0x40) * 64 + n % 0x40 == n
  {
    assert n / 0x1000 == n / 0x40 / 0x40 && n / 0x4_0000 == n / 0x1000 / 0x40;
  }
}
