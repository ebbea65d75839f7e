// UTF-8 as native/da_string.c has it.  Byte masks are written as the ranges and
// remainders they mean: (c & 0xE0) == 0xC0 is 0xC0 <= c < 0xE0, c & 0x0F is
// c % 0x10, and | of parts that share no bit is +.
module Utf8 {

  type Byte = b: int | 0 <= b < 0x100

  // ----- the grammar of section 4 of RFC 3629 -----

  predicate Tail(c: Byte) {
    0x80 <= c <= 0xBF
  }

  // The length of the UTF8-char at s[i]; 0 if there is none.
  function CharLen(s: seq<Byte>, i: nat): (n: nat)
    requires i <= |s|
    ensures n <= 4 && i + n <= |s|
  {
    var left := |s| - i;
    if left >= 1 && s[i] <= 0x7F then 1
    else if left >= 2 && 0xC2 <= s[i] <= 0xDF && Tail(s[i + 1]) then 2
    else if left >= 3 && Tail(s[i + 2]) &&
      ((s[i] == 0xE0 && 0xA0 <= s[i + 1] <= 0xBF) || (0xE1 <= s[i] <= 0xEC && Tail(s[i + 1])) ||
       (s[i] == 0xED && 0x80 <= s[i + 1] <= 0x9F) || (0xEE <= s[i] <= 0xEF && Tail(s[i + 1]))) then 3
    else if left >= 4 && Tail(s[i + 2]) && Tail(s[i + 3]) &&
      ((s[i] == 0xF0 && 0x90 <= s[i + 1] <= 0xBF) || (0xF1 <= s[i] <= 0xF3 && Tail(s[i + 1])) ||
       (s[i] == 0xF4 && 0x80 <= s[i + 1] <= 0x8F)) then 4
    else 0
  }

  // From s[i] on there is nothing but UTF8-chars.
  predicate WellFormed(s: seq<Byte>, i: nat)
    requires i <= |s|
    decreases |s| - i
  {
    i == |s| || (CharLen(s, i) > 0 && WellFormed(s, i + CharLen(s, i)))
  }

  // Code points UTF-8 can encode.
  predicate Scalar(cp: int) {
    0 <= cp <= 0x10FFFF && !(0xD800 <= cp <= 0xDFFF)
  }

  // ----- single sequences -----

  // What the bits of a lead byte say; 0 for a byte that leads nothing.
  function LeadLen(c: Byte): nat {
    if c < 0x80 then 1
    else if 0xC0 <= c < 0xE0 then 2
    else if 0xE0 <= c < 0xF0 then 3
    else if 0xF0 <= c < 0xF8 then 4
    else 0
  }

  // utf8_seq_len: how far a cursor moves, never past the end.
  function SeqLen(s: seq<Byte>, byteLen: nat, offset: nat): (n: nat)
    requires offset < byteLen <= |s|
    ensures 1 <= n && offset + n <= byteLen
  {
    var len := if LeadLen(s[offset]) == 0 then 1 else LeadLen(s[offset]);
    if offset + len > byteLen then byteLen - offset else len
  }

  // c & 0x3F
  function SixLow(c: Byte): (r: int)
    ensures 0 <= r < 0x40
  {
    if c < 0x40 then c else if c < 0x80 then c - 0x40 else if c < 0xC0 then c - 0x80 else c - 0xC0
  }

  // The next six bits of a code point.
  function Packed(high: int, c: Byte): int {
    high * 0x40 + SixLow(c)
  }

  function DecodeCp(s: seq<Byte>, seqLen: nat, i: nat): (cp: int)
    requires 1 <= seqLen <= 4 && i + seqLen <= |s|
    ensures cp >= 0
  {
    if seqLen == 1 then s[i]
    else if seqLen == 2 then Packed(s[i] % 0x20, s[i + 1])
    else if seqLen == 3 then Packed(Packed(s[i] % 0x10, s[i + 1]), s[i + 2])
    else Packed(Packed(Packed(s[i] % 8, s[i + 1]), s[i + 2]), s[i + 3])
  }

  function Encoded(cp: nat): seq<Byte>
    requires cp <= 0x10FFFF
  {
    if cp < 0x80 then [cp]
    else if cp < 0x800 then [0xC0 + cp / 0x40, 0x80 + cp % 0x40]
    else if cp < 0x1_0000 then [0xE0 + cp / 0x1000, 0x80 + cp / 0x40 % 0x40, 0x80 + cp % 0x40]
    else [0xF0 + cp / 0x4_0000, 0x80 + cp / 0x1000 % 0x40, 0x80 + cp / 0x40 % 0x40, 0x80 + cp % 0x40]
  }

  method EncodeCp(cp: nat, out: array<Byte>, o: nat) returns (n: nat)
    requires cp <= 0x10FFFF && o + |Encoded(cp)| <= out.Length
    modifies out
    ensures n == |Encoded(cp)| && out[o..o + n] == Encoded(cp)
    ensures forall k :: 0 <= k < out.Length && !(o <= k < o + n) ==> out[k] == old(out[k])
  {
    if cp < 0x80 {
      out[o] := cp;
      return 1;
    }
    if cp < 0x800 {
      out[o] := 0xC0 + cp / 0x40;
      out[o + 1] := 0x80 + cp % 0x40;
      return 2;
    }
    if cp < 0x1_0000 {
      out[o] := 0xE0 + cp / 0x1000;
      out[o + 1] := 0x80 + cp / 0x40 % 0x40;
      out[o + 2] := 0x80 + cp % 0x40;
      return 3;
    }
    out[o] := 0xF0 + cp / 0x4_0000;
    out[o + 1] := 0x80 + cp / 0x1000 % 0x40;
    out[o + 2] := 0x80 + cp / 0x40 % 0x40;
    out[o + 3] := 0x80 + cp % 0x40;
    return 4;
  }

  // Six bits at a time.
  lemma SixBits(high: int, low: int)
    requires 0 <= high && 0 <= low < 0x40
    ensures (high * 0x40 + low) / 0x40 == high && (high * 0x40 + low) % 0x40 == low
  {
  }

  lemma SixMore(cp: nat)
    ensures cp == cp / 0x40 * 0x40 + cp % 0x40 && cp / 0x1000 == cp / 0x40 / 0x40 && cp / 0x4_0000 == cp / 0x1000 / 0x40
  {
  }

  // Encoding a scalar value gives one UTF8-char, which decodes to it again.
  lemma EncodeThenDecode(cp: nat)
    requires Scalar(cp)
    ensures var e := Encoded(cp);
      |e| <= 4 && CharLen(e, 0) == |e| && DecodeCp(e, |e|, 0) == cp
  {
    SixMore(cp);
    SixMore(cp / 0x40);
    if 0x1_0000 <= cp {
      EncodeFour(cp);
    } else if 0x800 <= cp {
      EncodeThree(cp);
    }
  }

  lemma EncodeThree(cp: nat)
    requires 0x800 <= cp < 0x1_0000 && Scalar(cp)
    ensures CharLen(Encoded(cp), 0) == 3 && DecodeCp(Encoded(cp), 3, 0) == cp
  {
    SixMore(cp);
    SixMore(cp / 0x40);
    var e := Encoded(cp);
    assert e[0] % 0x10 == cp / 0x1000 && SixLow(e[1]) == cp / 0x40 % 0x40 && SixLow(e[2]) == cp % 0x40;
    assert Packed(e[0] % 0x10, e[1]) == cp / 0x40;
  }

  lemma EncodeFour(cp: nat)
    requires 0x1_0000 <= cp <= 0x10FFFF
    ensures CharLen(Encoded(cp), 0) == 4 && DecodeCp(Encoded(cp), 4, 0) == cp
  {
    SixMore(cp);
    SixMore(cp / 0x40);
    SixMore(cp / 0x1000);
    var e := Encoded(cp);
    assert e[0] % 8 == cp / 0x4_0000 && SixLow(e[1]) == cp / 0x1000 % 0x40;
    assert SixLow(e[2]) == cp / 0x40 % 0x40 && SixLow(e[3]) == cp % 0x40;
    assert Packed(e[0] % 8, e[1]) == cp / 0x1000;
    assert Packed(Packed(e[0] % 8, e[1]), e[2]) == cp / 0x40;
  }

  // Continuation bytes from k up to end.
  predicate Continuing(s: seq<Byte>, k: nat, end: nat)
    requires k <= end <= |s|
    decreases end - k
  {
    k == end || (Tail(s[k]) && Continuing(s, k + 1, end))
  }

  // The check string_new_utf8_lossy makes: a lead byte, enough continuation
  // bytes, and a code point that is in range and not spelled too long.
  function ValidLen(s: seq<Byte>, i: nat): (n: nat)
    requires i < |s|
    ensures n <= 4 && i + n <= |s|
  {
    var seqLen := LeadLen(s[i]);
    if seqLen == 0 || i + seqLen > |s| || !Continuing(s, i + 1, i + seqLen) then 0
    else
      var cp := DecodeCp(s, seqLen, i);
      if Refused(cp, seqLen) then 0 else seqLen
  }

  predicate Refused(cp: int, seqLen: nat) {
    (seqLen == 2 && cp < 0x80) || (seqLen == 3 && cp < 0x800) || (seqLen == 4 && cp < 0x1_0000) ||
    0xD800 <= cp <= 0xDFFF || cp > 0x10FFFF
  }

  // That check accepts exactly the grammar, and what it accepts is what the
  // code point it spells is encoded as.
  lemma ValidIsGrammar(s: seq<Byte>, i: nat)
    requires i < |s|
    ensures var n := CharLen(s, i);
      && ValidLen(s, i) == n
      && (n > 0 ==> Scalar(DecodeCp(s, n, i)) && s[i..i + n] == Encoded(DecodeCp(s, n, i)))
  {
    var n := LeadLen(s[i]);
    if n == 2 && i + 2 <= |s| {
      TwoBytes(s, i);
    } else if n == 3 && i + 3 <= |s| {
      ThreeBytes(s, i);
    } else if n == 4 && i + 4 <= |s| {
      FourBytes(s, i);
    }
  }

  lemma TwoBytes(s: seq<Byte>, i: nat)
    requires i + 2 <= |s| && LeadLen(s[i]) == 2
    ensures ValidLen(s, i) == CharLen(s, i)
    ensures CharLen(s, i) > 0 ==> Scalar(DecodeCp(s, 2, i)) && s[i..i + 2] == Encoded(DecodeCp(s, 2, i))
  {
    assert Continuing(s, i + 1, i + 2) <==> Tail(s[i + 1]);
  }

  lemma Three(a: int, b: int, c: int)
    requires 0 <= a < 0x10 && 0 <= b < 0x40 && 0 <= c < 0x40
    ensures var cp := (a * 0x40 + b) * 0x40 + c;
      && cp / 0x1000 == a && cp / 0x40 % 0x40 == b && cp % 0x40 == c && cp < 0x1_0000
      && (cp < 0x800 <==> a == 0 && b < 0x20) && (0xD800 <= cp <= 0xDFFF <==> a == 0xD && b >= 0x20)
  {
    SixBits(a * 0x40 + b, c);
    SixBits(a, b);
    SixMore((a * 0x40 + b) * 0x40 + c);
  }

  lemma ThreeTails(a: Byte, b: Byte, c: Byte)
    requires 0xE0 <= a < 0xF0 && Tail(b) && Tail(c)
    ensures var cp := Packed(Packed(a % 0x10, b), c);
      && (!Refused(cp, 3) <==> (a == 0xE0 && b >= 0xA0) || 0xE1 <= a <= 0xEC || (a == 0xED && b <= 0x9F) || a >= 0xEE)
      && (!Refused(cp, 3) ==> Scalar(cp) && Encoded(cp) == [a, b, c])
  {
    var h, i, j := a - 0xE0, b - 0x80, c - 0x80;
    assert a % 0x10 == h;
    Three(h, i, j);
  }

  lemma ThreeBytes(s: seq<Byte>, i: nat)
    requires i + 3 <= |s| && LeadLen(s[i]) == 3
    ensures ValidLen(s, i) == CharLen(s, i)
    ensures CharLen(s, i) > 0 ==> Scalar(DecodeCp(s, 3, i)) && s[i..i + 3] == Encoded(DecodeCp(s, 3, i))
  {
    var b, c := s[i + 1], s[i + 2];
    assert Continuing(s, i + 2, i + 3) <==> Tail(c);
    assert Continuing(s, i + 1, i + 3) <==> Tail(b) && Tail(c);
    if Tail(b) && Tail(c) {
      ThreeTails(s[i], b, c);
      assert s[i..i + 3] == [s[i], b, c];
    }
  }

  lemma FourDigits(a: int, b: int, c: int, d: int)
    requires 0 <= a < 8 && 0 <= b < 0x40 && 0 <= c < 0x40 && 0 <= d < 0x40
    ensures var cp := ((a * 0x40 + b) * 0x40 + c) * 0x40 + d;
      cp / 0x4_0000 == a && cp / 0x1000 % 0x40 == b && cp / 0x40 % 0x40 == c && cp % 0x40 == d
  {
    var high := a * 0x40 + b;
    SixBits(high * 0x40 + c, d);
    SixBits(high, c);
    SixBits(a, b);
    SixMore((high * 0x40 + c) * 0x40 + d);
    SixMore(high * 0x40 + c);
  }

  lemma Four(a: int, b: int, c: int, d: int, cp: int)
    requires 0 <= a < 8 && 0 <= b < 0x40 && 0 <= c < 0x40 && 0 <= d < 0x40
    requires cp == ((a * 0x40 + b) * 0x40 + c) * 0x40 + d
    ensures cp >= 0 && (cp < 0x1_0000 <==> a == 0 && b < 0x10) && (cp > 0x10FFFF <==> a > 4 || (a == 4 && b >= 0x10))
    ensures 0x1_0000 <= cp <= 0x10FFFF ==> Encoded(cp) == [0xF0 + a, 0x80 + b, 0x80 + c, 0x80 + d]
  {
    FourDigits(a, b, c, d);
  }

  lemma FourTails(a: Byte, b: Byte, c: Byte, d: Byte)
    requires 0xF0 <= a < 0xF8 && Tail(b) && Tail(c) && Tail(d)
    ensures var cp := Packed(Packed(Packed(a % 8, b), c), d);
      && (!Refused(cp, 4) <==> (a == 0xF0 && b >= 0x90) || 0xF1 <= a <= 0xF3 || (a == 0xF4 && b <= 0x8F))
      && (!Refused(cp, 4) ==> Scalar(cp) && Encoded(cp) == [a, b, c, d])
  {
    assert a % 8 == a - 0xF0;
    Four(a - 0xF0, b - 0x80, c - 0x80, d - 0x80, Packed(Packed(Packed(a % 8, b), c), d));
  }

  lemma FourBytes(s: seq<Byte>, i: nat)
    requires i + 4 <= |s| && LeadLen(s[i]) == 4
    ensures ValidLen(s, i) == CharLen(s, i)
    ensures CharLen(s, i) > 0 ==> Scalar(DecodeCp(s, 4, i)) && s[i..i + 4] == Encoded(DecodeCp(s, 4, i))
  {
    var b, c, d := s[i + 1], s[i + 2], s[i + 3];
    assert Continuing(s, i + 3, i + 4) <==> Tail(d);
    assert Continuing(s, i + 2, i + 4) <==> Tail(c) && Tail(d);
    assert Continuing(s, i + 1, i + 4) <==> Tail(b) && Tail(c) && Tail(d);
    if Tail(b) && Tail(c) && Tail(d) {
      FourTails(s[i], b, c, d);
      assert s[i..i + 4] == [s[i], b, c, d];
    }
  }

  // ----- counting -----

  // Code points from i up to byteLen.
  function Count(s: seq<Byte>, byteLen: nat, i: nat): (n: nat)
    requires i <= byteLen <= |s|
    ensures n <= byteLen - i
    decreases byteLen - i
  {
    if i == byteLen then 0 else 1 + Count(s, byteLen, i + SeqLen(s, byteLen, i))
  }

  // Where a cursor at i is after cp moves.
  function Offset(s: seq<Byte>, byteLen: nat, i: nat, cp: nat): (r: nat)
    requires i <= byteLen <= |s|
    ensures i <= r <= byteLen
    decreases cp
  {
    if cp == 0 || i == byteLen then i else Offset(s, byteLen, i + SeqLen(s, byteLen, i), cp - 1)
  }

  method CodepointCount(chars: seq<Byte>, byteLen: nat) returns (count: nat)
    requires byteLen <= |chars|
    ensures count == Count(chars, byteLen, 0)
  {
    var i := 0;
    count := 0;
    while i < byteLen
      invariant i <= byteLen && count + Count(chars, byteLen, i) == Count(chars, byteLen, 0)
    {
      i := i + SeqLen(chars, byteLen, i);
      count := count + 1;
    }
  }

  method ByteOffsetOf(chars: seq<Byte>, byteLen: nat, codepointIdx: nat) returns (i: nat)
    requires byteLen <= |chars|
    ensures i == Offset(chars, byteLen, 0, codepointIdx)
  {
    i := 0;
    var cp := 0;
    while cp < codepointIdx && i < byteLen
      invariant i <= byteLen && cp <= codepointIdx
      invariant Offset(chars, byteLen, i, codepointIdx - cp) == Offset(chars, byteLen, 0, codepointIdx)
    {
      i := i + SeqLen(chars, byteLen, i);
      cp := cp + 1;
    }
  }

  // Cutting where the cursor is after k moves leaves k code points before, or
  // all there are, and the others after: no sequence is cut in two, whatever the
  // bytes.
  lemma {:induction false} CutsBetween(s: seq<Byte>, byteLen: nat, i: nat, k: nat)
    requires i <= byteLen <= |s|
    ensures var cut, all := Offset(s, byteLen, i, k), Count(s, byteLen, i);
      && Count(s, cut, i) == (if k < all then k else all)
      && Count(s, byteLen, cut) == all - Count(s, cut, i)
    decreases k
  {
    if k > 0 && i < byteLen {
      CutsBetween(s, byteLen, i + SeqLen(s, byteLen, i), k - 1);
    }
  }

  // Every code point of well-formed text is counted once; there are as many as
  // bytes exactly when it is all ASCII.
  lemma {:induction false} CountsChars(s: seq<Byte>, i: nat)
    requires i <= |s| && WellFormed(s, i)
    ensures i < |s| ==> Count(s, |s|, i) == 1 + Count(s, |s|, i + CharLen(s, i))
    ensures Count(s, |s|, i) == |s| - i <==> forall k :: i <= k < |s| ==> s[k] < 0x80
    decreases |s| - i
  {
    if i < |s| {
      ValidIsGrammar(s, i);
      CountsChars(s, i + CharLen(s, i));
    }
  }

  // Of any bytes there are as many code points as bytes exactly when none but the last
  // leads a longer sequence; they need not be ASCII.
  lemma {:induction false} AsManyAsBytes(s: seq<Byte>, byteLen: nat, i: nat)
    requires i <= byteLen <= |s|
    ensures Count(s, byteLen, i) == byteLen - i <==> forall k :: i <= k < byteLen - 1 ==> LeadLen(s[k]) <= 1
    decreases byteLen - i
  {
    if i < byteLen {
      AsManyAsBytes(s, byteLen, i + SeqLen(s, byteLen, i));
    }
  }

  // And exactly then is a code point at the byte of its own number, which is what the
  // flag is for.
  lemma FlagIsForOffsets(s: seq<Byte>, byteLen: nat)
    requires byteLen <= |s|
    ensures Count(s, byteLen, 0) == byteLen <==> forall k :: 0 <= k <= byteLen ==> Offset(s, byteLen, 0, k) == k
  {
    if Count(s, byteLen, 0) == byteLen {
      forall k | 0 <= k <= byteLen ensures Offset(s, byteLen, 0, k) == k {
        OneByOne(s, byteLen, 0, k);
      }
    } else {
      CutsBetween(s, byteLen, 0, Count(s, byteLen, 0));
    }
  }

  lemma {:induction false} OneByOne(s: seq<Byte>, byteLen: nat, i: nat, k: nat)
    requires i + k <= byteLen <= |s| && Count(s, byteLen, i) == byteLen - i
    ensures Offset(s, byteLen, i, k) == i + k
    decreases k
  {
    if k > 0 {
      OneByOne(s, byteLen, i + SeqLen(s, byteLen, i), k - 1);
    }
  }

  lemma StrayByteCounts()
    ensures Count([0x80], 1, 0) == 1 && Count([0x41, 0xE9], 2, 0) == 2
  {
    AsManyAsBytes([0x80], 1, 0);
    AsManyAsBytes([0x41, 0xE9], 2, 0);
  }

  // ----- lossy decoding -----

  lemma Empties(t: seq<Byte>)
    ensures [] + t == t && t + [] == t
  {
  }

  lemma Regroup(a: seq<Byte>, b: seq<Byte>, c: seq<Byte>)
    ensures a + (b + c) == (a + b) + c
  {
  }

  lemma CutAt(s: seq<Byte>, i: nat, j: nat)
    requires i <= j <= |s|
    ensures s[i..j] + s[j..] == s[i..]
  {
  }

  // U+FFFD
  const REPLACEMENT: seq<Byte> := [0xEF, 0xBF, 0xBD]

  // What the bytes at i become, and how many of them those are: a UTF8-char
  // stays, any other byte is replaced.
  function Piece(s: seq<Byte>, i: nat): (p: seq<Byte>)
    requires i < |s|
    ensures |p| <= 3 * Advance(s, i)
  {
    if CharLen(s, i) > 0 then s[i..i + CharLen(s, i)] else REPLACEMENT
  }

  function Advance(s: seq<Byte>, i: nat): (n: nat)
    requires i < |s|
    ensures 1 <= n <= 4 && i + n <= |s|
  {
    if CharLen(s, i) > 0 then CharLen(s, i) else 1
  }

  function Lossy(s: seq<Byte>, i: nat): (t: seq<Byte>)
    requires i <= |s|
    ensures |t| <= 3 * (|s| - i)
    decreases |s| - i
  {
    if i == |s| then [] else Piece(s, i) + Lossy(s, i + Advance(s, i))
  }

  // A byte that starts no UTF8-char becomes U+FFFD, and no byte after it goes with it.
  lemma BadByteIsReplaced(s: seq<Byte>, i: nat)
    requires i < |s|
    ensures Lossy(s, i) == if CharLen(s, i) == 0 then Encoded(0xFFFD) + Lossy(s, i + 1)
                           else s[i..i + CharLen(s, i)] + Lossy(s, i + CharLen(s, i))
  {
    assert Encoded(0xFFFD) == [0xEF, 0xBF, 0xBD];
  }

  lemma {:induction false} AfterPrefix(c: seq<Byte>, t: seq<Byte>, j: nat)
    requires j <= |t|
    ensures WellFormed(c + t, |c| + j) <==> WellFormed(t, j)
    decreases |t| - j
  {
    if j < |t| {
      assert CharLen(c + t, |c| + j) == CharLen(t, j);
      if CharLen(t, j) > 0 {
        AfterPrefix(c, t, j + CharLen(t, j));
      }
    }
  }

  // One UTF8-char and well-formed text make well-formed text.
  lemma PrependChar(c: seq<Byte>, t: seq<Byte>)
    requires c != [] && CharLen(c, 0) == |c|
    ensures WellFormed(c + t, 0) <==> WellFormed(t, 0)
  {
    assert CharLen(c + t, 0) == |c|;
    AfterPrefix(c, t, 0);
  }

  lemma PieceIsChar(s: seq<Byte>, i: nat)
    requires i < |s|
    ensures CharLen(Piece(s, i), 0) == |Piece(s, i)| > 0
  {
  }

  lemma {:induction false} LossyIsWellFormed(s: seq<Byte>, i: nat)
    requires i <= |s|
    ensures WellFormed(Lossy(s, i), 0)
    decreases |s| - i
  {
    if i < |s| {
      LossyIsWellFormed(s, i + Advance(s, i));
      PieceIsChar(s, i);
      PrependChar(Piece(s, i), Lossy(s, i + Advance(s, i)));
    }
  }

  lemma {:induction false} LossyKeepsWellFormed(s: seq<Byte>, i: nat)
    requires i <= |s| && WellFormed(s, i)
    ensures Lossy(s, i) == s[i..]
    decreases |s| - i
  {
    if i < |s| {
      var j := i + Advance(s, i);
      LossyKeepsWellFormed(s, j);
      CutAt(s, i, j);
      assert Piece(s, i) == s[i..j];
      hide Piece, WellFormed, Advance;
    }
  }

  // Decoding what has been decoded changes nothing; and only well-formed text is
  // left as it is.
  lemma LossyIdempotent(s: seq<Byte>)
    ensures Lossy(Lossy(s, 0), 0) == Lossy(s, 0)
    ensures Lossy(s, 0) == s <==> WellFormed(s, 0)
  {
    LossyIsWellFormed(s, 0);
    LossyKeepsWellFormed(Lossy(s, 0), 0);
    if WellFormed(s, 0) {
      LossyKeepsWellFormed(s, 0);
    }
  }

  // A string of the heap: its bytes and what is counted of them.
  datatype ObjString = ObjString(chars: seq<Byte>, codepointCount: nat, isAscii: bool)

  method StringNew(chars: seq<Byte>) returns (s: ObjString)
    ensures s.chars == chars && s.codepointCount == Count(chars, |chars|, 0)
    ensures s.isAscii <==> forall k :: 0 <= k < |chars| - 1 ==> LeadLen(chars[k]) <= 1
  {
    var n := CodepointCount(chars, |chars|);
    AsManyAsBytes(chars, |chars|, 0);
    s := ObjString(chars, n, n == |chars|);
  }

  method Continues(bytes: seq<Byte>, i: nat, seqLen: nat) returns (valid: bool)
    requires i + seqLen <= |bytes| && seqLen > 0
    ensures valid == Continuing(bytes, i + 1, i + seqLen)
  {
    valid := true;
    for k := 1 to seqLen
      invariant Continuing(bytes, i + k, i + seqLen) == Continuing(bytes, i + 1, i + seqLen)
    {
      if !Tail(bytes[i + k]) {
        return false;
      }
    }
  }

  method SequenceAt(bytes: seq<Byte>, i: nat) returns (n: nat)
    requires i < |bytes|
    ensures n == CharLen(bytes, i)
  {
    ValidIsGrammar(bytes, i);
    var seqLen := LeadLen(bytes[i]);
    var valid := seqLen > 0 && i + seqLen <= |bytes|;
    if valid {
      valid := Continues(bytes, i, seqLen);
    }
    if valid && Refused(DecodeCp(bytes, seqLen, i), seqLen) {
      valid := false;
    }
    n := if valid then seqLen else 0;
  }

  // One turn of the decoding loop.
  method Emit(bytes: seq<Byte>, i: nat, out: array<Byte>, o: nat) returns (n: nat, seen: nat)
    requires i < |bytes| && o + 3 * (|bytes| - i) <= out.Length
    modifies out
    ensures seen == Advance(bytes, i) && n == |Piece(bytes, i)| && o + n <= out.Length
    ensures out[..o + n] == old(out[..o]) + Piece(bytes, i)
  {
    var seqLen := SequenceAt(bytes, i);
    ghost var before := out[..o];
    if seqLen > 0 {
      forall k | 0 <= k < seqLen { out[o + k] := bytes[i + k]; }
      assert out[..o + seqLen] == before + bytes[i..i + seqLen];
      return seqLen, seqLen;
    }
    assert Encoded(0xFFFD) == REPLACEMENT;
    n := EncodeCp(0xFFFD, out, o);
    assert out[..o + n] == before + REPLACEMENT;
    return n, 1;
  }

  // After i bytes, `done` is what they have become.
  ghost predicate Done(bytes: seq<Byte>, i: nat, done: seq<Byte>)
    requires i <= |bytes|
  {
    done + Lossy(bytes, i) == Lossy(bytes, 0)
  }

  lemma DoneNext(bytes: seq<Byte>, i: nat, done: seq<Byte>)
    requires i < |bytes| && Done(bytes, i, done)
    ensures Done(bytes, i + Advance(bytes, i), done + Piece(bytes, i))
  {
    Regroup(done, Piece(bytes, i), Lossy(bytes, i + Advance(bytes, i)));
  }

  lemma DoneFirstLast(bytes: seq<Byte>, done: seq<Byte>)
    ensures Done(bytes, 0, [])
    ensures Done(bytes, |bytes|, done) ==> done == Lossy(bytes, 0)
  {
    Empties(Lossy(bytes, 0));
    Empties(done);
  }

  // The output fits the 3 * len + 1 bytes set aside for it.
  method LossyBytes(bytes: seq<Byte>) returns (chars: seq<Byte>)
    ensures chars == Lossy(bytes, 0)
  {
    hide Lossy, Piece, Advance, Done;
    var out := new Byte[3 * |bytes| + 1](_ => 0);
    var o, i := 0, 0;
    ghost var done: seq<Byte> := [];
    DoneFirstLast(bytes, done);
    while i < |bytes|
      invariant 0 <= i <= |bytes| && 0 <= o <= 3 * i
      invariant out[..o] == done && Done(bytes, i, done)
    {
      DoneNext(bytes, i, done);
      done := done + Piece(bytes, i);
      var n, seen := Emit(bytes, i, out, o);
      o, i := o + n, i + seen;
    }
    chars := out[..o];
    DoneFirstLast(bytes, done);
  }

  method StringNewUtf8Lossy(bytes: seq<Byte>) returns (s: ObjString)
    ensures s.chars == Lossy(bytes, 0) && s.codepointCount == Count(s.chars, |s.chars|, 0)
    ensures s.isAscii <==> forall k :: 0 <= k < |s.chars| ==> s.chars[k] < 0x80
  {
    var chars := LossyBytes(bytes);
    s := StringNew(chars);
    hide *;
    AsManyAsBytes(chars, |chars|, 0);
    LossyIsWellFormed(bytes, 0);
    CountsChars(chars, 0);
  }
}
