/**
  Which characters the escapes stand for, and which bytes the code points: spelled out by tables, divisions and places,
  and compared with what the parser and the printer do.
 */
module JsonEscapes {
  import opened Wrappers
  import opened JsonText
  import opened JsonUtf8
  import opened JsonParse

  // ---------- four hexadecimal digits ----------

  const LOWER: string := "0123456789abcdef"
  const UPPER: string := "0123456789ABCDEF"

  /** c is the digit of value d, in either case. */
  predicate IsHex(c: char, d: nat)
    requires d < 16
  {
    c == LOWER[d] || c == UPPER[d]
  }

  /** The text begins with the four digits of u, highest first. */
  predicate Spells(s: string, u: nat) {
    && |s| >= 4 && u < 0x10000
    && IsHex(s[0], u / 0x1000 % 16) && IsHex(s[1], u / 0x100 % 16) && IsHex(s[2], u / 0x10 % 16) && IsHex(s[3], u % 16)
  }

  lemma HexExactly(c: char, d: nat)
    requires d < 16
    ensures IsHex(c, d) <==> HexDigit(c) == Some(d)
  {
  }

  lemma DigitsExactly(u: nat, w: nat, x: nat, y: nat, z: nat)
    requires w < 16 && x < 16 && y < 16 && z < 16 && u < 0x10000
    ensures u == ((w * 16 + x) * 16 + y) * 16 + z <==>
            w == u / 0x1000 % 16 && x == u / 0x100 % 16 && y == u / 0x10 % 16 && z == u % 16
  {
    assert u / 0x1000 % 16 == u / 0x1000;
    assert u / 0x100 == u / 0x1000 * 16 + u / 0x100 % 16;
    assert u / 0x10 == u / 0x100 * 16 + u / 0x10 % 16;
    assert u == u / 0x10 * 16 + u % 16;
  }

  lemma Hex4Exactly(s: string, u: nat)
    ensures Hex4(s) == Some(u) <==> Spells(s, u)
  {
    if |s| >= 4 && u < 0x10000 {
      HexExactly(s[0], u / 0x1000 % 16);
      HexExactly(s[1], u / 0x100 % 16);
      HexExactly(s[2], u / 0x10 % 16);
      HexExactly(s[3], u % 16);
      if forall i :: 0 <= i < 4 ==> HexDigit(s[i]).Some? {
        DigitsExactly(u, HexOf(s[0]), HexOf(s[1]), HexOf(s[2]), HexOf(s[3]));
      }
    }
  }

  // ---------- escapes of code points ----------

  predicate IsSurrogate(cp: nat) { 0xD800 <= cp <= 0xDFFF }

  /** The text begins with the pair of escapes for cp of section 2.2 of RFC 2781, without the first backslash and u. */
  predicate SpellsPair(s: string, cp: nat) {
    && |s| >= 10 && 0x10000 <= cp <= 0x10FFFF
    && Spells(s, 0xD800 + (cp - 0x10000) / 0x400)
    && s[4] == '\\' && s[5] == 'u' && Spells(s[6..], 0xDC00 + (cp - 0x10000) % 0x400)
  }

  lemma CombineExactly(lead: nat, trail: nat, cp: nat)
    requires IsLead(lead) && IsTrail(trail) && 0x10000 <= cp <= 0x10FFFF
    ensures Combine(lead, trail) == cp <==>
            lead == 0xD800 + (cp - 0x10000) / 0x400 && trail == 0xDC00 + (cp - 0x10000) % 0x400
  {
    var v := cp - 0x10000;
    assert v == v / 0x400 * 0x400 + v % 0x400;
  }

  /** The text begins with the four digits of a code point that is no surrogate. */
  predicate SpellsSingle(s: string, cp: nat) { !IsSurrogate(cp) && Spells(s, cp) }

  lemma SingleExactly(s: string, cp: nat)
    ensures ParseUtf16(s) == Some(Utf16(cp, 4)) <==> SpellsSingle(s, cp)
  {
    Hex4Exactly(s, cp);
  }

  lemma PairParts(s: string, cp: nat) returns (lead: nat, trail: nat)
    requires ParseUtf16(s) == Some(Utf16(cp, 10))
    ensures |s| >= 10 && s[4] == '\\' && s[5] == 'u' && IsLead(lead) && IsTrail(trail)
    ensures Hex4(s) == Some(lead) && Hex4(s[6..]) == Some(trail) && cp == Combine(lead, trail)
  {
    lead, trail := Hex4(s).value, Hex4(s[6..]).value;
  }

  lemma PairMade(s: string, lead: nat, trail: nat)
    requires |s| >= 10 && s[4] == '\\' && s[5] == 'u' && IsLead(lead) && IsTrail(trail)
    requires Hex4(s) == Some(lead) && Hex4(s[6..]) == Some(trail)
    ensures ParseUtf16(s) == Some(Utf16(Combine(lead, trail), 10))
  {
    hide Hex4;
  }

  lemma PairExactly(s: string, cp: nat)
    ensures ParseUtf16(s) == Some(Utf16(cp, 10)) <==> SpellsPair(s, cp)
  {
    hide ParseUtf16, Hex4, Spells, Combine;
    if ParseUtf16(s) == Some(Utf16(cp, 10)) {
      var lead, trail := PairParts(s, cp);
      CombineExactly(lead, trail, cp);
      Hex4Exactly(s, lead);
      Hex4Exactly(s[6..], trail);
    }
    if SpellsPair(s, cp) {
      var lead, trail := 0xD800 + (cp - 0x10000) / 0x400, 0xDC00 + (cp - 0x10000) % 0x400;
      CombineExactly(lead, trail, cp);
      Hex4Exactly(s, lead);
      Hex4Exactly(s[6..], trail);
      PairMade(s, lead, trail);
    }
  }

  /**
    What an escape stands for, exactly: four hexadecimal digits in either case spell a code point outside the
    surrogates, a surrogate pair one beyond 16 bits, and nothing else is accepted.
   */
  lemma EscapeExactly(s: string)
    ensures forall cp :: ParseUtf16(s) == Some(Utf16(cp, 4)) <==> SpellsSingle(s, cp)
    ensures forall cp :: ParseUtf16(s) == Some(Utf16(cp, 10)) <==> SpellsPair(s, cp)
    ensures ParseUtf16(s).Some? <==> (exists cp :: SpellsSingle(s, cp)) || (exists cp :: SpellsPair(s, cp))
  {
    hide SpellsSingle, SpellsPair;
    forall cp: nat ensures ParseUtf16(s) == Some(Utf16(cp, 4)) <==> SpellsSingle(s, cp) {
      SingleExactly(s, cp);
    }
    forall cp: nat ensures ParseUtf16(s) == Some(Utf16(cp, 10)) <==> SpellsPair(s, cp) {
      PairExactly(s, cp);
    }
    if ParseUtf16(s).Some? {
      var e := ParseUtf16(s).value;
      assert ParseUtf16(s) == Some(Utf16(e.cp, e.taken));
      assert SpellsSingle(s, e.cp) || SpellsPair(s, e.cp);
    }
  }

  // ---------- bytes of a code point ----------

  /** b is the encoding of cp of section 3 of RFC 3629: each byte carries its mark and its bits. */
  predicate IsUtf8(b: string, cp: nat) {
    !IsSurrogate(cp) &&
    if |b| == 1 then cp < 0x80 && Code(b[0]) == cp
    else if |b| == 2 then
      && 0x80 <= cp < 0x800 && Code(b[0]) >= 0xC0 && 0x80 <= Code(b[1]) < 0xC0
      && cp == (Code(b[0]) - 0xC0) * 0x40 + (Code(b[1]) - 0x80)
    else if |b| == 3 then
      && 0x800 <= cp < 0x10000 && Code(b[0]) >= 0xE0 && 0x80 <= Code(b[1]) < 0xC0 && 0x80 <= Code(b[2]) < 0xC0
      && cp == (Code(b[0]) - 0xE0) * 0x1000 + (Code(b[1]) - 0x80) * 0x40 + (Code(b[2]) - 0x80)
    else
      && |b| == 4 && 0x10000 <= cp <= 0x10FFFF && Code(b[0]) >= 0xF0
      && 0x80 <= Code(b[1]) < 0xC0 && 0x80 <= Code(b[2]) < 0xC0 && 0x80 <= Code(b[3]) < 0xC0
      && cp == (Code(b[0]) - 0xF0) * 0x40000 + (Code(b[1]) - 0x80) * 0x1000 + (Code(b[2]) - 0x80) * 0x40
               + (Code(b[3]) - 0x80)
  }

  lemma ContBits(c: char)
    requires IsCont(c)
    ensures Low6(c) == Code(c) - 0x80
  {
  }

  lemma SoundThree(s: string, cp: nat)
    requires s != "" && Verify(s) == Some((3, cp))
    ensures 3 <= |s| && IsUtf8(s[..3], cp)
  {
    ContBits(At(s, 1));
    ContBits(At(s, 2));
    assert Code(s[0]) % 0x10 == Code(s[0]) - 0xE0;
  }

  lemma SoundFour(s: string, cp: nat)
    requires s != "" && Verify(s) == Some((4, cp))
    ensures 4 <= |s| && IsUtf8(s[..4], cp)
  {
    ContBits(At(s, 1));
    ContBits(At(s, 2));
    ContBits(At(s, 3));
    assert Code(s[0]) % 8 == Code(s[0]) - 0xF0;
  }

  lemma VerifySound(s: string, n: nat, cp: nat)
    requires s != "" && Verify(s) == Some((n, cp))
    ensures 0 < n <= |s| && IsUtf8(s[..n], cp)
  {
    if n == 4 {
      SoundFour(s, cp);
    } else if n == 3 {
      SoundThree(s, cp);
    } else if n == 2 {
      ContBits(At(s, 1));
    }
  }

  lemma CompleteTwo(s: string, cp: nat)
    requires 2 <= |s| && IsUtf8(s[..2], cp)
    ensures Verify(s) == Some((2, cp))
  {
    assert s[..2][0] == s[0] && s[..2][1] == s[1];
    ContBits(s[1]);
  }

  lemma CompleteThree(s: string, cp: nat)
    requires 3 <= |s| && IsUtf8(s[..3], cp)
    ensures Verify(s) == Some((3, cp))
  {
    assert s[..3][0] == s[0] && s[..3][1] == s[1] && s[..3][2] == s[2];
    ContBits(s[1]);
    ContBits(s[2]);
    assert Code(s[0]) % 0x10 == Code(s[0]) - 0xE0;
  }

  lemma CompleteFour(s: string, cp: nat)
    requires 4 <= |s| && IsUtf8(s[..4], cp)
    ensures Verify(s) == Some((4, cp))
  {
    assert s[..4][0] == s[0] && s[..4][1] == s[1] && s[..4][2] == s[2] && s[..4][3] == s[3];
    ContBits(s[1]);
    ContBits(s[2]);
    ContBits(s[3]);
    assert Code(s[0]) % 8 == Code(s[0]) - 0xF0;
  }

  lemma VerifyComplete(s: string, n: nat, cp: nat)
    requires 0 < n <= |s| && IsUtf8(s[..n], cp)
    ensures Verify(s) == Some((n, cp))
  {
    if n == 2 {
      CompleteTwo(s, cp);
    } else if n == 3 {
      CompleteThree(s, cp);
    } else if n == 4 {
      CompleteFour(s, cp);
    } else {
      assert s[..n][0] == s[0];
    }
  }

  /**
    Exactly the encodings of RFC 3629 are accepted: nothing cut short, overlong, beyond 0x10FFFF or of a surrogate.
   */
  lemma VerifyExactly(s: string, n: nat, cp: nat)
    requires s != ""
    ensures Verify(s) == Some((n, cp)) <==> 0 < n <= |s| && IsUtf8(s[..n], cp)
  {
    if Verify(s) == Some((n, cp)) {
      VerifySound(s, n, cp);
    }
    if 0 < n <= |s| && IsUtf8(s[..n], cp) {
      VerifyComplete(s, n, cp);
    }
  }

  /** The encoding of a code point, which is the only one. */
  lemma BytesExactly(cp: nat, b: string)
    requires cp <= 0x10FFFF && !IsSurrogate(cp)
    ensures b == Bytes(cp) <==> IsUtf8(b, cp)
  {
    VerifyOfBytes(cp, "");
    assert Bytes(cp) + "" == Bytes(cp);
    VerifySound(Bytes(cp), |Bytes(cp)|, cp);
    assert Bytes(cp)[..|Bytes(cp)|] == Bytes(cp);
    if IsUtf8(b, cp) {
      OneEncoding(b, Bytes(cp), cp);
    }
  }

  lemma SixBitsOnce(x: nat, y: nat, u: nat, v: nat)
    requires u < 64 && v < 64 && x * 64 + u == y * 64 + v
    ensures x == y && u == v
  {
  }

  lemma OneEncoding(a: string, b: string, cp: nat)
    requires IsUtf8(a, cp) && IsUtf8(b, cp)
    ensures a == b
  {
    if |a| == 1 {
      assert a[0] == b[0];
    } else if |a| == 2 {
      SixBitsOnce(Code(a[0]) - 0xC0, Code(b[0]) - 0xC0, Code(a[1]) - 0x80, Code(b[1]) - 0x80);
    } else if |a| == 3 {
      SixBitsOnce((Code(a[0]) - 0xE0) * 0x40 + (Code(a[1]) - 0x80), (Code(b[0]) - 0xE0) * 0x40 + (Code(b[1]) - 0x80),
        Code(a[2]) - 0x80, Code(b[2]) - 0x80);
      SixBitsOnce(Code(a[0]) - 0xE0, Code(b[0]) - 0xE0, Code(a[1]) - 0x80, Code(b[1]) - 0x80);
    } else {
      FourOnce(a, b, cp);
    }
  }

  lemma FourOnce(a: string, b: string, cp: nat)
    requires IsUtf8(a, cp) && IsUtf8(b, cp) && |a| == 4
    ensures a == b
  {
    var x, y := Code(a[0]) - 0xF0, Code(b[0]) - 0xF0;
    var x1, y1 := x * 0x40 + (Code(a[1]) - 0x80), y * 0x40 + (Code(b[1]) - 0x80);
    SixBitsOnce(x1 * 0x40 + (Code(a[2]) - 0x80), y1 * 0x40 + (Code(b[2]) - 0x80), Code(a[3]) - 0x80, Code(b[3]) - 0x80);
    SixBitsOnce(x1, y1, Code(a[2]) - 0x80, Code(b[2]) - 0x80);
    SixBitsOnce(x, y, Code(a[1]) - 0x80, Code(b[1]) - 0x80);
  }

  // ---------- strings ----------

  /** The letters behind a backslash, and the codes of the characters they name, as in section 7 of RFC 8259. */
  const LETTERS: string := "\"\\/bfnrt"
  const CODES: seq<nat> := [0x22, 0x5C, 0x2F, 0x08, 0x0C, 0x0A, 0x0D, 0x09]

  /** Behind a backslash, x names c. */
  predicate Names(x: char, c: char) {
    exists k :: 0 <= k < 8 && x == LETTERS[k] && Code(c) == CODES[k]
  }

  lemma UnescapeExactly(x: char, c: char)
    ensures Unescape(x) == Some(c) <==> Names(x, c)
  {
    assert forall k :: 0 <= k < 8 ==> Unescape(LETTERS[k]) == Some(CODES[k] as char);
    if Unescape(x) == Some(c) {
      var k := if x == '\"' then 0 else if x == '\\' then 1 else if x == '/' then 2 else if x == 'b' then 3
               else if x == 'f' then 4 else if x == 'n' then 5 else if x == 'r' then 6 else 7;
      assert x == LETTERS[k];
    }
  }

  /** Printing escapes exactly the characters that have a name, by that name, and leaves the others as they are. */
  lemma EscapeCharExactly(c: char)
    ensures forall x :: EscapeChar(c) == ['\\', x] <==> Names(x, c)
    ensures EscapeChar(c) == [c] <==> forall x :: !Names(x, c)
  {
    hide Names;
    forall x ensures EscapeChar(c) == ['\\', x] <==> Names(x, c) {
      UnescapeExactly(x, c);
    }
    if |EscapeChar(c)| == 2 {
      assert EscapeChar(c) == ['\\', EscapeChar(c)[1]];
    }
  }

  /**
    What stands for one character of a string: itself, if it is no control character and no backslash; a backslash and a
    name; or a backslash, u and the digits of a code point, which becomes the bytes b.
   */
  datatype Piece = Raw(c: char) | Named(x: char, c: char) | Unicode(digits: string, cp: nat, b: string)

  predicate Proper(p: Piece) {
    match p
    case Raw(c) => Code(c) >= 0x20 && c != '\\'
    case Named(x, c) => Names(x, c)
    case Unicode(digits, cp, b) =>
      && (if |digits| == 4 then SpellsSingle(digits, cp) else |digits| == 10 && SpellsPair(digits, cp))
      && IsUtf8(b, cp)
  }

  function PieceText(p: Piece): string {
    match p
    case Raw(c) => [c]
    case Named(x, _) => ['\\', x]
    case Unicode(digits, _, _) => "\\u" + digits
  }

  function PieceMeaning(p: Piece): string {
    match p
    case Raw(c) => [c]
    case Named(_, c) => [c]
    case Unicode(_, _, b) => b
  }

  function TextOf(ps: seq<Piece>): string { if ps == [] then "" else PieceText(ps[0]) + TextOf(ps[1..]) }

  function MeaningOf(ps: seq<Piece>): string { if ps == [] then "" else PieceMeaning(ps[0]) + MeaningOf(ps[1..]) }

  ghost predicate AllProper(ps: seq<Piece>) { forall k :: 0 <= k < |ps| ==> Proper(ps[k]) }

  /** The text s between quotes spells t. */
  ghost predicate SpellsString(s: string, t: string) {
    exists ps :: AllProper(ps) && TextOf(ps) == s && MeaningOf(ps) == t
  }

  /** Only the digits matter to the reader of an escape. */
  lemma DigitsInFront(digits: string, rest: string, cp: nat)
    ensures |digits| == 4 && SpellsSingle(digits, cp) ==> ParseUtf16(digits + rest) == Some(Utf16(cp, 4))
    ensures |digits| == 10 && SpellsPair(digits, cp) ==> ParseUtf16(digits + rest) == Some(Utf16(cp, 10))
  {
    var s := digits + rest;
    hide ParseUtf16;
    if |digits| == 4 && SpellsSingle(digits, cp) {
      SingleExactly(s, cp);
    }
    if |digits| == 10 && SpellsPair(digits, cp) {
      assert s[6..][..4] == digits[6..];
      PairExactly(s, cp);
    }
  }

  lemma ProcessUnicode(s: string, e: Utf16)
    requires |s| > 1 && s[0] == '\\' && s[1] == 'u' && ParseUtf16(s[2..]) == Some(e)
    ensures ProcessString(s) == Prepend(Bytes(e.cp), ProcessString(s[2 + e.taken..]))
  {
    hide ParseUtf16, Bytes;
  }

  lemma UnicodeProcesses(digits: string, cp: nat, b: string, rest: string)
    requires Proper(Unicode(digits, cp, b))
    ensures ProcessString("\\u" + digits + rest) == Prepend(b, ProcessString(rest))
  {
    var s := "\\u" + digits + rest;
    DigitsInFront(digits, rest, cp);
    hide ProcessString, ParseUtf16, SpellsSingle, SpellsPair, IsUtf8;
    BytesExactly(cp, b);
    hide Bytes;
    assert s[2..] == digits + rest && s[2 + |digits|..] == rest;
    ProcessUnicode(s, Utf16(cp, |digits|));
  }

  lemma ProperProcesses(p: Piece, rest: string)
    requires Proper(p)
    ensures ProcessString(PieceText(p) + rest) == Prepend(PieceMeaning(p), ProcessString(rest))
  {
    hide ParseUtf16, Names, IsUtf8;
    match p
    case Raw(c) => assert ([c] + rest)[1..] == rest;
    case Named(x, c) =>
      UnescapeExactly(x, c);
      assert (['\\', x] + rest)[2..] == rest;
    case Unicode(digits, cp, b) => UnicodeProcesses(digits, cp, b, rest);
  }

  lemma {:induction false} SpelledProcesses(ps: seq<Piece>)
    requires AllProper(ps)
    ensures ProcessString(TextOf(ps)) == Some(MeaningOf(ps))
  {
    if ps != [] {
      SpelledProcesses(ps[1..]);
      ProperProcesses(ps[0], TextOf(ps[1..]));
    }
  }

  /** The piece that the processing of s begins with. */
  lemma FirstPiece(s: string) returns (p: Piece, rest: string)
    requires s != "" && ProcessString(s).Some?
    ensures Proper(p) && s == PieceText(p) + rest && |rest| < |s|
  {
    if s[0] != '\\' {
      p, rest := Raw(s[0]), s[1..];
    } else if s[1] == 'u' {
      p, rest := UnicodePiece(s);
    } else {
      var c := Unescape(s[1]).value;
      UnescapeExactly(s[1], c);
      p, rest := Named(s[1], c), s[2..];
    }
  }

  lemma UnicodePiece(s: string) returns (p: Piece, rest: string)
    requires |s| > 1 && s[0] == '\\' && s[1] == 'u' && ParseUtf16(s[2..]).Some?
    ensures Proper(p) && s == PieceText(p) + rest && |rest| < |s|
  {
    var t := s[2..];
    var e := ParseUtf16(t).value;
    SingleExactly(t, e.cp);
    PairExactly(t, e.cp);
    var digits := t[..e.taken];
    SpelledByDigits(t, e.taken, e.cp);
    BytesExactly(e.cp, Bytes(e.cp));
    p, rest := Unicode(digits, e.cp, Bytes(e.cp)), t[e.taken..];
    assert s == "\\u" + digits + rest;
  }

  lemma SpelledByDigits(t: string, n: nat, cp: nat)
    requires n <= |t|
    ensures n == 4 && SpellsSingle(t, cp) ==> SpellsSingle(t[..n], cp)
    ensures n == 10 && SpellsPair(t, cp) ==> SpellsPair(t[..n], cp)
  {
    if n == 10 && SpellsPair(t, cp) {
      assert t[..n][6..] == t[6..][..4];
    }
  }

  lemma {:induction false} ProcessedIsSpelled(s: string) returns (ps: seq<Piece>)
    requires ProcessString(s).Some?
    ensures AllProper(ps) && TextOf(ps) == s
    decreases |s|
  {
    ps := [];
    if s != "" {
      var p, rest := FirstPiece(s);
      ProperProcesses(p, rest);
      var qs := ProcessedIsSpelled(rest);
      ps := [p] + qs;
      assert ps[1..] == qs;
    }
  }

  /** A string between quotes is accepted exactly when it is spelled in such pieces, and it is what they mean. */
  lemma StringsExactly(s: string, t: string)
    ensures ProcessString(s) == Some(t) <==> SpellsString(s, t)
  {
    if ProcessString(s) == Some(t) {
      var ps := ProcessedIsSpelled(s);
      SpelledProcesses(ps);
    }
    if SpellsString(s, t) {
      var ps :| AllProper(ps) && TextOf(ps) == s && MeaningOf(ps) == t;
      SpelledProcesses(ps);
    }
  }
}
