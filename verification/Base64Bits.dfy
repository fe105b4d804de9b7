/** The characters of Base64, bit by bit: the alphabet of section 4 of RFC 4648, and the bits each character carries. */
module Base64Bits {
  import opened Wrappers
  import opened Base64

  // ---------- the alphabet ----------

  const UPPER: string := "ABCDEFGHIJKLMNOPQRSTUVWXYZ"
  const LOWER: string := "abcdefghijklmnopqrstuvwxyz"
  const DIGITS: string := "0123456789"
  const ALPHABET: string := UPPER + LOWER + DIGITS + "+/"

  lemma UpperAt(x: nat)
    requires x < 26
    ensures UPPER[x] == CodeToChar(x)
  {
  }

  lemma LowerAt(x: nat)
    requires x < 26
    ensures LOWER[x] == CodeToChar(x + 26)
  {
  }

  lemma DigitAt(x: nat)
    requires x < 10
    ensures DIGITS[x] == CodeToChar(x + 52)
  {
  }

  /** Character c stands for x exactly when it is entry x of the alphabet. */
  lemma AlphabetExactly(x: Code, c: char)
    ensures |ALPHABET| == 64 && CodeToChar(x) == ALPHABET[x]
    ensures CharToCode(c) == Some(x) <==> c == ALPHABET[x]
  {
    CharsAreCodes(x, c);
    if x < 26 {
      UpperAt(x);
    } else if x < 52 {
      LowerAt(x - 26);
    } else if x < 62 {
      DigitAt(x - 52);
    }
  }

  lemma InAlphabetExactly(c: char)
    ensures CharToCode(c).Some? <==> c in ALPHABET
  {
    hide CharToCode, CodeToChar;
    if CharToCode(c).Some? {
      AlphabetExactly(CharToCode(c).value, c);
    }
    if c in ALPHABET {
      AlphabetExactly(0, c);
      var x :| 0 <= x < |ALPHABET| && ALPHABET[x] == c;
      AlphabetExactly(x, c);
    }
  }

  // ---------- bits, highest first ----------

  const WEIGHTS8: seq<nat> := [128, 64, 32, 16, 8, 4, 2, 1]
  const WEIGHTS6: seq<nat> := [32, 16, 8, 4, 2, 1]

  /** Bit j of a byte string, zero behind its end. */
  function Bit(b: seq<Byte>, j: nat): nat {
    if j < 8 * |b| then b[j / 8] / WEIGHTS8[j % 8] % 2 else 0
  }

  /** Bit j of a list of six-bit numbers. */
  function CodeBit(c: seq<Code>, j: nat): nat {
    if j < 6 * |c| then c[j / 6] / WEIGHTS6[j % 6] % 2 else 0
  }

  /** The number made of the six bits from j on. */
  function SixBits(b: seq<Byte>, j: nat): nat {
    32 * Bit(b, j) + 16 * Bit(b, j + 1) + 8 * Bit(b, j + 2) + 4 * Bit(b, j + 3) + 2 * Bit(b, j + 4) + Bit(b, j + 5)
  }

  /** The number made of the eight bits from j on. */
  function EightBits(c: seq<Code>, j: nat): nat {
    128 * CodeBit(c, j) + 64 * CodeBit(c, j + 1) + 32 * CodeBit(c, j + 2) + 16 * CodeBit(c, j + 3)
    + 8 * CodeBit(c, j + 4) + 4 * CodeBit(c, j + 5) + 2 * CodeBit(c, j + 6) + CodeBit(c, j + 7)
  }

  lemma BitOfTail(b: seq<Byte>, j: nat)
    requires |b| >= 3
    ensures Bit(b, j + 24) == Bit(b[3..], j)
  {
    assert (j + 24) / 8 == j / 8 + 3 && (j + 24) % 8 == j % 8;
  }

  lemma SixBitsOfTail(b: seq<Byte>, j: nat)
    requires |b| >= 3
    ensures SixBits(b, j + 24) == SixBits(b[3..], j)
  {
    hide Bit;
    BitOfTail(b, j);
    BitOfTail(b, j + 1);
    BitOfTail(b, j + 2);
    BitOfTail(b, j + 3);
    BitOfTail(b, j + 4);
    BitOfTail(b, j + 5);
  }

  lemma CodeBitOfTail(c: seq<Code>, j: nat)
    requires |c| >= 4
    ensures CodeBit(c, j + 24) == CodeBit(c[4..], j)
  {
    assert (j + 24) / 6 == j / 6 + 4 && (j + 24) % 6 == j % 6;
  }

  lemma EightBitsOfTail(c: seq<Code>, j: nat)
    requires |c| >= 4
    ensures EightBits(c, j + 24) == EightBits(c[4..], j)
  {
    hide CodeBit;
    CodeBitOfTail(c, j);
    CodeBitOfTail(c, j + 1);
    CodeBitOfTail(c, j + 2);
    CodeBitOfTail(c, j + 3);
    CodeBitOfTail(c, j + 4);
    CodeBitOfTail(c, j + 5);
    CodeBitOfTail(c, j + 6);
    CodeBitOfTail(c, j + 7);
  }

  // ---------- one group ----------

  /** The bits of byte i, as far as there are so many. */
  lemma BitsOfByte(b: seq<Byte>, i: nat)
    ensures var x: nat := if i < |b| then b[i] else 0;
            && Bit(b, 8 * i) == x / 128 % 2 && Bit(b, 8 * i + 1) == x / 64 % 2 && Bit(b, 8 * i + 2) == x / 32 % 2
            && Bit(b, 8 * i + 3) == x / 16 % 2 && Bit(b, 8 * i + 4) == x / 8 % 2 && Bit(b, 8 * i + 5) == x / 4 % 2
            && Bit(b, 8 * i + 6) == x / 2 % 2 && Bit(b, 8 * i + 7) == x % 2
  {
    hide Bit;
    BitOfByte(b, i, 0);
    BitOfByte(b, i, 1);
    BitOfByte(b, i, 2);
    BitOfByte(b, i, 3);
    BitOfByte(b, i, 4);
    BitOfByte(b, i, 5);
    BitOfByte(b, i, 6);
    BitOfByte(b, i, 7);
  }

  lemma BitOfByte(b: seq<Byte>, i: nat, r: nat)
    requires r < 8
    ensures Bit(b, 8 * i + r) == (if i < |b| then b[i] else 0) / WEIGHTS8[r] % 2
  {
    assert (8 * i + r) / 8 == i && (8 * i + r) % 8 == r;
  }

  lemma BitsOfCode(c: seq<Code>, i: nat)
    ensures var x: nat := if i < |c| then c[i] else 0;
            && CodeBit(c, 6 * i) == x / 32 % 2 && CodeBit(c, 6 * i + 1) == x / 16 % 2
            && CodeBit(c, 6 * i + 2) == x / 8 % 2 && CodeBit(c, 6 * i + 3) == x / 4 % 2
            && CodeBit(c, 6 * i + 4) == x / 2 % 2 && CodeBit(c, 6 * i + 5) == x % 2
  {
    hide CodeBit;
    BitOfCode(c, i, 0);
    BitOfCode(c, i, 1);
    BitOfCode(c, i, 2);
    BitOfCode(c, i, 3);
    BitOfCode(c, i, 4);
    BitOfCode(c, i, 5);
  }

  lemma BitOfCode(c: seq<Code>, i: nat, r: nat)
    requires r < 6
    ensures CodeBit(c, 6 * i + r) == (if i < |c| then c[i] else 0) / WEIGHTS6[r] % 2
  {
    assert (6 * i + r) / 6 == i && (6 * i + r) % 6 == r;
  }

  /** A byte is what its bits weigh, and so is every part of it. */
  lemma ByteWeighs(x: nat)
    requires x < 256
    ensures x / 64 == 2 * (x / 128 % 2) + x / 64 % 2
    ensures x / 16 == 4 * (x / 64) + 2 * (x / 32 % 2) + x / 16 % 2
    ensures x / 4 == 4 * (x / 16) + 2 * (x / 8 % 2) + x / 4 % 2
    ensures x == 4 * (x / 4) + 2 * (x / 2 % 2) + x % 2
  {
    assert x / 64 == 2 * (x / 128) + x / 64 % 2 && x / 128 < 2;
    assert x / 32 == 2 * (x / 64) + x / 32 % 2;
    assert x / 16 == 2 * (x / 32) + x / 16 % 2;
    assert x / 8 == 2 * (x / 16) + x / 8 % 2;
    assert x / 4 == 2 * (x / 8) + x / 4 % 2;
    assert x / 2 == 2 * (x / 4) + x / 2 % 2;
  }

  lemma SextetsInBits(x: nat, y: nat, z: nat)
    requires x < 256 && y < 256 && z < 256
    ensures Sextets((x * 256 + y) * 256 + z) == [x / 4, x % 4 * 16 + y / 16, y % 16 * 4 + z / 64, z % 64]
  {
    SextetsOfDigits(x / 4, x % 4 * 16 + y / 16, y % 16 * 4 + z / 64, z % 64);
    assert x == x / 4 * 4 + x % 4 && y == y / 16 * 16 + y % 16 && z == z / 64 * 64 + z % 64;
  }

  /** Byte i of b, or zero behind the end. */
  function ByteAt(b: seq<Byte>, i: nat): nat { if i < |b| then b[i] else 0 }

  lemma ByteParts(b: seq<Byte>, i: nat)
    ensures var x, j := ByteAt(b, i), 8 * i;
            && x / 64 == 2 * Bit(b, j) + Bit(b, j + 1)
            && x / 16 == 4 * (x / 64) + 2 * Bit(b, j + 2) + Bit(b, j + 3)
            && x / 4 == 4 * (x / 16) + 2 * Bit(b, j + 4) + Bit(b, j + 5)
            && x == 4 * (x / 4) + 2 * Bit(b, j + 6) + Bit(b, j + 7)
  {
    hide Bit;
    BitsOfByte(b, i);
    ByteWeighs(ByteAt(b, i));
  }

  lemma Remainders(x: nat)
    ensures x % 4 == x - 4 * (x / 4) && x % 16 == x - 16 * (x / 16) && x % 64 == x - 64 * (x / 64)
  {
  }

  lemma FirstSextets(b: seq<Byte>)
    ensures var x, y, z := ByteAt(b, 0), ByteAt(b, 1), ByteAt(b, 2);
            && SixBits(b, 0) == x / 4 && SixBits(b, 6) == x % 4 * 16 + y / 16
            && SixBits(b, 12) == y % 16 * 4 + z / 64 && SixBits(b, 18) == z % 64
  {
    hide Bit, ByteAt;
    ByteParts(b, 0);
    ByteParts(b, 1);
    ByteParts(b, 2);
    Remainders(ByteAt(b, 0));
    Remainders(ByteAt(b, 1));
    Remainders(ByteAt(b, 2));
  }

  // ---------- encoding ----------

  /** The first group of b. */
  function FirstGroup(b: seq<Byte>): (u: seq<Byte>)
    ensures |u| <= 3
  {
    if |b| < 3 then b else b[..3]
  }

  lemma CodesOfGroups(b: seq<Byte>, k: nat)
    requires k < |ToCodes(b)|
    ensures k < 4 ==> ToCodes(b)[k] == Sextets(ByteGroup(FirstGroup(b)))[k]
    ensures k >= 4 ==> |b| >= 3 && k - 4 < |ToCodes(b[3..])| && ToCodes(b)[k] == ToCodes(b[3..])[k - 4]
  {
    hide Sextets, ByteGroup;
  }

  lemma GroupIs(b: seq<Byte>)
    requires b != []
    ensures ByteGroup(FirstGroup(b)) == (ByteAt(b, 0) * 256 + ByteAt(b, 1)) * 256 + ByteAt(b, 2)
    ensures ByteAt(b, 0) < 256 && ByteAt(b, 1) < 256 && ByteAt(b, 2) < 256
  {
    ByteGroupOf(FirstGroup(b));
  }

  lemma GroupSextets(b: seq<Byte>)
    requires b != []
    ensures Sextets(ByteGroup(FirstGroup(b))) == [SixBits(b, 0), SixBits(b, 6), SixBits(b, 12), SixBits(b, 18)]
  {
    hide ByteAt, SixBits, Sextets, ByteGroup, FirstGroup;
    GroupIs(b);
    FirstSextets(b);
    SextetsInBits(ByteAt(b, 0), ByteAt(b, 1), ByteAt(b, 2));
  }

  /** Code k is made of the bits 6k to 6k + 5. */
  lemma {:induction false} CodesInBits(b: seq<Byte>, k: nat)
    requires k < |ToCodes(b)|
    ensures ToCodes(b)[k] == SixBits(b, 6 * k)
  {
    hide ToCodes, SixBits, Sextets, ByteGroup, FirstGroup;
    CodesOfGroups(b, k);
    if k >= 4 {
      CodesInBits(b[3..], k - 4);
      SixBitsOfTail(b, 6 * (k - 4));
    } else {
      NoBytesNoCodes(b);
      GroupSextets(b);
      OneOfFour(SixBits(b, 0), SixBits(b, 6), SixBits(b, 12), SixBits(b, 18), k);
      assert k == 0 || k == 1 || k == 2 || k == 3;
    }
  }

  lemma OneOfFour(w: nat, x: nat, y: nat, z: nat, k: nat)
    requires k < 4
    ensures [w, x, y, z][k] == if k == 0 then w else if k == 1 then x else if k == 2 then y else z
  {
  }

  lemma NoBytesNoCodes(b: seq<Byte>)
    ensures ToCodes(b) != [] ==> b != []
  {
  }

  /** How many characters there are, and which: six bits each, highest first, filled up with zeros. */
  lemma EncodeExactly(b: seq<Byte>)
    ensures |Encode(b)| == (8 * |b| + 5) / 6
    ensures forall k :: 0 <= k < |Encode(b)| ==> SixBits(b, 6 * k) < 64 && Encode(b)[k] == ALPHABET[SixBits(b, 6 * k)]
  {
    var n, r := |b| / 3, |b| % 3;
    EncodedSizeIs(n, r);
    assert 8 * |b| + 5 == 6 * (4 * n) + (8 * r + 5);
    forall k | 0 <= k < |Encode(b)|
      ensures SixBits(b, 6 * k) < 64 && Encode(b)[k] == ALPHABET[SixBits(b, 6 * k)]
    {
      CodesInBits(b, k);
      AlphabetExactly(ToCodes(b)[k], Encode(b)[k]);
    }
  }

  /** The padded text ends in as many equals signs as bytes are missing in the last group of three. */
  lemma PadExactly(b: seq<Byte>)
    ensures Pad(Encode(b)) == Encode(b) + (if |b| % 3 == 1 then "==" else if |b| % 3 == 2 then "=" else "")
    ensures |Pad(Encode(b))| % 4 == 0
  {
    EncodedRemainder(b);
  }

  // ---------- decoding ----------

  function CodeAt(c: seq<Code>, i: nat): nat { if i < |c| then c[i] else 0 }

  lemma CodeWeighs(x: nat)
    requires x < 64
    ensures x / 16 == 2 * (x / 32 % 2) + x / 16 % 2
    ensures x / 4 == 4 * (x / 16) + 2 * (x / 8 % 2) + x / 4 % 2
    ensures x == 4 * (x / 4) + 2 * (x / 2 % 2) + x % 2
  {
    assert x / 16 == 2 * (x / 32) + x / 16 % 2 && x / 32 < 2;
    assert x / 8 == 2 * (x / 16) + x / 8 % 2;
    assert x / 4 == 2 * (x / 8) + x / 4 % 2;
    assert x / 2 == 2 * (x / 4) + x / 2 % 2;
  }

  lemma CodeParts(c: seq<Code>, i: nat)
    ensures var x, j := CodeAt(c, i), 6 * i;
            && x / 16 == 2 * CodeBit(c, j) + CodeBit(c, j + 1)
            && x / 4 == 4 * (x / 16) + 2 * CodeBit(c, j + 2) + CodeBit(c, j + 3)
            && x == 4 * (x / 4) + 2 * CodeBit(c, j + 4) + CodeBit(c, j + 5)
  {
    hide CodeBit;
    BitsOfCode(c, i);
    CodeWeighs(CodeAt(c, i));
  }

  lemma FirstOctets(c: seq<Code>)
    ensures var w, x, y, z := CodeAt(c, 0), CodeAt(c, 1), CodeAt(c, 2), CodeAt(c, 3);
            && EightBits(c, 0) == w * 4 + x / 16 && EightBits(c, 8) == x % 16 * 16 + y / 4
            && EightBits(c, 16) == y % 4 * 64 + z
  {
    hide CodeBit, CodeAt;
    CodeParts(c, 0);
    CodeParts(c, 1);
    CodeParts(c, 2);
    CodeParts(c, 3);
    Remainders(CodeAt(c, 1));
    Remainders(CodeAt(c, 2));
  }

  lemma OctetsInBits(w: nat, x: nat, y: nat, z: nat)
    requires w < 64 && x < 64 && y < 64 && z < 64
    ensures Octets(((w * 64 + x) * 64 + y) * 64 + z) == [w * 4 + x / 16, x % 16 * 16 + y / 4, y % 4 * 64 + z]
  {
    var b: seq<Byte> := [w * 4 + x / 16, x % 16 * 16 + y / 4, y % 4 * 64 + z];
    assert x == x / 16 * 16 + x % 16 && y == y / 4 * 4 + y % 4;
    Value256Of(b[0], b[1], b[2]);
    OctetsOfValue(b);
  }

  function FirstQuartet(c: seq<Code>): (u: seq<Code>)
    ensures |u| <= 4
  {
    if |c| < 4 then c else c[..4]
  }

  lemma BytesOfGroups(c: seq<Code>, k: nat)
    requires k < |FromCodes(c)|
    ensures |c| >= 2
    ensures k < 3 ==> FromCodes(c)[k] == Octets(CodeGroup(FirstQuartet(c)))[k]
    ensures k >= 3 ==> |c| >= 4 && k - 3 < |FromCodes(c[4..])| && FromCodes(c)[k] == FromCodes(c[4..])[k - 3]
  {
    hide Octets, CodeGroup;
  }

  lemma QuartetIs(c: seq<Code>)
    requires |c| >= 2
    ensures CodeGroup(FirstQuartet(c)) == ((CodeAt(c, 0) * 64 + CodeAt(c, 1)) * 64 + CodeAt(c, 2)) * 64 + CodeAt(c, 3)
    ensures CodeAt(c, 0) < 64 && CodeAt(c, 1) < 64 && CodeAt(c, 2) < 64 && CodeAt(c, 3) < 64
  {
    CodeGroupOf(FirstQuartet(c));
  }

  lemma GroupOctets(c: seq<Code>)
    requires |c| >= 2
    ensures Octets(CodeGroup(FirstQuartet(c))) == [EightBits(c, 0), EightBits(c, 8), EightBits(c, 16)]
  {
    hide CodeAt, EightBits, Octets, CodeGroup, FirstQuartet;
    QuartetIs(c);
    FirstOctets(c);
    OctetsInBits(CodeAt(c, 0), CodeAt(c, 1), CodeAt(c, 2), CodeAt(c, 3));
  }

  /** Byte k is made of the bits 8k to 8k + 7. */
  lemma {:induction false} BytesInBits(c: seq<Code>, k: nat)
    requires k < |FromCodes(c)|
    ensures FromCodes(c)[k] == EightBits(c, 8 * k)
  {
    hide FromCodes, EightBits, Octets, CodeGroup, FirstQuartet;
    BytesOfGroups(c, k);
    if k >= 3 {
      BytesInBits(c[4..], k - 3);
      EightBitsOfTail(c, 8 * (k - 3));
    } else {
      GroupOctets(c);
      assert k == 0 || k == 1 || k == 2;
    }
  }

  /** c lists the places of the characters of s in the alphabet. */
  ghost predicate Places(s: string, c: seq<Code>) {
    |c| == |s| && forall k :: 0 <= k < |s| ==> s[k] == ALPHABET[c[k]]
  }

  lemma PlacesAreCodes(s: string, c: seq<Code>)
    requires Places(s, c)
    ensures InAlphabet(s) && Codes(s) == c
  {
    hide CharToCode;
    forall k | 0 <= k < |s| ensures CharToCode(s[k]) == Some(c[k]) {
      AlphabetExactly(c[k], s[k]);
    }
  }

  lemma InAlphabetHasPlaces(s: string) returns (c: seq<Code>)
    requires forall k :: 0 <= k < |s| ==> s[k] in ALPHABET
    ensures Places(s, c)
  {
    hide CharToCode;
    forall k | 0 <= k < |s| ensures CharToCode(s[k]).Some? {
      InAlphabetExactly(s[k]);
    }
    c := Codes(s);
    forall k | 0 <= k < |s| ensures s[k] == ALPHABET[c[k]] {
      AlphabetExactly(c[k], s[k]);
    }
  }

  /** A text that decodes consists of characters of the alphabet, and its bytes of eight bits of their places each. */
  lemma DecodedExactly(s: string, maxLen: int, b: seq<Byte>) returns (c: seq<Code>)
    requires Decode(s, maxLen) == Decoded(b)
    ensures Places(s, c) && |b| == 6 * |s| / 8
    ensures forall k :: 0 <= k < |b| ==> b[k] == EightBits(c, 8 * k)
  {
    hide CharToCode, EightBits;
    forall k | 0 <= k < |s| ensures s[k] in ALPHABET {
      InAlphabetExactly(s[k]);
    }
    c := InAlphabetHasPlaces(s);
    PlacesAreCodes(s, c);
    assert b == FromCodes(c);
    DecodedSizeIs(|s| / 4, |s| % 4);
    forall k | 0 <= k < |b| ensures b[k] == EightBits(c, 8 * k) {
      BytesInBits(c, k);
    }
  }

  /**
    What becomes of a text: one character too many, or too long for the buffer, and it fails; a character that is not in
    the alphabet, and the process ends; and otherwise it is decoded.
   */
  lemma DecodeOutcome(s: string, maxLen: int)
    ensures Decode(s, maxLen) == Failed <==> s != "" && (|s| % 4 == 1 || maxLen < 6 * |s| / 8)
    ensures Decode(s, maxLen) == Exits <==>
            s != "" && |s| % 4 != 1 && maxLen >= 6 * |s| / 8 && exists k :: 0 <= k < |s| && s[k] !in ALPHABET
  {
    DecodedSizeIs(|s| / 4, |s| % 4);
    hide CharToCode;
    forall k | 0 <= k < |s| ensures CharToCode(s[k]).Some? <==> s[k] in ALPHABET {
      InAlphabetExactly(s[k]);
    }
  }
}
