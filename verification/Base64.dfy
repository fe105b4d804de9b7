/** Base64 without and with padding: what the buffers hold, and the round trips in both directions. */
module Base64 {
  import opened Wrappers

  type Byte = b: int | 0 <= b < 256
  type Code = c: int | 0 <= c < 64

  const PAD: char := '='
  const NUL: char := 0 as char

  // ---------- the alphabet ----------

  function CodeToChar(x: Code): char {
    if x <= 25 then ('A' as int + x) as char
    else if x <= 51 then ('a' as int + (x - 26)) as char
    else if x <= 61 then ('0' as int + (x - 52)) as char
    else if x == 62 then '+' else '/'
  }

  /** None stands for the call of exit on a character outside the alphabet. */
  function CharToCode(x: char): Option<Code> {
    if 'A' <= x <= 'Z' then Some(x as int - 'A' as int)
    else if 'a' <= x <= 'z' then Some(x as int - 'a' as int + 26)
    else if '0' <= x <= '9' then Some(x as int - '0' as int + 52)
    else if x == '+' then Some(62)
    else if x == '/' then Some(63)
    else None
  }

  lemma CharsAreCodes(x: Code, c: char)
    ensures CodeToChar(x) == c <==> CharToCode(c) == Some(x)
  {
  }

  function Chars(c: seq<Code>): (s: string)
    ensures |s| == |c|
  {
    seq(|c|, k requires 0 <= k < |c| => CodeToChar(c[k]))
  }

  ghost predicate InAlphabet(s: string) {
    forall k :: 0 <= k < |s| ==> CharToCode(s[k]).Some?
  }

  ghost function Codes(s: string): (c: seq<Code>)
    requires InAlphabet(s)
    ensures |c| == |s|
  {
    seq(|s|, k requires 0 <= k < |s| => CharToCode(s[k]).value)
  }

  lemma CharsAndCodes(c: seq<Code>, s: string)
    ensures Chars(c) == s <==> InAlphabet(s) && c == Codes(s)
  {
    if |c| == |s| {
      forall k | 0 <= k < |s| ensures CodeToChar(c[k]) == s[k] <==> CharToCode(s[k]) == Some(c[k]) {
        CharsAreCodes(c[k], s[k]);
      }
      if Chars(c) == s {
        assert forall k :: 0 <= k < |s| ==> Chars(c)[k] == s[k];
      }
      if InAlphabet(s) && c == Codes(s) {
        assert forall k :: 0 <= k < |s| ==> Chars(c)[k] == s[k];
      }
    }
  }

  // ---------- 24-bit groups ----------

  /** The number with the given digits, highest first. */
  function Value64(c: seq<Code>): nat {
    if c == [] then 0 else Value64(c[..|c| - 1]) * 64 + c[|c| - 1]
  }

  function Value256(b: seq<Byte>): nat {
    if b == [] then 0 else Value256(b[..|b| - 1]) * 256 + b[|b| - 1]
  }

  /** (v >> 6 * i) & 0x3F and (v >> 8 * i) & 0xFF */
  function Sextet(v: nat, i: nat): Code {
    if i == 0 then v % 64 else Sextet(v / 64, i - 1)
  }

  function Octet(v: nat, i: nat): Byte {
    if i == 0 then v % 256 else Octet(v / 256, i - 1)
  }

  function Sextets(v: nat): (c: seq<Code>)
    ensures |c| == 4
  {
    [Sextet(v, 3), Sextet(v, 2), Sextet(v, 1), Sextet(v, 0)]
  }

  function Octets(v: nat): (b: seq<Byte>)
    ensures |b| == 3
  {
    [Octet(v, 2), Octet(v, 1), Octet(v, 0)]
  }

  /** A last group, short of bytes or characters, is filled up with zero bits. */
  function ByteGroup(b: seq<Byte>): nat
    requires |b| <= 3
  {
    Value256(b + seq(3 - |b|, _ => 0))
  }

  function CodeGroup(c: seq<Code>): nat
    requires |c| <= 4
  {
    Value64(c + seq(4 - |c|, _ => 0))
  }

  lemma Value256Of(a: Byte, b: Byte, c: Byte)
    ensures Value256([a, b, c]) == (a * 256 + b) * 256 + c
  {
    assert [a][..0] == [] && [a, b][..1] == [a] && [a, b, c][..2] == [a, b];
    assert Value256([a]) == a && Value256([a, b]) == a * 256 + b;
  }

  lemma Value64Of(a: Code, b: Code, c: Code, d: Code)
    ensures Value64([a, b, c, d]) == ((a * 64 + b) * 64 + c) * 64 + d
  {
    assert [a][..0] == [] && [a, b][..1] == [a] && [a, b, c][..2] == [a, b] && [a, b, c, d][..3] == [a, b, c];
    assert Value64([a]) == a && Value64([a, b]) == a * 64 + b && Value64([a, b, c]) == (a * 64 + b) * 64 + c;
  }

  lemma NextOctet(q: nat, r: Byte, i: nat)
    ensures Octet(q * 256 + r, 0) == r && Octet(q * 256 + r, i + 1) == Octet(q, i)
  {
    assert (q * 256 + r) / 256 == q;
  }

  lemma NextSextet(q: nat, r: Code, i: nat)
    ensures Sextet(q * 64 + r, 0) == r && Sextet(q * 64 + r, i + 1) == Sextet(q, i)
  {
    assert (q * 64 + r) / 64 == q;
  }

  lemma OctetsOfValue(b: seq<Byte>)
    requires |b| == 3
    ensures Octets(Value256(b)) == b && Value256(b) < 0x100_0000
  {
    assert b == [b[0], b[1], b[2]];
    var x: int, y: int := b[0], b[1];
    Value256Of(x, y, b[2]);
    NextOctet(x * 256 + y, b[2], 0);
    NextOctet(x * 256 + y, b[2], 1);
    NextOctet(x, y, 0);
  }

  lemma SextetsOfValue(c: seq<Code>)
    requires |c| == 4
    ensures Sextets(Value64(c)) == c && Value64(c) < 0x100_0000
  {
    assert c == [c[0], c[1], c[2], c[3]];
    Value64Of(c[0], c[1], c[2], c[3]);
    SextetsOfDigits(c[0], c[1], c[2], c[3]);
  }

  lemma SextetsOfDigits(x: int, y: int, z: int, d: Code)
    requires 0 <= x < 64 && 0 <= y < 64 && 0 <= z < 64
    ensures Sextets(((x * 64 + y) * 64 + z) * 64 + d) == [x, y, z, d]
  {
    var ab, abc: nat := x * 64 + y, (x * 64 + y) * 64 + z;
    NextSextet(abc, d, 0);
    NextSextet(abc, d, 1);
    NextSextet(abc, d, 2);
    NextSextet(ab, z, 0);
    NextSextet(ab, z, 1);
    NextSextet(x, y, 0);
  }

  lemma ValueOfOctets(v: nat)
    requires v < 0x100_0000
    ensures Value256(Octets(v)) == v
  {
    var q := v / 256;
    Value256Of(Octet(v, 2), Octet(v, 1), Octet(v, 0));
    assert v == q * 256 + v % 256 && q < 65536;
    assert q == (q / 256) * 256 + q % 256 && q / 256 < 256;
    assert Octet(v, 1) == Octet(q, 0) == q % 256;
    assert Octet(v, 2) == Octet(q, 1) == Octet(q / 256, 0) == q / 256;
  }

  lemma ValueOfSextets(v: nat)
    requires v < 0x100_0000
    ensures Value64(Sextets(v)) == v
  {
    var q := v / 64;
    Value64Of(Sextet(v, 3), Sextet(v, 2), Sextet(v, 1), Sextet(v, 0));
    assert v == q * 64 + v % 64 && q < 0x4_0000;
    assert q == (q / 64) * 64 + q % 64 && q / 64 < 4096;
    assert q / 64 == (q / 64 / 64) * 64 + q / 64 % 64 && q / 64 / 64 < 64;
    assert Sextet(v, 1) == Sextet(q, 0) == q % 64;
    assert Sextet(v, 2) == Sextet(q, 1) == Sextet(q / 64, 0);
    assert Sextet(v, 3) == Sextet(q, 2) == Sextet(q / 64, 1) == Sextet(q / 64 / 64, 0);
  }

  // ---------- regrouping bits ----------

  function ToCodes(b: seq<Byte>): (c: seq<Code>)
    ensures |c| == EncodedSize(|b|)
  {
    if |b| == 0 then []
    else if |b| < 3 then Sextets(ByteGroup(b))[..|b| + 1]
    else Sextets(ByteGroup(b[..3])) + ToCodes(b[3..])
  }

  function FromCodes(c: seq<Code>): (b: seq<Byte>)
    ensures |b| == DecodedSize(|c|)
  {
    if |c| < 2 then []
    else if |c| < 4 then Octets(CodeGroup(c))[..|c| - 1]
    else Octets(CodeGroup(c[..4])) + FromCodes(c[4..])
  }

  /** Four characters for each full block, then two for one byte or three for two. */
  function EncodedSize(n: nat): nat {
    if n == 0 then 0 else if n < 3 then n + 1 else 4 + EncodedSize(n - 3)
  }

  function DecodedSize(n: nat): nat {
    if n < 2 then 0 else if n < 4 then n - 1 else 3 + DecodedSize(n - 4)
  }

  lemma {:induction false} EncodedSizeIs(k: nat, r: nat)
    requires r < 3
    ensures EncodedSize(3 * k + r) == 4 * k + if r == 0 then 0 else r + 1
  {
    if k > 0 {
      EncodedSizeIs(k - 1, r);
    }
  }

  lemma {:induction false} DecodedSizeIs(k: nat, r: nat)
    requires r < 4
    ensures DecodedSize(4 * k + r) == 3 * k + if r < 2 then 0 else r - 1
  {
    if k > 0 {
      DecodedSizeIs(k - 1, r);
    }
  }

  lemma Mod4(k: nat, r: nat)
    requires r < 4
    ensures (4 * k + r) % 4 == r
  {
  }

  /** The low bits that a partial group does not encode are zero. */
  lemma UnusedCodesZero(b: seq<Byte>)
    requires 0 < |b| < 3
    ensures Sextets(ByteGroup(b)) == Sextets(ByteGroup(b))[..|b| + 1] + seq(3 - |b|, _ => 0)
  {
    var x: int, y: int := b[0], if |b| == 2 then b[1] else 0;
    assert b + seq(3 - |b|, _ => 0) == [x, y, 0];
    Value256Of(x, y, 0);
    NextSextet(x * 1024 + y * 4, 0, 0);
    if |b| == 1 {
      NextSextet(x * 1024, 0, 0);
      NextSextet(x * 16, 0, 0);
    }
  }

  lemma GroupRoundTrip(b: seq<Byte>)
    requires 0 < |b| <= 3
    ensures Octets(ByteGroup(b))[..|b|] == b
    ensures CodeGroup(Sextets(ByteGroup(b))[..|b| + 1]) == ByteGroup(b)
  {
    var full := b + seq(3 - |b|, _ => 0);
    OctetsOfValue(full);
    ValueOfSextets(ByteGroup(b));
    if |b| < 3 {
      UnusedCodesZero(b);
    } else {
      assert Sextets(ByteGroup(b))[..4] + seq(0, _ => 0) == Sextets(ByteGroup(b));
    }
    assert Octets(ByteGroup(b))[..|b|] == full[..|b|];
  }

  lemma {:induction false} FromCodesOfToCodes(b: seq<Byte>)
    ensures FromCodes(ToCodes(b)) == b
  {
    if |b| >= 3 {
      GroupRoundTrip(b[..3]);
      FromCodesOfToCodes(b[3..]);
      var s := Sextets(ByteGroup(b[..3]));
      assert s[..4] == s;
      FromCodesStep(s, ToCodes(b[3..]));
      assert b == b[..3] + b[3..];
    } else if |b| > 0 {
      GroupRoundTrip(b);
    }
  }

  lemma FromCodesStep(c: seq<Code>, d: seq<Code>)
    requires |c| == 4
    ensures FromCodes(c + d) == Octets(CodeGroup(c)) + FromCodes(d)
  {
    assert (c + d)[..4] == c && (c + d)[4..] == d;
  }

  lemma ToCodesStep(b: seq<Byte>, d: seq<Byte>)
    requires |b| == 3
    ensures ToCodes(b + d) == Sextets(ByteGroup(b)) + ToCodes(d)
  {
    assert (b + d)[..3] == b && (b + d)[3..] == d;
  }

  /** The bits of the last code that no byte uses, cleared. */
  function Trim(c: seq<Code>): seq<Code>
    requires 2 <= |c| <= 3
  {
    var unit := if |c| == 2 then 16 else 4;
    c[|c| - 1 := c[|c| - 1] / unit * unit]
  }

  lemma ZeroFill(s: seq<Byte>, n: nat)
    requires |s| + n == 3
    ensures n == 2 ==> s + seq(n, _ => 0) == [s[0], 0, 0]
    ensures n == 1 ==> s + seq(n, _ => 0) == [s[0], s[1], 0]
  {
  }

  /** One byte keeps the first code and the upper two bits of the second. */
  lemma TrimTwo(c: seq<Code>)
    requires |c| == 2
    ensures ByteGroup(Octets(CodeGroup(c))[..1]) == CodeGroup(Trim(c))
  {
    var a: int, b: int := c[0], c[1];
    var hi, lo: nat := a * 4 + b / 16, b % 16;
    assert c + seq(2, _ => 0) == [a, b, 0, 0] && Trim(c) + seq(2, _ => 0) == [a, b / 16 * 16, 0, 0];
    Value64Of(a, b, 0, 0);
    Value64Of(a, b / 16 * 16, 0, 0);
    assert CodeGroup(c) == (hi * 256 + lo * 16) * 256 + 0;
    NextOctet(hi * 256 + lo * 16, 0, 1);
    NextOctet(hi, lo * 16, 0);
    assert Octet(hi, 0) == hi;
    ZeroFill([hi], 2);
    Value256Of(hi, 0, 0);
    assert Octets(CodeGroup(c))[..1] == [hi];
  }

  /** Two bytes keep the first two codes and the upper four bits of the third. */
  lemma TrimThree(c: seq<Code>)
    requires |c| == 3
    ensures ByteGroup(Octets(CodeGroup(c))[..2]) == CodeGroup(Trim(c))
  {
    var x: int, y: int, z: int := c[0], c[1], c[2];
    var hi, lo: nat := (x * 64 + y) * 16 + z / 4, z % 4;
    assert c + seq(1, _ => 0) == [x, y, z, 0] && Trim(c) + seq(1, _ => 0) == [x, y, z / 4 * 4, 0];
    Value64Of(x, y, z, 0);
    Value64Of(x, y, z / 4 * 4, 0);
    var v, w := CodeGroup(c), hi * 256;
    assert v == hi * 256 + lo * 64;
    NextOctet(hi, lo * 64, 0);
    NextOctet(hi, lo * 64, 1);
    NextOctet(hi, 0, 0);
    NextOctet(hi, 0, 1);
    ValueOfOctets(w);
    assert Octets(v)[..2] + seq(1, _ => 0) == Octets(w);
  }

  lemma TrimRoundTrip(c: seq<Code>)
    requires 2 <= |c| <= 3
    ensures ToCodes(FromCodes(c)) == Trim(c)
  {
    if |c| == 2 {
      TrimTwo(c);
    } else {
      TrimThree(c);
    }
    SextetsOfValue(Trim(c) + seq(4 - |c|, _ => 0));
    assert (Trim(c) + seq(4 - |c|, _ => 0))[..|c|] == Trim(c);
  }

  /** The bits of the last code that no byte uses are zero. */
  predicate NoSpareBits(c: seq<Code>) {
    c != [] ==>
      (|c| % 4 == 2 ==> c[|c| - 1] % 16 == 0) && (|c| % 4 == 3 ==> c[|c| - 1] % 4 == 0)
  }

  lemma TrimIsSame(c: seq<Code>)
    requires 2 <= |c| <= 3
    ensures Trim(c) == c <==> NoSpareBits(c)
  {
    var last, unit := c[|c| - 1], if |c| == 2 then 16 else 4;
    assert last == last / unit * unit + last % unit;
    assert Trim(c)[|c| - 1] == last / unit * unit;
  }

  lemma {:induction false} ToCodesOfFromCodes(c: seq<Code>, k: nat)
    requires |c| - 4 * k in {0, 2, 3}
    ensures ToCodes(FromCodes(c)) == c <==> NoSpareBits(c)
    decreases k
  {
    if k > 0 {
      var head, tail := c[..4], c[4..];
      assert c == head + tail;
      ToCodesOfFromCodes(tail, k - 1);
      HeadRoundTrip(head, tail);
      SameTail(head, ToCodes(FromCodes(tail)), tail);
      SpareBitsOfTail(c, k);
    } else if c != [] {
      TrimRoundTrip(c);
      TrimIsSame(c);
    }
  }

  lemma HeadRoundTrip(head: seq<Code>, tail: seq<Code>)
    requires |head| == 4
    ensures ToCodes(FromCodes(head + tail)) == head + ToCodes(FromCodes(tail))
  {
    FromCodesStep(head, tail);
    var b := Octets(CodeGroup(head));
    ToCodesStep(b, FromCodes(tail));
    assert head + seq(0, _ => 0) == head && b + seq(0, _ => 0) == b;
    SextetsOfValue(head);
    ValueOfOctets(Value64(head));
  }

  lemma SpareBitsOfTail(c: seq<Code>, k: nat)
    requires k > 0 && |c| - 4 * k in {0, 2, 3}
    ensures NoSpareBits(c) <==> NoSpareBits(c[4..])
  {
    Mod4(k, |c| - 4 * k);
    Mod4(k - 1, |c| - 4 * k);
  }

  lemma SameTail<T>(a: seq<T>, b: seq<T>, c: seq<T>)
    ensures a + b == a + c <==> b == c
  {
    if a + b == a + c {
      assert (a + b)[|a|..] == b && (a + c)[|a|..] == c;
    }
  }

  // ---------- the texts ----------

  function Encode(b: seq<Byte>): string {
    Chars(ToCodes(b))
  }

  datatype DecodeResult = Decoded(bytes: seq<Byte>) | Failed | Exits

  /** b64_to_bin_nopad on values: the size checks come before the characters are looked at. */
  ghost function Decode(s: string, maxLen: int): DecodeResult {
    if s == "" then Decoded([])
    else if |s| % 4 == 1 || maxLen < DecodedSize(|s|) then Failed
    else if InAlphabet(s) then Decoded(FromCodes(Codes(s)))
    else Exits
  }

  lemma EncodedRemainder(b: seq<Byte>)
    ensures |Encode(b)| % 4 == (if |b| % 3 == 0 then 0 else |b| % 3 + 1)
    ensures |Encode(b)| == 4 * (|b| / 3) + |Encode(b)| % 4
    ensures DecodedSize(|Encode(b)|) == |b|
  {
    var k, r := |b| / 3, |b| % 3;
    var e := if r == 0 then 0 else r + 1;
    EncodedSizeIs(k, r);
    Mod4(k, e);
    DecodedSizeIs(k, e);
  }

  /** Decoding undoes encoding. */
  lemma DecodeOfEncode(b: seq<Byte>, maxLen: int)
    requires |b| <= maxLen
    ensures Decode(Encode(b), maxLen) == Decoded(b)
  {
    CharsAndCodes(ToCodes(b), Encode(b));
    FromCodesOfToCodes(b);
    EncodedRemainder(b);
  }

  /** Re-encoding what was decoded gives the text back exactly when its spare bits are zero. */
  lemma EncodeOfDecode(s: string, maxLen: int, b: seq<Byte>)
    requires Decode(s, maxLen) == Decoded(b)
    ensures InAlphabet(s)
    ensures Encode(b) == s <==> NoSpareBits(Codes(s))
  {
    if s != "" {
      ToCodesOfFromCodes(Codes(s), |s| / 4);
    }
    CharsAndCodes(ToCodes(b), s);
  }

  // ---------- padding ----------

  function Pad(t: string): string {
    if |t| % 4 == 2 then t + [PAD, PAD] else if |t| % 4 == 3 then t + [PAD] else t
  }

  function Strip(s: string): string {
    if |s| % 4 == 0 && |s| >= 4 then
      if s[|s| - 2] == PAD then s[..|s| - 2] else if s[|s| - 1] == PAD then s[..|s| - 1] else s
    else s
  }

  lemma StripOfPad(t: string)
    requires InAlphabet(t) && |t| % 4 != 1
    ensures Strip(Pad(t)) == t
  {
    if |t| % 4 == 0 && |t| >= 4 {
      assert CharToCode(t[|t| - 2]).Some? && CharToCode(t[|t| - 1]).Some?;
    } else if |t| % 4 == 3 {
      assert CharToCode(t[|t| - 1]).Some?;
    }
  }

  lemma StripOfUnpadded(t: string)
    requires InAlphabet(t)
    ensures Strip(t) == t
  {
    if |t| % 4 == 0 && |t| >= 4 {
      assert CharToCode(t[|t| - 2]).Some? && CharToCode(t[|t| - 1]).Some?;
    }
  }

  /** b64_to_bin undoes both bin_to_b64 and bin_to_b64_nopad, for every byte string. */
  lemma PaddedRoundTrip(b: seq<Byte>, maxLen: int)
    requires |b| <= maxLen
    ensures Decode(Strip(Pad(Encode(b))), maxLen) == Decoded(b)
    ensures Decode(Strip(Encode(b)), maxLen) == Decoded(b)
  {
    CharsAndCodes(ToCodes(b), Encode(b));
    EncodedRemainder(b);
    StripOfPad(Encode(b));
    StripOfUnpadded(Encode(b));
    DecodeOfEncode(b, maxLen);
  }

  /** Every started block of three bytes takes four characters. */
  function PaddedSize(n: nat): nat { (n + 2) / 3 * 4 }

  lemma PaddedSizeIs(n: nat, e: nat)
    requires e % 4 == (if n % 3 == 0 then 0 else n % 3 + 1) && e == 4 * (n / 3) + e % 4
    ensures PaddedSize(n) == e + if e % 4 == 0 then 0 else 4 - e % 4
  {
    var k, r := n / 3, n % 3;
    assert n + 2 == 3 * (k + if r == 0 then 0 else 1) + if r == 0 then 2 else r - 1;
  }

  // ---------- the buffers ----------

  lemma {:induction false} ToCodesAppend(a: seq<Byte>, b: seq<Byte>, k: nat)
    requires |a| == 3 * k
    ensures ToCodes(a + b) == ToCodes(a) + ToCodes(b)
    decreases k
  {
    if k == 0 {
      assert a + b == b;
    } else {
      var head, tail := a[..3], a[3..];
      assert a == head + tail && a + b == head + (tail + b);
      ToCodesAppend(tail, b, k - 1);
      ToCodesHead(head, tail, b);
    }
  }

  lemma ToCodesHead(head: seq<Byte>, tail: seq<Byte>, b: seq<Byte>)
    requires |head| == 3 && ToCodes(tail + b) == ToCodes(tail) + ToCodes(b)
    ensures ToCodes(head + (tail + b)) == ToCodes(head + tail) + ToCodes(b)
  {
    ToCodesStep(head, tail);
    ToCodesStep(head, tail + b);
  }

  lemma {:induction false} FromCodesAppend(c: seq<Code>, d: seq<Code>, k: nat)
    requires |c| == 4 * k
    ensures FromCodes(c + d) == FromCodes(c) + FromCodes(d)
    decreases k
  {
    if k == 0 {
      assert c + d == d;
    } else {
      var head, tail := c[..4], c[4..];
      assert c == head + tail && c + d == head + (tail + d);
      FromCodesAppend(tail, d, k - 1);
      FromCodesHead(head, tail, d);
    }
  }

  lemma FromCodesHead(head: seq<Code>, tail: seq<Code>, d: seq<Code>)
    requires |head| == 4 && FromCodes(tail + d) == FromCodes(tail) + FromCodes(d)
    ensures FromCodes(head + (tail + d)) == FromCodes(head + tail) + FromCodes(d)
  {
    FromCodesStep(head, tail);
    FromCodesStep(head, tail + d);
  }

  lemma CharsAppend(c: seq<Code>, d: seq<Code>)
    ensures Chars(c + d) == Chars(c) + Chars(d)
  {
  }

  /** One more full block of input is four more characters of output. */
  lemma EncodeNextBlock(b: seq<Byte>, i: nat)
    requires 3 * i + 3 <= |b|
    ensures Encode(b[..3 * i + 3]) == Encode(b[..3 * i]) + Chars(Sextets(ByteGroup(b[3 * i..3 * i + 3])))
  {
    var t, u := b[..3 * i + 3], b[3 * i..3 * i + 3];
    assert t == b[..3 * i] + u;
    ToCodesAppend(b[..3 * i], u, i);
    ToCodesStep(u, []);
    assert u + [] == u && ToCodes(u) == Sextets(ByteGroup(u));
    CharsAppend(ToCodes(b[..3 * i]), ToCodes(u));
  }

  lemma EncodeLastBlock(b: seq<Byte>, k: nat)
    requires 3 * k <= |b| < 3 * k + 3
    ensures var u := b[3 * k..];
            Encode(b) == Encode(b[..3 * k]) + if u == [] then "" else Chars(Sextets(ByteGroup(u)))[..|u| + 1]
  {
    assert b == b[..3 * k] + b[3 * k..];
    ToCodesAppend(b[..3 * k], b[3 * k..], k);
    CharsAppend(ToCodes(b[..3 * k]), ToCodes(b[3 * k..]));
  }

  lemma ByteGroupOf(b: seq<Byte>)
    requires 0 < |b| <= 3
    ensures var x: int, y: int, z: int := b[0], if |b| > 1 then b[1] else 0, if |b| > 2 then b[2] else 0;
            ByteGroup(b) == (x * 256 + y) * 256 + z
  {
    var y: Byte, z: Byte := if |b| > 1 then b[1] else 0, if |b| > 2 then b[2] else 0;
    assert b + seq(3 - |b|, _ => 0) == [b[0], y, z];
    Value256Of(b[0], y, z);
  }

  /** Encodes the n bytes from at on into the n + 1 characters from to on. */
  method PutGroup(input: array<Byte>, at: nat, n: nat, out: array<char>, to: nat)
    requires 1 <= n <= 3 && at + n <= input.Length && to + n + 1 <= out.Length
    modifies out
    ensures out[..to + n + 1] == old(out[..to]) + Chars(Sextets(ByteGroup(input[at..at + n])))[..n + 1]
    ensures forall k :: to + n + 1 <= k < out.Length ==> out[k] == old(out[k])
  {
    ByteGroupOf(input[at..at + n]);
    var v: int := input[at];
    v := v * 256 + if n > 1 then input[at + 1] else 0;
    v := v * 256 + if n > 2 then input[at + 2] else 0;
    ghost var c := Sextets(v);
    assert v == ByteGroup(input[at..at + n]);
    out[to] := CodeToChar(Sextet(v, 3));
    out[to + 1] := CodeToChar(Sextet(v, 2));
    if n > 1 {
      out[to + 2] := CodeToChar(Sextet(v, 1));
    }
    if n > 2 {
      out[to + 3] := CodeToChar(Sextet(v, 0));
    }
    assert out[to..to + n + 1] == Chars(c)[..n + 1];
    assert out[..to + n + 1] == out[..to] + out[to..to + n + 1];
  }

  /** What bin_to_b64_nopad returns: the empty input is not checked against the buffer size. */
  function EncodeReturn(size: nat, maxLen: int): int {
    if size == 0 then 0 else if maxLen < EncodedSize(size) + 1 then -1 else EncodedSize(size)
  }

  /** bin_to_b64_nopad; the buffer holds at least maxLen characters, and at least one. */
  method BinToB64NoPad(input: array?<Byte>, size: nat, out: array?<char>, maxLen: int) returns (ret: int)
    requires input != null ==> size <= input.Length
    requires out != null ==> maxLen <= out.Length && 1 <= out.Length
    modifies out
    ensures input == null || out == null ==> ret == -1
    ensures input != null && out != null ==> ret == EncodeReturn(size, maxLen)
    ensures input != null && out != null && ret >= 0 ==>
              ret < out.Length && out[..ret] == Encode(input[..size]) && out[ret] == NUL
    ensures out != null ==> forall k :: (if ret < 0 then 0 else ret + 1) <= k < out.Length ==> out[k] == old(out[k])
  {
    if input == null || out == null {
      return -1;
    }
    if size == 0 {
      out[0] := NUL;
      return 0;
    }
    var fullBlocks, lastBytes := size / 3, size % 3;
    var lastChars := if lastBytes == 0 then 0 else if lastBytes == 1 then 2 else 3;
    ret := 4 * fullBlocks + lastChars;
    EncodedSizeIs(fullBlocks, lastBytes);
    if maxLen < ret + 1 {
      return -1;
    }
    EncodeInto(input, size, fullBlocks, out);
    out[ret] := NUL;
  }

  /** The full blocks and the partial one. */
  method EncodeInto(input: array<Byte>, size: nat, fullBlocks: nat, out: array<char>)
    requires size <= input.Length && 3 * fullBlocks <= size < 3 * fullBlocks + 3 && EncodedSize(size) <= out.Length
    modifies out
    ensures out[..EncodedSize(size)] == Encode(input[..size])
    ensures forall k :: EncodedSize(size) <= k < out.Length ==> out[k] == old(out[k])
  {
    ghost var s := input[..size];
    var at, to, n := 3 * fullBlocks, 4 * fullBlocks, size - 3 * fullBlocks;
    hide Encode, EncodedSize, Sextets, ByteGroup, Chars;
    EncodedSizeIs(fullBlocks, n);
    EncodeFull(input, fullBlocks, out);
    EncodeLastBlock(s, fullBlocks);
    assert s[..at] == input[..at] && s[at..] == input[at..size];
    if n > 0 {
      PutGroup(input, at, n, out, to);
    }
  }

  /** The loop over the full blocks. */
  method EncodeFull(input: array<Byte>, fullBlocks: nat, out: array<char>)
    requires 3 * fullBlocks <= input.Length && 4 * fullBlocks <= out.Length
    modifies out
    ensures out[..4 * fullBlocks] == Encode(input[..3 * fullBlocks])
    ensures forall k :: 4 * fullBlocks <= k < out.Length ==> out[k] == old(out[k])
  {
    ghost var b := input[..];
    for i := 0 to fullBlocks
      invariant out[..4 * i] == Encode(b[..3 * i])
      invariant forall k :: 4 * i <= k < out.Length ==> out[k] == old(out[k])
    {
      EncodeNextBlock(b, i);
      assert b[3 * i..3 * i + 3] == input[3 * i..3 * i + 3];
      PutGroup(input, 3 * i, 3, out, 4 * i);
    }
    assert b[..3 * fullBlocks] == input[..3 * fullBlocks];
  }

  /** bin_to_b64: a non-empty input succeeds exactly when the padded text and its terminator fit. */
  method BinToB64(input: array?<Byte>, size: nat, out: array?<char>, maxLen: int) returns (ret: int)
    requires input != null ==> size <= input.Length
    requires out != null ==> maxLen <= out.Length && 1 <= out.Length
    modifies out
    ensures input == null || out == null ==> ret == -1
    ensures input != null && out != null ==>
              ret == if size > 0 && maxLen < PaddedSize(size) + 1 then -1 else PaddedSize(size)
    ensures input != null && out != null && ret >= 0 ==>
              ret < out.Length && out[..ret] == Pad(Encode(input[..size])) && out[ret] == NUL
  {
    ret := BinToB64NoPad(input, size, out, maxLen);
    if input != null {
      EncodedRemainder(input[..size]);
      PaddedSizeIs(size, EncodedSize(size));
    }
    if ret == -1 {
      return;
    }
    var pads := if ret % 4 == 2 then 2 else if ret % 4 == 3 then 1 else 0;
    if pads > 0 {
      if maxLen < ret + pads + 1 {
        return -1;
      }
      AddPads(out, ret, pads);
      ret := ret + pads;
    }
  }

  /** One or two padding characters and a terminator, behind the text. */
  method AddPads(out: array<char>, at: nat, pads: nat)
    requires 1 <= pads <= 2 && at + pads < out.Length
    modifies out
    ensures out[..at + pads] == old(out[..at]) + if pads == 2 then [PAD, PAD] else [PAD]
    ensures out[at + pads] == NUL
  {
    out[at] := PAD;
    if pads == 2 {
      out[at + 1] := PAD;
    }
    out[at + pads] := NUL;
  }

  // ---------- decoding buffers ----------

  /** The first i blocks of s are in the alphabet and decode to out. */
  ghost predicate DecodedUpTo(s: string, i: nat, out: seq<Byte>) {
    4 * i <= |s| && InAlphabet(s[..4 * i]) && out == FromCodes(Codes(s[..4 * i]))
  }

  lemma CodesAppend(s: string, t: string)
    requires InAlphabet(s) && InAlphabet(t)
    ensures InAlphabet(s + t) && Codes(s + t) == Codes(s) + Codes(t)
  {
  }

  lemma NextBlock(s: string, i: nat, out: seq<Byte>)
    requires 4 * i + 4 <= |s| && DecodedUpTo(s, i, out)
    ensures var t := s[4 * i..4 * i + 4];
            if InAlphabet(t) then DecodedUpTo(s, i + 1, out + Octets(CodeGroup(Codes(t)))) else !InAlphabet(s)
  {
    var t, u := s[4 * i..4 * i + 4], s[..4 * i];
    assert forall k :: 0 <= k < 4 ==> t[k] == s[4 * i + k];
    assert s[..4 * (i + 1)] == u + t;
    if InAlphabet(t) {
      CodesAppend(u, t);
      FromCodesAppend(Codes(u), Codes(t), i);
      FromCodesStep(Codes(t), []);
      assert Codes(t) + [] == Codes(t);
    }
  }

  lemma LastBlock(s: string, k: nat, out: seq<Byte>)
    requires DecodedUpTo(s, k, out) && |s| < 4 * k + 4
    ensures var t := s[4 * k..];
            && (InAlphabet(s) <==> InAlphabet(t))
            && (InAlphabet(s) ==>
                  FromCodes(Codes(s)) == out + if |t| < 2 then [] else Octets(CodeGroup(Codes(t)))[..|t| - 1])
  {
    var t, u := s[4 * k..], s[..4 * k];
    assert s == u + t;
    assert forall j :: 0 <= j < |t| ==> t[j] == s[4 * k + j];
    if InAlphabet(t) {
      CodesAppend(u, t);
      FromCodesAppend(Codes(u), Codes(t), k);
    }
  }

  lemma CodeGroupOf(c: seq<Code>)
    requires 2 <= |c| <= 4
    ensures var w: int, x: int, y: int, z: int := c[0], c[1], if |c| > 2 then c[2] else 0, if |c| > 3 then c[3] else 0;
            CodeGroup(c) == ((w * 64 + x) * 64 + y) * 64 + z
  {
    var y: Code, z: Code := if |c| > 2 then c[2] else 0, if |c| > 3 then c[3] else 0;
    assert c + seq(4 - |c|, _ => 0) == [c[0], c[1], y, z];
    Value64Of(c[0], c[1], y, z);
  }

  /** Decodes the n characters from at on into the n - 1 bytes from to on, unless one is not in the alphabet. */
  method TakeGroup(input: array<char>, at: nat, n: nat, out: array<Byte>, to: nat) returns (exited: bool)
    requires 2 <= n <= 4 && at + n <= input.Length && to + n - 1 <= out.Length
    modifies out
    ensures exited <==> !InAlphabet(input[at..at + n])
    ensures !exited ==> out[..to + n - 1] == old(out[..to]) + Octets(CodeGroup(Codes(input[at..at + n])))[..n - 1]
    ensures forall k :: to + n - 1 <= k < out.Length ==> out[k] == old(out[k])
  {
    ghost var s := input[at..at + n];
    assert forall k :: 0 <= k < n ==> s[k] == input[at + k];
    var c0, c1 := CharToCode(input[at]), CharToCode(input[at + 1]);
    var c2: Option<Code>, c3: Option<Code> := Some(0), Some(0);
    if n > 2 {
      c2 := CharToCode(input[at + 2]);
    }
    if n > 3 {
      c3 := CharToCode(input[at + 3]);
    }
    if c0.None? || c1.None? || c2.None? || c3.None? {
      assert CharToCode(s[if c0.None? then 0 else if c1.None? then 1 else if c2.None? then 2 else 3]).None?;
      return true;
    }
    CodeGroupOf(Codes(s));
    var v: int := c0.value;
    v := ((v * 64 + c1.value) * 64 + c2.value) * 64 + c3.value;
    PutOctets(v, n - 1, out, to);
    exited := false;
  }

  method PutOctets(v: nat, n: nat, out: array<Byte>, to: nat)
    requires 1 <= n <= 3 && to + n <= out.Length
    modifies out
    ensures out[..to + n] == old(out[..to]) + Octets(v)[..n]
    ensures forall k :: to + n <= k < out.Length ==> out[k] == old(out[k])
  {
    out[to] := Octet(v, 2);
    if n > 1 {
      out[to + 1] := Octet(v, 1);
    }
    if n > 2 {
      out[to + 2] := Octet(v, 0);
    }
  }

  /** A decoding result as the caller sees it. */
  ghost predicate Returns(d: DecodeResult, ret: int, exited: bool, out: seq<Byte>) {
    match d
    case Decoded(b) => !exited && ret == |b| <= |out| && out[..|b|] == b
    case Failed => !exited && ret == -1
    case Exits => exited
  }

  /** b64_to_bin_nopad; exited tells that the process was ended on a bad character. */
  method B64ToBinNoPad(input: array?<char>, size: nat, out: array?<Byte>, maxLen: int) returns (ret: int, exited: bool)
    requires input != null ==> size <= input.Length
    requires out != null ==> maxLen <= out.Length
    modifies out
    ensures input == null || out == null ==> ret == -1 && !exited
    ensures input != null && out != null ==> Returns(Decode(input[..size], maxLen), ret, exited, out[..])
    ensures out != null && !exited ==>
              forall k :: (if ret < 0 then 0 else ret) <= k < out.Length ==> out[k] == old(out[k])
  {
    if input == null || out == null {
      return -1, false;
    }
    if size == 0 {
      return 0, false;
    }
    var fullBlocks, lastChars := size / 4, size % 4;
    if lastChars == 1 {
      return -1, false;
    }
    var lastBytes := if lastChars == 0 then 0 else lastChars - 1;
    ret := 3 * fullBlocks + lastBytes;
    DecodedSizeIs(fullBlocks, lastChars);
    if maxLen < ret {
      return -1, false;
    }
    exited := DecodeInto(input, size, fullBlocks, out);
    assert !exited ==> out[..][..ret] == out[..ret];
  }

  /** The full blocks and the partial one. */
  method DecodeInto(input: array<char>, size: nat, fullBlocks: nat, out: array<Byte>) returns (exited: bool)
    requires size <= input.Length && size - 4 * fullBlocks in {0, 2, 3} && DecodedSize(size) <= out.Length
    modifies out
    ensures exited <==> !InAlphabet(input[..size])
    ensures !exited ==> out[..DecodedSize(size)] == FromCodes(Codes(input[..size]))
    ensures !exited ==> forall k :: DecodedSize(size) <= k < out.Length ==> out[k] == old(out[k])
  {
    ghost var s := input[..size];
    DecodedSizeIs(fullBlocks, size - 4 * fullBlocks);
    exited := DecodeFull(input, size, fullBlocks, out);
    if exited {
      return;
    }
    LastBlock(s, fullBlocks, out[..3 * fullBlocks]);
    assert input[4 * fullBlocks..size] == s[4 * fullBlocks..];
    if size > 4 * fullBlocks {
      exited := TakeGroup(input, 4 * fullBlocks, size - 4 * fullBlocks, out, 3 * fullBlocks);
    }
  }

  /** The loop over the full blocks. */
  method DecodeFull(input: array<char>, size: nat, fullBlocks: nat, out: array<Byte>) returns (exited: bool)
    requires 4 * fullBlocks <= size <= input.Length && 3 * fullBlocks <= out.Length
    modifies out
    ensures exited ==> !InAlphabet(input[..size])
    ensures !exited ==> DecodedUpTo(input[..size], fullBlocks, out[..3 * fullBlocks])
    ensures forall k :: 3 * fullBlocks <= k < out.Length ==> out[k] == old(out[k])
  {
    ghost var s := input[..size];
    for i := 0 to fullBlocks
      invariant DecodedUpTo(s, i, out[..3 * i])
      invariant forall k :: 3 * i <= k < out.Length ==> out[k] == old(out[k])
    {
      NextBlock(s, i, out[..3 * i]);
      SliceOfPrefix(input[..], size, 4 * i);
      assert input[..][..size] == s && input[..][4 * i..4 * i + 4] == input[4 * i..4 * i + 4];
      var bad := TakeGroup(input, 4 * i, 4, out, 3 * i);
      if bad {
        return true;
      }
    }
    exited := false;
  }

  lemma SliceOfPrefix(s: string, n: nat, at: nat)
    requires at + 4 <= n <= |s|
    ensures s[..n][at..at + 4] == s[at..at + 4]
  {
  }

  /** b64_to_bin. */
  method B64ToBin(input: array?<char>, size: nat, out: array?<Byte>, maxLen: int) returns (ret: int, exited: bool)
    requires input != null ==> size <= input.Length
    requires out != null ==> maxLen <= out.Length
    modifies out
    ensures input == null || out == null ==> ret == -1 && !exited
    ensures input != null && out != null ==> Returns(Decode(Strip(input[..size]), maxLen), ret, exited, out[..])
  {
    if input == null {
      return -1, false;
    }
    var used := size;
    if size % 4 == 0 && size >= 4 {
      if input[size - 2] == PAD {
        used := size - 2;
      } else if input[size - 1] == PAD {
        used := size - 1;
      }
    }
    assert Strip(input[..size]) == input[..used];
    ret, exited := B64ToBinNoPad(input, used, out, maxLen);
  }
}
