/**
  UTF-16 escapes and UTF-8 sequences, byte by byte. The masks and shifts of the program are divisions and remainders.
 */
module JsonUtf8 {
  import opened Wrappers

  function Code(c: char): nat { c as nat }

  // ---------- UTF-8 ----------

  predicate IsCont(c: char) { 0x80 <= Code(c) < 0xC0 }

  /** num_bytes_in_utf8_sequence */
  function SequenceLength(c: char): nat {
    var b := Code(c);
    if b == 0xC0 || b == 0xC1 || b > 0xF4 || IsCont(c) then 0
    else if b < 0x80 then 1
    else if b < 0xE0 then 2
    else if b < 0xF0 then 3
    else 4
  }

  function At(s: string, i: nat): char { if i < |s| then s[i] else 0 as char }

  /** The low six bits of a continuation byte. */
  function Low6(c: char): nat { Code(c) % 64 }

  /** The code point gathered by verify_utf8_sequence, when the continuation bytes are there. */
  function Gather(s: string): Option<nat>
    requires s != ""
  {
    var n := SequenceLength(s[0]);
    var b := Code(s[0]);
    if n == 1 then Some(b)
    else if n == 2 && IsCont(At(s, 1)) then Some(b % 0x20 * 64 + Low6(At(s, 1)))
    else if n == 3 && IsCont(At(s, 1)) && IsCont(At(s, 2)) then
      Some((b % 0x10 * 64 + Low6(At(s, 1))) * 64 + Low6(At(s, 2)))
    else if n == 4 && IsCont(At(s, 1)) && IsCont(At(s, 2)) && IsCont(At(s, 3)) then
      Some(((b % 8 * 64 + Low6(At(s, 1))) * 64 + Low6(At(s, 2))) * 64 + Low6(At(s, 3)))
    else None
  }

  /** verify_utf8_sequence: length and code point of an accepted sequence. */
  function Verify(s: string): Option<(nat, nat)>
    requires s != ""
  {
    var n := SequenceLength(s[0]);
    match Gather(s)
    case None => None
    case Some(cp) =>
      if (cp < 0x80 && n > 1) || (cp < 0x800 && n > 2) || (cp < 0x10000 && n > 3) then None
      else if cp > 0x10FFFF then None
      else if 0xD800 <= cp <= 0xDFFF then None
      else Some((n, cp))
  }

  // ---------- escapes ----------

  function HexDigit(c: char): Option<nat> {
    if '0' <= c <= '9' then Some(c as nat - '0' as nat)
    else if 'a' <= c <= 'f' then Some(c as nat - 'a' as nat + 10)
    else if 'A' <= c <= 'F' then Some(c as nat - 'A' as nat + 10)
    else None
  }

  /** Four hexadecimal digits at the front of s. */
  function Hex4(s: string): (r: Option<nat>)
    ensures r.Some? ==> r.value < 0x10000 && |s| >= 4
  {
    if |s| < 4 || !(forall i :: 0 <= i < 4 ==> HexDigit(s[i]).Some?) then None
    else Some(((HexOf(s[0]) * 16 + HexOf(s[1])) * 16 + HexOf(s[2])) * 16 + HexOf(s[3]))
  }

  function HexOf(c: char): (d: nat)
    requires HexDigit(c).Some?
    ensures d < 16
  {
    HexDigit(c).value
  }

  predicate IsLead(cp: nat) { 0xD800 <= cp <= 0xDBFF }

  predicate IsTrail(cp: nat) { 0xDC00 <= cp <= 0xDFFF }

  /** The bytes written for a code point. */
  function Bytes(cp: nat): string
    requires cp <= 0x10FFFF
  {
    if cp < 0x80 then [cp as char]
    else if cp < 0x800 then [(0xC0 + cp / 64 % 0x20) as char, (0x80 + cp % 64) as char]
    else if cp < 0x10000 then
      [(0xE0 + cp / 64 / 64 % 0x10) as char, (0x80 + cp / 64 % 64) as char, (0x80 + cp % 64) as char]
    else
      [(0xF0 + cp / 64 / 64 / 64 % 8) as char, (0x80 + cp / 64 / 64 % 64) as char,
       (0x80 + cp / 64 % 64) as char, (0x80 + cp % 64) as char]
  }

  function Combine(lead: nat, trail: nat): (cp: nat)
    requires IsLead(lead) && IsTrail(trail)
    ensures 0x10000 <= cp <= 0x10FFFF
  {
    (lead - 0xD800) * 0x400 + (trail - 0xDC00) + 0x10000
  }

  /** What an escape stands for: its code point, and how many characters follow the backslash and the u. */
  datatype Utf16 = Utf16(cp: nat, taken: nat)

  /** parse_utf_16 on the text behind the u. */
  function ParseUtf16(s: string): (r: Option<Utf16>)
    ensures r.Some? ==> r.value.cp <= 0x10FFFF && (r.value.taken == 4 || r.value.taken == 10) && r.value.taken <= |s|
    ensures r.Some? ==> !(0xD800 <= r.value.cp <= 0xDFFF)
    ensures r.Some? && r.value.taken == 4 ==> r.value.cp < 0x10000
  {
    match Hex4(s)
    case None => None
    case Some(cp) =>
      if cp < 0xD800 || cp > 0xDFFF then Some(Utf16(cp, 4))
      else if IsLead(cp) then
        if |s| >= 6 && s[4] == '\\' && s[5] == 'u' then
          match Hex4(s[6..])
          case None => None
          case Some(trail) => if IsTrail(trail) then Some(Utf16(Combine(cp, trail), 10)) else None
        else None
      else None
  }

  /** A continuation byte carries six bits. */
  lemma ContByte(x: nat)
    ensures IsCont((0x80 + x % 64) as char) && Low6((0x80 + x % 64) as char) == x % 64
  {
  }

  lemma FirstByte(mark: nat, x: nat, unit: nat)
    requires (mark == 0xC0 && unit == 0x20) || (mark == 0xE0 && unit == 0x10) || (mark == 0xF0 && unit == 8)
    requires x < unit
    ensures (mark + x) % unit == x && x % unit == x
  {
  }

  lemma SixBits(cp: nat)
    ensures cp == cp / 64 * 64 + cp % 64
  {
  }

  lemma GatherTwo(cp: nat, rest: string)
    requires 0x80 <= cp < 0x800
    ensures Gather(Bytes(cp) + rest) == Some(cp) && SequenceLength(Bytes(cp)[0]) == 2
  {
    var q := cp / 64;
    var s := Bytes(cp) + rest;
    FirstByte(0xC0, q, 0x20);
    ContByte(cp);
    assert s[0] == (0xC0 + q) as char && At(s, 1) == (0x80 + cp % 64) as char;
  }

  lemma GatherThree(cp: nat, rest: string)
    requires 0x800 <= cp < 0x10000
    ensures Gather(Bytes(cp) + rest) == Some(cp) && SequenceLength(Bytes(cp)[0]) == 3
  {
    var q := cp / 64;
    var s := Bytes(cp) + rest;
    SixBits(cp);
    SixBits(q);
    FirstByte(0xE0, q / 64, 0x10);
    ContByte(cp);
    ContByte(q);
    assert s[0] == (0xE0 + q / 64) as char;
    assert At(s, 1) == (0x80 + q % 64) as char && At(s, 2) == (0x80 + cp % 64) as char;
  }

  lemma GatherFour(cp: nat, rest: string)
    requires 0x10000 <= cp <= 0x10FFFF
    ensures Gather(Bytes(cp) + rest) == Some(cp) && SequenceLength(Bytes(cp)[0]) == 4
  {
    var q := cp / 64;
    var p := q / 64;
    var s := Bytes(cp) + rest;
    SixBits(cp);
    SixBits(q);
    SixBits(p);
    FirstByte(0xF0, p / 64, 8);
    ContByte(cp);
    ContByte(q);
    ContByte(p);
    assert s[0] == (0xF0 + p / 64) as char && At(s, 1) == (0x80 + p % 64) as char;
    assert At(s, 2) == (0x80 + q % 64) as char && At(s, 3) == (0x80 + cp % 64) as char;
  }

  /** Every code point outside the surrogates is written as one sequence that verifies to it, whatever follows. */
  lemma VerifyOfBytes(cp: nat, rest: string)
    requires cp <= 0x10FFFF && !(0xD800 <= cp <= 0xDFFF)
    ensures Verify(Bytes(cp) + rest) == Some((|Bytes(cp)|, cp))
  {
    if cp < 0x80 {
      assert (Bytes(cp) + rest)[0] == cp as char;
    } else if cp < 0x800 {
      GatherTwo(cp, rest);
    } else if cp < 0x10000 {
      GatherThree(cp, rest);
    } else {
      GatherFour(cp, rest);
    }
  }

  /** A UTF-8 byte string, as is_valid_utf8 checks it. */
  predicate ValidUtf8(s: string)
    decreases |s|
  {
    s == "" ||
    match Verify(s)
    case None => false
    case Some((n, _)) => n <= |s| && ValidUtf8(s[n..])
  }

  /** Every accepted escape or surrogate pair turns into valid UTF-8 that decodes to the code point escaped. */
  lemma EscapeIsOneSequence(s: string, rest: string)
    requires ParseUtf16(s).Some?
    ensures var e := ParseUtf16(s).value;
            && Verify(Bytes(e.cp) + rest) == Some((|Bytes(e.cp)|, e.cp))
            && ValidUtf8(Bytes(e.cp))
            && |Bytes(e.cp)| < e.taken
  {
    var e := ParseUtf16(s).value;
    VerifyOfBytes(e.cp, rest);
    VerifyOfBytes(e.cp, "");
    assert Bytes(e.cp) + "" == Bytes(e.cp);
    assert Bytes(e.cp)[|Bytes(e.cp)|..] == "";
  }
}
