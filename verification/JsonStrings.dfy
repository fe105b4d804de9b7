/** Strings between quotes: unescaping into a buffer of the size of the input, and what it keeps. */
module JsonStrings {
  import opened Wrappers
  import opened JsonText
  import opened JsonUtf8
  import opened JsonParse

  // ---------- the input ----------

  /** What stands between quotes: no bare quote, and a character behind every backslash. */
  predicate Complete(s: string)
    decreases |s|
  {
    s == "" ||
    if s[0] == '\\' then |s| > 1 && Complete(s[2..])
    else s[0] != '\"' && Complete(s[1..])
  }

  /** The characters skipped up to the closing quote are complete. */
  lemma {:induction false} SkippedIsComplete(s: string)
    requires SkipQuotes(s) != ""
    ensures var n := |s| - |SkipQuotes(s)| - 1;
            n >= 0 && s[n] == '\"' && SkipQuotes(s) == s[n + 1..] && Complete(s[..n])
    decreases |s|
  {
    if s[0] == '\"' {
    } else if s[0] == '\\' {
      SkippedIsComplete(s[2..]);
      var n := |s| - |SkipQuotes(s)| - 1;
      assert s[..n][2..] == s[2..][..n - 2];
      assert s[2..][n - 2 + 1..] == s[n + 1..];
    } else {
      SkippedIsComplete(s[1..]);
      var n := |s| - |SkipQuotes(s)| - 1;
      assert s[..n][1..] == s[1..][..n - 1];
      assert s[1..][n - 1 + 1..] == s[n + 1..];
    }
  }

  /** Characters that are no backslashes can be taken off a complete string. */
  lemma {:induction false} CompleteBehind(s: string, n: nat)
    requires Complete(s) && n <= |s| && forall k :: 0 <= k < n ==> s[k] != '\\'
    ensures Complete(s[n..])
  {
    if n > 0 {
      CompleteBehind(s[1..], n - 1);
      assert s[1..][n - 1..] == s[n..];
    } else {
      assert s[0..] == s;
    }
  }

  lemma HexIsPlain(s: string)
    requires Hex4(s).Some?
    ensures forall k :: 0 <= k < 4 ==> s[k] != '\\' && s[k] != '\"' && Code(s[k]) < 0x80
  {
  }

  lemma CompleteBehindEscape(s: string)
    requires Complete(s) && ParseUtf16(s).Some?
    ensures Complete(s[ParseUtf16(s).value.taken..])
  {
    HexIsPlain(s);
    CompleteBehind(s, 4);
    if ParseUtf16(s).value.taken == 10 {
      var t := s[6..];
      assert s[4..][2..] == t;
      HexIsPlain(t);
      CompleteBehind(t, 4);
      assert t[4..] == s[10..];
    }
  }

  // ---------- what processing keeps ----------

  /** The output is never longer than the input. */
  lemma {:induction false} ProcessedIsShort(s: string)
    requires ProcessString(s).Some?
    ensures |ProcessString(s).value| <= |s|
    decreases |s|
  {
    if s == "" {
    } else if s[0] == '\\' {
      if s[1] == 'u' {
        var e := ParseUtf16(s[2..]).value;
        EscapeIsOneSequence(s[2..], "");
        ProcessedIsShort(s[2 + e.taken..]);
      } else {
        ProcessedIsShort(s[2..]);
      }
    } else {
      ProcessedIsShort(s[1..]);
    }
  }

  predicate Ascii(c: char) { Code(c) < 0x80 }

  lemma AsciiSequence(s: string)
    requires s != "" && Ascii(s[0])
    ensures Verify(s) == Some((1, Code(s[0])))
  {
  }

  lemma {:induction false} ValidBehindAscii(s: string, n: nat)
    requires ValidUtf8(s) && n <= |s| && forall k :: 0 <= k < n ==> Ascii(s[k])
    ensures ValidUtf8(s[n..])
  {
    if n > 0 {
      AsciiSequence(s);
      ValidBehindAscii(s[1..], n - 1);
      assert s[1..][n - 1..] == s[n..];
    } else {
      assert s[0..] == s;
    }
  }

  lemma ValidBehindEscape(s: string)
    requires ValidUtf8(s) && ParseUtf16(s).Some?
    ensures ValidUtf8(s[ParseUtf16(s).value.taken..])
  {
    HexIsPlain(s);
    ValidBehindAscii(s, 4);
    if ParseUtf16(s).value.taken == 10 {
      assert Hex4(s[6..]).Some? && s[4] == '\\' && s[5] == 'u';
      ValidBehindTrail(s);
    }
  }

  lemma ValidBehindTrail(s: string)
    requires |s| >= 10 && ValidUtf8(s[4..]) && s[4] == '\\' && s[5] == 'u' && Hex4(s[6..]).Some?
    ensures ValidUtf8(s[10..])
  {
    var t := s[6..];
    HexIsPlain(t);
    hide ValidUtf8, Hex4;
    ValidBehindAscii(s[4..], 2);
    assert s[4..][2..] == t;
    ValidBehindAscii(t, 4);
    assert t[4..] == s[10..];
  }

  /**
    An accepted sequence is as long as it says, of bytes that are not ASCII unless it is one byte, and nothing behind
    it matters.
   */
  lemma SequenceStands(s: string, n: nat, rest: string)
    requires s != "" && Verify(s).Some? && Verify(s).value.0 == n && n <= |s|
    ensures 1 <= n <= 4 && Verify(s[..n] + rest) == Verify(s)
    ensures n > 1 ==> forall k :: 0 <= k < n ==> !Ascii(s[k])
  {
    var t := s[..n] + rest;
    assert forall k :: 0 <= k < n ==> At(t, k) == At(s, k);
    assert t[0] == s[0];
  }

  lemma {:induction false} HighBytesStay(s: string, n: nat)
    requires n <= |s| && forall k :: 0 <= k < n ==> !Ascii(s[k])
    ensures ProcessString(s) == Prepend(s[..n], ProcessString(s[n..]))
  {
    if n == 0 {
      assert s[0..] == s;
      PrependNothing(ProcessString(s));
    } else {
      HighBytesStay(s[1..], n - 1);
      assert s[1..][n - 1..] == s[n..];
      PrependTwice([s[0]], s[1..][..n - 1], ProcessString(s[n..]));
      assert [s[0]] + s[1..][..n - 1] == s[..n];
    }
  }

  lemma PrependNothing(r: Option<string>)
    ensures Prepend("", r) == r
  {
    if r.Some? {
      assert "" + r.value == r.value;
    }
  }

  lemma PrependTwice(x: string, y: string, r: Option<string>)
    ensures Prepend(x, Prepend(y, r)) == Prepend(x + y, r)
  {
    if r.Some? {
      assert x + (y + r.value) == (x + y) + r.value;
    }
  }

  lemma SequenceInFront(x: string, rest: string)
    requires x != "" && Verify(x + rest).Some? && Verify(x + rest).value.0 == |x| && ValidUtf8(rest)
    ensures ValidUtf8(x + rest)
  {
    assert (x + rest)[|x|..] == rest;
  }

  /** Valid UTF-8 between the quotes is valid UTF-8 in memory, whatever was escaped. */
  lemma {:induction false} ProcessKeepsUtf8(s: string)
    requires ValidUtf8(s) && ProcessString(s).Some?
    ensures ValidUtf8(ProcessString(s).value)
    decreases |s|
  {
    if s == "" {
    } else if s[0] == '\\' {
      AsciiSequence(s);
      EscapeKeepsUtf8(s);
    } else if Ascii(s[0]) {
      AsciiSequence(s);
      ProcessKeepsUtf8(s[1..]);
      AsciiSequence([s[0]] + ProcessString(s[1..]).value);
      SequenceInFront([s[0]], ProcessString(s[1..]).value);
    } else {
      var n := Verify(s).value.0;
      SequenceStands(s, n, "");
      HighBytesStay(s, n);
      ProcessKeepsUtf8(s[n..]);
      SequenceStands(s, n, ProcessString(s[n..]).value);
      SequenceInFront(s[..n], ProcessString(s[n..]).value);
    }
  }

  lemma {:induction false} EscapeKeepsUtf8(s: string)
    requires ValidUtf8(s) && ProcessString(s).Some? && s != "" && s[0] == '\\' && ValidUtf8(s[1..])
    ensures ValidUtf8(ProcessString(s).value)
    decreases |s|, 0
  {
    AsciiSequence(s[1..]);
    assert s[1..][1..] == s[2..];
    if s[1] == 'u' {
      UnicodeKeepsUtf8(s);
    } else {
      var c, t := Unescape(s[1]).value, ProcessString(s[2..]).value;
      ProcessKeepsUtf8(s[2..]);
      AsciiSequence([c] + t);
      SequenceInFront([c], t);
    }
  }

  lemma {:induction false} UnicodeKeepsUtf8(s: string)
    requires |s| > 1 && s[0] == '\\' && s[1] == 'u' && ValidUtf8(s[2..]) && ProcessString(s).Some?
    ensures ValidUtf8(ProcessString(s).value)
    decreases |s|, 0, 0
  {
    var e := ParseUtf16(s[2..]).value;
    ValidBehindEscape(s[2..]);
    assert s[2..][e.taken..] == s[2 + e.taken..];
    var t := ProcessString(s[2 + e.taken..]).value;
    ProcessKeepsUtf8(s[2 + e.taken..]);
    EscapeIsOneSequence(s[2..], t);
    SequenceInFront(Bytes(e.cp), t);
  }

  // ---------- the buffer ----------

  lemma PutTwo(s: string, at: nat, x: char, y: char)
    requires at + 2 <= |s|
    ensures s[at := x][at + 1 := y] == Put(s, at, [x, y])
  {
  }

  lemma PutThree(s: string, at: nat, x: char, y: char, z: char)
    requires at + 3 <= |s|
    ensures s[at := x][at + 1 := y][at + 2 := z] == Put(s, at, [x, y, z])
  {
  }

  lemma PutFour(s: string, at: nat, w: char, x: char, y: char, z: char)
    requires at + 4 <= |s|
    ensures s[at := w][at + 1 := x][at + 2 := y][at + 3 := z] == Put(s, at, [w, x, y, z])
  {
  }

  /** The bytes of a code point, one assignment each. */
  method PutBytes(cp: nat, output: array<char>, at: nat) returns (written: nat)
    requires cp <= 0x10FFFF && at + |Bytes(cp)| <= output.Length
    modifies output
    ensures written == |Bytes(cp)| && output[..] == Put(old(output[..]), at, Bytes(cp))
  {
    ghost var was, bytes := output[..], Bytes(cp);
    if cp < 0x80 {
      output[at] := cp as char;
      written := 1;
    } else if cp < 0x800 {
      output[at] := (0xC0 + cp / 64 % 0x20) as char;
      output[at + 1] := (0x80 + cp % 64) as char;
      written := 2;
      PutTwo(was, at, bytes[0], bytes[1]);
    } else if cp < 0x10000 {
      output[at] := (0xE0 + cp / 64 / 64 % 0x10) as char;
      output[at + 1] := (0x80 + cp / 64 % 64) as char;
      output[at + 2] := (0x80 + cp % 64) as char;
      written := 3;
      PutThree(was, at, bytes[0], bytes[1], bytes[2]);
    } else {
      output[at] := (0xF0 + cp / 64 / 64 / 64 % 8) as char;
      output[at + 1] := (0x80 + cp / 64 / 64 % 64) as char;
      output[at + 2] := (0x80 + cp / 64 % 64) as char;
      output[at + 3] := (0x80 + cp % 64) as char;
      written := 4;
      PutFour(was, at, bytes[0], bytes[1], bytes[2], bytes[3]);
    }
  }

  /** parse_utf_16: what was read behind the u and what was written, or failure without a write. */
  method Utf16ToBuffer(s: string, output: array<char>, at: nat) returns (ok: bool, taken: nat, written: nat)
    requires ParseUtf16(s).Some? ==> at + ParseUtf16(s).value.taken <= output.Length
    modifies output
    ensures ok <==> ParseUtf16(s).Some?
    ensures ok ==> taken == ParseUtf16(s).value.taken && written == |Bytes(ParseUtf16(s).value.cp)| < taken
    ensures output[..] == if ok then Put(old(output[..]), at, Bytes(ParseUtf16(s).value.cp)) else old(output[..])
  {
    ok, taken, written := false, 4, 0;
    var unit := Hex4(s);
    if unit.None? {
      return;
    }
    var cp := unit.value;
    if IsLead(cp) {
      if |s| < 6 || s[4] != '\\' || s[5] != 'u' {
        return;
      }
      var trail := Hex4(s[6..]);
      if trail.None? || !IsTrail(trail.value) {
        return;
      }
      cp, taken := Combine(cp, trail.value), 10;
    } else if IsTrail(cp) {
      return;
    }
    EscapeIsOneSequence(s, "");
    written := PutBytes(cp, output, at);
    ok := true;
  }

  /** Output so far and input to come make up the whole result, and the output never overtakes the input. */
  ghost predicate Processing(output: string, o: nat, input: string, i: nat) {
    && o <= i <= |input| && |output| == |input| + 1 && CString(input)
    && Complete(input[i..])
    && ProcessString(input) == Prepend(output[..o], ProcessString(input[i..]))
  }

  lemma ProcessingStarts(output: string, input: string)
    requires |output| == |input| + 1 && CString(input) && Complete(input)
    ensures Processing(output, 0, input, 0)
  {
    assert input[0..] == input && output[..0] == "";
    PrependNothing(ProcessString(input));
  }

  lemma ProcessingGoesOn(output: string, now: string, o: nat, input: string, i: nat, text: string, n: nat)
    requires Processing(output, o, input, i) && |text| <= n && i + n <= |input|
    requires ProcessString(input[i..]) == Prepend(text, ProcessString(input[i + n..])) && Complete(input[i + n..])
    requires now == Put(output, o, text)
    ensures Processing(now, o + |text|, input, i + n)
  {
    PrependTwice(output[..o], text, ProcessString(input[i + n..]));
    assert now[..o + |text|] == output[..o] + text;
  }

  lemma ProcessingFails(output: string, o: nat, input: string, i: nat)
    requires Processing(output, o, input, i) && ProcessString(input[i..]).None?
    ensures ProcessString(input).None?
  {
  }

  lemma ProcessingEnds(output: string, o: nat, input: string, i: nat)
    requires Processing(output, o, input, i) && i == |input|
    ensures ProcessString(input) == Some(output[..o])
  {
    assert input[i..] == "";
    assert output[..o] + "" == output[..o];
  }

  lemma EscapedChar(s: string)
    requires Complete(s) && |s| > 1 && s[0] == '\\' && s[1] != 'u' && Unescape(s[1]).Some?
    ensures ProcessString(s) == Prepend([Unescape(s[1]).value], ProcessString(s[2..])) && Complete(s[2..])
  {
  }

  lemma EscapedUnicode(s: string)
    requires Complete(s) && |s| > 1 && s[0] == '\\' && s[1] == 'u' && ParseUtf16(s[2..]).Some?
    ensures var e := ParseUtf16(s[2..]).value;
            ProcessString(s) == Prepend(Bytes(e.cp), ProcessString(s[2 + e.taken..])) && Complete(s[2 + e.taken..])
  {
    CompleteBehindEscape(s[2..]);
    assert s[2..][ParseUtf16(s[2..]).value.taken..] == s[2 + ParseUtf16(s[2..]).value.taken..];
  }

  lemma PlainChar(s: string)
    requires Complete(s) && s != "" && s[0] != '\\' && s[0] >= ' '
    ensures ProcessString(s) == Prepend([s[0]], ProcessString(s[1..])) && Complete(s[1..])
  {
  }

  /** process_string, into a buffer with one byte more than the input: every write is within it. */
  method ProcessToBuffer(input: string) returns (output: array?<char>)
    requires CString(input) && Complete(input)
    ensures output == null <==> ProcessString(input).None?
    ensures output != null ==> fresh(output) && output[..] == ProcessString(input).value + [NUL]
  {
    var buffer := new char[|input| + 1];
    var i: nat, o: nat := 0, 0;
    ProcessingStarts(buffer[..], input);
    while i < |input|
      invariant buffer.Length == |input| + 1 && i <= |input|
      invariant Processing(buffer[..], o, input, i)
    {
      var ok;
      ok, i, o := ProcessOne(input, i, buffer, o);
      if !ok {
        return null;
      }
    }
    ProcessingEnds(buffer[..], o, input, i);
    buffer[o] := NUL;
    output := new char[o + 1];
    for k := 0 to o + 1
      invariant forall j :: 0 <= j < k ==> output[j] == buffer[j]
      modifies output
    {
      output[k] := buffer[k];
    }
    assert output[..] == buffer[..o] + [NUL];
  }

  lemma ProcessingIs(output: string, o: nat, input: string, i: nat)
    requires Processing(output, o, input, i) && i < |input|
    ensures o <= i && |output| == |input| + 1 && Complete(input[i..])
    ensures input[i] == '\\' ==> i + 1 < |input|
  {
  }

  method UnicodeToBuffer(input: string, i: nat, buffer: array<char>, o: nat) returns (ok: bool, i2: nat, o2: nat)
    requires i + 1 < |input| && input[i] == '\\' && input[i + 1] == 'u' && Processing(buffer[..], o, input, i)
    modifies buffer
    ensures ok ==> i < i2 && Processing(buffer[..], o2, input, i2)
    ensures !ok ==> ProcessString(input).None?
  {
    ghost var was := buffer[..];
    ProcessingIs(was, o, input, i);
    ghost var s := input[i..];
    var t := input[i + 2..];
    assert s[2..] == t;
    var taken, written;
    ok, taken, written := Utf16ToBuffer(t, buffer, o);
    i2, o2 := i, o;
    if ok {
      EscapedUnicode(s);
      hide Processing, Complete, ProcessString, ParseUtf16, Bytes;
      assert s[2 + taken..] == input[i + (2 + taken)..];
      ProcessingGoesOn(was, buffer[..], o, input, i, Bytes(ParseUtf16(t).value.cp), 2 + taken);
      i2, o2 := i + 2 + taken, o + written;
    } else {
      ProcessingFails(was, o, input, i);
    }
  }

  /** The switch on the character behind a backslash. */
  method EscapeToBuffer(input: string, i: nat, buffer: array<char>, o: nat) returns (ok: bool, i2: nat, o2: nat)
    requires i + 1 < |input| && input[i] == '\\' && Processing(buffer[..], o, input, i)
    modifies buffer
    ensures ok ==> i < i2 && Processing(buffer[..], o2, input, i2)
    ensures !ok ==> ProcessString(input).None?
  {
    ghost var was := buffer[..];
    ProcessingIs(was, o, input, i);
    var s := input[i..];
    i2, o2 := i, o;
    if s[1] == 'u' {
      ok, i2, o2 := UnicodeToBuffer(input, i, buffer, o);
    } else {
      var c := Unescape(s[1]);
      ok := c.Some?;
      if ok {
        EscapedChar(s);
        hide Processing, Complete, ProcessString;
        buffer[o] := c.value;
        assert s[2..] == input[i + 2..];
        ProcessingGoesOn(was, buffer[..], o, input, i, [c.value], 2);
        i2, o2 := i + 2, o + 1;
      } else {
        ProcessingFails(was, o, input, i);
      }
    }
  }

  /** One round of the loop. */
  method ProcessOne(input: string, i: nat, buffer: array<char>, o: nat) returns (ok: bool, i2: nat, o2: nat)
    requires i < |input| && Processing(buffer[..], o, input, i)
    modifies buffer
    ensures ok ==> i < i2 && Processing(buffer[..], o2, input, i2)
    ensures !ok ==> ProcessString(input).None?
  {
    ghost var was := buffer[..];
    ProcessingIs(was, o, input, i);
    var s := input[i..];
    if s[0] == '\\' {
      ok, i2, o2 := EscapeToBuffer(input, i, buffer, o);
    } else if s[0] < ' ' {
      ProcessingFails(was, o, input, i);
      ok, i2, o2 := false, i, o;
    } else {
      PlainChar(s);
      hide Processing, Complete, ProcessString;
      buffer[o] := s[0];
      assert s[1..] == input[i + 1..];
      ProcessingGoesOn(was, buffer[..], o, input, i, [s[0]], 1);
      ok, i2, o2 := true, i + 1, o + 1;
    }
  }
}
