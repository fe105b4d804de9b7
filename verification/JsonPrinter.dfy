/**
  The serializer as it runs: one pass that measures when there is no buffer and writes when there is one.
  Every append counts the characters of its text and, given a buffer, writes them at the cursor.
 */
module JsonPrinter {
  import opened JsonText

  // ---------- what has been written ----------

  /** From at on the buffer holds text; the byte behind it may hold a terminator, and the rest is as it was. */
  ghost predicate Wrote(now: string, was: string, at: nat, text: string) {
    && |now| == |was| && at + |text| < |was|
    && now[..at] == was[..at]
    && now[at..at + |text|] == text
    && now[at + |text| + 1..] == was[at + |text| + 1..]
  }

  lemma WroteMore(was: string, mid: string, now: string, at: nat, s: string, t: string)
    requires Wrote(mid, was, at, s) && Wrote(now, mid, at + |s|, t)
    ensures Wrote(now, was, at, s + t)
  {
    var k := at + |s|;
    var to := k + |t|;
    assert now[..at] == now[..k][..at] && mid[..at] == mid[..k][..at];
    assert now[at..to] == now[..k][at..] + now[k..to];
    assert mid[at..k] == mid[..k][at..];
    assert mid[to + 1..] == mid[k + 1..][|t|..] && was[to + 1..] == was[k + 1..][|t|..];
  }

  /** The contents of a buffer that may be absent. */
  ghost function Image(buf: array?<char>): string
    reads buf
  {
    if buf == null then "" else buf[..]
  }

  /** With a buffer, text was written at a place; without one, nothing is said. */
  ghost predicate Did(writing: bool, now: string, was: string, at: nat, text: string) {
    writing ==> Wrote(now, was, at, text)
  }

  ghost predicate Room(buf: array?<char>, at: nat, n: nat) {
    buf != null ==> at + n < buf.Length
  }

  /** Part of whole is written from at on, and rest is still to come. */
  ghost predicate Half(writing: bool, now: string, was: string, at: nat, done: string, rest: string, whole: string) {
    Did(writing, now, was, at, done) && whole == done + rest
  }

  lemma Start(buf: array?<char>, at: nat, whole: string)
    requires Room(buf, at, |whole|)
    ensures Half(buf != null, Image(buf), Image(buf), at, "", whole, whole)
  {
  }

  lemma NoText(buf: array?<char>, at: nat)
    requires Room(buf, at, 0)
    ensures Did(buf != null, Image(buf), Image(buf), at, "")
  {
  }

  lemma Next(writing: bool, was: string, mid: string, now: string, at: nat, done: string, t: string, rest: string,
             whole: string)
    requires Half(writing, mid, was, at, done, t + rest, whole) && Did(writing, now, mid, at + |done|, t)
    ensures Half(writing, now, was, at, done + t, rest, whole)
  {
    if writing {
      WroteMore(was, mid, now, at, done, t);
    }
    assert done + (t + rest) == (done + t) + rest;
  }

  lemma RoomFor(buf: array?<char>, now: string, was: string, at: nat, done: string, t: string, rest: string,
                whole: string)
    requires Half(buf != null, now, was, at, done, t + rest, whole) && Room(buf, at, |whole|)
    ensures Room(buf, at + |done|, |t|)
  {
  }

  lemma All(writing: bool, now: string, was: string, at: nat, done: string, whole: string)
    requires Half(writing, now, was, at, done, "", whole)
    ensures done == whole && Did(writing, now, was, at, whole)
  {
    assert done + "" == done;
  }

  // ---------- appending ----------

  lemma PutOne(was: string, at: nat, s: string, k: nat)
    requires k < |s| && at + |s| < |was|
    ensures Put(was, at, s[..k])[at + k := s[k]] == Put(was, at, s[..k + 1])
  {
  }

  lemma Terminated(was: string, at: nat, s: string)
    requires at + |s| < |was|
    ensures Wrote(Put(was, at, s)[at + |s| := NUL], was, at, s)
  {
  }

  /** append_string */
  method AppendString(buf: array?<char>, at: nat, s: string) returns (written: nat)
    requires Room(buf, at, |s|)
    modifies buf
    ensures written == |s| && Did(buf != null, Image(buf), old(Image(buf)), at, s)
    ensures buf != null ==> buf[at + |s|] == NUL
  {
    if buf != null {
      ghost var was := buf[..];
      for k := 0 to |s|
        invariant buf[..] == Put(was, at, s[..k])
      {
        buf[at + k] := s[k];
        PutOne(was, at, s, k);
      }
      assert s[..|s|] == s;
      buf[at + |s|] := NUL;
      Terminated(was, at, s);
    }
    written := |s|;
  }

  /** The macro behind every append: writes t if asked to, moves on behind it and adds up. */
  method Emit(on: bool, t: string, buf: array?<char>, at: nat, total: nat,
              ghost was: string, ghost done: string, ghost rest: string, ghost whole: string)
    returns (sum: nat, ghost now: string)
    requires total == |done| && Room(buf, at, |whole|)
    requires Half(buf != null, Image(buf), was, at, done, (if on then t else "") + rest, whole)
    modifies buf
    ensures sum == |now| && Half(buf != null, Image(buf), was, at, now, rest, whole)
    ensures on && buf != null ==> buf[at + sum] == NUL
  {
    hide Did, Half, Room;
    ghost var mid := Image(buf);
    ghost var text := if on then t else "";
    RoomFor(buf, mid, was, at, done, text, rest, whole);
    var written := 0;
    if on {
      written := AppendString(buf, at + total, t);
    } else {
      NoText(buf, at + total);
    }
    Next(buf != null, was, mid, Image(buf), at, done, text, rest, whole);
    now := done + text;
    sum := total + written;
  }

  /** append_indent */
  method AppendIndent(buf: array?<char>, at: nat, level: nat) returns (total: nat)
    requires Room(buf, at, |Indent(level)|)
    modifies buf
    ensures total == |Indent(level)| && Did(buf != null, Image(buf), old(Image(buf)), at, Indent(level))
  {
    ghost var was, whole, done := Image(buf), Indent(level), "";
    Start(buf, at, whole);
    hide Did, Half, Room;
    total := 0;
    for i := 0 to level
      invariant total == |done| && Half(buf != null, Image(buf), was, at, done, Indent(level - i), whole)
    {
      total, done := Emit(true, "    ", buf, at, total, was, done, Indent(level - i - 1), whole);
    }
    All(buf != null, Image(buf), was, at, done, whole);
  }

  method EmitIndent(on: bool, level: nat, buf: array?<char>, at: nat, total: nat,
                    ghost was: string, ghost done: string, ghost rest: string, ghost whole: string)
    returns (sum: nat, ghost now: string)
    requires total == |done| && Room(buf, at, |whole|)
    requires Half(buf != null, Image(buf), was, at, done, IndentIf(on, level) + rest, whole)
    modifies buf
    ensures sum == |now| && Half(buf != null, Image(buf), was, at, now, rest, whole)
  {
    hide Did, Half, Room;
    ghost var mid := Image(buf);
    RoomFor(buf, mid, was, at, done, IndentIf(on, level), rest, whole);
    var written := 0;
    if on {
      written := AppendIndent(buf, at + total, level);
    } else {
      NoText(buf, at + total);
    }
    Next(buf != null, was, mid, Image(buf), at, done, IndentIf(on, level), rest, whole);
    now := done + IndentIf(on, level);
    sum := total + written;
  }

  /** The characters of s from i on and the closing quote. */
  function Unquoted(s: string, i: nat): string
    requires i <= |s|
  {
    Escape(s[i..]) + "\""
  }

  lemma QuoteText(s: string)
    ensures Quote(s) == "\"" + Unquoted(s, 0) && Unquoted(s, |s|) == "\"" + ""
  {
    assert s[0..] == s;
  }

  lemma UnquotedStep(s: string, i: nat)
    requires i < |s|
    ensures Unquoted(s, i) == EscapeChar(s[i]) + Unquoted(s, i + 1)
  {
    assert s[i..][1..] == s[i + 1..];
  }

  /** The switch on one character; an ordinary one is put down without a terminator. */
  method AppendEscaped(c: char, buf: array?<char>, at: nat) returns (written: nat)
    requires Room(buf, at, |EscapeChar(c)|)
    modifies buf
    ensures written == |EscapeChar(c)| && Did(buf != null, Image(buf), old(Image(buf)), at, EscapeChar(c))
  {
    match c
    case '\"' => written := AppendString(buf, at, "\\\"");
    case '\\' => written := AppendString(buf, at, "\\\\");
    case '/' => written := AppendString(buf, at, "\\/");
    case '\n' => written := AppendString(buf, at, "\\n");
    case '\r' => written := AppendString(buf, at, "\\r");
    case '\t' => written := AppendString(buf, at, "\\t");
    case _ =>
      if c == BACKSPACE {
        written := AppendString(buf, at, "\\b");
      } else if c == FORMFEED {
        written := AppendString(buf, at, "\\f");
      } else {
        if buf != null {
          buf[at] := c;
        }
        written := 1;
      }
  }

  method EmitEscaped(c: char, buf: array?<char>, at: nat, total: nat,
                     ghost was: string, ghost done: string, ghost rest: string, ghost whole: string)
    returns (sum: nat, ghost now: string)
    requires total == |done| && Room(buf, at, |whole|)
    requires Half(buf != null, Image(buf), was, at, done, EscapeChar(c) + rest, whole)
    modifies buf
    ensures sum == |now| && Half(buf != null, Image(buf), was, at, now, rest, whole)
  {
    hide Did, Half, Room, EscapeChar;
    ghost var mid := Image(buf);
    RoomFor(buf, mid, was, at, done, EscapeChar(c), rest, whole);
    var written := AppendEscaped(c, buf, at + total);
    Next(buf != null, was, mid, Image(buf), at, done, EscapeChar(c), rest, whole);
    now := done + EscapeChar(c);
    sum := total + written;
  }

  /** json_serialize_string */
  method SerializeString(s: string, buf: array?<char>, at: nat) returns (total: nat)
    requires Room(buf, at, |Quote(s)|)
    modifies buf
    ensures total == |Quote(s)| && Did(buf != null, Image(buf), old(Image(buf)), at, Quote(s))
    ensures buf != null ==> buf[at + |Quote(s)|] == NUL
  {
    ghost var was, whole, done := Image(buf), Quote(s), "";
    Start(buf, at, whole);
    QuoteText(s);
    hide Did, Half, Room, Quote, Unquoted, EscapeChar, Image;
    total := 0;
    total, done := Emit(true, "\"", buf, at, total, was, done, Unquoted(s, 0), whole);
    for i := 0 to |s|
      invariant total == |done| && Half(buf != null, Image(buf), was, at, done, Unquoted(s, i), whole)
    {
      UnquotedStep(s, i);
      total, done := EmitEscaped(s[i], buf, at, total, was, done, Unquoted(s, i + 1), whole);
    }
    total, done := Emit(true, "\"", buf, at, total, was, done, "", whole);
    All(buf != null, Image(buf), was, at, done, whole);
  }

  // ---------- trees ----------

  function Inner(parts: seq<string>, i: nat, level: nat, pretty: bool, close: string): string
    requires i <= |parts|
  {
    Layout(parts, i, level, pretty) + close
  }

  function FirstBreak(on: bool): string { if on then "\n" else "" }

  lemma Opening(open: string, parts: seq<string>, close: string, level: nat, pretty: bool)
    ensures open + Inside(parts, level, pretty) + close ==
            open + (FirstBreak(|parts| > 0 && pretty) + Inner(parts, 0, level, pretty, close))
  {
    var f, l := FirstBreak(|parts| > 0 && pretty), Layout(parts, 0, level, pretty);
    assert Inside(parts, level, pretty) == f + l;
    assert open + (f + l) + close == open + (f + (l + close));
  }

  lemma Continuing(parts: seq<string>, i: nat, level: nat, pretty: bool, close: string)
    requires i < |parts|
    ensures Inner(parts, i, level, pretty, close) ==
            IndentIf(pretty, level + 1) + (parts[i] + AfterPart(parts, i, level, pretty, close))
    ensures AfterPart(parts, i, level, pretty, close) ==
            Comma(i, |parts|) + (NewLine(pretty) + Inner(parts, i + 1, level, pretty, close))
  {
    LayoutText(parts, i, level, pretty, close);
  }

  lemma Closing(parts: seq<string>, close: string, level: nat, pretty: bool)
    ensures Inner(parts, |parts|, level, pretty, close) == IndentIf(|parts| > 0 && pretty, level) + (close + "")
  {
    assert close + "" == close;
  }

  lemma ArrayText(v: Json, level: nat, pretty: bool)
    requires WellFormed(v) && v.Arr?
    ensures var parts := Parts(v, level, pretty);
            && |parts| == |v.items|
            && Print(v, level, pretty) ==
              "[" + (FirstBreak(|parts| > 0 && pretty) + Inner(parts, 0, level, pretty, "]"))
  {
    Opening("[", Parts(v, level, pretty), "]", level, pretty);
  }

  lemma ItemText(v: Json, level: nat, pretty: bool, i: nat)
    requires WellFormed(v) && v.Arr? && i < |v.items|
    ensures WellFormed(v.items[i]) && Parts(v, level, pretty)[i] == Print(v.items[i], level + 1, pretty)
  {
  }

  lemma ObjectText(v: Json, level: nat, pretty: bool)
    requires WellFormed(v) && v.Obj?
    ensures var parts := Parts(v, level, pretty);
            && |parts| == |v.names| == |v.values|
            && Print(v, level, pretty) ==
              "{" + (FirstBreak(|parts| > 0 && pretty) + Inner(parts, 0, level, pretty, "}"))
  {
    Opening("{", Parts(v, level, pretty), "}", level, pretty);
  }

  lemma MemberAt(v: Json, level: nat, pretty: bool, i: nat)
    requires WellFormed(v) && v.Obj? && i < |v.names|
    ensures var k := Find(v.names, v.names[i]);
            && k < |v.values| && WellFormed(v.values[k])
            && Parts(v, level, pretty)[i] == MemberText(v.names[i], Print(v.values[k], level + 1, pretty), pretty)
  {
    FindUnique(v.names, i);
  }

  /** What follows an item or a member: the comma and the line break. */
  method Separate(parts: int, i: nat, pretty: bool, buf: array?<char>, at: nat, total: nat,
                  ghost was: string, ghost done: string, ghost rest: string, ghost whole: string)
    returns (sum: nat, ghost now: string)
    requires i < parts && total == |done| && Room(buf, at, |whole|)
    requires Half(buf != null, Image(buf), was, at, done, Comma(i, parts) + (NewLine(pretty) + rest), whole)
    modifies buf
    ensures sum == |now| && Half(buf != null, Image(buf), was, at, now, rest, whole)
  {
    hide Did, Half, Room;
    sum, now := Emit(i < parts - 1, ",", buf, at, total, was, done, NewLine(pretty) + rest, whole);
    sum, now := Emit(pretty, "\n", buf, at, sum, was, now, rest, whole);
  }

  method OpenContainer(open: string, on: bool, buf: array?<char>, at: nat, ghost rest: string, ghost whole: string)
    returns (sum: nat, ghost now: string)
    requires Room(buf, at, |whole|) && whole == open + (FirstBreak(on) + rest)
    modifies buf
    ensures sum == |now| && Half(buf != null, Image(buf), old(Image(buf)), at, now, rest, whole)
  {
    Start(buf, at, whole);
    hide Did, Half, Room, Image;
    ghost var was := Image(buf);
    sum, now := Emit(true, open, buf, at, 0, was, "", FirstBreak(on) + rest, whole);
    sum, now := Emit(on, "\n", buf, at, sum, was, now, rest, whole);
  }

  method CloseContainer(close: string, on: bool, level: nat, buf: array?<char>, at: nat, total: nat,
                        ghost was: string, ghost done: string, ghost whole: string)
    returns (sum: nat)
    requires total == |done| && Room(buf, at, |whole|)
    requires Half(buf != null, Image(buf), was, at, done, IndentIf(on, level) + (close + ""), whole)
    modifies buf
    ensures sum == |whole| && Did(buf != null, Image(buf), was, at, whole)
    ensures buf != null ==> buf[at + sum] == NUL
  {
    hide Did, Half, Room, Image;
    ghost var now;
    sum, now := EmitIndent(on, level, buf, at, total, was, done, close + "", whole);
    sum, now := Emit(true, close, buf, at, sum, was, now, "", whole);
    All(buf != null, Image(buf), was, at, now, whole);
  }

  /** json_serialize_to_buffer_r: the same count with and without a buffer, and in it exactly the printed text. */
  method Serialize(v: Json, buf: array?<char>, at: nat, level: nat, pretty: bool) returns (total: nat)
    requires WellFormed(v) && Room(buf, at, |Print(v, level, pretty)|)
    modifies buf
    ensures total == |Print(v, level, pretty)|
    ensures Did(buf != null, Image(buf), old(Image(buf)), at, Print(v, level, pretty))
    ensures buf != null ==> buf[at + |Print(v, level, pretty)|] == NUL
    decreases v, 3
  {
    match v
    case Arr(_) => total := SerializeArray(v, buf, at, level, pretty);
    case Obj(_, _) => total := SerializeObject(v, buf, at, level, pretty);
    case Str(s) => total := SerializeString(s, buf, at);
    case Bool(b) => if b { total := AppendString(buf, at, "true"); } else { total := AppendString(buf, at, "false"); }
    case Num(n) => total := AppendString(buf, at, NumberText(n));
    case Null => total := AppendString(buf, at, "null");
  }

  method SerializeArray(v: Json, buf: array?<char>, at: nat, level: nat, pretty: bool) returns (total: nat)
    requires WellFormed(v) && v.Arr? && Room(buf, at, |Print(v, level, pretty)|)
    modifies buf
    ensures total == |Print(v, level, pretty)|
    ensures Did(buf != null, Image(buf), old(Image(buf)), at, Print(v, level, pretty))
    ensures buf != null ==> buf[at + |Print(v, level, pretty)|] == NUL
    decreases v, 2
  {
    hide Did, Half, Room, Image, Print, Parts, Inner, WellFormed, MemberText;
    var count := |v.items|;
    ghost var was, whole, done, parts := Image(buf), Print(v, level, pretty), "", Parts(v, level, pretty);
    ArrayText(v, level, pretty);
    total, done := OpenContainer("[", count > 0 && pretty, buf, at, Inner(parts, 0, level, pretty, "]"), whole);
    total, done := SerializeItems(v, buf, at, total, level, pretty, parts, was, done, whole);
    Closing(parts, "]", level, pretty);
    total := CloseContainer("]", count > 0 && pretty, level, buf, at, total, was, done, whole);
  }

  /** The loop over the items. */
  method SerializeItems(v: Json, buf: array?<char>, at: nat, total: nat, level: nat, pretty: bool,
                        ghost parts: seq<string>,
                        ghost was: string, ghost done: string, ghost whole: string)
    returns (sum: nat, ghost now: string)
    requires WellFormed(v) && v.Arr? && total == |done| && Room(buf, at, |whole|)
    requires parts == Parts(v, level, pretty) && |parts| == |v.items|
    requires Half(buf != null, Image(buf), was, at, done, Inner(parts, 0, level, pretty, "]"), whole)
    modifies buf
    ensures sum == |now|
    ensures Half(buf != null, Image(buf), was, at, now, Inner(parts, |parts|, level, pretty, "]"), whole)
    decreases v, 1
  {
    hide Did, Half, Room, Image, Print, Parts, Inner, WellFormed, MemberText;
    var count := |v.items|;
    sum, now := total, done;
    for i := 0 to count
      invariant sum == |now| && Half(buf != null, Image(buf), was, at, now, Inner(parts, i, level, pretty, "]"), whole)
    {
      ItemText(v, level, pretty, i);
      sum, now := SerializeItem(v.items[i], parts, i, "]", buf, at, sum, level, pretty, count, was, now, whole);
    }
  }

  method SerializeObject(v: Json, buf: array?<char>, at: nat, level: nat, pretty: bool) returns (total: nat)
    requires WellFormed(v) && v.Obj? && Room(buf, at, |Print(v, level, pretty)|)
    modifies buf
    ensures total == |Print(v, level, pretty)|
    ensures Did(buf != null, Image(buf), old(Image(buf)), at, Print(v, level, pretty))
    ensures buf != null ==> buf[at + |Print(v, level, pretty)|] == NUL
    decreases v, 2
  {
    hide Did, Half, Room, Image, Print, Parts, Inner, WellFormed, MemberText;
    var count := |v.names|;
    ghost var was, whole, done, parts := Image(buf), Print(v, level, pretty), "", Parts(v, level, pretty);
    ObjectText(v, level, pretty);
    total, done := OpenContainer("{", count > 0 && pretty, buf, at, Inner(parts, 0, level, pretty, "}"), whole);
    total, done := SerializeMembers(v, buf, at, total, level, pretty, parts, was, done, whole);
    Closing(parts, "}", level, pretty);
    total := CloseContainer("}", count > 0 && pretty, level, buf, at, total, was, done, whole);
  }

  /** The loop over the members. */
  method SerializeMembers(v: Json, buf: array?<char>, at: nat, total: nat, level: nat, pretty: bool,
                          ghost parts: seq<string>,
                          ghost was: string, ghost done: string, ghost whole: string)
    returns (sum: nat, ghost now: string)
    requires WellFormed(v) && v.Obj? && total == |done| && Room(buf, at, |whole|)
    requires parts == Parts(v, level, pretty) && |parts| == |v.names|
    requires Half(buf != null, Image(buf), was, at, done, Inner(parts, 0, level, pretty, "}"), whole)
    modifies buf
    ensures sum == |now|
    ensures Half(buf != null, Image(buf), was, at, now, Inner(parts, |parts|, level, pretty, "}"), whole)
    decreases v, 1
  {
    hide Did, Half, Room, Image, Print, Parts, Inner, WellFormed, MemberText;
    var count := |v.names|;
    sum, now := total, done;
    for i := 0 to count
      invariant sum == |now| && Half(buf != null, Image(buf), was, at, now, Inner(parts, i, level, pretty, "}"), whole)
    {
      sum, now := SerializeMemberAt(v, i, buf, at, sum, level, pretty, parts, was, now, whole);
    }
  }

  /** The body of that loop. */
  method SerializeMemberAt(v: Json, i: nat, buf: array?<char>, at: nat, total: nat, level: nat, pretty: bool,
                           ghost parts: seq<string>, ghost was: string, ghost done: string, ghost whole: string)
    returns (sum: nat, ghost now: string)
    requires WellFormed(v) && v.Obj? && total == |done| && Room(buf, at, |whole|)
    requires parts == Parts(v, level, pretty) && i < |v.names| == |parts|
    requires Half(buf != null, Image(buf), was, at, done, Inner(parts, i, level, pretty, "}"), whole)
    modifies buf
    ensures sum == |now|
    ensures Half(buf != null, Image(buf), was, at, now, Inner(parts, i + 1, level, pretty, "}"), whole)
    decreases v, 0
  {
    MemberAt(v, level, pretty, i);
    hide Did, Half, Room, Image, Print, Parts, Inner, WellFormed, MemberText;
    var value := v.values[Find(v.names, v.names[i])];
    sum, now := SerializeMember(v.names[i], value, parts, i, "}", buf, at, total, level, pretty, |v.names|, was, done,
      whole);
  }

  /** The body of the loop over an array. */
  method SerializeItem(item: Json, ghost parts: seq<string>, i: nat, ghost close: string, buf: array?<char>, at: nat,
                       total: nat,
                       level: nat, pretty: bool, count: nat, ghost was: string, ghost done: string, ghost whole: string)
    returns (sum: nat, ghost now: string)
    requires WellFormed(item) && i < count == |parts| && parts[i] == Print(item, level + 1, pretty)
    requires total == |done| && Room(buf, at, |whole|)
    requires Half(buf != null, Image(buf), was, at, done, Inner(parts, i, level, pretty, close), whole)
    modifies buf
    ensures sum == |now|
    ensures Half(buf != null, Image(buf), was, at, now, Inner(parts, i + 1, level, pretty, close), whole)
    decreases item, 5
  {
    Continuing(parts, i, level, pretty, close);
    ghost var after, x := AfterPart(parts, i, level, pretty, close), parts[i];
    hide Did, Half, Room, Image, Print, Inner, WellFormed, AfterPart;
    sum, now := EmitIndent(pretty, level + 1, buf, at, total, was, done, x + after, whole);
    sum, now := EmitValue(item, buf, at, sum, level + 1, pretty, was, now, after, whole);
    sum, now := Separate(count, i, pretty, buf, at, sum, was, now, Inner(parts, i + 1, level, pretty, close), whole);
  }

  method EmitValue(v: Json, buf: array?<char>, at: nat, total: nat, level: nat, pretty: bool,
                   ghost was: string, ghost done: string, ghost rest: string, ghost whole: string)
    returns (sum: nat, ghost now: string)
    requires WellFormed(v) && total == |done| && Room(buf, at, |whole|)
    requires Half(buf != null, Image(buf), was, at, done, Print(v, level, pretty) + rest, whole)
    modifies buf
    ensures sum == |now| && Half(buf != null, Image(buf), was, at, now, rest, whole)
    decreases v, 4
  {
    hide Did, Half, Room, Print, WellFormed;
    ghost var mid, x := Image(buf), Print(v, level, pretty);
    RoomFor(buf, mid, was, at, done, x, rest, whole);
    var written := Serialize(v, buf, at + total, level, pretty);
    Next(buf != null, was, mid, Image(buf), at, done, x, rest, whole);
    now := done + x;
    sum := total + written;
  }

  lemma MemberNested(name: string, value: string, pretty: bool, rest: string)
    ensures MemberText(name, value, pretty) + rest == Quote(name) + (":" + (Gap(pretty) + (value + rest)))
  {
    assert Quote(name) + ":" + Gap(pretty) + value + rest == Quote(name) + ":" + Gap(pretty) + (value + rest);
    assert Quote(name) + ":" + Gap(pretty) + (value + rest) == Quote(name) + ":" + (Gap(pretty) + (value + rest));
  }

  method EmitName(name: string, buf: array?<char>, at: nat, total: nat,
                  ghost was: string, ghost done: string, ghost rest: string, ghost whole: string)
    returns (sum: nat, ghost now: string)
    requires total == |done| && Room(buf, at, |whole|)
    requires Half(buf != null, Image(buf), was, at, done, Quote(name) + rest, whole)
    modifies buf
    ensures sum == |now| && Half(buf != null, Image(buf), was, at, now, rest, whole)
  {
    hide Did, Half, Room, Quote;
    ghost var mid := Image(buf);
    RoomFor(buf, mid, was, at, done, Quote(name), rest, whole);
    var written := SerializeString(name, buf, at + total);
    Next(buf != null, was, mid, Image(buf), at, done, Quote(name), rest, whole);
    now := done + Quote(name);
    sum := total + written;
  }

  /** The body of the loop over an object. */
  method SerializeMember(name: string, value: Json, ghost parts: seq<string>, i: nat, ghost close: string,
                         buf: array?<char>,
                         at: nat, total: nat, level: nat, pretty: bool, count: nat,
                         ghost was: string, ghost done: string, ghost whole: string)
    returns (sum: nat, ghost now: string)
    requires WellFormed(value) && i < count == |parts| &&
             parts[i] == MemberText(name, Print(value, level + 1, pretty), pretty)
    requires total == |done| && Room(buf, at, |whole|)
    requires Half(buf != null, Image(buf), was, at, done, Inner(parts, i, level, pretty, close), whole)
    modifies buf
    ensures sum == |now|
    ensures Half(buf != null, Image(buf), was, at, now, Inner(parts, i + 1, level, pretty, close), whole)
    decreases value, 5
  {
    Continuing(parts, i, level, pretty, close);
    ghost var after, x := AfterPart(parts, i, level, pretty, close), Print(value, level + 1, pretty);
    MemberNested(name, x, pretty, after);
    hide Did, Half, Room, Image, Print, Inner, WellFormed, AfterPart, MemberText, Quote;
    sum, now := EmitIndent(pretty, level + 1, buf, at, total, was, done, parts[i] + after, whole);
    sum, now := EmitName(name, buf, at, sum, was, now, ":" + (Gap(pretty) + (x + after)), whole);
    sum, now := Emit(true, ":", buf, at, sum, was, now, Gap(pretty) + (x + after), whole);
    sum, now := Emit(pretty, " ", buf, at, sum, was, now, x + after, whole);
    sum, now := EmitValue(value, buf, at, sum, level + 1, pretty, was, now, after, whole);
    sum, now := Separate(count, i, pretty, buf, at, sum, was, now, Inner(parts, i + 1, level, pretty, close), whole);
  }

  // ---------- sizes and buffers ----------

  /** json_serialization_size and its pretty twin: what the measuring pass counts, and one for the terminator. */
  method SerializationSize(v: Json, pretty: bool) returns (size: nat)
    requires WellFormed(v)
    ensures size == |Print(v, 0, pretty)| + 1
  {
    var counted := Serialize(v, null, 0, 0, pretty);
    size := counted + 1;
  }

  /**
    json_serialize_to_buffer and its pretty twin: succeeds exactly when text and terminator fit, else touches nothing.
   */
  method SerializeToBuffer(v: Json, buf: array<char>, size: nat, pretty: bool) returns (ok: bool)
    requires WellFormed(v) && size <= buf.Length
    modifies buf
    ensures ok <==> |Print(v, 0, pretty)| < size
    ensures ok ==> buf[..] == Print(v, 0, pretty) + [NUL] + old(buf[..])[|Print(v, 0, pretty)| + 1..]
    ensures !ok ==> buf[..] == old(buf[..])
  {
    var needed := SerializationSize(v, pretty);
    if size < needed {
      return false;
    }
    ghost var was := buf[..];
    var written := Serialize(v, buf, 0, 0, pretty);
    WroteFromStart(buf[..], was, Print(v, 0, pretty));
    ok := true;
  }

  lemma WroteFromStart(now: string, was: string, text: string)
    requires Wrote(now, was, 0, text) && now[|text|] == NUL
    ensures now == text + [NUL] + was[|text| + 1..]
  {
    assert now == now[0..0 + |text|] + [now[|text|]] + now[|text| + 1..];
  }

  /** json_serialize_to_string and its pretty twin: a buffer of the measured size, filled to the last byte. */
  method SerializeToString(v: Json, pretty: bool) returns (buf: array<char>)
    requires WellFormed(v)
    ensures fresh(buf) && buf[..] == Print(v, 0, pretty) + [NUL]
  {
    var size := SerializationSize(v, pretty);
    buf := new char[size];
    var ok := SerializeToBuffer(v, buf, size, pretty);
  }
}
