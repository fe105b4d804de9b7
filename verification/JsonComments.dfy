/** Blanking comments before parsing, and why it leaves printed text alone. */
module JsonComments {
  import opened Wrappers
  import opened JsonText
  import opened JsonParse
  import opened JsonStrings

  function Blanks(n: nat): (s: string)
    ensures |s| == n
  {
    seq(n, _ => ' ')
  }

  /** strstr: where token is first found in s. */
  function FindToken(s: string, token: string): (r: Option<nat>)
    requires token != ""
    ensures r.Some? ==> r.value + |token| <= |s|
  {
    if token <= s then Some(0)
    else if s == "" then None
    else match FindToken(s[1..], token)
      case None => None
      case Some(k) => Some(k + 1)
  }

  lemma {:induction false} FindTokenIsFirst(s: string, token: string, k: nat)
    requires token != "" && k <= |s|
    ensures var r := FindToken(s, token);
            && (r == Some(k) ==> token <= s[k..])
            && (r.None? || k < r.value ==> !(token <= s[k..]))
  {
    if !(token <= s) && s != "" && k > 0 {
      FindTokenIsFirst(s[1..], token, k - 1);
      assert s[k..] == s[1..][k - 1..];
    }
  }

  /** How far a comment at the front of s reaches, with its tokens; nothing if it is never closed. */
  function CommentLength(s: string, start: string, end: string): (n: Option<nat>)
    requires start != "" && end != "" && start <= s
    ensures n.Some? ==> 0 < n.value <= |s|
  {
    match FindToken(s[|start|..], end)
    case None => None
    case Some(k) => Some(|start| + k + |end|)
  }

  /** A comment begins at the front of s. */
  predicate CommentAt(s: string, start: string, inString: bool, escaped: bool) {
    s != "" && (escaped || s[0] !in {'\\', '\"'}) && !inString && start <= s
  }

  /** remove_comments from a place in the text where the two flags hold. */
  function Remove(s: string, start: string, end: string, inString: bool, escaped: bool): (r: string)
    requires start != "" && end != ""
    ensures |r| == |s|
    decreases |s|
  {
    if s == "" then ""
    else if s[0] == '\\' && !escaped then [s[0]] + Remove(s[1..], start, end, inString, true)
    else if s[0] == '\"' && !escaped then [s[0]] + Remove(s[1..], start, end, !inString, false)
    else if !inString && start <= s then
      match CommentLength(s, start, end)
      case None => Blanks(|start|) + s[|start|..]
      case Some(n) => Blanks(n) + Remove(s[n..], start, end, inString, false)
    else [s[0]] + Remove(s[1..], start, end, inString, false)
  }

  function RemoveComments(s: string): string {
    Remove(Remove(s, "/*", "*/", false, false), "//", "\n", false, false)
  }

  /** json_parse_string_with_comments */
  function ParseWithComments(s: string): Option<Json> {
    ParseText(RemoveComments(s))
  }

  /** A character that begins no comment is kept, and settles whether the next one is in a string or escaped. */
  lemma KeepsOne(c: char, rest: string, start: string, end: string, inString: bool, escaped: bool)
    requires start != "" && end != "" && !CommentAt([c] + rest, start, inString, escaped)
    ensures Remove([c] + rest, start, end, inString, escaped) ==
            [c] + Remove(rest, start, end, if c == '\"' && !escaped then !inString else inString, c == '\\' && !escaped)
  {
    assert ([c] + rest)[1..] == rest;
  }

  lemma BlanksComment(s: string, start: string, end: string, escaped: bool)
    requires start != "" && end != "" && CommentAt(s, start, false, escaped)
    ensures Remove(s, start, end, false, escaped) ==
            match CommentLength(s, start, end)
            case None => Blanks(|start|) + s[|start|..]
            case Some(n) => Blanks(n) + Remove(s[n..], start, end, false, false)
  {
  }

  /** r is s with some characters blanked. */
  ghost predicate Blanked(r: string, s: string) {
    |r| == |s| && forall k :: 0 <= k < |s| ==> r[k] == s[k] || r[k] == ' '
  }

  lemma BlankedJoin(r1: string, r2: string, s1: string, s2: string)
    requires Blanked(r1, s1) && Blanked(r2, s2)
    ensures Blanked(r1 + r2, s1 + s2)
  {
  }

  /** Nothing but blanking happens: every character stays or becomes a space, so positions do not shift. */
  lemma {:induction false} RemoveOnlyBlanks(s: string, start: string, end: string, inString: bool, escaped: bool)
    requires start != "" && end != ""
    ensures Blanked(Remove(s, start, end, inString, escaped), s)
    decreases |s|
  {
    if s == "" {
    } else if CommentAt(s, start, inString, escaped) {
      CommentOnlyBlanks(s, start, end, escaped);
    } else {
      var c, rest := s[0], s[1..];
      var inNext, escapedNext := if c == '\"' && !escaped then !inString else inString, c == '\\' && !escaped;
      assert s == [c] + rest;
      KeepsOne(c, rest, start, end, inString, escaped);
      RemoveOnlyBlanks(rest, start, end, inNext, escapedNext);
      BlankedJoin([c], Remove(rest, start, end, inNext, escapedNext), [c], rest);
    }
  }

  lemma {:induction false} CommentOnlyBlanks(s: string, start: string, end: string, escaped: bool)
    requires start != "" && end != "" && CommentAt(s, start, false, escaped)
    ensures Blanked(Remove(s, start, end, false, escaped), s)
    decreases |s|, 0
  {
    BlanksComment(s, start, end, escaped);
    var n := match CommentLength(s, start, end) case None => |start| case Some(n) => n;
    assert s == s[..n] + s[n..];
    if CommentLength(s, start, end).Some? {
      RemoveOnlyBlanks(s[n..], start, end, false, false);
      BlankedJoin(Blanks(n), Remove(s[n..], start, end, false, false), s[..n], s[n..]);
    } else {
      BlankedJoin(Blanks(n), s[n..], s[..n], s[n..]);
    }
  }

  // ---------- printed text ----------

  /** A token that begins with a slash cannot be seen in text without one. */
  predicate Slashed(start: string) { start != "" && start[0] == '/' }

  /** x is passed over outside strings: nothing in it changes and the scan goes on behind it in the same state. */
  ghost predicate PassedOver(x: string, start: string, end: string)
    requires start != "" && end != ""
  {
    forall rest :: Remove(x + rest, start, end, false, false) == x + Remove(rest, start, end, false, false)
  }

  predicate Plain(c: char) { c !in {'\\', '\"', '/'} }

  lemma {:induction false} PlainPasses(x: string, rest: string, start: string, end: string)
    requires Slashed(start) && end != "" && forall k :: 0 <= k < |x| ==> Plain(x[k])
    ensures Remove(x + rest, start, end, false, false) == x + Remove(rest, start, end, false, false)
  {
    if x == "" {
      assert x + rest == rest;
    } else {
      var c, y := x[0], x[1..];
      PlainPasses(y, rest, start, end);
      KeepsOne(c, y + rest, start, end, false, false);
      assert x + rest == [c] + (y + rest);
      Prefixed(c, y, Remove(rest, start, end, false, false));
      assert x == [c] + y;
    }
  }

  lemma Prefixed(c: char, x: string, y: string)
    ensures [c] + (x + y) == ([c] + x) + y
  {
  }

  lemma Assoc(x: string, y: string, z: string)
    ensures (x + y) + z == x + (y + z)
  {
  }

  lemma CharPasses(c: char, rest: string, start: string, end: string)
    requires start != "" && end != ""
    ensures Remove(EscapeChar(c) + rest, start, end, true, false) ==
            EscapeChar(c) + Remove(rest, start, end, true, false)
  {
    if |EscapeChar(c)| == 2 {
      var d := EscapeChar(c)[1];
      KeepsOne(d, rest, start, end, true, true);
      KeepsOne('\\', [d] + rest, start, end, true, false);
      Prefixed('\\', [d], rest);
      Prefixed('\\', [d], Remove(rest, start, end, true, false));
      assert EscapeChar(c) == ['\\'] + [d];
    } else {
      KeepsOne(c, rest, start, end, true, false);
    }
  }

  lemma {:induction false} EscapedPasses(t: string, rest: string, start: string, end: string)
    requires start != "" && end != ""
    ensures Remove(Escape(t) + rest, start, end, true, false) == Escape(t) + Remove(rest, start, end, true, false)
  {
    if t == "" {
      assert Escape(t) + rest == rest;
    } else {
      var x, y := EscapeChar(t[0]), Escape(t[1..]);
      EscapedPasses(t[1..], rest, start, end);
      CharPasses(t[0], y + rest, start, end);
      Assoc(x, y, rest);
      Assoc(x, y, Remove(rest, start, end, true, false));
    }
  }

  lemma QuotePasses(t: string, rest: string, start: string, end: string)
    requires Slashed(start) && end != ""
    ensures Remove(Quote(t) + rest, start, end, false, false) == Quote(t) + Remove(rest, start, end, false, false)
  {
    var u := "\"" + rest;
    var e, r := Escape(t), Remove(rest, start, end, false, false);
    KeepsOne('\"', rest, start, end, true, false);
    EscapedPasses(t, u, start, end);
    KeepsOne('\"', e + u, start, end, false, false);
    QuoteText(e, rest);
    QuoteText(e, r);
  }

  lemma QuoteText(e: string, rest: string)
    ensures ("\"" + e + "\"") + rest == ['\"'] + (e + (['\"'] + rest))
  {
  }

  /** What stands between quotes keeps the scan inside the string, whatever it holds, tokens of comments included. */
  lemma {:induction false} InsideStringPasses(t: string, rest: string, start: string, end: string)
    requires Complete(t) && start != "" && end != ""
    ensures Remove(t + rest, start, end, true, false) == t + Remove(rest, start, end, true, false)
    decreases |t|
  {
    hide Remove;
    var r := Remove(rest, start, end, true, false);
    if t == "" {
      assert t + rest == rest;
    } else if t[0] == '\\' {
      InsideStringPasses(t[2..], rest, start, end);
      KeepsOne(t[1], t[2..] + rest, start, end, true, true);
      KeepsOne('\\', [t[1]] + (t[2..] + rest), start, end, true, false);
      assert t + rest == ['\\'] + ([t[1]] + (t[2..] + rest)) && t + r == ['\\'] + ([t[1]] + (t[2..] + r));
    } else {
      InsideStringPasses(t[1..], rest, start, end);
      KeepsOne(t[0], t[1..] + rest, start, end, true, false);
      assert t + rest == [t[0]] + (t[1..] + rest) && t + r == [t[0]] + (t[1..] + r);
    }
  }

  /** A string is passed over, however it is spelled. */
  lemma StringPasses(t: string, start: string, end: string)
    requires Complete(t) && Slashed(start) && end != ""
    ensures PassedOver("\"" + t + "\"", start, end)
  {
    forall rest ensures Remove("\"" + t + "\"" + rest, start, end, false, false) ==
      "\"" + t + "\"" + Remove(rest, start, end, false, false)
    {
      KeepsOne('\"', rest, start, end, true, false);
      InsideStringPasses(t, "\"" + rest, start, end);
      KeepsOne('\"', t + ("\"" + rest), start, end, false, false);
      QuoteText(t, rest);
      QuoteText(t, Remove(rest, start, end, false, false));
    }
  }

  lemma JoinPasses(x: string, y: string, start: string, end: string)
    requires start != "" && end != "" && PassedOver(x, start, end) && PassedOver(y, start, end)
    ensures PassedOver(x + y, start, end)
  {
    forall rest ensures Remove((x + y) + rest, start, end, false, false) ==
      (x + y) + Remove(rest, start, end, false, false)
    {
      Assoc(x, y, rest);
      assert Remove(x + (y + rest), start, end, false, false) == x + Remove(y + rest, start, end, false, false);
      assert Remove(y + rest, start, end, false, false) == y + Remove(rest, start, end, false, false);
      Assoc(x, y, Remove(rest, start, end, false, false));
    }
  }

  lemma PlainIsPassed(x: string, start: string, end: string)
    requires Slashed(start) && end != "" && forall k :: 0 <= k < |x| ==> Plain(x[k])
    ensures PassedOver(x, start, end)
  {
    forall rest ensures Remove(x + rest, start, end, false, false) == x + Remove(rest, start, end, false, false) {
      PlainPasses(x, rest, start, end);
    }
  }

  lemma QuoteIsPassed(t: string, start: string, end: string)
    requires Slashed(start) && end != ""
    ensures PassedOver(Quote(t), start, end)
  {
    forall rest ensures Remove(Quote(t) + rest, start, end, false, false) ==
      Quote(t) + Remove(rest, start, end, false, false)
    {
      QuotePasses(t, rest, start, end);
    }
  }

  lemma {:induction false} DecimalPlain(n: nat)
    ensures forall k :: 0 <= k < |Decimal(n)| ==> Plain(Decimal(n)[k])
  {
    if n >= 10 {
      DecimalPlain(n / 10);
    }
  }

  lemma NumberPlain(n: real)
    ensures forall k :: 0 <= k < |NumberText(n)| ==> Plain(NumberText(n)[k])
  {
    if IsInt(n) {
      DecimalPlain(if n.Floor < 0 then -n.Floor else n.Floor);
    } else {
      var scaled := Millionths(n);
      DecimalPlain(scaled % 1000000);
      DecimalPlain(scaled / 1000000);
    }
  }

  lemma {:induction false} IndentPlain(level: nat)
    ensures forall k :: 0 <= k < |Indent(level)| ==> Plain(Indent(level)[k])
  {
    if level > 0 {
      IndentPlain(level - 1);
    }
  }

  lemma PartPasses(indent: string, part: string, tail: string, text: string, start: string, end: string)
    requires start != "" && end != ""
    requires PassedOver(indent, start, end) && PassedOver(part, start, end)
    requires PassedOver(tail, start, end) && PassedOver(text, start, end)
    ensures PassedOver(indent + part + tail + text, start, end)
  {
    JoinPasses(indent, part, start, end);
    JoinPasses(indent + part, tail, start, end);
    JoinPasses(indent + part + tail, text, start, end);
  }

  lemma IndentPasses(pretty: bool, level: nat, start: string, end: string)
    requires Slashed(start) && end != ""
    ensures PassedOver(IndentIf(pretty, level), start, end)
  {
    IndentPlain(level);
    PlainIsPassed(IndentIf(pretty, level), start, end);
  }

  lemma {:induction false} LayoutPasses(parts: seq<string>, i: nat, level: nat, pretty: bool, start: string,
                                        end: string)
    requires Slashed(start) && end != "" && i <= |parts|
    requires forall k :: 0 <= k < |parts| ==> PassedOver(parts[k], start, end)
    ensures PassedOver(Layout(parts, i, level, pretty), start, end)
    decreases |parts| - i
  {
    if i == |parts| {
      IndentPasses(pretty, level, start, end);
      PlainIsPassed("", start, end);
    } else {
      var tail := Comma(i, |parts|) + NewLine(pretty);
      IndentPasses(pretty, level + 1, start, end);
      PlainIsPassed(tail, start, end);
      LayoutPasses(parts, i + 1, level, pretty, start, end);
      PartPasses(IndentIf(pretty, level + 1), parts[i], tail, Layout(parts, i + 1, level, pretty), start, end);
      Assoc(IndentIf(pretty, level + 1) + parts[i], Comma(i, |parts|), NewLine(pretty));
    }
  }

  lemma BracketsPass(open: string, parts: seq<string>, close: string, level: nat, pretty: bool, start: string,
                     end: string)
    requires Slashed(start) && end != ""
    requires forall k :: 0 <= k < |open| ==> Plain(open[k])
    requires forall k :: 0 <= k < |close| ==> Plain(close[k])
    requires forall k :: 0 <= k < |parts| ==> PassedOver(parts[k], start, end)
    ensures PassedOver(open + Inside(parts, level, pretty) + close, start, end)
  {
    var first := if parts == [] then "" else NewLine(pretty);
    PlainIsPassed(open, start, end);
    PlainIsPassed(close, start, end);
    PlainIsPassed(first, start, end);
    LayoutPasses(parts, 0, level, pretty, start, end);
    JoinPasses(first, Layout(parts, 0, level, pretty), start, end);
    JoinPasses(open, Inside(parts, level, pretty), start, end);
    JoinPasses(open + Inside(parts, level, pretty), close, start, end);
  }

  lemma MemberPasses(name: string, x: string, pretty: bool, start: string, end: string)
    requires Slashed(start) && end != "" && PassedOver(x, start, end)
    ensures PassedOver(MemberText(name, x, pretty), start, end)
  {
    QuoteIsPassed(name, start, end);
    PlainIsPassed(":", start, end);
    PlainIsPassed(Gap(pretty), start, end);
    JoinPasses(Quote(name), ":", start, end);
    JoinPasses(Quote(name) + ":", Gap(pretty), start, end);
    JoinPasses(Quote(name) + ":" + Gap(pretty), x, start, end);
  }

  lemma {:induction false} PartsPass(v: Json, level: nat, pretty: bool, start: string, end: string)
    requires WellFormed(v) && (v.Arr? || v.Obj?) && Slashed(start) && end != ""
    ensures forall k :: 0 <= k < |Parts(v, level, pretty)| ==> PassedOver(Parts(v, level, pretty)[k], start, end)
    decreases v, 0
  {
    var parts := Parts(v, level, pretty);
    forall k | 0 <= k < |parts| ensures PassedOver(parts[k], start, end) {
      if v.Arr? {
        PrintPasses(v.items[k], level + 1, pretty, start, end);
      } else {
        var x := v.values[Find(v.names, v.names[k])];
        PrintPasses(x, level + 1, pretty, start, end);
        MemberPasses(v.names[k], Print(x, level + 1, pretty), pretty, start, end);
      }
    }
  }

  /**
    Outside its strings printed text holds no slash, and inside them the scan keeps its place: no comment is ever
    seen.
   */
  lemma {:induction false} PrintPasses(v: Json, level: nat, pretty: bool, start: string, end: string)
    requires WellFormed(v) && Slashed(start) && end != ""
    ensures PassedOver(Print(v, level, pretty), start, end)
    decreases v, 1
  {
    match v
    case Num(n) => NumberPlain(n); PlainIsPassed(Print(v, level, pretty), start, end);
    case Str(s) => QuoteIsPassed(s, start, end);
    case Arr(_) =>
      PartsPass(v, level, pretty, start, end);
      BracketsPass("[", Parts(v, level, pretty), "]", level, pretty, start, end);
    case Obj(_, _) =>
      PartsPass(v, level, pretty, start, end);
      BracketsPass("{", Parts(v, level, pretty), "}", level, pretty, start, end);
    case _ => PlainIsPassed(Print(v, level, pretty), start, end);
  }

  /** Blanking comments changes no printed text, so both parsing functions read it alike. */
  lemma CommentsLeavePrintedText(v: Json, pretty: bool)
    requires WellFormed(v)
    ensures RemoveComments(Print(v, 0, pretty)) == Print(v, 0, pretty)
    ensures ParseWithComments(Print(v, 0, pretty)) == ParseText(Print(v, 0, pretty))
  {
    PrintedTextStays(v, pretty);
  }

  // ---------- text with comments ----------

  /** c with the closing token behind it is a whole comment: the token is not seen earlier. */
  predicate Closes(c: string, end: string)
    requires end != ""
  {
    FindToken(c + end, end) == Some(|c|)
  }

  lemma {:induction false} FindExtends(s: string, rest: string, token: string)
    requires token != "" && FindToken(s, token).Some?
    ensures FindToken(s + rest, token) == FindToken(s, token)
  {
    if token <= s {
      assert token <= s + rest;
    } else {
      FindExtends(s[1..], rest, token);
      assert (s + rest)[1..] == s[1..] + rest;
      assert |token| <= |s[1..]|;
      assert s[..|token|] == (s + rest)[..|token|];
    }
  }

  /** A comment behind text that is passed over becomes as many spaces, and the scan goes on behind it. */
  lemma CommentBetween(x: string, c: string, y: string, start: string, end: string)
    requires Slashed(start) && end != "" && PassedOver(x, start, end) && Closes(c, end)
    ensures Remove(x + (start + c + end + y), start, end, false, false) ==
            x + (Blanks(|start| + |c| + |end|) + Remove(y, start, end, false, false))
  {
    var s := start + c + end + y;
    CommentLengthOf(c, y, start, end);
    BlanksComment(s, start, end, false);
    assert s[|start| + |c| + |end|..] == y;
  }

  lemma CommentLengthOf(c: string, y: string, start: string, end: string)
    requires Slashed(start) && end != "" && Closes(c, end)
    ensures var s := start + c + end + y;
            CommentAt(s, start, false, false) && CommentLength(s, start, end) == Some(|start| + |c| + |end|)
  {
    var s := start + c + end + y;
    FindExtends(c + end, y, end);
    assert s[|start|..] == c + end + y;
    assert s[0] == start[0];
  }

  lemma {:induction false} BlanksPass(n: nat, y: string, start: string, end: string)
    requires Slashed(start) && end != ""
    ensures Remove(Blanks(n) + y, start, end, false, false) == Blanks(n) + Remove(y, start, end, false, false)
  {
    PlainPasses(Blanks(n), y, start, end);
  }

  lemma {:induction false} SkipBlanks(n: nat, s: string)
    ensures SkipSpaces(Blanks(n) + s) == SkipSpaces(s)
  {
    if n == 0 {
      assert Blanks(0) + s == s;
    } else {
      SkipBlanks(n - 1, s);
      assert (Blanks(n) + s)[1..] == Blanks(n - 1) + s;
    }
  }

  /** A comment of the first kind in front of printed text does not show in what is parsed. */
  lemma CommentInFront(c: string, v: Json, pretty: bool)
    requires WellFormed(v) && Closes(c, "*/")
    ensures ParseWithComments("/*" + c + "*/" + Print(v, 0, pretty)) == ParseText(Print(v, 0, pretty))
  {
    var t := Print(v, 0, pretty);
    var n := 2 + |c| + 2;
    CommentsLeavePrintedText(v, pretty);
    PrintedTextStays(v, pretty);
    PlainIsPassed("", "/*", "*/");
    CommentBetween("", c, t, "/*", "*/");
    assert "" + ("/*" + c + "*/" + t) == "/*" + c + "*/" + t;
    assert "" + (Blanks(n) + t) == Blanks(n) + t;
    BlanksPass(n, t, "//", "\n");
    SkipBlanks(n, t);
  }

  /** A line of a comment without quotes, backslashes and slashes. */
  predicate PlainLine(c: string) {
    forall k :: 0 <= k < |c| ==> Plain(c[k]) && c[k] != '\n'
  }

  lemma {:induction false} LineCloses(c: string)
    requires PlainLine(c)
    ensures Closes(c, "\n")
  {
    if c == "" {
      assert c + "\n" == "\n";
    } else {
      LineCloses(c[1..]);
      assert (c + "\n")[1..] == c[1..] + "\n" && (c + "\n")[0] == c[0];
    }
  }

  /** Two slashes begin no comment of the first kind, unless a star is behind them. */
  lemma SlashesStay(u: string)
    requires u == "" || u[0] != '*'
    ensures Remove("//" + u, "/*", "*/", false, false) == "//" + Remove(u, "/*", "*/", false, false)
  {
    hide Remove;
    var r := Remove(u, "/*", "*/", false, false);
    var t := ['/'] + u;
    assert u == "" || t[1] != '*';
    KeepsOne('/', u, "/*", "*/", false, false);
    assert (['/'] + t)[1] != '*';
    KeepsOne('/', t, "/*", "*/", false, false);
    assert "//" + u == ['/'] + t;
    assert "//" + r == ['/'] + (['/'] + r);
  }

  /** The first pass leaves such a line alone, unless its second slash begins a comment of the first kind. */
  lemma LineStays(c: string, t: string)
    requires PlainLine(c) && (c == "" || c[0] != '*')
    ensures Remove("//" + c + "\n" + t, "/*", "*/", false, false) ==
            "//" + c + "\n" + Remove(t, "/*", "*/", false, false)
  {
    hide Remove;
    var x := c + "\n";
    var r := Remove(t, "/*", "*/", false, false);
    PlainPasses(x, t, "/*", "*/");
    assert (x + t)[0] != '*';
    SlashesStay(x + t);
    assert "//" + c + "\n" + t == "//" + (x + t);
    assert "//" + c + "\n" + r == "//" + (x + r);
  }

  lemma LineBlanked(c: string, t: string)
    requires PlainLine(c)
    ensures Remove("//" + c + "\n" + t, "//", "\n", false, false) ==
            Blanks(2 + |c| + 1) + Remove(t, "//", "\n", false, false)
  {
    var s := "//" + c + "\n" + t;
    LineCloses(c);
    CommentLengthOf(c, t, "//", "\n");
    hide Closes, CommentLength;
    BlanksComment(s, "//", "\n", false);
    assert s[2 + |c| + 1..] == t;
  }

  /** A comment of the second kind in front of printed text does not show either, if it does not begin with a star. */
  lemma LineCommentInFront(c: string, v: Json, pretty: bool)
    requires WellFormed(v) && PlainLine(c) && (c == "" || c[0] != '*')
    ensures ParseWithComments("//" + c + "\n" + Print(v, 0, pretty)) == ParseText(Print(v, 0, pretty))
  {
    hide Remove, Print, PlainLine, ParseValue;
    var t := Print(v, 0, pretty);
    PrintedTextStays(v, pretty);
    LineStays(c, t);
    LineBlanked(c, t);
    SkipBlanks(2 + |c| + 1, t);
  }

  /** With a star it does: the first pass takes the second slash for the beginning of a comment that is never closed. */
  lemma StarredLineFails()
    ensures ParseText("[]") == Some(Arr([])) && ParseWithComments("//*\n[]") == None
  {
    hide Remove;
    EmptyArray();
    NoClose();
    var s, r := "//*\n[]", "/  \n[]";
    assert s == ['/'] + "/*\n[]" && s[1] != '*';
    KeepsOne('/', "/*\n[]", "/*", "*/", false, false);
    BlanksComment("/*\n[]", "/*", "*/", false);
    assert Blanks(2) + "/*\n[]"[2..] == "  \n[]" && ['/'] + "  \n[]" == r;
    assert r[1] != '/';
    KeepsOne('/', "  \n[]", "//", "\n", false, false);
    assert r == ['/'] + "  \n[]";
    assert Remove(r, "//", "\n", false, false)[0] == '/';
  }

  lemma EmptyArray()
    ensures ParseText("[]") == Some(Arr([]))
  {
    assert "[]"[1..] == "]" && "]"[1..] == "";
  }

  lemma NoClose()
    ensures CommentLength("/*\n[]", "/*", "*/") == None
  {
    assert "/*\n[]"[2..] == "\n[]" && "\n[]"[1..] == "[]" && "[]"[1..] == "]" && "]"[1..] == "";
    assert FindToken("", "*/") == None;
    assert FindToken("]", "*/") == None;
    assert "[]"[0] != '*' && FindToken("[]", "*/") == None;
    assert "\n[]"[0] != '*';
  }

  lemma PrintedTextStays(v: Json, pretty: bool)
    requires WellFormed(v)
    ensures Remove(Print(v, 0, pretty), "/*", "*/", false, false) == Print(v, 0, pretty)
    ensures Remove(Print(v, 0, pretty), "//", "\n", false, false) == Print(v, 0, pretty)
  {
    var t := Print(v, 0, pretty);
    PrintPasses(v, 0, pretty, "/*", "*/");
    PrintPasses(v, 0, pretty, "//", "\n");
    assert t + "" == t;
    assert Remove(t + "", "/*", "*/", false, false) == t + "";
    assert Remove(t + "", "//", "\n", false, false) == t + "";
  }
}
