/**
  Parsing what was printed gives the tree back, in both styles, exactly when the parser's limits and its ban on
  control characters allow it.
 */
module JsonRoundTrip {
  import opened Wrappers
  import opened JsonText
  import opened JsonUtf8
  import opened JsonNumbers
  import opened JsonParse

  // ---------- what the parser takes ----------

  /** The printer escapes five control characters; the parser rejects the others. */
  predicate CharFits(c: char) { c >= ' ' || c in {BACKSPACE, FORMFEED, '\n', '\r', '\t'} }

  ghost predicate Printable(s: string) {
    forall k :: 0 <= k < |s| ==> CharFits(s[k])
  }

  /** v with its numbers at six decimals. */
  function Rounded(v: Json): Json
    decreases v
  {
    match v
    case Num(n) => Num(SixDecimals(n))
    case Arr(items) => Arr(seq(|items|, k requires 0 <= k < |items| => Rounded(items[k])))
    case Obj(names, values) => Obj(names, seq(|values|, k requires 0 <= k < |values| => Rounded(values[k])))
    case _ => v
  }

  /** v at the given depth is within the limits of the parser. */
  ghost predicate Fits(v: Json, nesting: nat) {
    nesting <= MAX_NESTING &&
    match v
    case Str(s) => Printable(s)
    case Arr(items) => |items| <= ARRAY_MAX_CAPACITY && forall i :: 0 <= i < |items| ==> Fits(items[i], nesting + 1)
    case Obj(names, values) =>
      && |names| <= OBJECT_MAX_CAPACITY
      && (forall i :: 0 <= i < |names| ==> Printable(names[i]))
      && (forall i :: 0 <= i < |values| ==> Fits(values[i], nesting + 1))
    case _ => true
  }

  // ---------- strings ----------

  lemma {:induction false} SkipQuotesOfEscape(s: string, rest: string)
    ensures SkipQuotes(Escape(s) + "\"" + rest) == rest
  {
    if s == "" {
      assert "" + "\"" + rest == "\"" + rest;
    } else {
      var t := Escape(s[1..]) + "\"" + rest;
      SkipQuotesOfEscape(s[1..], rest);
      assert Escape(s) + "\"" + rest == EscapeChar(s[0]) + t;
      SkipOneEscaped(s[0], t);
    }
  }

  lemma SkipOneEscaped(c: char, t: string)
    ensures SkipQuotes(EscapeChar(c) + t) == SkipQuotes(t)
  {
    var e := EscapeChar(c) + t;
    if |EscapeChar(c)| == 2 {
      assert e[0] == '\\' && e[2..] == t;
    } else {
      assert e[0] == c && e[1..] == t;
    }
  }

  lemma ProcessOneEscaped(c: char, t: string)
    ensures ProcessString(EscapeChar(c) + t) == if CharFits(c) then Prepend([c], ProcessString(t)) else None
  {
    var e := EscapeChar(c) + t;
    if |EscapeChar(c)| == 2 {
      assert e[0] == '\\' && e[1] == EscapeChar(c)[1] && e[2..] == t;
    } else {
      assert e[0] == c && e[1..] == t;
    }
  }

  lemma {:induction false} ProcessOfEscape(s: string)
    ensures ProcessString(Escape(s)) == if Printable(s) then Some(s) else None
  {
    if s != "" {
      ProcessOfEscape(s[1..]);
      ProcessOneEscaped(s[0], Escape(s[1..]));
      assert s == [s[0]] + s[1..];
      PrintableStep(s);
    }
  }

  lemma PrintableStep(s: string)
    requires s != ""
    ensures Printable(s) <==> CharFits(s[0]) && Printable(s[1..])
  {
    if CharFits(s[0]) && Printable(s[1..]) {
      forall k | 0 <= k < |s| ensures CharFits(s[k]) {
        if k > 0 {
          assert s[1..][k - 1] == s[k];
        }
      }
    }
    if Printable(s) {
      assert forall k :: 0 <= k < |s[1..]| ==> s[1..][k] == s[k + 1];
    }
  }

  lemma CPrefixOfCString(s: string)
    requires CString(s)
    ensures CPrefix(s) == s
  {
    if s != "" {
      assert s[0] in s;
      assert CString(s[1..]);
      CPrefixOfCString(s[1..]);
    }
  }

  /** A quoted string in front of more text is read back exactly when it is printable. */
  lemma QuotedRoundTrip(s: string, rest: string)
    requires CString(s) && rest != ""
    ensures QuotedString(Quote(s) + rest) == (if Printable(s) then Some(s) else None, rest)
  {
    var t := Quote(s) + rest;
    assert t[1..] == Escape(s) + "\"" + rest;
    SkipQuotesOfEscape(s, rest);
    assert t[1..|t| - |rest| - 1] == Escape(s);
    ProcessOfEscape(s);
    CPrefixOfCString(s);
  }

  // ---------- white space ----------

  predicate Blank(ws: string) { forall k :: 0 <= k < |ws| ==> IsSpace(ws[k]) }

  predicate StartsSolid(t: string) { t != "" && !IsSpace(t[0]) }

  lemma {:induction false} SkipBlank(ws: string, t: string)
    requires Blank(ws) && StartsSolid(t)
    ensures SkipSpaces(ws + t) == t
  {
    if ws == "" {
      assert ws + t == t;
    } else {
      assert (ws + t)[0] == ws[0] && (ws + t)[1..] == ws[1..] + t;
      SkipBlank(ws[1..], t);
    }
  }

  lemma SkipNothing(t: string)
    requires StartsSolid(t)
    ensures SkipSpaces(t) == t
  {
  }

  lemma {:induction false} IndentBlank(level: nat)
    ensures Blank(Indent(level))
  {
    if level > 0 {
      IndentBlank(level - 1);
    }
  }

  /** A line break and an indentation. */
  function Break(pretty: bool, level: nat): string { NewLine(pretty) + IndentIf(pretty, level) }

  lemma BreakBlank(pretty: bool, level: nat)
    ensures Blank(Break(pretty, level))
  {
    IndentBlank(level);
  }

  // ---------- layouts ----------

  lemma LastPart(parts: seq<string>, i: nat, level: nat, pretty: bool, close: string)
    requires i + 1 == |parts| && StartsSolid(close)
    ensures SkipSpaces(AfterPart(parts, i, level, pretty, close)) == close
    ensures close[0] in {']', '}'} ==> Stops(AfterPart(parts, i, level, pretty, close))
  {
    var t := AfterPart(parts, i, level, pretty, close);
    BreakBlank(pretty, level);
    assert t == Break(pretty, level) + close;
    SkipBlank(Break(pretty, level), close);
  }

  lemma SkipBreak(pretty: bool, level: nat, u: string)
    requires StartsSolid(u)
    ensures SkipSpaces(NewLine(pretty) + (IndentIf(pretty, level) + u)) == u
  {
    BreakBlank(pretty, level);
    assert NewLine(pretty) + (IndentIf(pretty, level) + u) == Break(pretty, level) + u;
    SkipBlank(Break(pretty, level), u);
  }

  lemma NextPart(parts: seq<string>, i: nat, level: nat, pretty: bool, close: string)
    requires i + 1 < |parts| && StartsSolid(parts[i + 1])
    ensures var t := AfterPart(parts, i, level, pretty, close);
            && Stops(t) && t[0] == ',' && SkipSpaces(t) == t
            && SkipSpaces(t[1..]) == parts[i + 1] + AfterPart(parts, i + 1, level, pretty, close)
  {
    LayoutText(parts, i + 1, level, pretty, close);
    CommaThen(parts[i + 1] + AfterPart(parts, i + 1, level, pretty, close),
      Layout(parts, i + 1, level, pretty) + close, level, pretty);
  }

  lemma CommaThen(u: string, text: string, level: nat, pretty: bool)
    requires text == IndentIf(pretty, level + 1) + u && StartsSolid(u)
    ensures var t := "," + (NewLine(pretty) + text);
            Stops(t) && t[0] == ',' && SkipSpaces(t) == t && SkipSpaces(t[1..]) == u
  {
    var t := "," + (NewLine(pretty) + text);
    SkipNothing(t);
    SkipBreak(pretty, level + 1, u);
    assert t[1..] == NewLine(pretty) + text;
  }

  /** The text behind an opening bracket, without the white space. */
  lemma FirstPart(parts: seq<string>, level: nat, pretty: bool, close: string)
    requires parts != [] && StartsSolid(parts[0])
    ensures SkipSpaces(Inside(parts, level, pretty) + close) == parts[0] + AfterPart(parts, 0, level, pretty, close)
  {
    LayoutText(parts, 0, level, pretty, close);
    InsideSkips(parts[0] + AfterPart(parts, 0, level, pretty, close), Layout(parts, 0, level, pretty), close, level,
      pretty);
  }

  lemma InsideSkips(u: string, text: string, close: string, level: nat, pretty: bool)
    requires text + close == IndentIf(pretty, level + 1) + u && StartsSolid(u)
    ensures SkipSpaces(NewLine(pretty) + text + close) == u
  {
    SkipBreak(pretty, level + 1, u);
    assert NewLine(pretty) + text + close == NewLine(pretty) + (text + close);
  }

  // ---------- values that read back ----------

  /** x, in front of something that ends a value, parses to v when fit and is rejected otherwise. */
  ghost predicate ReadsBack(x: string, nesting: nat, v: Json, fit: bool) {
    && StartsSolid(x) && x[0] !in {']', '}'}
    && forall rest :: Stops(rest) ==> ParseValue(x + rest, nesting) == if fit then Some((v, rest)) else None
  }

  ghost predicate AllReadBack(xs: seq<string>, nesting: nat, vs: seq<Json>, fit: seq<bool>) {
    |xs| == |vs| == |fit| && forall k :: 0 <= k < |xs| ==> ReadsBack(xs[k], nesting, vs[k], fit[k])
  }

  ghost predicate AllTrue(fit: seq<bool>, i: nat) {
    forall k :: i <= k < |fit| ==> fit[k]
  }

  lemma AllTrueStep(fit: seq<bool>, i: nat)
    requires i < |fit|
    ensures AllTrue(fit, i) <==> fit[i] && AllTrue(fit, i + 1)
  {
  }

  lemma TakeStep<T>(s: seq<T>, i: nat)
    requires i < |s|
    ensures s[..i] + [s[i]] == s[..i + 1]
    ensures i + 1 == |s| ==> s[..i + 1] == s
  {
  }

  // ---------- arrays ----------

  lemma ItemStep(x: string, t: string, nesting: nat, items: seq<Json>, v: Json, fit: bool)
    requires ReadsBack(x, nesting, v, fit) && Stops(t)
    ensures ParseItems(x + t, nesting, items) ==
            if fit && |items| < ARRAY_MAX_CAPACITY then EndOrNextItem(SkipSpaces(t), nesting, items + [v]) else None
  {
    assert ParseValue(x + t, nesting) == if fit then Some((v, t)) else None;
  }

  lemma ItemsNext(x: string, t: string, u: string, nesting: nat, items: seq<Json>, v: Json, fit: bool)
    requires ReadsBack(x, nesting, v, fit) && Stops(t) && t[0] == ',' && SkipSpaces(t) == t && SkipSpaces(t[1..]) == u
    ensures ParseItems(x + t, nesting, items) ==
            if fit && |items| < ARRAY_MAX_CAPACITY then ParseItems(u, nesting, items + [v]) else None
  {
    ItemStep(x, t, nesting, items, v, fit);
  }

  lemma ItemsLast(x: string, t: string, rest: string, nesting: nat, items: seq<Json>, v: Json, fit: bool)
    requires ReadsBack(x, nesting, v, fit) && Stops(t) && SkipSpaces(t) == "]" + rest
    ensures ParseItems(x + t, nesting, items) ==
            if fit && |items| < ARRAY_MAX_CAPACITY then Some((Arr(items + [v]), rest)) else None
  {
    ItemStep(x, t, nesting, items, v, fit);
    assert ("]" + rest)[1..] == rest;
  }

  lemma {:induction false} ItemsReadBack(xs: seq<string>, i: nat, level: nat, pretty: bool, rest: string,
                                         nesting: nat, vs: seq<Json>, fit: seq<bool>)
    requires AllReadBack(xs, nesting, vs, fit) && i < |xs| && i <= ARRAY_MAX_CAPACITY
    ensures ParseItems(xs[i] + AfterPart(xs, i, level, pretty, "]" + rest), nesting, vs[..i])
            == if AllTrue(fit, i) && |vs| <= ARRAY_MAX_CAPACITY then Some((Arr(vs), rest)) else None
    decreases |xs| - i
  {
    AllTrueStep(fit, i);
    if i + 1 == |xs| {
      LastItem(xs, i, level, pretty, rest, nesting, vs, fit);
    } else {
      FurtherItem(xs, i, level, pretty, rest, nesting, vs, fit);
      if i < ARRAY_MAX_CAPACITY {
        ItemsReadBack(xs, i + 1, level, pretty, rest, nesting, vs, fit);
      }
    }
  }

  lemma LastItem(xs: seq<string>, i: nat, level: nat, pretty: bool, rest: string,
                 nesting: nat, vs: seq<Json>, fit: seq<bool>)
    requires AllReadBack(xs, nesting, vs, fit) && i + 1 == |xs|
    ensures ParseItems(xs[i] + AfterPart(xs, i, level, pretty, "]" + rest), nesting, vs[..i]) ==
            if fit[i] && i < ARRAY_MAX_CAPACITY then Some((Arr(vs), rest)) else None
  {
    TakeStep(vs, i);
    assert ReadsBack(xs[i], nesting, vs[i], fit[i]);
    LastPart(xs, i, level, pretty, "]" + rest);
    ItemsLast(xs[i], AfterPart(xs, i, level, pretty, "]" + rest), rest, nesting, vs[..i], vs[i], fit[i]);
  }

  lemma FurtherItem(xs: seq<string>, i: nat, level: nat, pretty: bool, rest: string,
                    nesting: nat, vs: seq<Json>, fit: seq<bool>)
    requires AllReadBack(xs, nesting, vs, fit) && i + 1 < |xs|
    ensures ParseItems(xs[i] + AfterPart(xs, i, level, pretty, "]" + rest), nesting, vs[..i]) ==
            if fit[i] && i < ARRAY_MAX_CAPACITY then
              ParseItems(xs[i + 1] + AfterPart(xs, i + 1, level, pretty, "]" + rest), nesting, vs[..i + 1])
            else None
  {
    TakeStep(vs, i);
    assert ReadsBack(xs[i], nesting, vs[i], fit[i]) && ReadsBack(xs[i + 1], nesting, vs[i + 1], fit[i + 1]);
    NextPart(xs, i, level, pretty, "]" + rest);
    ItemsNext(xs[i], AfterPart(xs, i, level, pretty, "]" + rest),
              xs[i + 1] + AfterPart(xs, i + 1, level, pretty, "]" + rest), nesting, vs[..i], vs[i], fit[i]);
  }

  lemma ArrayReadsBack(xs: seq<string>, level: nat, pretty: bool, rest: string, nesting: nat, vs: seq<Json>,
                       fit: seq<bool>)
    requires AllReadBack(xs, nesting, vs, fit)
    ensures ParseArray("[" + Inside(xs, level, pretty) + "]" + rest, nesting)
            == if AllTrue(fit, 0) && |vs| <= ARRAY_MAX_CAPACITY then Some((Arr(vs), rest)) else None
  {
    var s := "[" + Inside(xs, level, pretty) + "]" + rest;
    assert s[1..] == Inside(xs, level, pretty) + ("]" + rest);
    if xs == [] {
      assert s[1..] == "]" + rest;
      SkipNothing("]" + rest);
      assert ("]" + rest)[1..] == rest;
    } else {
      assert ReadsBack(xs[0], nesting, vs[0], fit[0]);
      FirstPart(xs, level, pretty, "]" + rest);
      ItemsReadBack(xs, 0, level, pretty, rest, nesting, vs, fit);
      assert vs[..0] == [];
    }
  }

  // ---------- objects ----------

  /** The texts of members, made of their names and the texts of their values. */
  ghost predicate AreMembers(parts: seq<string>, names: seq<string>, xs: seq<string>, pretty: bool) {
    && |parts| == |names| == |xs|
    && (forall k :: 0 <= k < |names| ==> CString(names[k]))
    && forall k :: 0 <= k < |parts| ==> parts[k] == MemberText(names[k], xs[k], pretty)
  }

  lemma MemberStep(name: string, x: string, pretty: bool, t: string, nesting: nat, names: seq<string>,
                   values: seq<Json>,
                   v: Json, fit: bool)
    requires ReadsBack(x, nesting, v, fit) && Stops(t) && CString(name) && name !in names
    ensures ParseMembers(MemberText(name, x, pretty) + t, nesting, names, values) ==
            if Printable(name) && fit && |names| < OBJECT_MAX_CAPACITY then
              EndOrNextMember(SkipSpaces(t), nesting, names + [name], values + [v])
            else None
  {
    var u := ":" + (Gap(pretty) + (x + t));
    assert MemberText(name, x, pretty) + t == Quote(name) + u;
    QuotedRoundTrip(name, u);
    SkipNothing(u);
    assert u[1..] == Gap(pretty) + (x + t);
    ValueBehindGap(x, pretty, t, nesting);
    assert ParseValue(x + t, nesting) == if fit then Some((v, t)) else None;
  }

  lemma ValueBehindGap(x: string, pretty: bool, t: string, nesting: nat)
    requires StartsSolid(x)
    ensures ParseValue(Gap(pretty) + (x + t), nesting) == ParseValue(x + t, nesting)
  {
    SkipBlank(Gap(pretty), x + t);
    SkipNothing(x + t);
  }

  lemma MembersNext(name: string, x: string, pretty: bool, t: string, u: string, nesting: nat, names: seq<string>,
                    values: seq<Json>, v: Json, fit: bool)
    requires ReadsBack(x, nesting, v, fit) && CString(name) && name !in names
    requires Stops(t) && t[0] == ',' && SkipSpaces(t) == t && SkipSpaces(t[1..]) == u
    ensures ParseMembers(MemberText(name, x, pretty) + t, nesting, names, values) ==
            if Printable(name) && fit && |names| < OBJECT_MAX_CAPACITY then
              ParseMembers(u, nesting, names + [name], values + [v])
            else None
  {
    MemberStep(name, x, pretty, t, nesting, names, values, v, fit);
  }

  lemma MembersLast(name: string, x: string, pretty: bool, t: string, rest: string, nesting: nat, names: seq<string>,
                    values: seq<Json>, v: Json, fit: bool)
    requires ReadsBack(x, nesting, v, fit) && CString(name) && name !in names
    requires Stops(t) && SkipSpaces(t) == "}" + rest
    ensures ParseMembers(MemberText(name, x, pretty) + t, nesting, names, values) ==
            if Printable(name) && fit && |names| < OBJECT_MAX_CAPACITY then
              Some((Obj(names + [name], values + [v]), rest))
            else None
  {
    MemberStep(name, x, pretty, t, nesting, names, values, v, fit);
    assert ("}" + rest)[1..] == rest;
  }

  lemma MemberSolid(name: string, x: string, pretty: bool)
    ensures StartsSolid(MemberText(name, x, pretty)) && MemberText(name, x, pretty)[0] == '\"'
  {
  }

  ghost predicate NamesFit(names: seq<string>, i: nat) {
    forall k :: i <= k < |names| ==> Printable(names[k])
  }

  lemma {:induction false} MembersReadBack(parts: seq<string>, names: seq<string>, xs: seq<string>, i: nat, level: nat,
                                           pretty: bool, rest: string, nesting: nat, vs: seq<Json>, fit: seq<bool>)
    requires AllReadBack(xs, nesting, vs, fit) && AreMembers(parts, names, xs, pretty) && Unique(names)
    requires i < |xs| && i <= OBJECT_MAX_CAPACITY
    ensures ParseMembers(parts[i] + AfterPart(parts, i, level, pretty, "}" + rest), nesting, names[..i], vs[..i])
            == if NamesFit(names, i) && AllTrue(fit, i) && |names| <= OBJECT_MAX_CAPACITY then
              Some((Obj(names, vs), rest))
               else None
    decreases |xs| - i
  {
    AllTrueStep(fit, i);
    NamesFitStep(names, i);
    if i + 1 == |xs| {
      LastMember(parts, names, xs, i, level, pretty, rest, nesting, vs, fit);
    } else {
      FurtherMember(parts, names, xs, i, level, pretty, rest, nesting, vs, fit);
      if i < OBJECT_MAX_CAPACITY {
        MembersReadBack(parts, names, xs, i + 1, level, pretty, rest, nesting, vs, fit);
      }
    }
  }

  lemma LastMember(parts: seq<string>, names: seq<string>, xs: seq<string>, i: nat, level: nat,
                   pretty: bool, rest: string, nesting: nat, vs: seq<Json>, fit: seq<bool>)
    requires AllReadBack(xs, nesting, vs, fit) && AreMembers(parts, names, xs, pretty) && Unique(names)
    requires i + 1 == |xs|
    ensures ParseMembers(parts[i] + AfterPart(parts, i, level, pretty, "}" + rest), nesting, names[..i], vs[..i]) ==
            if Printable(names[i]) && fit[i] && i < OBJECT_MAX_CAPACITY then Some((Obj(names, vs), rest)) else None
  {
    TakeStep(vs, i);
    TakeStep(names, i);
    assert ReadsBack(xs[i], nesting, vs[i], fit[i]);
    LastPart(parts, i, level, pretty, "}" + rest);
    MembersLast(names[i], xs[i], pretty, AfterPart(parts, i, level, pretty, "}" + rest), rest,
                nesting, names[..i], vs[..i], vs[i], fit[i]);
  }

  lemma NamesFitStep(names: seq<string>, i: nat)
    requires i < |names|
    ensures NamesFit(names, i) <==> Printable(names[i]) && NamesFit(names, i + 1)
  {
  }

  lemma FurtherMember(parts: seq<string>, names: seq<string>, xs: seq<string>, i: nat, level: nat,
                      pretty: bool, rest: string, nesting: nat, vs: seq<Json>, fit: seq<bool>)
    requires AllReadBack(xs, nesting, vs, fit) && AreMembers(parts, names, xs, pretty) && Unique(names)
    requires i + 1 < |xs|
    ensures ParseMembers(parts[i] + AfterPart(parts, i, level, pretty, "}" + rest), nesting, names[..i], vs[..i]) ==
            if Printable(names[i]) && fit[i] && i < OBJECT_MAX_CAPACITY then
              ParseMembers(parts[i + 1] + AfterPart(parts, i + 1, level, pretty, "}" + rest), nesting, names[..i + 1],
                vs[..i + 1])
            else None
  {
    TakeStep(vs, i);
    TakeStep(names, i);
    assert ReadsBack(xs[i], nesting, vs[i], fit[i]);
    MemberSolid(names[i + 1], xs[i + 1], pretty);
    NextPart(parts, i, level, pretty, "}" + rest);
    MembersNext(names[i], xs[i], pretty, AfterPart(parts, i, level, pretty, "}" + rest),
                parts[i + 1] + AfterPart(parts, i + 1, level, pretty, "}" + rest),
                nesting, names[..i], vs[..i], vs[i], fit[i]);
  }

  lemma ObjectReadsBack(parts: seq<string>, names: seq<string>, xs: seq<string>, level: nat, pretty: bool, rest: string,
                        nesting: nat, vs: seq<Json>, fit: seq<bool>)
    requires AllReadBack(xs, nesting, vs, fit) && AreMembers(parts, names, xs, pretty) && Unique(names)
    ensures ParseObject("{" + Inside(parts, level, pretty) + "}" + rest, nesting)
            == if NamesFit(names, 0) && AllTrue(fit, 0) && |names| <= OBJECT_MAX_CAPACITY then
              Some((Obj(names, vs), rest))
               else None
  {
    BehindBracket("{", Inside(parts, level, pretty), "}", rest);
    if parts == [] {
      EmptyObject(level, pretty, rest, nesting);
    } else {
      MemberSolid(names[0], xs[0], pretty);
      FirstPart(parts, level, pretty, "}" + rest);
      MembersReadBack(parts, names, xs, 0, level, pretty, rest, nesting, vs, fit);
      assert vs[..0] == [] && names[..0] == [];
    }
  }

  lemma BehindBracket(open: string, inside: string, close: string, rest: string)
    requires |open| == 1
    ensures (open + inside + close + rest)[1..] == inside + (close + rest)
  {
  }

  lemma EmptyObject(level: nat, pretty: bool, rest: string, nesting: nat)
    ensures ParseObject("{" + Inside([], level, pretty) + "}" + rest, nesting) == Some((Obj([], []), rest))
  {
    BehindBracket("{", "", "}", rest);
    SkipNothing("}" + rest);
    assert ("}" + rest)[1..] == rest && "" + ("}" + rest) == "}" + rest;
  }

  // ---------- values ----------

  lemma {:induction false} ItemsFit(v: Json, level: nat, pretty: bool, nesting: nat) returns (fit: seq<bool>)
    requires WellFormed(v) && v.Arr?
    ensures AllReadBack(Parts(v, level, pretty), nesting, Rounded(v).items, fit)
    ensures AllTrue(fit, 0) <==> forall k :: 0 <= k < |v.items| ==> Fits(v.items[k], nesting)
    decreases v, 1
  {
    fit := seq(|v.items|, k requires 0 <= k < |v.items| => Fits(v.items[k], nesting));
    assert forall k :: 0 <= k < |v.items| ==> fit[k] == Fits(v.items[k], nesting);
    forall k | 0 <= k < |v.items| ensures ReadsBack(Parts(v, level, pretty)[k], nesting, Rounded(v).items[k], fit[k]) {
      ValueReadsBack(v.items[k], level + 1, pretty, nesting);
    }
  }

  lemma {:induction false} ValuesFit(v: Json, level: nat, pretty: bool, nesting: nat)
    returns (xs: seq<string>, fit: seq<bool>)
    requires WellFormed(v) && v.Obj?
    ensures AllReadBack(xs, nesting, Rounded(v).values, fit) && AreMembers(Parts(v, level, pretty), v.names, xs, pretty)
    ensures AllTrue(fit, 0) <==> forall k :: 0 <= k < |v.values| ==> Fits(v.values[k], nesting)
    decreases v, 1
  {
    fit := seq(|v.values|, k requires 0 <= k < |v.values| => Fits(v.values[k], nesting));
    xs := seq(|v.values|, k requires 0 <= k < |v.values| => Print(v.values[k], level + 1, pretty));
    assert forall k :: 0 <= k < |v.values| ==> fit[k] == Fits(v.values[k], nesting);
    forall k | 0 <= k < |v.values| ensures ReadsBack(xs[k], nesting, Rounded(v).values[k], fit[k]) {
      ValueReadsBack(v.values[k], level + 1, pretty, nesting);
    }
    forall k | 0 <= k < |v.names| ensures Parts(v, level, pretty)[k] == MemberText(v.names[k], xs[k], pretty) {
      FindUnique(v.names, k);
    }
  }

  lemma {:induction false} ContainerRoundTrip(v: Json, level: nat, pretty: bool, rest: string, nesting: nat)
    requires WellFormed(v) && (v.Arr? || v.Obj?)
    ensures ParseValue(Print(v, level, pretty) + rest, nesting) ==
            if Fits(v, nesting) then Some((Rounded(v), rest)) else None
    decreases v, 2
  {
    if nesting > MAX_NESTING {
    } else if v.Arr? {
      var fit := ItemsFit(v, level, pretty, nesting + 1);
      ArrayReadsBack(Parts(v, level, pretty), level, pretty, rest, nesting + 1, Rounded(v).items, fit);
      ArrayValue(Inside(Parts(v, level, pretty), level, pretty), rest, nesting);
    } else {
      var xs, fit := ValuesFit(v, level, pretty, nesting + 1);
      ObjectReadsBack(Parts(v, level, pretty), v.names, xs, level, pretty, rest, nesting + 1, Rounded(v).values, fit);
      ObjectValue(Inside(Parts(v, level, pretty), level, pretty), rest, nesting);
    }
  }

  lemma ArrayValue(inside: string, rest: string, nesting: nat)
    requires nesting <= MAX_NESTING
    ensures ParseValue("[" + inside + "]" + rest, nesting) == ParseArray("[" + inside + "]" + rest, nesting + 1)
  {
    SkipNothing("[" + inside + "]" + rest);
  }

  lemma ObjectValue(inside: string, rest: string, nesting: nat)
    requires nesting <= MAX_NESTING
    ensures ParseValue("{" + inside + "}" + rest, nesting) == ParseObject("{" + inside + "}" + rest, nesting + 1)
  {
    SkipNothing("{" + inside + "}" + rest);
  }

  lemma TokenRoundTrip(token: string, v: Json, rest: string)
    ensures ParseToken(token + rest, token, v) == Some((v, rest))
  {
    assert (token + rest)[|token|..] == rest;
  }

  lemma StringRoundTrip(s: string, rest: string, nesting: nat)
    requires CString(s) && rest != ""
    ensures ParseValue(Quote(s) + rest, nesting) ==
            if nesting <= MAX_NESTING && Printable(s) then Some((Str(s), rest)) else None
  {
    QuotedRoundTrip(s, rest);
    SkipNothing(Quote(s) + rest);
  }

  lemma NumRoundTrip(n: real, rest: string, nesting: nat)
    requires Stops(rest)
    ensures StartsSolid(NumberText(n)) && (IsDigit(NumberText(n)[0]) || NumberText(n)[0] == '-')
    ensures ParseValue(NumberText(n) + rest, nesting) ==
            if nesting <= MAX_NESTING then Some((Num(SixDecimals(n)), rest)) else None
  {
    hide NumberText, SixDecimals, ParseNumber;
    NumberTextHead(n);
    NumberRoundTrip(n, rest);
    NumberDispatch(NumberText(n) + rest, nesting);
  }

  lemma NumberDispatch(s: string, nesting: nat)
    requires s != "" && (IsDigit(s[0]) || s[0] == '-')
    ensures ParseValue(s, nesting) == if nesting <= MAX_NESTING then ParseNumber(s) else None
  {
    SkipNothing(s);
    StartsNumber(s[0]);
    assert Head(s) == s[0];
  }

  lemma StartsNumber(c: char)
    requires IsDigit(c) || c == '-'
    ensures c !in {'{', '[', '\"', 't', 'f'}
  {
  }

  lemma TrueRoundTrip(rest: string, nesting: nat)
    ensures ParseValue("true" + rest, nesting) == if nesting <= MAX_NESTING then Some((Bool(true), rest)) else None
  {
    SkipNothing("true" + rest);
    TokenRoundTrip("true", Bool(true), rest);
  }

  lemma FalseRoundTrip(rest: string, nesting: nat)
    ensures ParseValue("false" + rest, nesting) == if nesting <= MAX_NESTING then Some((Bool(false), rest)) else None
  {
    SkipNothing("false" + rest);
    TokenRoundTrip("false", Bool(false), rest);
    assert ("false" + rest)[0] == 'f';
  }

  lemma NullRoundTrip(rest: string, nesting: nat)
    ensures ParseValue("null" + rest, nesting) == if nesting <= MAX_NESTING then Some((Null, rest)) else None
  {
    SkipNothing("null" + rest);
    TokenRoundTrip("null", Null, rest);
  }

  lemma ScalarRoundTrip(v: Json, level: nat, pretty: bool, rest: string, nesting: nat)
    requires WellFormed(v) && !v.Arr? && !v.Obj? && Stops(rest)
    ensures StartsSolid(Print(v, level, pretty)) && Print(v, level, pretty)[0] !in {']', '}'}
    ensures ParseValue(Print(v, level, pretty) + rest, nesting) ==
            if Fits(v, nesting) then Some((Rounded(v), rest)) else None
  {
    match v
    case Num(n) => NumRoundTrip(n, rest, nesting);
    case Str(s) => StringRoundTrip(s, rest, nesting);
    case Bool(b) => if b { TrueRoundTrip(rest, nesting); } else { FalseRoundTrip(rest, nesting); }
    case Null => NullRoundTrip(rest, nesting);
  }

  /**
    The text of v in front of more text parses to v, at six decimals, and leaves that text, exactly when v fits at the
    depth where it stands; otherwise the parser fails.
   */
  lemma {:induction false} ValueReadsBack(v: Json, level: nat, pretty: bool, nesting: nat)
    requires WellFormed(v)
    ensures ReadsBack(Print(v, level, pretty), nesting, Rounded(v), Fits(v, nesting))
    decreases v, 3
  {
    if v.Arr? || v.Obj? {
      forall rest | Stops(rest)
        ensures ParseValue(Print(v, level, pretty) + rest, nesting) ==
                if Fits(v, nesting) then Some((Rounded(v), rest)) else None
      {
        ContainerRoundTrip(v, level, pretty, rest, nesting);
      }
    } else {
      forall rest | Stops(rest)
        ensures ParseValue(Print(v, level, pretty) + rest, nesting) ==
                if Fits(v, nesting) then Some((Rounded(v), rest)) else None
      {
        ScalarRoundTrip(v, level, pretty, rest, nesting);
      }
      ScalarRoundTrip(v, level, pretty, ",", nesting);
    }
  }

  /**
    Printing then parsing gives the tree back at six decimals, compact or pretty, exactly for the trees that fit: at
    most 19 containers around any value, sizes within the capacities, and no control characters but the five escaped.
   */
  lemma PrintThenParse(v: Json, pretty: bool)
    requires WellFormed(v) && (v.Arr? || v.Obj?)
    ensures ParseText(Print(v, 0, pretty)) == if Fits(v, 0) then Some(Rounded(v)) else None
  {
    var t := Print(v, 0, pretty);
    assert t + "" == t;
    ContainerRoundTrip(v, 0, pretty, "", 0);
    SkipNothing(t);
  }

  // ---------- printed text in a buffer ----------

  lemma {:induction false} DecimalIsCString(n: nat)
    ensures CString(Decimal(n))
  {
    if n >= 10 {
      DecimalIsCString(n / 10);
    }
  }

  lemma NumberIsCString(n: real)
    ensures CString(NumberText(n))
  {
    if IsInt(n) {
      DecimalIsCString(if n.Floor < 0 then -n.Floor else n.Floor);
    } else {
      var scaled := Millionths(n);
      DecimalIsCString(scaled % 1000000);
      DecimalIsCString(scaled / 1000000);
    }
  }

  lemma {:induction false} EscapeIsCString(s: string)
    requires CString(s)
    ensures CString(Escape(s))
  {
    if s != "" {
      assert s[0] in s;
      EscapeIsCString(s[1..]);
    }
  }

  lemma {:induction false} IndentIsCString(level: nat)
    ensures CString(Indent(level))
  {
    if level > 0 {
      IndentIsCString(level - 1);
    }
  }

  lemma {:induction false} LayoutIsCString(parts: seq<string>, i: nat, level: nat, pretty: bool)
    requires i <= |parts| && forall k :: 0 <= k < |parts| ==> CString(parts[k])
    ensures CString(Layout(parts, i, level, pretty))
    decreases |parts| - i
  {
    IndentIsCString(level);
    IndentIsCString(level + 1);
    if i < |parts| {
      LayoutIsCString(parts, i + 1, level, pretty);
    }
  }

  lemma {:induction false} PartsAreCStrings(v: Json, level: nat, pretty: bool)
    requires WellFormed(v) && (v.Arr? || v.Obj?)
    ensures forall k :: 0 <= k < |Parts(v, level, pretty)| ==> CString(Parts(v, level, pretty)[k])
    decreases v, 0
  {
    var parts := Parts(v, level, pretty);
    forall k | 0 <= k < |parts| ensures CString(parts[k]) {
      if v.Arr? {
        PrintIsCString(v.items[k], level + 1, pretty);
      } else {
        PrintIsCString(v.values[Find(v.names, v.names[k])], level + 1, pretty);
        EscapeIsCString(v.names[k]);
      }
    }
  }

  /** Printed text holds no NUL, so the terminator behind it is the first one. */
  lemma {:induction false} PrintIsCString(v: Json, level: nat, pretty: bool)
    requires WellFormed(v)
    ensures CString(Print(v, level, pretty))
    decreases v, 1
  {
    match v
    case Num(n) => NumberIsCString(n);
    case Str(s) => EscapeIsCString(s);
    case Arr(_) =>
      PartsAreCStrings(v, level, pretty);
      LayoutIsCString(Parts(v, level, pretty), 0, level, pretty);
    case Obj(_, _) =>
      PartsAreCStrings(v, level, pretty);
      LayoutIsCString(Parts(v, level, pretty), 0, level, pretty);
    case _ =>
  }

  /** What a serialization leaves in a buffer, whatever lies behind the terminator, parses as PrintThenParse says. */
  lemma BufferThenParse(v: Json, pretty: bool, behind: string)
    requires WellFormed(v) && (v.Arr? || v.Obj?)
    ensures ParseText(CPrefix(Print(v, 0, pretty) + [NUL] + behind)) == if Fits(v, 0) then Some(Rounded(v)) else None
  {
    var t := Print(v, 0, pretty);
    PrintIsCString(v, 0, pretty);
    assert (t + [NUL] + behind)[..|t|] == t && (t + [NUL] + behind)[|t|] == NUL;
    EndOfCPrefix(t + [NUL] + behind, |t|);
    PrintThenParse(v, pretty);
  }
}
