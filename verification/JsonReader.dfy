/** The parser as it runs: every method moves one cursor over the text, and does what the function of its name says. */
module JsonReader {
  import opened Wrappers
  import opened JsonText
  import opened JsonParse
  import opened JsonStrings
  import opened JsonObjects
  import opened JsonComments
  import opened JsonBlanking
  import opened JsonLimits

  lemma CStringBehind(s: string, n: nat)
    requires CString(s) && n <= |s|
    ensures CString(s[n..])
  {
  }

  lemma CPrefixOfTerminated(t: string)
    ensures CPrefix(t + [NUL]) == CPrefix(t)
  {
    if t != "" {
      CPrefixOfTerminated(t[1..]);
      assert (t + [NUL])[1..] == t[1..] + [NUL];
    }
  }

  /** A method came to the same result as the function, and on success to the same place. */
  ghost predicate Agrees(r: Parsed, v: Option<Json>, rest: string) {
    match r
    case None => v.None?
    case Some((w, s)) => v == Some(w) && rest == s
  }

  class Cursor {
    const text: string
    var at: nat

    ghost predicate Valid()
      reads this
    {
      at <= |text| && CString(text)
    }

    /** The text from the cursor on. */
    ghost function Rest(): (s: string)
      reads this
      requires Valid()
      ensures CString(s)
    {
      CStringBehind(text, at);
      text[at..]
    }

    /** **string */
    function Current(): (c: char)
      reads this
      requires Valid()
      ensures c == Head(Rest()) && (c == NUL <==> at == |text|)
    {
      if at < |text| then assert text[at] in text; text[at] else NUL
    }

    constructor (s: string)
      requires CString(s)
      ensures Valid() && Rest() == s
    {
      text := s;
      at := 0;
    }

    /** SKIP_CHAR */
    method Skip()
      requires Valid() && Rest() != ""
      modifies this
      ensures Valid() && Rest() == old(Rest())[1..]
    {
      at := at + 1;
    }

    /** SKIP_WHITESPACES */
    method SkipWhitespaces()
      requires Valid()
      modifies this
      ensures Valid() && Rest() == SkipSpaces(old(Rest()))
    {
      while IsSpace(Current())
        invariant Valid() && SkipSpaces(Rest()) == SkipSpaces(old(Rest()))
        decreases |text| - at
      {
        Skip();
      }
    }

    /** skip_quotes */
    method SkipString()
      requires Valid() && Rest() != ""
      modifies this
      ensures Valid() && Rest() == SkipQuotes(old(Rest())[1..])
    {
      Skip();
      while Current() != '\"'
        invariant Valid() && SkipQuotes(Rest()) == SkipQuotes(old(Rest())[1..])
        decreases |text| - at
      {
        if Current() == NUL {
          return;
        }
        if Current() == '\\' {
          Skip();
          if Current() == NUL {
            return;
          }
        }
        Skip();
      }
      Skip();
    }

    /** get_quoted_string */
    method GetQuotedString() returns (r: Option<string>)
      requires Valid() && Rest() != ""
      modifies this
      ensures Valid() && (r, Rest()) == QuotedString(old(Rest()))
    {
      var start := at;
      ghost var s := Rest();
      SkipString();
      if Current() == NUL {
        return None;
      }
      SkippedIsComplete(s[1..]);
      var inside := text[start + 1..at - 1];
      assert inside == s[1..][..|s[1..]| - |Rest()| - 1];
      assert inside == s[1..|s| - |Rest()| - 1];
      var output := ProcessToBuffer(inside);
      if output == null {
        return None;
      }
      CPrefixOfTerminated(ProcessString(inside).value);
      r := Some(CPrefix(output[..]));
    }

    /** The tokens of boolean and null values, compared by strncmp. */
    method ReadToken(token: string, w: Json) returns (v: Option<Json>)
      requires Valid()
      modifies this
      ensures Valid() && Agrees(ParseToken(old(Rest()), token, w), v, Rest())
      ensures v.None? ==> Rest() == old(Rest())
    {
      if |token| <= |text| - at && text[at..at + |token|] == token {
        assert token <= Rest();
        at := at + |token|;
        return Some(w);
      }
      v := None;
    }

    /** parse_boolean_value */
    method ReadBoolean() returns (v: Option<Json>)
      requires Valid()
      modifies this
      ensures Valid()
      ensures var yes := ParseToken(old(Rest()), "true", Bool(true));
              Agrees(if yes.Some? then yes else ParseToken(old(Rest()), "false", Bool(false)), v, Rest())
    {
      v := ReadToken("true", Bool(true));
      if v.None? {
        v := ReadToken("false", Bool(false));
      }
    }

    /** parse_number_value */
    method ReadNumber() returns (v: Option<Json>)
      requires Valid()
      modifies this
      ensures Valid() && Agrees(ParseNumber(old(Rest())), v, Rest())
    {
      var (n, value) := StrToD(text[at..]);
      if !IsDecimal(text[at..], n) {
        return None;
      }
      at := at + n;
      v := Some(Num(value));
    }

    /** parse_string_value */
    method ReadString() returns (v: Option<Json>)
      requires Valid() && Rest() != ""
      modifies this
      ensures Valid() && Agrees(ParseString(old(Rest())), v, Rest())
    {
      var s := GetQuotedString();
      v := if s.None? then None else Some(Str(s.value));
    }

    /** parse_value */
    method ReadValue(nesting: nat) returns (v: Option<Json>)
      requires Valid()
      modifies this
      ensures Valid() && Agrees(ParseValue(old(Rest()), nesting), v, Rest())
      decreases |Rest()|, 2
    {
      if nesting > MAX_NESTING {
        return None;
      }
      SkipWhitespaces();
      var c := Current();
      if c == '{' {
        v := ReadObject(nesting + 1);
      } else if c == '[' {
        v := ReadArray(nesting + 1);
      } else if c == '\"' {
        v := ReadString();
      } else if c == 'f' || c == 't' {
        v := ReadBoolean();
      } else if c == '-' || IsDigit(c) {
        v := ReadNumber();
      } else if c == 'n' {
        v := ReadToken("null", Null);
      } else {
        v := None;
      }
    }

    /** parse_array_value */
    method ReadArray(nesting: nat) returns (v: Option<Json>)
      requires Valid() && Rest() != ""
      modifies this
      ensures Valid() && Agrees(ParseArray(old(Rest()), nesting), v, Rest())
      decreases |Rest()|, 1, 1
    {
      var list := ReadItems(nesting);
      v := if list.Some? then Some(Arr(list.value.items)) else None;
    }

    /** The array that parse_array_value builds, cut to its count at the end. */
    method ReadItems(nesting: nat) returns (list: Option<Items<Json>>)
      requires Valid() && Rest() != ""
      modifies this
      ensures Valid() && (list.Some? ==> TrimmedItems(list.value))
      ensures Agrees(ParseArray(old(Rest()), nesting), if list.Some? then Some(Arr(list.value.items)) else None, Rest())
      decreases |Rest()|, 1, 0
    {
      ghost var n := |Rest()|;
      ghost var whole := ParseArray(Rest(), nesting);
      Skip();
      SkipWhitespaces();
      if Current() == ']' {
        Skip();
        return Some(Items([], 0));
      }
      var items, again := Items([], 0), true;
      hide ParseItems, EndOrNextItem, Growing;
      GrowingStarts(ARRAY_MAX_CAPACITY);
      while Current() != NUL
        invariant Valid() && |Rest()| < n && Growing(|items.items|, items.capacity, ARRAY_MAX_CAPACITY)
        invariant ItemsToCome(whole, Rest(), nesting, items.items)
        decreases |Rest()|
      {
        var ok;
        ok, items, again := ReadItem(nesting, items, whole);
        if !ok {
          return None;
        }
        if !again {
          break;
        }
      }
      ItemsEnd(whole, Rest(), nesting, items.items, again);
      SkipWhitespaces();
      if Current() != ']' {
        return None;
      }
      items := items.(capacity := |items.items|);
      Skip();
      list := Some(items);
    }

    /** The body of the loop over the items; again is false where it breaks. */
    method ReadItem(nesting: nat, list: Items<Json>, ghost whole: Parsed)
      returns (ok: bool, more: Items<Json>, again: bool)
      requires Valid() && Rest() != "" && Growing(|list.items|, list.capacity, ARRAY_MAX_CAPACITY)
      requires ItemsToCome(whole, Rest(), nesting, list.items)
      modifies this
      ensures Valid() && (!ok ==> whole.None?)
      ensures ok ==> Growing(|more.items|, more.capacity, ARRAY_MAX_CAPACITY)
      ensures ok && again ==> |Rest()| < |old(Rest())| && ItemsToCome(whole, Rest(), nesting, more.items)
      ensures ok && !again ==> |Rest()| <= |old(Rest())| && ItemsOver(whole, Rest(), nesting, more.items)
      decreases |Rest()|, 3
    {
      hide ParseValue, Agrees, ItemsToCome, ItemsBetween, ItemsOver, Growing, AddItem, SkipSpaces;
      ghost var s := Rest();
      ok, more, again := false, list, false;
      var v := ReadValue(nesting);
      ItemRead(whole, s, nesting, list.items, v, Rest());
      if v.None? {
        return;
      }
      AddItemGrows(list, v.value);
      var added := AddItem(list, v.value);
      if added.None? {
        return;
      }
      ok, more := true, added.value;
      SkipWhitespaces();
      ItemsGoOn(whole, Rest(), nesting, more.items);
      if Current() == ',' {
        again := true;
        Skip();
        SkipWhitespaces();
      }
    }

    /** parse_object_value */
    method ReadObject(nesting: nat) returns (v: Option<Json>)
      requires Valid() && Rest() != ""
      modifies this
      ensures Valid() && Agrees(ParseObject(old(Rest()), nesting), v, Rest())
      decreases |Rest()|, 1, 1
    {
      var members := ReadMembers(nesting);
      v := if members.Some? then Some(Obj(members.value.names, members.value.values)) else None;
    }

    /** The object that parse_object_value builds, cut to its count at the end. */
    method ReadMembers(nesting: nat) returns (e: Option<Entries<Json>>)
      requires Valid() && Rest() != ""
      modifies this
      ensures Valid() && (e.Some? ==> TrimmedEntries(e.value))
      ensures var v := if e.Some? then Some(Obj(e.value.names, e.value.values)) else None;
              Agrees(ParseObject(old(Rest()), nesting), v, Rest())
      decreases |Rest()|, 1, 0
    {
      ghost var n := |Rest()|;
      ghost var whole := ParseObject(Rest(), nesting);
      Skip();
      SkipWhitespaces();
      if Current() == '}' {
        Skip();
        return Some(Empty());
      }
      var members: Entries<Json>, again := Empty(), true;
      hide ParseMembers, EndOrNextMember, Growing;
      GrowingStarts(OBJECT_MAX_CAPACITY);
      while Current() != NUL
        invariant Valid() && |Rest()| < n && Growing(|members.names|, members.capacity, OBJECT_MAX_CAPACITY)
        invariant MembersToCome(whole, Rest(), nesting, members.names, members.values)
        invariant |members.values| == |members.names|
        decreases |Rest()|
      {
        var ok;
        ok, members, again := ReadMember(nesting, members, whole);
        if !ok {
          return None;
        }
        if !again {
          break;
        }
      }
      MembersEnd(whole, Rest(), nesting, members.names, members.values, again);
      SkipWhitespaces();
      if Current() != '}' {
        return None;
      }
      members := members.(capacity := |members.names|);
      Skip();
      e := Some(members);
    }

    /** The name of a member and the colon behind it. */
    method ReadKey(nesting: nat, ghost names: seq<string>, ghost values: seq<Json>, ghost whole: Parsed)
      returns (key: Option<string>)
      requires Valid() && Rest() != "" && MembersToCome(whole, Rest(), nesting, names, values)
      modifies this
      ensures Valid() && (key.None? ==> whole.None?)
      ensures key.Some? ==> |Rest()| < |old(Rest())| && ValueToCome(whole, Rest(), nesting, names, values, key.value)
    {
      ghost var s := Rest();
      key := GetQuotedString();
      ghost var rest := Rest();
      SkipWhitespaces();
      KeyRead(whole, s, nesting, names, values, key, rest);
      if key.None? || Current() != ':' {
        return None;
      }
      Skip();
    }

    /** The body of the loop over the members; again is false where it breaks. */
    method ReadMember(nesting: nat, members: Entries<Json>, ghost whole: Parsed)
      returns (ok: bool, more: Entries<Json>, again: bool)
      requires Valid() && Rest() != "" && Growing(|members.names|, members.capacity, OBJECT_MAX_CAPACITY)
      requires MembersToCome(whole, Rest(), nesting, members.names, members.values)
      modifies this
      ensures Valid() && (!ok ==> whole.None?)
      ensures ok ==> Growing(|more.names|, more.capacity, OBJECT_MAX_CAPACITY)
      ensures ok && |members.values| == |members.names| ==> |more.values| == |more.names|
      ensures ok && again ==> |Rest()| < |old(Rest())| && MembersToCome(whole, Rest(), nesting, more.names, more.values)
      ensures ok && !again ==> |Rest()| <= |old(Rest())| && MembersOver(whole, Rest(), nesting, more.names, more.values)
      decreases |Rest()|, 3
    {
      hide ParseValue, Agrees, MembersToCome, ValueToCome, MembersBetween, MembersOver, Growing, Add, SkipSpaces;
      ok, more, again := false, members, false;
      var key := ReadKey(nesting, members.names, members.values, whole);
      if key.None? {
        return;
      }
      ghost var s := Rest();
      var v := ReadValue(nesting);
      ValueRead(whole, s, nesting, members.names, members.values, key.value, v, Rest());
      if v.None? {
        return;
      }
      AddWhileParsing(members, key.value, v.value);
      var (added, fits) := Add(members, key.value, v.value);
      if !fits {
        return;
      }
      ok, more := true, added;
      SkipWhitespaces();
      MembersGoOn(whole, Rest(), nesting, more.names, more.values);
      if Current() == ',' {
        again := true;
        Skip();
        SkipWhitespaces();
      }
    }
  }

  /** json_parse_string */
  method ReadText(s: string) returns (v: Option<Json>)
    requires CString(s)
    ensures v == ParseText(s)
  {
    var cursor := new Cursor(s);
    cursor.SkipWhitespaces();
    if cursor.Current() != '{' && cursor.Current() != '[' {
      return None;
    }
    v := cursor.ReadValue(0);
  }

  /** The object at the root of a text, as the library holds it after parsing. */
  method ReadRootObject(s: string) returns (e: Option<Entries<Json>>)
    requires CString(s)
    ensures e.Some? <==> ParseText(s).Some? && ParseText(s).value.Obj?
    ensures e.Some? ==> ParseText(s).value == Obj(e.value.names, e.value.values) && TrimmedEntries(e.value)
  {
    var cursor := new Cursor(s);
    cursor.SkipWhitespaces();
    RootObject(s);
    if cursor.Current() != '{' {
      return None;
    }
    e := cursor.ReadMembers(1);
  }

  lemma RootObject(s: string)
    ensures Head(SkipSpaces(s)) != '{' ==> ParseText(s).None? || ParseText(s).value.Arr?
    ensures Head(SkipSpaces(s)) == '{' ==>
              var t := SkipSpaces(s);
              && t != "" && (ParseText(s).Some? <==> ParseObject(t, 1).Some?)
              && (ParseText(s).Some? ==> ParseText(s).value == ParseObject(t, 1).value.0 && ParseText(s).value.Obj?)
  {
    SkipSpacesTwice(s);
    var t := SkipSpaces(s);
    if Head(t) == '[' && t != "" {
      ArrayFromText(t, 1);
    } else if Head(t) == '{' && t != "" {
      ObjectFromText(t, 1);
    }
  }

  /**
    Parsing a text and adding a member to the object at its root. The trim leaves room for no more than doubling, so
    it takes a new name if and only if it has at most 480 members, half of what an object may hold.
   */
  method AddToParsed(s: string, name: string, v: Json) returns (ok: bool)
    requires CString(s)
    ensures ok <==> && ParseText(s).Some? && ParseText(s).value.Obj?
                    && name !in ParseText(s).value.names && |ParseText(s).value.names| <= OBJECT_MAX_CAPACITY / 2
  {
    var e := ReadRootObject(s);
    if e.None? {
      return false;
    }
    TrimmedCanTake(e.value, name, v);
    ok := Add(e.value, name, v).1;
  }

  /** For one, a parsed object of 481 members takes nothing more. */
  lemma FullAfterParsing() returns (s: string)
    ensures ParseText(s).Some? && ParseText(s).value.Obj? && |ParseText(s).value.names| == OBJECT_MAX_CAPACITY / 2 + 1
    ensures forall e: Entries<Json>, name, v ::
              TrimmedEntries(e) && e.names == ParseText(s).value.names ==> !Add(e, name, v).1
  {
    s := TextWithMembers(OBJECT_MAX_CAPACITY / 2 + 1);
    forall e: Entries<Json>, name, v | TrimmedEntries(e) && e.names == ParseText(s).value.names
      ensures !Add(e, name, v).1
    {
      TrimmedCanTake(e, name, v);
    }
  }

  lemma BlankedEnds(s: string, start: string, end: string)
    requires CString(s) && start != "" && end != ""
    ensures EndsAt(Remove(s, start, end, false, false) + [NUL], |s|)
  {
    var r := Remove(s, start, end, false, false);
    RemoveOnlyBlanks(s, start, end, false, false);
    forall k | 0 <= k < |r| ensures r[k] != NUL {
      assert s[k] in s;
    }
    assert (r + [NUL])[..|s|] == r;
  }

  /** One pass over a copy that ends in its terminator. */
  method BlankPass(copy: array<char>, start: string, end: string, ghost s: string)
    requires CString(s) && start != "" && end != "" && CString(start) && CString(end) && copy[..] == s + [NUL]
    modifies copy
    ensures copy[..] == Remove(s, start, end, false, false) + [NUL] && CString(Remove(s, start, end, false, false))
  {
    ghost var n := |s|;
    assert copy[..n] == s && copy[n..] == [NUL];
    RemoveInPlace(copy, start, end, n);
    BlankedEnds(s, start, end);
    assert (Remove(s, start, end, false, false) + [NUL])[..n] == Remove(s, start, end, false, false);
  }

  /** json_parse_string_with_comments */
  method ReadTextWithComments(s: string) returns (v: Option<Json>)
    requires CString(s)
    ensures v == ParseWithComments(s)
  {
    var copy := new char[|s| + 1](i => if 0 <= i < |s| then s[i] else NUL);
    assert copy[..] == s + [NUL];
    BlankPass(copy, "/*", "*/", s);
    ghost var once := Remove(s, "/*", "*/", false, false);
    BlankPass(copy, "//", "\n", once);
    var text := copy[..copy.Length - 1];
    assert text == RemoveComments(s);
    v := ReadText(text);
  }

  // ---------- the loops ----------

  ghost predicate ItemsToCome(whole: Parsed, s: string, nesting: nat, items: seq<Json>) {
    whole == ParseItems(s, nesting, items)
  }

  /** The loop has been left at something other than a comma. */
  ghost predicate ItemsOver(whole: Parsed, s: string, nesting: nat, items: seq<Json>) {
    SkipSpaces(s) == s && Head(s) != ',' && whole == EndOrNextItem(s, nesting, items)
  }

  /** An item is done, and at s the text either goes on with a comma or not. */
  ghost predicate ItemsBetween(whole: Parsed, s: string, nesting: nat, items: seq<Json>) {
    SkipSpaces(s) == s && whole == EndOrNextItem(s, nesting, items)
  }

  lemma ItemRead(whole: Parsed, s: string, nesting: nat, items: seq<Json>, v: Option<Json>, rest: string)
    requires ItemsToCome(whole, s, nesting, items) && s != "" && Agrees(ParseValue(s, nesting), v, rest)
    ensures v.None? ==> whole.None?
    ensures v.Some? ==> |rest| <= |s|
    ensures v.Some? && |items| < ARRAY_MAX_CAPACITY ==>
            ItemsBetween(whole, SkipSpaces(rest), nesting, items + [v.value])
    ensures v.Some? && |items| >= ARRAY_MAX_CAPACITY ==> whole.None?
  {
    SkipSpacesTwice(rest);
  }

  lemma ItemsGoOn(whole: Parsed, s: string, nesting: nat, items: seq<Json>)
    requires ItemsBetween(whole, s, nesting, items)
    ensures Head(s) == ',' ==> s != "" && ItemsToCome(whole, SkipSpaces(s[1..]), nesting, items)
    ensures Head(s) != ',' ==> ItemsOver(whole, s, nesting, items)
  {
  }

  lemma ItemsEnd(whole: Parsed, s: string, nesting: nat, items: seq<Json>, again: bool)
    requires if again then ItemsToCome(whole, s, nesting, items) && s == "" else ItemsOver(whole, s, nesting, items)
    ensures SkipSpaces(s) == s && whole == if Head(s) == ']' then Some((Arr(items), s[1..])) else None
  {
  }

  ghost predicate MembersToCome(whole: Parsed, s: string, nesting: nat, names: seq<string>, values: seq<Json>) {
    whole == ParseMembers(s, nesting, names, values)
  }

  /** The name and the colon are done. */
  ghost predicate ValueToCome(whole: Parsed, s: string, nesting: nat, names: seq<string>, values: seq<Json>,
                              key: string)
  {
    whole ==
    match ParseValue(s, nesting)
    case None => None
    case Some((v, rest)) =>
      if |names| >= OBJECT_MAX_CAPACITY || key in names then None
      else EndOrNextMember(SkipSpaces(rest), nesting, names + [key], values + [v])
  }

  ghost predicate MembersBetween(whole: Parsed, s: string, nesting: nat, names: seq<string>, values: seq<Json>) {
    SkipSpaces(s) == s && whole == EndOrNextMember(s, nesting, names, values)
  }

  ghost predicate MembersOver(whole: Parsed, s: string, nesting: nat, names: seq<string>, values: seq<Json>) {
    SkipSpaces(s) == s && Head(s) != ',' && whole == EndOrNextMember(s, nesting, names, values)
  }

  lemma KeyRead(whole: Parsed, s: string, nesting: nat, names: seq<string>, values: seq<Json>, key: Option<string>,
                rest: string)
    requires MembersToCome(whole, s, nesting, names, values) && s != "" && (key, rest) == QuotedString(s)
    ensures key.None? || Head(SkipSpaces(rest)) != ':' ==> whole.None?
    ensures key.Some? && Head(SkipSpaces(rest)) == ':' ==>
              var t := SkipSpaces(rest);
              t != "" && |t| <= |s| && ValueToCome(whole, t[1..], nesting, names, values, key.value)
  {
  }

  lemma ValueRead(whole: Parsed, s: string, nesting: nat, names: seq<string>, values: seq<Json>, key: string,
                  v: Option<Json>, rest: string)
    requires ValueToCome(whole, s, nesting, names, values, key) && Agrees(ParseValue(s, nesting), v, rest)
    ensures v.None? ==> whole.None?
    ensures v.Some? ==> |rest| <= |s|
    ensures v.Some? && |names| < OBJECT_MAX_CAPACITY && key !in names ==>
              MembersBetween(whole, SkipSpaces(rest), nesting, names + [key], values + [v.value])
    ensures v.Some? && !(|names| < OBJECT_MAX_CAPACITY && key !in names) ==> whole.None?
  {
    SkipSpacesTwice(rest);
  }

  lemma AddWhileParsing(e: Entries<Json>, key: string, v: Json)
    requires Growing(|e.names|, e.capacity, OBJECT_MAX_CAPACITY)
    ensures var (r, ok) := Add(e, key, v);
            && (ok <==> |e.names| < OBJECT_MAX_CAPACITY && key !in e.names)
            && (ok ==>
                  && r.names == e.names + [key] && r.values == e.values + [v]
                  && Growing(|r.names|, r.capacity, OBJECT_MAX_CAPACITY))
  {
    if key !in e.names {
      AddGrows(e, key, v);
    }
  }

  lemma MembersGoOn(whole: Parsed, s: string, nesting: nat, names: seq<string>, values: seq<Json>)
    requires MembersBetween(whole, s, nesting, names, values)
    ensures Head(s) == ',' ==> s != "" && MembersToCome(whole, SkipSpaces(s[1..]), nesting, names, values)
    ensures Head(s) != ',' ==> MembersOver(whole, s, nesting, names, values)
  {
  }

  lemma MembersEnd(whole: Parsed, s: string, nesting: nat, names: seq<string>, values: seq<Json>, again: bool)
    requires if again then MembersToCome(whole, s, nesting, names, values) && s == ""
             else MembersOver(whole, s, nesting, names, values)
    ensures SkipSpaces(s) == s && whole == if Head(s) == '}' then Some((Obj(names, values), s[1..])) else None
  {
  }

  lemma GrowingStarts(max: nat)
    ensures Growing(0, 0, max)
  {
  }
}
