/** What every parsed tree satisfies. */
module JsonLimits {
  import opened Wrappers
  import opened JsonText
  import opened JsonParse
  import opened JsonRoundTrip

  /** v at the given depth is within the limits on depth and sizes. */
  ghost predicate Bounded(v: Json, nesting: nat) {
    nesting <= MAX_NESTING &&
    match v
    case Arr(items) => |items| <= ARRAY_MAX_CAPACITY && forall i :: 0 <= i < |items| ==> Bounded(items[i], nesting + 1)
    case Obj(names, values) =>
      |names| <= OBJECT_MAX_CAPACITY && forall i :: 0 <= i < |values| ==> Bounded(values[i], nesting + 1)
    case _ => true
  }

  ghost predicate Good(v: Json, nesting: nat) {
    WellFormed(v) && Bounded(v, nesting)
  }

  ghost predicate GoodItems(items: seq<Json>, nesting: nat) {
    |items| <= ARRAY_MAX_CAPACITY && forall i :: 0 <= i < |items| ==> Good(items[i], nesting)
  }

  ghost predicate GoodMembers(names: seq<string>, values: seq<Json>, nesting: nat) {
    && |names| == |values| <= OBJECT_MAX_CAPACITY && Unique(names)
    && (forall i :: 0 <= i < |names| ==> CString(names[i]))
    && forall i :: 0 <= i < |values| ==> Good(values[i], nesting)
  }

  ghost predicate GoodArray(r: Parsed, nesting: nat) {
    r.Some? ==> r.value.0.Arr? && GoodItems(r.value.0.items, nesting)
  }

  ghost predicate GoodObject(r: Parsed, nesting: nat) {
    r.Some? ==> r.value.0.Obj? && GoodMembers(r.value.0.names, r.value.0.values, nesting)
  }

  ghost predicate GoodValue(r: Parsed, nesting: nat) {
    r.Some? ==> Good(r.value.0, nesting)
  }

  lemma ArrayIsGood(r: Parsed, nesting: nat)
    requires GoodArray(r, nesting + 1) && nesting <= MAX_NESTING
    ensures GoodValue(r, nesting)
  {
  }

  lemma ObjectIsGood(r: Parsed, nesting: nat)
    requires GoodObject(r, nesting + 1) && nesting <= MAX_NESTING
    ensures GoodValue(r, nesting)
  {
  }

  lemma ScalarIsGood(r: Parsed, nesting: nat)
    requires nesting <= MAX_NESTING
    requires r.Some? ==> !r.value.0.Arr? && !r.value.0.Obj? && (r.value.0.Str? ==> CString(r.value.0.s))
    ensures GoodValue(r, nesting)
  {
  }

  lemma {:induction false} ValueIsGood(s: string, nesting: nat)
    ensures GoodValue(ParseValue(s, nesting), nesting)
    decreases |s|, 2
  {
    if nesting <= MAX_NESTING {
      var t := SkipSpaces(s);
      hide GoodValue;
      if t == "" {
        ScalarIsGood(None, nesting);
      } else if t[0] == '{' {
        ObjectFromText(t, nesting + 1);
        ObjectIsGood(ParseObject(t, nesting + 1), nesting);
      } else if t[0] == '[' {
        ArrayFromText(t, nesting + 1);
        ArrayIsGood(ParseArray(t, nesting + 1), nesting);
      } else {
        ScalarIsGood(ParseValue(s, nesting), nesting);
      }
    } else {
      assert ParseValue(s, nesting) == None;
    }
  }

  lemma {:induction false} ArrayFromText(s: string, nesting: nat)
    requires s != ""
    ensures GoodArray(ParseArray(s, nesting), nesting)
    decreases |s|, 1
  {
    ItemsAreGood(SkipSpaces(s[1..]), nesting, []);
  }

  lemma {:induction false} ItemsAreGood(s: string, nesting: nat, items: seq<Json>)
    requires GoodItems(items, nesting)
    ensures GoodArray(ParseItems(s, nesting, items), nesting)
    decreases |s|, 3
  {
    if s != "" {
      ValueIsGood(s, nesting);
      match ParseValue(s, nesting)
      case None =>
      case Some((v, rest)) =>
        if |items| < ARRAY_MAX_CAPACITY {
          var t := SkipSpaces(rest);
          if t != "" && t[0] == ',' {
            ItemsAreGood(SkipSpaces(t[1..]), nesting, items + [v]);
          }
        }
    }
  }

  lemma {:induction false} ObjectFromText(s: string, nesting: nat)
    requires s != ""
    ensures GoodObject(ParseObject(s, nesting), nesting)
    decreases |s|, 1
  {
    MembersAreGood(SkipSpaces(s[1..]), nesting, [], []);
  }

  lemma OneMore(names: seq<string>, values: seq<Json>, key: string, v: Json, nesting: nat)
    requires GoodMembers(names, values, nesting) && Good(v, nesting)
    requires CString(key) && key !in names && |names| < OBJECT_MAX_CAPACITY
    ensures GoodMembers(names + [key], values + [v], nesting)
  {
  }

  lemma {:induction false} MembersAreGood(s: string, nesting: nat, names: seq<string>, values: seq<Json>)
    requires GoodMembers(names, values, nesting)
    ensures GoodObject(ParseMembers(s, nesting, names, values), nesting)
    decreases |s|, 3
  {
    if s != "" {
      match QuotedString(s)
      case (None, _) =>
      case (Some(key), rest) =>
        var t := SkipSpaces(rest);
        if t != "" && t[0] == ':' {
          ValueIsGood(t[1..], nesting);
          match ParseValue(t[1..], nesting)
          case None =>
          case Some((v, rest2)) =>
            if |names| < OBJECT_MAX_CAPACITY && key !in names {
              OneMore(names, values, key, v, nesting);
              FurtherMembersGood(SkipSpaces(rest2), nesting, names + [key], values + [v]);
            }
        }
    }
  }

  lemma {:induction false} FurtherMembersGood(s: string, nesting: nat, names: seq<string>, values: seq<Json>)
    requires GoodMembers(names, values, nesting)
    ensures GoodObject(EndOrNextMember(s, nesting, names, values), nesting)
    decreases |s|, 0
  {
    if s != "" && s[0] == ',' {
      MembersAreGood(SkipSpaces(s[1..]), nesting, names, values);
    }
  }

  /** Every tree the parser returns is well formed, at most 20 containers deep and within the capacities. */
  lemma ParsedIsGood(s: string)
    requires ParseText(s).Some?
    ensures Good(ParseText(s).value, 0) && (ParseText(s).value.Arr? || ParseText(s).value.Obj?)
  {
    var t := SkipSpaces(s);
    ValueIsGood(t, 0);
    SkipSpacesTwice(s);
    if t[0] == '{' {
      ObjectFromText(t, 1);
    } else {
      ArrayFromText(t, 1);
    }
  }

  // ---------- limits and characters ----------

  /** No string in v holds a control character that the printer does not escape. */
  ghost predicate AllPrintable(v: Json) {
    match v
    case Str(s) => Printable(s)
    case Arr(items) => forall i :: 0 <= i < |items| ==> AllPrintable(items[i])
    case Obj(names, values) =>
      && (forall i :: 0 <= i < |names| ==> Printable(names[i]))
      && forall i :: 0 <= i < |values| ==> AllPrintable(values[i])
    case _ => true
  }

  lemma {:induction false} FitsIsBoundedAndPrintable(v: Json, nesting: nat)
    ensures Fits(v, nesting) <==> Bounded(v, nesting) && AllPrintable(v)
    decreases v
  {
    match v
    case Arr(items) =>
      forall i | 0 <= i < |items|
        ensures Fits(items[i], nesting + 1) <==> Bounded(items[i], nesting + 1) && AllPrintable(items[i])
      {
        FitsIsBoundedAndPrintable(items[i], nesting + 1);
      }
    case Obj(names, values) =>
      forall i | 0 <= i < |values|
        ensures Fits(values[i], nesting + 1) <==> Bounded(values[i], nesting + 1) && AllPrintable(values[i])
      {
        FitsIsBoundedAndPrintable(values[i], nesting + 1);
      }
    case _ =>
  }

  // ---------- a text with many members ----------

  function NameOf(i: nat): string { seq(i, _ => 'a') }

  /** An object of n nulls, named a, aa, aaa and so on after the empty name. */
  function Nulls(n: nat): Json { Obj(seq(n, i requires 0 <= i => NameOf(i)), seq(n, _ => Null)) }

  lemma NullsFit(n: nat)
    requires n <= OBJECT_MAX_CAPACITY
    ensures WellFormed(Nulls(n)) && Fits(Nulls(n), 0) && |Nulls(n).names| == n
  {
    var names := Nulls(n).names;
    forall i, j | 0 <= i < j < |names| ensures names[i] != names[j] {
      assert |names[i]| == i && |names[j]| == j;
    }
  }

  /** Every number of members up to the limit is that of some parsed object. */
  lemma TextWithMembers(n: nat) returns (s: string)
    requires n <= OBJECT_MAX_CAPACITY
    ensures ParseText(s).Some? && ParseText(s).value.Obj? && |ParseText(s).value.names| == n
  {
    NullsFit(n);
    s := Print(Nulls(n), 0, false);
    PrintThenParse(Nulls(n), false);
  }
}
