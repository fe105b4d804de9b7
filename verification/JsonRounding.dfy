/** What printing does to numbers, and what of a tree survives printing and parsing. */
module JsonRounding {
  import opened Wrappers
  import opened JsonText
  import opened JsonParse
  import opened JsonNumbers
  import opened JsonRoundTrip
  import opened JsonLimits
  import opened JsonCompare

  // ---------- numbers ----------

  lemma NearestMillionth(y: real)
    requires y >= 0.0
    ensures -0.5 <= RoundHalfEven(y) as real - y <= 0.5
  {
  }

  /** Six decimals err by half the tolerance at most. */
  lemma SixDecimalsAreClose(x: real)
    ensures Close(x, SixDecimals(x))
  {
    NearestMillionth((if x < 0.0 then -x else x) * 1000000.0);
  }

  lemma SixDecimalsOnGrid(x: real)
    ensures OnGrid(SixDecimals(x), EPSILON)
  {
    var n: int := Millionths(x);
    hide Millionths;
    assert SixDecimals(x) == Multiple(if x < 0.0 then -n else n, EPSILON);
  }

  lemma RoundOfInt(m: int)
    ensures RoundHalfEven(m as real) == m
  {
  }

  lemma WholeMillionths(x: real, k: int)
    requires x == Multiple(k, EPSILON)
    ensures SixDecimals(x) == x
  {
    var m := if x < 0.0 then -k else k;
    assert (if x < 0.0 then -x else x) * 1000000.0 == m as real;
    RoundOfInt(m);
    hide RoundHalfEven;
    assert Millionths(x) == m;
  }

  /** A number is its six decimals exactly when it is a multiple of the tolerance. */
  lemma SixDecimalsExactly(x: real)
    ensures SixDecimals(x) == x <==> OnGrid(x, EPSILON)
  {
    hide SixDecimals;
    SixDecimalsOnGrid(x);
    if OnGrid(x, EPSILON) {
      var k: int :| x == Multiple(k, EPSILON);
      WholeMillionths(x, k);
    }
  }

  // ---------- trees ----------

  lemma {:induction false} RoundedIsEqual(v: Json)
    requires WellFormed(v)
    ensures WellFormed(Rounded(v)) && Equals(v, Rounded(v))
    decreases v
  {
    match v
    case Num(n) => SixDecimalsAreClose(n);
    case Arr(items) =>
      forall i | 0 <= i < |items| ensures WellFormed(Rounded(items[i])) && Equals(items[i], Rounded(items[i])) {
        RoundedIsEqual(items[i]);
      }
    case Obj(names, values) =>
      forall i | 0 <= i < |values| ensures WellFormed(Rounded(values[i])) && Equals(values[i], Rounded(values[i])) {
        RoundedIsEqual(values[i]);
      }
      forall i | 0 <= i < |names| ensures EqualAt(v, Rounded(v), i) {
        FindUnique(names, i);
      }
    case _ =>
  }

  lemma {:induction false} RoundedExactly(v: Json)
    ensures Rounded(v) == v <==> NumbersOnGrid(v, EPSILON)
    decreases v
  {
    match v
    case Num(n) => SixDecimalsExactly(n);
    case Arr(items) =>
      forall i | 0 <= i < |items| ensures Rounded(items[i]) == items[i] <==> NumbersOnGrid(items[i], EPSILON) {
        RoundedExactly(items[i]);
      }
      assert Rounded(v) == v <==> forall i :: 0 <= i < |items| ==> Rounded(v).items[i] == items[i];
    case Obj(names, values) =>
      forall i | 0 <= i < |values| ensures Rounded(values[i]) == values[i] <==> NumbersOnGrid(values[i], EPSILON) {
        RoundedExactly(values[i]);
      }
      assert Rounded(v) == v <==> forall i :: 0 <= i < |values| ==> Rounded(v).values[i] == values[i];
    case _ =>
  }

  lemma {:induction false} RoundedOnGrid(v: Json)
    ensures NumbersOnGrid(Rounded(v), EPSILON)
    decreases v
  {
    match v
    case Num(n) => SixDecimalsOnGrid(n);
    case Arr(items) =>
      forall i | 0 <= i < |items| ensures NumbersOnGrid(Rounded(items[i]), EPSILON) {
        RoundedOnGrid(items[i]);
      }
    case Obj(_, values) =>
      forall i | 0 <= i < |values| ensures NumbersOnGrid(Rounded(values[i]), EPSILON) {
        RoundedOnGrid(values[i]);
      }
    case _ =>
  }

  lemma {:induction false} RoundedFits(v: Json, nesting: nat)
    ensures Fits(Rounded(v), nesting) <==> Fits(v, nesting)
    decreases v
  {
    match v
    case Arr(items) =>
      forall i | 0 <= i < |items| ensures Fits(Rounded(items[i]), nesting + 1) <==> Fits(items[i], nesting + 1) {
        RoundedFits(items[i], nesting + 1);
      }
      assert forall i :: 0 <= i < |items| ==> Rounded(v).items[i] == Rounded(items[i]);
    case Obj(_, values) =>
      forall i | 0 <= i < |values| ensures Fits(Rounded(values[i]), nesting + 1) <==> Fits(values[i], nesting + 1) {
        RoundedFits(values[i], nesting + 1);
      }
      assert forall i :: 0 <= i < |values| ==> Rounded(v).values[i] == Rounded(values[i]);
    case _ =>
  }

  // ---------- printing and parsing ----------

  /**
    Whatever its numbers, a tree that fits comes back equal, as json_value_equals has it; it comes back as it was
    exactly when its numbers have at most six decimals.
   */
  lemma PrintThenParseEquals(v: Json, pretty: bool)
    requires WellFormed(v) && (v.Arr? || v.Obj?)
    ensures var r := ParseText(Print(v, 0, pretty));
            && (r.Some? <==> Fits(v, 0))
            && (r.Some? ==> WellFormed(r.value) && Equals(v, r.value))
            && (r == Some(v) <==> Fits(v, 0) && NumbersOnGrid(v, EPSILON))
  {
    PrintThenParse(v, pretty);
    RoundedIsEqual(v);
    RoundedExactly(v);
  }

  /** Once through the printer and the parser, a tree stays as it is. */
  lemma PrintingSettles(v: Json, pretty: bool, again: bool)
    requires WellFormed(v) && (v.Arr? || v.Obj?) && ParseText(Print(v, 0, pretty)).Some?
    ensures var w := ParseText(Print(v, 0, pretty));
            WellFormed(w.value) && ParseText(Print(w.value, 0, again)) == w
  {
    PrintThenParse(v, pretty);
    RoundedIsEqual(v);
    RoundedOnGrid(v);
    RoundedFits(v, 0);
    PrintThenParseEquals(Rounded(v), again);
  }

  /**
    A parsed tree is read back from its print, at six decimals, exactly when its strings are printable; as it was,
    exactly when its numbers have at most six decimals, too.
   */
  lemma ParsePrintParse(s: string, pretty: bool)
    requires ParseText(s).Some?
    ensures Good(ParseText(s).value, 0)
    ensures var v, r := ParseText(s).value, ParseText(Print(ParseText(s).value, 0, pretty));
            && r == (if AllPrintable(v) then Some(Rounded(v)) else None)
            && (r == Some(v) <==> AllPrintable(v) && NumbersOnGrid(v, EPSILON))
  {
    var v := ParseText(s).value;
    ParsedIsGood(s);
    FitsIsBoundedAndPrintable(v, 0);
    PrintThenParse(v, pretty);
    RoundedExactly(v);
  }
}
