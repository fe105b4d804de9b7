/**
  The texts that the parser takes, by a grammar: numbers with fraction and exponent, strings in any spelling, and white
  space between any two tokens, as RFC 8259 allows them, with the liberties that the parser takes.
 */
module JsonGrammar {
  import opened Wrappers
  import opened JsonText
  import opened JsonUtf8
  import opened JsonParse
  import opened JsonEscapes
  import opened JsonNumbers
  import opened JsonRoundTrip
  import opened JsonStrings

  // ---------- white space ----------

  /** The white space of the C locale, to which that of section 2 of RFC 8259 belongs. */
  predicate White(c: char) { c in {' ', '\t', '\n', '\r', 11 as char, 12 as char} }

  predicate AllWhite(ws: string) { forall k :: 0 <= k < |ws| ==> White(ws[k]) }

  lemma {:induction false} SkipWhite(ws: string, t: string)
    requires AllWhite(ws) && StartsSolid(t)
    ensures SkipSpaces(ws + t) == t
  {
    SkipBlank(ws, t);
  }

  /** What may follow a number. */
  predicate Ends(rest: string) { rest == "" || White(rest[0]) || rest[0] in {',', ']', '}'} }

  // ---------- numbers ----------

  datatype Exponent = NoExponent | Exponent(letter: char, sign: string, digits: string)

  /** A number as the parser takes it: section 6 of RFC 8259, but digits may be missing on one side of the point. */
  datatype Spelling = Spelling(negative: bool, whole: string, point: bool, fraction: string, exponent: Exponent)

  predicate AllDigits(s: string) { forall k :: 0 <= k < |s| ==> IsDigit(s[k]) }

  predicate ProperExponent(e: Exponent) {
    e.Exponent? ==> e.letter in {'e', 'E'} && e.sign in {"", "+", "-"} && e.digits != "" && AllDigits(e.digits)
  }

  predicate Shaped(n: Spelling) {
    && AllDigits(n.whole) && AllDigits(n.fraction) && ProperExponent(n.exponent)
    && (n.fraction != "" ==> n.point) && (n.whole != "" || n.fraction != "")
  }

  /** A zero stands in front only alone, and then no exponent follows it at once. */
  predicate ZeroRule(n: Spelling) {
    n.whole != "" && n.whole[0] == '0' ==> |n.whole| == 1 && (n.point || n.exponent.NoExponent?)
  }

  /** Taken where a value is expected: it begins with a digit or a minus. */
  predicate ProperNumber(n: Spelling) {
    Shaped(n) && ZeroRule(n) && (n.negative || n.whole != "")
  }

  function ExponentText(e: Exponent): string {
    match e
    case NoExponent => ""
    case Exponent(letter, sign, digits) => [letter] + sign + digits
  }

  function PointText(n: Spelling): string { if n.point then "." + n.fraction else "" }

  function UnsignedText(n: Spelling): string { n.whole + PointText(n) + ExponentText(n.exponent) }

  function SpellingText(n: Spelling): string {
    (if n.negative then "-" else "") + UnsignedText(n)
  }

  function Raised(value: real, e: Exponent): real
    requires ProperExponent(e)
  {
    match e
    case NoExponent => value
    case Exponent(_, sign, digits) =>
      Power10Positive(DigitsValue(digits));
      if sign == "-" then value / Power10(DigitsValue(digits)) as real
      else value * Power10(DigitsValue(digits)) as real
  }

  function SizeOf(n: Spelling): real
    requires Shaped(n)
  {
    Power10Positive(|n.fraction|);
    Raised(DigitsValue(n.whole) as real + DigitsValue(n.fraction) as real / Power10(|n.fraction|) as real, n.exponent)
  }

  function NumberOf(n: Spelling): real
    requires Shaped(n)
  {
    if n.negative then -SizeOf(n) else SizeOf(n)
  }

  /** The value of digits is the number that shows them. */
  lemma {:induction false} DigitsValueExactly(d: string)
    requires AllDigits(d)
    ensures Shows(d, DigitsValue(d)) && DigitsValue(d) < Power10(|d|)
  {
    if d != "" {
      var k := |d| - 1;
      var n := DigitsValue(d);
      DigitsValueExactly(d[..k]);
      assert n == DigitsValue(d[..k]) * 10 + DigitValue(d[k]);
      assert n / 10 == DigitsValue(d[..k]) && n % 10 == DigitValue(d[k]);
      OneMorePlace(d[..k], n);
      assert d[..k] + [Digit(n % 10)] == d;
    }
  }

  lemma ScaleOf(value: real, e: Exponent)
    requires ProperExponent(e)
    ensures Scale(value, ExponentText(e)) == Raised(value, e)
  {
    if e.Exponent? {
      var t := ExponentText(e);
      if e.sign == "" {
        assert t[1..] == e.digits && t[1] == e.digits[0];
      } else {
        assert t[2..] == e.digits && t[1] == e.sign[0];
      }
    }
  }

  lemma SignedExponent(t: string, sign: char, digits: string, rest: string)
    requires sign in {'+', '-'} && digits != "" && DigitCount(digits + rest) == |digits|
    requires |t| > 1 && t[0] in {'e', 'E'} && t[1] == sign && t[2..] == digits + rest
    ensures ExponentLength(t) == 2 + |digits|
  {
    hide DigitCount;
  }

  lemma UnsignedExponent(t: string, digits: string, rest: string)
    requires digits != "" && IsDigit(digits[0]) && DigitCount(digits + rest) == |digits|
    requires t != "" && t[0] in {'e', 'E'} && t[1..] == digits + rest
    ensures ExponentLength(t) == 1 + |digits|
  {
    hide DigitCount;
    assert t[1] == digits[0];
  }

  lemma EndIsNoNumber(rest: string)
    requires Ends(rest)
    ensures Head(rest) !in {'.', 'e', 'E'} && (rest == "" || !IsDigit(rest[0])) && ExponentLength(rest) == 0
  {
  }

  lemma ExponentSlices(letter: char, sign: string, digits: string, rest: string)
    requires |sign| <= 1 && digits != ""
    ensures var t := [letter] + sign + digits + rest;
            && |t| > 1 && t[0] == letter
            && (sign == "" ==> t[1..] == digits + rest)
            && (sign != "" ==> t[1] == sign[0] && t[2..] == digits + rest)
  {
  }

  lemma ExponentReads(e: Exponent, rest: string)
    requires ProperExponent(e) && e.Exponent? && (rest == "" || !IsDigit(rest[0]))
    ensures ExponentLength(ExponentText(e) + rest) == |ExponentText(e)|
  {
    hide DigitCount, ExponentLength;
    ExponentSlices(e.letter, e.sign, e.digits, rest);
    DigitCountOf(e.digits, rest);
    if e.sign == "" {
      UnsignedExponent(ExponentText(e) + rest, e.digits, rest);
    } else {
      SignedExponent(ExponentText(e) + rest, e.sign[0], e.digits, rest);
    }
  }

  lemma ExponentStands(e: Exponent, rest: string)
    requires ProperExponent(e) && Ends(rest)
    ensures ExponentLength(ExponentText(e) + rest) == |ExponentText(e)|
    ensures var t := ExponentText(e) + rest; Head(t) != '.' && (t == "" || !IsDigit(t[0]))
  {
    hide ExponentLength, Ends;
    EndIsNoNumber(rest);
    if e.Exponent? {
      ExponentReads(e, rest);
    } else {
      assert ExponentText(e) + rest == rest;
    }
  }

  // What Unsigned finds, part by part: without a point, with one, and nothing.

  lemma UnsignedNoPoint(s: string, whole: nat, n: nat)
    requires 0 < whole == DigitCount(s) && Head(s[whole..]) != '.' && n == ExponentLength(s[whole..])
    ensures Unsigned(s) == (whole + n, Scale(Mantissa(s[..whole], ""), s[whole..][..n]))
  {
    hide DigitCount, Mantissa, Scale, ExponentLength;
    assert s[whole..][0..] == s[whole..];
  }

  lemma UnsignedSteps(s: string, whole: nat, fraction: nat, n: nat)
    requires whole == DigitCount(s) && Head(s[whole..]) == '.' && whole < |s|
    requires fraction == DigitCount(s[whole..][1..]) && n == ExponentLength(s[whole..][1 + fraction..])
    requires whole + fraction > 0
    ensures var t := s[whole..];
            Unsigned(s) ==
            (whole + 1 + fraction + n, Scale(Mantissa(s[..whole], t[1..1 + fraction]), t[1 + fraction..][..n]))
  {
    hide DigitCount, Mantissa, Scale, ExponentLength;
  }

  lemma UnsignedSome(s: string)
    requires Unsigned(s).0 > 0
    ensures var whole := DigitCount(s); whole > 0 || (Head(s) == '.' && DigitCount(s[1..]) > 0)
  {
    hide DigitCount, Mantissa, Scale, ExponentLength;
    assert s[0..] == s;
  }

  lemma PlainSlices(w: string, u: string)
    ensures (w + u)[..|w|] == w && (w + u)[|w|..] == u && u[0..] == u
  {
  }

  lemma PointedSlices(w: string, f: string, u: string)
    ensures var t := "." + (f + u);
            && (w + t)[..|w|] == w && (w + t)[|w|..] == t
            && t[1..] == f + u && t[1..1 + |f|] == f && t[1 + |f|..] == u && Head(t) == '.'
  {
  }

  lemma UnsignedPlain(w: string, u: string, n: nat)
    requires w != "" && AllDigits(w) && DigitCount(w + u) == |w| && Head(u) != '.' && ExponentLength(u) == n <= |u|
    ensures Unsigned(w + u) == (|w| + n, Scale(Mantissa(w, ""), u[..n]))
  {
    hide Unsigned, DigitCount, DigitsValue, Mantissa, Scale, ExponentLength;
    PlainSlices(w, u);
    UnsignedNoPoint(w + u, |w|, n);
  }

  lemma UnsignedPointed(w: string, f: string, u: string, n: nat)
    requires (w != "" || f != "") && AllDigits(w) && AllDigits(f) && DigitCount(w + ("." + (f + u))) == |w|
    requires DigitCount(f + u) == |f| && ExponentLength(u) == n <= |u|
    ensures Unsigned(w + ("." + (f + u))) == (|w| + 1 + |f| + n, Scale(Mantissa(w, f), u[..n]))
  {
    hide Unsigned, DigitCount, DigitsValue, Mantissa, Scale, ExponentLength;
    PointedSlices(w, f, u);
    UnsignedSteps(w + ("." + (f + u)), |w|, |f|, n);
  }

  lemma SizeIsRaised(n: Spelling)
    requires Shaped(n)
    ensures SizeOf(n) == Raised(Mantissa(n.whole, n.fraction), n.exponent)
  {
    hide Raised, DigitsValue;
  }

  lemma UnsignedRegroup(w: string, f: string, e: string, rest: string)
    ensures w + "" + e + rest == w + (e + rest)
    ensures w + ("." + f) + e + rest == w + ("." + (f + (e + rest)))
    ensures (e + rest)[..|e|] == e
  {
  }

  lemma UnsignedSpelled(n: Spelling, rest: string)
    requires Shaped(n) && Ends(rest)
    ensures Unsigned(UnsignedText(n) + rest) == (|UnsignedText(n)|, SizeOf(n))
  {
    hide Unsigned, DigitsValue, Mantissa, Scale, ExponentLength, ExponentText, Raised, DigitCount, SizeOf, Ends;
    var w, f, e := n.whole, n.fraction, ExponentText(n.exponent);
    ExponentStands(n.exponent, rest);
    ScaleOf(Mantissa(w, f), n.exponent);
    SizeIsRaised(n);
    UnsignedRegroup(w, f, e, rest);
    if n.point {
      DigitCountOf(w, "." + (f + (e + rest)));
      DigitCountOf(f, e + rest);
      UnsignedPointed(w, f, e + rest, |e|);
    } else {
      DigitCountOf(w, e + rest);
      UnsignedPlain(w, e + rest, |e|);
    }
  }

  lemma UnsignedStarts(n: Spelling)
    requires Shaped(n)
    ensures UnsignedText(n) != "" && UnsignedText(n)[0] == (if n.whole == "" then '.' else n.whole[0]) != '-'
  {
    assert n.whole != "" ==> IsDigit(n.whole[0]);
  }

  lemma SpellingStrToD(n: Spelling, rest: string)
    requires Shaped(n) && Ends(rest)
    ensures StrToD(SpellingText(n) + rest) == (|SpellingText(n)|, NumberOf(n))
  {
    hide Unsigned, StrToD, SizeOf, UnsignedText, Shaped, Ends;
    UnsignedStarts(n);
    UnsignedSpelled(n, rest);
    if n.negative {
      NegativeStrToD(UnsignedText(n), SizeOf(n), rest);
    } else {
      NoMinusStrToD(UnsignedText(n), SizeOf(n), rest);
      assert "" + UnsignedText(n) == UnsignedText(n);
    }
  }

  lemma NoMinusStrToD(t: string, value: real, rest: string)
    requires Unsigned(t + rest) == (|t|, value) && t != "" && t[0] != '-'
    ensures StrToD(t + rest) == (|t|, value)
  {
    hide Unsigned;
    assert (t + rest)[0] == t[0];
  }

  lemma ExponentChars(e: Exponent)
    requires ProperExponent(e)
    ensures forall k :: 0 <= k < |ExponentText(e)| ==> ExponentText(e)[k] != 'x' && ExponentText(e)[k] != 'X'
    ensures ExponentText(e) != "" <==> e.Exponent?
    ensures ExponentText(e) != "" ==> ExponentText(e)[0] in {'e', 'E'}
  {
  }

  lemma UnsignedChars(n: Spelling)
    requires Shaped(n)
    ensures forall k :: 0 <= k < |UnsignedText(n)| ==> UnsignedText(n)[k] != 'x' && UnsignedText(n)[k] != 'X'
    ensures n.whole != "" && n.whole[0] == '0' ==>
              (ZeroRule(n) <==> |UnsignedText(n)| == 1 || UnsignedText(n)[1] == '.')
  {
    hide ExponentText;
    ExponentChars(n.exponent);
    var w, p, e, t := n.whole, PointText(n), ExponentText(n.exponent), UnsignedText(n);
    assert forall k :: 0 <= k < |w| ==> t[k] == w[k];
    assert forall k :: 0 <= k < |p| ==> t[|w| + k] == p[k];
    assert forall k :: 0 <= k < |e| ==> t[|w| + |p| + k] == e[k];
  }

  lemma SpellingIsDecimal(n: Spelling, rest: string)
    requires Shaped(n)
    ensures IsDecimal(SpellingText(n) + rest, |SpellingText(n)|) <==> ZeroRule(n)
  {
    hide UnsignedText, Shaped, ZeroRule;
    UnsignedChars(n);
    UnsignedStarts(n);
    var u, t, s := UnsignedText(n), SpellingText(n), SpellingText(n) + rest;
    assert forall k :: 0 <= k < |t| ==> s[k] == t[k];
    if n.negative {
      assert t == "-" + u && forall k :: 0 <= k < |u| ==> t[k + 1] == u[k];
    } else {
      assert t == u;
    }
    ZeroRuleIs(n);
  }

  lemma ZeroRuleIs(n: Spelling)
    ensures n.whole == "" || n.whole[0] != '0' ==> ZeroRule(n)
  {
  }

  /** A number with the end of a value behind it is read as its value, and all of it, by the rule on zeros. */
  lemma NumbersExactly(n: Spelling, rest: string)
    requires Shaped(n) && Ends(rest)
    ensures ParseNumber(SpellingText(n) + rest) == if ZeroRule(n) then Some((Num(NumberOf(n)), rest)) else None
  {
    hide StrToD, IsDecimal, NumberOf, SpellingText, Shaped, ZeroRule, Ends;
    SpellingStrToD(n, rest);
    SpellingIsDecimal(n, rest);
    assert (SpellingText(n) + rest)[|SpellingText(n)|..] == rest;
  }

  // ---------- only such numbers ----------

  lemma ExponentParts(u: string) returns (sign: nat, digits: nat)
    requires ExponentLength(u) > 0
    ensures sign <= 1 && 1 + sign + digits == ExponentLength(u) && digits > 0 && |u| > 1 && u[0] in {'e', 'E'}
    ensures sign == 1 ==> u[1] in {'+', '-'}
    ensures AllDigits(u[1 + sign..][..digits])
  {
    sign := if u[1] in {'+', '-'} then 1 else 0;
    digits := DigitCount(u[1 + sign..]);
  }

  lemma ExponentSound(u: string) returns (e: Exponent)
    ensures ProperExponent(e) && ExponentText(e) == u[..ExponentLength(u)]
  {
    hide ExponentLength;
    e := NoExponent;
    if ExponentLength(u) > 0 {
      var sign, digits := ExponentParts(u);
      e := Exponent(u[0], u[1..1 + sign], u[1 + sign..][..digits]);
      assert ExponentText(e) == u[..1 + sign + digits];
      SignIs(u, sign);
    }
  }

  lemma SignIs(u: string, sign: nat)
    requires |u| > 1 && sign <= 1 && (sign == 1 ==> u[1] in {'+', '-'})
    ensures u[1..1 + sign] in {"", "+", "-"}
  {
    assert sign == 1 ==> u[1..1 + sign] == [u[1]];
    assert sign == 0 ==> u[1..1 + sign] == "";
  }

  lemma UnsignedSound(s: string, negative: bool) returns (n: Spelling)
    requires Unsigned(s).0 > 0
    ensures Shaped(n) && n.negative == negative
    ensures UnsignedText(n) == s[..Unsigned(s).0] && SizeOf(n) == Unsigned(s).1
  {
    hide Unsigned, DigitCount, Mantissa, Scale, ExponentLength, ExponentText, Raised, SizeOf, DigitsValue;
    UnsignedSome(s);
    var whole := DigitCount(s);
    if Head(s[whole..]) == '.' {
      n := PointedSound(s, whole, negative);
    } else {
      n := PlainSound(s, whole, negative);
    }
  }

  lemma PlainSound(s: string, whole: nat, negative: bool) returns (n: Spelling)
    requires 0 < whole == DigitCount(s) && Head(s[whole..]) != '.'
    ensures Shaped(n) && n.negative == negative
    ensures UnsignedText(n) == s[..Unsigned(s).0] && SizeOf(n) == Unsigned(s).1
  {
    hide Unsigned, DigitCount, Mantissa, Scale, ExponentLength, ExponentText, Raised, SizeOf, DigitsValue;
    var u := s[whole..];
    var e := ExponentSound(u);
    n := Spelling(negative, s[..whole], false, "", e);
    UnsignedNoPoint(s, whole, ExponentLength(u));
    ScaleOf(Mantissa(n.whole, ""), e);
    SizeIsRaised(n);
    assert s[..whole] + "" + u[..ExponentLength(u)] == s[..whole + ExponentLength(u)];
  }

  lemma PointedSound(s: string, whole: nat, negative: bool) returns (n: Spelling)
    requires whole == DigitCount(s) && Head(s[whole..]) == '.' && Unsigned(s).0 > 0
    ensures Shaped(n) && n.negative == negative
    ensures UnsignedText(n) == s[..Unsigned(s).0] && SizeOf(n) == Unsigned(s).1
  {
    hide Unsigned, DigitCount, Mantissa, Scale, ExponentLength, ExponentText, Raised, SizeOf, DigitsValue;
    UnsignedSome(s);
    var t := s[whole..];
    var fraction := DigitCount(t[1..]);
    var u := t[1 + fraction..];
    var e := ExponentSound(u);
    assert whole == 0 ==> t == s;
    n := Spelling(negative, s[..whole], true, t[1..1 + fraction], e);
    UnsignedSteps(s, whole, fraction, ExponentLength(u));
    ScaleOf(Mantissa(n.whole, n.fraction), e);
    SizeIsRaised(n);
    UnsignedRejoin(s, whole, fraction, ExponentLength(u));
  }

  lemma UnsignedRejoin(s: string, whole: nat, fraction: nat, e: nat)
    requires whole + 1 + fraction + e <= |s| && s[whole] == '.'
    ensures var t := s[whole..];
            s[..whole] + ("." + t[1..1 + fraction]) + t[1 + fraction..][..e] == s[..whole + 1 + fraction + e]
  {
  }

  /** What strtod and is_decimal take for a number is one. */
  lemma NumberSound(s: string) returns (n: Spelling)
    requires s != "" && (IsDigit(s[0]) || s[0] == '-') && StrToD(s).0 > 0 && IsDecimal(s, StrToD(s).0)
    ensures ProperNumber(n) && SpellingText(n) == s[..StrToD(s).0] && NumberOf(n) == StrToD(s).1
  {
    hide Unsigned, SizeOf, UnsignedText, IsDecimal, Shaped, ZeroRule;
    var k := StrToD(s).0;
    if s[0] == '-' {
      n := UnsignedSound(s[1..], true);
      assert s[..k] == "-" + s[1..][..k - 1];
    } else {
      n := UnsignedSound(s, false);
      UnsignedStarts(n);
      assert UnsignedText(n)[0] == s[0] && n.whole != "";
      assert "" + UnsignedText(n) == UnsignedText(n);
    }
    assert s == s[..k] + s[k..];
    SpellingIsDecimal(n, s[k..]);
  }

  // ---------- strings ----------

  /** Pieces that end at no quote of their own. */
  ghost predicate ProperString(ps: seq<Piece>) {
    AllProper(ps) && forall k :: 0 <= k < |ps| ==> ps[k] != Raw('\"')
  }

  /** A string and what follows it; open stands for its opening quote. */
  function StringThen(open: char, ps: seq<Piece>, rest: string): string {
    [open] + (TextOf(ps) + ("\"" + rest))
  }

  function StringValue(ps: seq<Piece>): string { CPrefix(MeaningOf(ps)) }

  lemma HexIsNoQuote(c: char, d: nat)
    requires d < 16 && IsHex(c, d)
    ensures c != '\\' && c != '\"'
  {
    HexExactly(c, d);
  }

  lemma FourAreNoQuotes(s: string, u: nat)
    requires Spells(s, u)
    ensures forall k :: 0 <= k < 4 ==> s[k] != '\\' && s[k] != '\"'
  {
    HexIsNoQuote(s[0], u / 0x1000 % 16);
    HexIsNoQuote(s[1], u / 0x100 % 16);
    HexIsNoQuote(s[2], u / 0x10 % 16);
    HexIsNoQuote(s[3], u % 16);
  }

  lemma {:induction false} SkipPlain(x: string, t: string)
    requires forall k :: 0 <= k < |x| ==> x[k] != '\\' && x[k] != '\"'
    ensures SkipQuotes(x + t) == SkipQuotes(t)
  {
    if x == "" {
      assert x + t == t;
    } else {
      SkipPlain(x[1..], t);
      assert (x + t)[1..] == x[1..] + t;
    }
  }

  lemma SkipEscape(c: char, t: string)
    ensures SkipQuotes(['\\', c] + t) == SkipQuotes(t)
  {
    assert (['\\', c] + t)[2..] == t;
  }

  lemma SkipDigits(digits: string, cp: nat, t: string)
    requires if |digits| == 4 then SpellsSingle(digits, cp) else |digits| == 10 && SpellsPair(digits, cp)
    ensures SkipQuotes("\\u" + digits + t) == SkipQuotes(t)
  {
    hide SkipQuotes;
    if |digits| == 4 {
      FourAreNoQuotes(digits, cp);
      SkipPlain(digits, t);
      SkipEscape('u', digits + t);
      assert "\\u" + digits + t == ['\\', 'u'] + (digits + t);
    } else {
      PairDigits(digits, cp);
      SkipPlain(digits[6..], t);
      SkipEscape('u', digits[6..] + t);
      SkipPlain(digits[..4], ['\\', 'u'] + (digits[6..] + t));
      SkipEscape('u', digits[..4] + (['\\', 'u'] + (digits[6..] + t)));
      assert digits == digits[..4] + ['\\', 'u'] + digits[6..];
      assert "\\u" + digits + t == ['\\', 'u'] + (digits[..4] + (['\\', 'u'] + (digits[6..] + t)));
    }
  }

  lemma PairDigits(digits: string, cp: nat)
    requires |digits| == 10 && SpellsPair(digits, cp)
    ensures digits[4] == '\\' && digits[5] == 'u'
    ensures forall k :: 0 <= k < 4 ==> digits[..4][k] != '\\' && digits[..4][k] != '\"'
    ensures forall k :: 0 <= k < 4 ==> digits[6..][k] != '\\' && digits[6..][k] != '\"'
  {
    FourAreNoQuotes(digits, 0xD800 + (cp - 0x10000) / 0x400);
    FourAreNoQuotes(digits[6..], 0xDC00 + (cp - 0x10000) % 0x400);
  }

  lemma SkipPiece(p: Piece, t: string)
    requires Proper(p) && p != Raw('\"')
    ensures SkipQuotes(PieceText(p) + t) == SkipQuotes(t)
  {
    match p
    case Raw(c) => SkipPlain([c], t);
    case Named(x, _) => SkipEscape(x, t);
    case Unicode(digits, cp, _) => SkipDigits(digits, cp, t);
  }

  lemma {:induction false} SkipString(ps: seq<Piece>, rest: string)
    requires ProperString(ps)
    ensures SkipQuotes(TextOf(ps) + ("\"" + rest)) == rest
  {
    if ps == [] {
      assert "" + ("\"" + rest) == "\"" + rest && ("\"" + rest)[1..] == rest;
    } else {
      hide SkipQuotes;
      SkipString(ps[1..], rest);
      SkipPiece(ps[0], TextOf(ps[1..]) + ("\"" + rest));
      assert TextOf(ps) + ("\"" + rest) == PieceText(ps[0]) + (TextOf(ps[1..]) + ("\"" + rest));
    }
  }

  /** A string in any spelling, with more text behind it, is read as what it means, up to its first NUL. */
  lemma StringParses(open: char, ps: seq<Piece>, rest: string)
    requires ProperString(ps) && rest != ""
    ensures QuotedString(StringThen(open, ps, rest)) == (Some(StringValue(ps)), rest)
  {
    hide SkipQuotes, ProcessString, TextOf, MeaningOf, CPrefix;
    var s := StringThen(open, ps, rest);
    SkipString(ps, rest);
    SpelledProcesses(ps);
    assert s[1..] == TextOf(ps) + ("\"" + rest);
    assert s[1..|s| - |rest| - 1] == TextOf(ps);
  }

  lemma {:induction false} CompleteHasNoQuote(ps: seq<Piece>)
    requires AllProper(ps) && Complete(TextOf(ps))
    ensures ProperString(ps)
  {
    if ps != [] {
      PieceIsComplete(ps[0], TextOf(ps[1..]));
      CompleteHasNoQuote(ps[1..]);
      assert forall k :: 0 < k < |ps| ==> ps[k] == ps[1..][k - 1];
    }
  }

  lemma PieceIsComplete(p: Piece, t: string)
    requires Proper(p) && Complete(PieceText(p) + t)
    ensures p != Raw('\"') && Complete(t)
  {
    hide SpellsSingle, SpellsPair, IsUtf8;
    match p
    case Raw(c) => assert ([c] + t)[1..] == t;
    case Named(x, _) => assert (['\\', x] + t)[2..] == t;
    case Unicode(digits, cp, _) =>
      assert ("\\u" + digits + t)[2..] == digits + t;
      BehindDigits(digits, cp, t);
  }

  lemma BehindDigits(digits: string, cp: nat, t: string)
    requires if |digits| == 4 then SpellsSingle(digits, cp) else |digits| == 10 && SpellsPair(digits, cp)
    requires Complete(digits + t)
    ensures Complete(t)
  {
    hide SpellsSingle, SpellsPair, Complete, ParseUtf16;
    DigitsInFront(digits, t, cp);
    CompleteBehindEscape(digits + t);
    assert (digits + t)[|digits|..] == t;
  }

  lemma QuotedParts(s: string)
    requires s != "" && QuotedString(s).0.Some?
    ensures var rest := SkipQuotes(s[1..]);
            && rest != "" && QuotedString(s).1 == rest
            && ProcessString(s[1..|s| - |rest| - 1]).Some?
            && QuotedString(s).0 == Some(CPrefix(ProcessString(s[1..|s| - |rest| - 1]).value))
  {
    hide SkipQuotes, ProcessString, CPrefix;
  }

  lemma BodySound(t: string, rest: string) returns (ps: seq<Piece>)
    requires rest == SkipQuotes(t) != "" && ProcessString(t[..|t| - |rest| - 1]).Some?
    ensures ProperString(ps) && t == TextOf(ps) + ("\"" + rest)
    ensures ProcessString(t[..|t| - |rest| - 1]) == Some(MeaningOf(ps))
  {
    hide SkipQuotes, ProcessString, TextOf, MeaningOf, Complete, ProperString;
    SkippedIsComplete(t);
    var body := t[..|t| - |rest| - 1];
    ps := ProcessedIsSpelled(body);
    SpelledProcesses(ps);
    CompleteHasNoQuote(ps);
    assert t == body + ("\"" + rest);
  }

  /** And only such strings are taken. */
  lemma StringSound(s: string) returns (ps: seq<Piece>)
    requires s != "" && QuotedString(s).0.Some?
    ensures ProperString(ps) && QuotedString(s).1 != ""
    ensures s == StringThen(s[0], ps, QuotedString(s).1) && QuotedString(s).0 == Some(StringValue(ps))
  {
    hide QuotedString, SkipQuotes, ProcessString, TextOf, MeaningOf, CPrefix, ProperString;
    QuotedParts(s);
    var t, rest := s[1..], QuotedString(s).1;
    assert s[1..|s| - |rest| - 1] == t[..|t| - |rest| - 1];
    ps := BodySound(t, rest);
    assert s == [s[0]] + t;
  }

  // ---------- texts ----------

  /** A value as it is written: its white space, and one spelling or other of its numbers and strings. */
  datatype Doc =
    | NullDoc
    | BoolDoc(b: bool)
    | NumberDoc(n: Spelling)
    | StringDoc(ps: seq<Piece>)
    | ArrayDoc(inside: string, items: seq<Item>)
    | ObjectDoc(inside: string, members: seq<Member>)

  /** A value with the white space before and behind it. */
  datatype Item = Item(before: string, doc: Doc, behind: string)

  /**
    A name with the white space before and behind it, and the value behind the colon. The parser takes whatever
    character opens a name for its quote.
   */
  datatype Member = Member(before: string, open: char, name: seq<Piece>, behind: string, item: Item)

  /** The text of d with rest behind it; inside stands between the brackets of an empty container. */
  function TextThen(d: Doc, rest: string): string
    decreases d
  {
    match d
    case NullDoc => "null" + rest
    case BoolDoc(b) => (if b then "true" else "false") + rest
    case NumberDoc(n) => SpellingText(n) + rest
    case StringDoc(ps) => StringThen('\"', ps, rest)
    case ArrayDoc(inside, items) => "[" + if items == [] then inside + ("]" + rest) else ItemsThen(items, "]" + rest)
    case ObjectDoc(inside, members) =>
      "{" + if members == [] then inside + ("}" + rest) else MembersThen(members, "}" + rest)
  }

  /** The items between commas. */
  function ItemsThen(items: seq<Item>, rest: string): string
    requires items != []
    decreases items
  {
    var i := items[0];
    i.before + TextThen(i.doc, i.behind + if |items| == 1 then rest else "," + ItemsThen(items[1..], rest))
  }

  function MembersThen(members: seq<Member>, rest: string): string
    requires members != []
    decreases members
  {
    var m := members[0];
    m.before + StringThen(m.open, m.name, m.behind + (":" + (m.item.before + TextThen(m.item.doc,
      m.item.behind + if |members| == 1 then rest else "," + MembersThen(members[1..], rest)))))
  }

  function NamesOf(members: seq<Member>): (names: seq<string>)
    ensures |names| == |members|
  {
    if members == [] then [] else [StringValue(members[0].name)] + NamesOf(members[1..])
  }

  predicate WhiteAround(item: Item) { AllWhite(item.before) && AllWhite(item.behind) }

  ghost predicate ProperMember(m: Member) {
    AllWhite(m.before) && !White(m.open) && ProperString(m.name) && AllWhite(m.behind) && WhiteAround(m.item)
  }

  /** The grammar, the limits of the parser, and names that differ. */
  ghost predicate ProperDoc(d: Doc, nesting: nat)
    decreases d
  {
    nesting <= MAX_NESTING &&
    match d
    case NullDoc => true
    case BoolDoc(_) => true
    case NumberDoc(n) => ProperNumber(n)
    case StringDoc(ps) => ProperString(ps)
    case ArrayDoc(inside, items) =>
      AllWhite(inside) && |items| <= ARRAY_MAX_CAPACITY && ProperItems(items, nesting + 1)
    case ObjectDoc(inside, members) =>
      && AllWhite(inside) && |members| <= OBJECT_MAX_CAPACITY && Unique(NamesOf(members))
      && (members != [] ==> members[0].open != '}') && ProperMembers(members, nesting + 1)
  }

  ghost predicate ProperItems(items: seq<Item>, nesting: nat)
    decreases items
  {
    items != [] ==> WhiteAround(items[0]) && ProperDoc(items[0].doc, nesting) && ProperItems(items[1..], nesting)
  }

  ghost predicate ProperMembers(members: seq<Member>, nesting: nat)
    decreases members
  {
    members != [] ==>
      ProperMember(members[0]) && ProperDoc(members[0].item.doc, nesting) && ProperMembers(members[1..], nesting)
  }

  function ValueOf(d: Doc, nesting: nat): Json
    requires ProperDoc(d, nesting)
    decreases d
  {
    match d
    case NullDoc => Null
    case BoolDoc(b) => Bool(b)
    case NumberDoc(n) => Num(NumberOf(n))
    case StringDoc(ps) => Str(StringValue(ps))
    case ArrayDoc(_, items) => Arr(ItemValues(items, nesting + 1))
    case ObjectDoc(_, members) => Obj(NamesOf(members), MemberValues(members, nesting + 1))
  }

  function ItemValues(items: seq<Item>, nesting: nat): (vs: seq<Json>)
    requires ProperItems(items, nesting)
    ensures |vs| == |items|
    decreases items
  {
    if items == [] then [] else [ValueOf(items[0].doc, nesting)] + ItemValues(items[1..], nesting)
  }

  function MemberValues(members: seq<Member>, nesting: nat): (vs: seq<Json>)
    requires ProperMembers(members, nesting)
    ensures |vs| == |members|
    decreases members
  {
    if members == [] then [] else [ValueOf(members[0].item.doc, nesting)] + MemberValues(members[1..], nesting)
  }

  predicate Container(d: Doc) { d.ArrayDoc? || d.ObjectDoc? }

  lemma ProperStarts(d: Doc, nesting: nat, rest: string)
    requires ProperDoc(d, nesting)
    ensures StartsSolid(TextThen(d, rest)) && TextThen(d, rest)[0] !in {']', '}'}
  {
    match d
    case NumberDoc(n) =>
      UnsignedStarts(n);
      assert TextThen(d, rest)[0] == if n.negative then '-' else n.whole[0];
    case _ =>
  }

  // ---------- scalars ----------

  lemma NumberDocParses(n: Spelling, rest: string, nesting: nat)
    requires ProperNumber(n) && Ends(rest) && nesting <= MAX_NESTING
    ensures ParseValue(SpellingText(n) + rest, nesting) == Some((Num(NumberOf(n)), rest))
  {
    UnsignedStarts(n);
    var s := SpellingText(n) + rest;
    assert s[0] == if n.negative then '-' else n.whole[0];
    hide SpellingText, NumberOf, ParseNumber, ZeroRule, Ends;
    NumbersExactly(n, rest);
    NumberDispatch(s, nesting);
  }

  lemma StringDocParses(ps: seq<Piece>, rest: string, nesting: nat)
    requires ProperString(ps) && rest != "" && nesting <= MAX_NESTING
    ensures ParseValue(StringThen('\"', ps, rest), nesting) == Some((Str(StringValue(ps)), rest))
  {
    hide QuotedString, StringValue, TextOf, ProperString;
    StringParses('\"', ps, rest);
    SkipNothing(StringThen('\"', ps, rest));
  }

  lemma ScalarDocParses(d: Doc, nesting: nat, rest: string)
    requires ProperDoc(d, nesting) && !Container(d) && Ends(rest) && rest != ""
    ensures ParseValue(TextThen(d, rest), nesting) == Some((ValueOf(d, nesting), rest))
  {
    hide ParseValue;
    match d
    case NullDoc => NullRoundTrip(rest, nesting);
    case BoolDoc(b) => if b { TrueRoundTrip(rest, nesting); } else { FalseRoundTrip(rest, nesting); }
    case NumberDoc(n) => NumberDocParses(n, rest, nesting);
    case StringDoc(ps) => StringDocParses(ps, rest, nesting);
  }

  // ---------- arrays ----------

  lemma ValueBehindWhite(ws: string, x: string, nesting: nat)
    requires AllWhite(ws) && StartsSolid(x)
    ensures ParseValue(ws + x, nesting) == ParseValue(x, nesting)
  {
    SkipWhite(ws, x);
    SkipNothing(x);
  }

  lemma ItemsBehindWhite(ws: string, x: string, nesting: nat, acc: seq<Json>)
    requires AllWhite(ws) && StartsSolid(x)
    ensures ParseItems(ws + x, nesting, acc) == ParseItems(x, nesting, acc)
  {
    hide ParseValue;
    ValueBehindWhite(ws, x, nesting);
  }

  lemma ItemParses(x: string, behind: string, u: string, nesting: nat, acc: seq<Json>, v: Json)
    requires AllWhite(behind) && x != "" && StartsSolid(u) && |acc| < ARRAY_MAX_CAPACITY
    requires ParseValue(x, nesting) == Some((v, behind + u))
    ensures ParseItems(x, nesting, acc) == EndOrNextItem(u, nesting, acc + [v])
  {
    hide ParseValue, EndOrNextItem;
    SkipWhite(behind, u);
  }

  lemma LastItemParses(rest: string, nesting: nat, acc: seq<Json>)
    ensures EndOrNextItem("]" + rest, nesting, acc) == Some((Arr(acc), rest))
  {
    assert ("]" + rest)[1..] == rest;
  }

  lemma NextItemParses(before: string, x: string, nesting: nat, acc: seq<Json>)
    requires AllWhite(before) && StartsSolid(x)
    ensures EndOrNextItem("," + (before + x), nesting, acc) == ParseItems(before + x, nesting, acc)
  {
    hide ParseItems;
    var u := "," + (before + x);
    assert u[1..] == before + x;
    SkipWhite(before, x);
    ItemsBehindWhite(before, x, nesting, acc);
  }

  /** What follows the first value. */
  function BehindItem(items: seq<Item>, rest: string): string
    requires items != []
  {
    if |items| == 1 then rest else "," + ItemsThen(items[1..], rest)
  }

  function FirstText(items: seq<Item>, rest: string): string
    requires items != []
  {
    TextThen(items[0].doc, items[0].behind + BehindItem(items, rest))
  }

  lemma EndsBehind(behind: string, u: string)
    requires AllWhite(behind) && u != "" && u[0] in {',', ']', '}'}
    ensures Ends(behind + u) && behind + u != "" && StartsSolid(u)
  {
  }

  lemma Appended(acc: seq<Json>, v: Json, vs: seq<Json>)
    ensures acc + [v] + vs == acc + ([v] + vs)
  {
  }

  lemma {:induction false} ItemsParse(items: seq<Item>, nesting: nat, acc: seq<Json>, rest: string)
    requires ProperItems(items, nesting) && items != [] && |acc| + |items| <= ARRAY_MAX_CAPACITY
    ensures ParseItems(ItemsThen(items, "]" + rest), nesting, acc) ==
            Some((Arr(acc + ItemValues(items, nesting)), rest))
    decreases items, 0
  {
    hide ParseItems, EndOrNextItem, ValueOf, ProperDoc;
    var item, u, v := items[0], BehindItem(items, "]" + rest), ValueOf(items[0].doc, nesting);
    EndsBehind(item.behind, u);
    DocParses(item.doc, nesting, item.behind + u);
    ProperStarts(item.doc, nesting, item.behind + u);
    ItemsBehindWhite(item.before, FirstText(items, "]" + rest), nesting, acc);
    ItemParses(FirstText(items, "]" + rest), item.behind, u, nesting, acc, v);
    if |items| == 1 {
      LastItemParses(rest, nesting, acc + [v]);
      assert acc + ItemValues(items, nesting) == acc + [v];
    } else {
      ItemsParse(items[1..], nesting, acc + [v], rest);
      NextItems(items[1..], nesting, "]" + rest, acc + [v]);
      Appended(acc, v, ItemValues(items[1..], nesting));
    }
  }

  lemma NextItems(items: seq<Item>, nesting: nat, rest: string, acc: seq<Json>)
    requires ProperItems(items, nesting) && items != []
    ensures EndOrNextItem("," + ItemsThen(items, rest), nesting, acc) ==
            ParseItems(ItemsThen(items, rest), nesting, acc)
  {
    hide ParseItems, EndOrNextItem, ProperDoc;
    ProperStarts(items[0].doc, nesting, items[0].behind + BehindItem(items, rest));
    NextItemParses(items[0].before, FirstText(items, rest), nesting, acc);
  }

  /** The text of any value, with something behind it that ends a value, is read as the value, and up to there. */
  lemma {:induction false} DocParses(d: Doc, nesting: nat, rest: string)
    requires ProperDoc(d, nesting) && (Container(d) || (Ends(rest) && rest != ""))
    ensures ParseValue(TextThen(d, rest), nesting) == Some((ValueOf(d, nesting), rest))
    decreases d, 1
  {
    hide ParseValue;
    match d
    case ArrayDoc(_, _) => ArrayDocParses(d, nesting, rest);
    case ObjectDoc(_, _) => ObjectDocParses(d, nesting, rest);
    case _ => ScalarDocParses(d, nesting, rest);
  }

  lemma ArrayOpens(t: string, nesting: nat)
    requires nesting <= MAX_NESTING
    ensures ParseValue("[" + t, nesting) ==
            var u := SkipSpaces(t);
            if u != "" && u[0] == ']' then Some((Arr([]), u[1..])) else ParseItems(u, nesting + 1, [])
  {
    hide ParseItems;
    SkipNothing("[" + t);
    assert ("[" + t)[1..] == t;
  }

  lemma {:induction false} ArrayDocParses(d: Doc, nesting: nat, rest: string)
    requires ProperDoc(d, nesting) && d.ArrayDoc?
    ensures ParseValue(TextThen(d, rest), nesting) == Some((ValueOf(d, nesting), rest))
    decreases d, 0
  {
    hide ParseValue, ParseItems, SkipSpaces;
    if d.items == [] {
      ArrayOpens(d.inside + ("]" + rest), nesting);
      SkipWhite(d.inside, "]" + rest);
      assert ("]" + rest)[1..] == rest;
    } else {
      var x := FirstText(d.items, "]" + rest);
      ProperStarts(d.items[0].doc, nesting + 1, d.items[0].behind + BehindItem(d.items, "]" + rest));
      ArrayOpens(d.items[0].before + x, nesting);
      SkipWhite(d.items[0].before, x);
      ItemsBehindWhite(d.items[0].before, x, nesting + 1, []);
      ItemsParse(d.items, nesting + 1, [], rest);
      assert [] + ItemValues(d.items, nesting + 1) == ItemValues(d.items, nesting + 1);
    }
  }

  // ---------- objects ----------

  function BehindMember(members: seq<Member>, rest: string): string
    requires members != []
  {
    if |members| == 1 then rest else "," + MembersThen(members[1..], rest)
  }

  /** The first member without the white space in front of its name. */
  function FirstMember(members: seq<Member>, rest: string): string
    requires members != []
  {
    var m := members[0];
    StringThen(m.open, m.name, m.behind + (":" + (m.item.before + TextThen(m.item.doc,
      m.item.behind + BehindMember(members, rest)))))
  }

  lemma MemberParses(open: char, ps: seq<Piece>, behind: string, before: string, x: string, behind2: string, u: string,
                     nesting: nat, names: seq<string>, values: seq<Json>, v: Json)
    requires ProperString(ps) && AllWhite(behind) && AllWhite(before) && AllWhite(behind2)
    requires StartsSolid(x) && StartsSolid(u) && ParseValue(x, nesting) == Some((v, behind2 + u))
    requires |names| < OBJECT_MAX_CAPACITY && StringValue(ps) !in names
    ensures ParseMembers(StringThen(open, ps, behind + (":" + (before + x))), nesting, names, values) ==
            EndOrNextMember(u, nesting, names + [StringValue(ps)], values + [v])
  {
    hide ParseValue, EndOrNextMember, QuotedString, StringValue, ProperString;
    var t := ":" + (before + x);
    StringParses(open, ps, behind + t);
    SkipWhite(behind, t);
    assert t[1..] == before + x;
    ValueBehindWhite(before, x, nesting);
    SkipWhite(behind2, u);
  }

  lemma LastMemberParses(rest: string, nesting: nat, names: seq<string>, values: seq<Json>)
    ensures EndOrNextMember("}" + rest, nesting, names, values) == Some((Obj(names, values), rest))
  {
    assert ("}" + rest)[1..] == rest;
  }

  lemma NextMemberParses(w: string, nesting: nat, names: seq<string>, values: seq<Json>)
    ensures EndOrNextMember("," + w, nesting, names, values) == ParseMembers(SkipSpaces(w), nesting, names, values)
  {
    hide ParseMembers, SkipSpaces;
    assert ("," + w)[1..] == w;
  }

  lemma WhiteExactly(c: char)
    ensures White(c) <==> IsSpace(c)
  {
  }

  lemma MembersSkip(members: seq<Member>, nesting: nat, rest: string)
    requires ProperMembers(members, nesting) && members != []
    ensures SkipSpaces(MembersThen(members, rest)) == FirstMember(members, rest)
    ensures FirstMember(members, rest) != "" && FirstMember(members, rest)[0] == members[0].open
  {
    hide SkipSpaces, ProperDoc;
    WhiteExactly(members[0].open);
    assert MembersThen(members, rest) == members[0].before + FirstMember(members, rest);
    SkipWhite(members[0].before, FirstMember(members, rest));
  }

  lemma {:induction false} MembersParse(members: seq<Member>, nesting: nat, names: seq<string>, values: seq<Json>,
                                        rest: string)
    requires ProperMembers(members, nesting) && members != []
    requires |names| + |members| <= OBJECT_MAX_CAPACITY && Unique(names + NamesOf(members))
    ensures ParseMembers(FirstMember(members, "}" + rest), nesting, names, values) ==
            Some((Obj(names + NamesOf(members), values + MemberValues(members, nesting)), rest))
    decreases members, 0
  {
    hide ParseMembers, EndOrNextMember, ValueOf, ProperDoc, StringValue, ProperString, Unique;
    var m, u, v := members[0], BehindMember(members, "}" + rest), ValueOf(members[0].item.doc, nesting);
    var x := TextThen(m.item.doc, m.item.behind + u);
    EndsBehind(m.item.behind, u);
    DocParses(m.item.doc, nesting, m.item.behind + u);
    ProperStarts(m.item.doc, nesting, m.item.behind + u);
    FirstIsFresh(names, StringValue(m.name), NamesOf(members[1..]));
    MemberParses(m.open, m.name, m.behind, m.item.before, x, m.item.behind, u, nesting, names, values, v);
    Appended(values, v, MemberValues(members[1..], nesting));
    if |members| == 1 {
      LastMemberParses(rest, nesting, names + [StringValue(m.name)], values + [v]);
      assert values + MemberValues(members, nesting) == values + [v];
    } else {
      MembersParse(members[1..], nesting, names + [StringValue(m.name)], values + [v], rest);
      NextMemberParses(MembersThen(members[1..], "}" + rest), nesting, names + [StringValue(m.name)], values + [v]);
      MembersSkip(members[1..], nesting, "}" + rest);
    }
  }

  lemma FirstIsFresh(names: seq<string>, name: string, more: seq<string>)
    requires Unique(names + ([name] + more))
    ensures name !in names && Unique(names + [name] + more)
    ensures names + [name] + more == names + ([name] + more)
    ensures more == [] ==> names + ([name] + more) == names + [name]
  {
    assert names + [name] + more == names + ([name] + more);
    var all := names + ([name] + more);
    assert all[|names|] == name && forall k :: 0 <= k < |names| ==> all[k] == names[k];
  }

  lemma ObjectOpens(t: string, nesting: nat)
    requires nesting <= MAX_NESTING
    ensures ParseValue("{" + t, nesting) ==
            var u := SkipSpaces(t);
            if u != "" && u[0] == '}' then Some((Obj([], []), u[1..])) else ParseMembers(u, nesting + 1, [], [])
  {
    hide ParseMembers;
    SkipNothing("{" + t);
    assert ("{" + t)[1..] == t;
  }

  lemma {:induction false} ObjectDocParses(d: Doc, nesting: nat, rest: string)
    requires ProperDoc(d, nesting) && d.ObjectDoc?
    ensures ParseValue(TextThen(d, rest), nesting) == Some((ValueOf(d, nesting), rest))
    decreases d, 0
  {
    hide ParseValue, ParseMembers, SkipSpaces;
    if d.members == [] {
      ObjectOpens(d.inside + ("}" + rest), nesting);
      SkipWhite(d.inside, "}" + rest);
      assert ("}" + rest)[1..] == rest;
    } else {
      ObjectOpens(MembersThen(d.members, "}" + rest), nesting);
      MembersSkip(d.members, nesting + 1, "}" + rest);
      assert [] + NamesOf(d.members) == NamesOf(d.members);
      MembersParse(d.members, nesting + 1, [], [], rest);
      assert [] + MemberValues(d.members, nesting + 1) == MemberValues(d.members, nesting + 1);
    }
  }

  /**
    Every array or object that the grammar spells, within the limits of the parser, is read as its value, whatever white
    space comes before it and whatever text behind it.
   */
  lemma TextParses(ws: string, d: Doc, rest: string)
    requires AllWhite(ws) && ProperDoc(d, 0) && Container(d)
    ensures ParseText(ws + TextThen(d, rest)) == Some(ValueOf(d, 0))
  {
    hide ParseValue, SkipSpaces;
    ProperStarts(d, 0, rest);
    SkipWhite(ws, TextThen(d, rest));
    DocParses(d, 0, rest);
  }

  // ---------- only such texts ----------

  lemma {:induction false} SplitWhite(s: string) returns (ws: string)
    ensures AllWhite(ws) && s == ws + SkipSpaces(s)
    ensures SkipSpaces(s) != "" ==> StartsSolid(SkipSpaces(s))
  {
    ws := "";
    if s != "" && IsSpace(s[0]) {
      ws := SplitWhite(s[1..]);
      WhiteExactly(s[0]);
      ws := [s[0]] + ws;
    }
  }

  /** The parser has got past the number, if that is where it began; a minus alone it leaves behind. */
  predicate PastMinus(s: string, rest: string) {
    Head(SkipSpaces(s)) == '-' ==> Head(rest) != '-'
  }

  lemma {:induction false} ValueSound(s: string, nesting: nat) returns (ws: string, d: Doc)
    requires ParseValue(s, nesting).Some? && PastMinus(s, ParseValue(s, nesting).value.1)
    ensures AllWhite(ws) && ProperDoc(d, nesting)
    ensures s == ws + TextThen(d, ParseValue(s, nesting).value.1)
    ensures ParseValue(s, nesting).value.0 == ValueOf(d, nesting)
    decreases |s|, 2
  {
    var t := SkipSpaces(s);
    ws := SplitWhite(s);
    if t[0] == '{' {
      d := ObjectSound(t, nesting);
    } else if t[0] == '[' {
      d := ArraySound(t, nesting);
    } else {
      d := ScalarSound(t, nesting);
    }
  }

  lemma ScalarSound(t: string, nesting: nat) returns (d: Doc)
    requires StartsSolid(t) && t[0] !in {'{', '['} && nesting <= MAX_NESTING && SkipSpaces(t) == t
    requires ParseValue(t, nesting).Some? && PastMinus(t, ParseValue(t, nesting).value.1)
    ensures ProperDoc(d, nesting)
    ensures t == TextThen(d, ParseValue(t, nesting).value.1) && ParseValue(t, nesting).value.0 == ValueOf(d, nesting)
  {
    if t[0] == '\"' {
      var ps := StringSound(t);
      d := StringDoc(ps);
    } else if t[0] == '-' || IsDigit(t[0]) {
      d := NumberFromText(t, nesting);
    } else if t[0] == 'n' {
      d := NullDoc;
      assert t == "null" + t[4..];
    } else {
      d := BoolDoc("true" <= t);
      assert if "true" <= t then t == "true" + t[4..] else t == "false" + t[5..];
    }
  }

  lemma NumberFromText(t: string, nesting: nat) returns (d: Doc)
    requires t != "" && (t[0] == '-' || IsDigit(t[0])) && nesting <= MAX_NESTING && SkipSpaces(t) == t
    requires ParseValue(t, nesting).Some? && PastMinus(t, ParseValue(t, nesting).value.1)
    ensures ProperDoc(d, nesting)
    ensures t == TextThen(d, ParseValue(t, nesting).value.1) && ParseValue(t, nesting).value.0 == ValueOf(d, nesting)
  {
    hide StrToD, IsDecimal, SpellingText, NumberOf, Shaped, ZeroRule;
    NumberDispatch(t, nesting);
    var k := StrToD(t).0;
    if IsDigit(t[0]) {
      SomethingRead(t);
    }
    assert t[0..] == t && k > 0;
    var n := NumberSound(t);
    d := NumberDoc(n);
    assert t == t[..k] + t[k..];
  }

  /** A digit is always read. */
  lemma SomethingRead(t: string)
    requires t != "" && IsDigit(t[0])
    ensures StrToD(t).0 > 0
  {
    hide Mantissa, Scale, ExponentLength;
  }

  lemma {:induction false} ArraySound(t: string, nesting: nat) returns (d: Doc)
    requires t != "" && t[0] == '[' && nesting <= MAX_NESTING && ParseArray(t, nesting + 1).Some?
    ensures d.ArrayDoc? && ProperDoc(d, nesting)
    ensures t == TextThen(d, ParseArray(t, nesting + 1).value.1)
    ensures ParseArray(t, nesting + 1).value.0 == ValueOf(d, nesting)
    decreases |t|, 1
  {
    hide ParseItems, SkipSpaces;
    var u, rest := SkipSpaces(t[1..]), ParseArray(t, nesting + 1).value.1;
    var ws := SplitWhite(t[1..]);
    assert t == "[" + t[1..];
    if Head(u) == ']' && u != "" {
      d := ArrayDoc(ws, []);
      assert u == "]" + rest;
    } else {
      var items := ItemsSound(u, nesting + 1, []);
      d := ArrayDoc("", WithBefore(items, ws));
      BeforeFirst(items, ws, nesting + 1, "]" + rest);
      assert [] + ItemValues(items, nesting + 1) == ItemValues(items, nesting + 1);
    }
  }

  /** The items with more white space in front. */
  function WithBefore(items: seq<Item>, ws: string): (r: seq<Item>)
    requires items != []
    ensures |r| == |items|
  {
    [items[0].(before := ws + items[0].before)] + items[1..]
  }

  lemma BeforeFirst(items: seq<Item>, ws: string, nesting: nat, rest: string)
    requires items != [] && ProperItems(items, nesting) && AllWhite(ws)
    ensures ProperItems(WithBefore(items, ws), nesting)
    ensures ItemsThen(WithBefore(items, ws), rest) == ws + ItemsThen(items, rest)
    ensures ItemValues(WithBefore(items, ws), nesting) == ItemValues(items, nesting)
  {
    hide ProperDoc, ValueOf;
    var r := WithBefore(items, ws);
    assert r[1..] == items[1..];
  }

  lemma HeadBehind(behind: string, u: string)
    requires AllWhite(behind) && u != "" && u[0] in {',', ']', '}'}
    ensures Head(behind + u) != '-'
  {
  }

  lemma {:induction false} ItemsSound(s: string, nesting: nat, acc: seq<Json>) returns (items: seq<Item>)
    requires ParseItems(s, nesting, acc).Some?
    ensures items != [] && ProperItems(items, nesting) && |acc| + |items| <= ARRAY_MAX_CAPACITY
    ensures s == ItemsThen(items, "]" + ParseItems(s, nesting, acc).value.1)
    ensures ParseItems(s, nesting, acc).value.0 == Arr(acc + ItemValues(items, nesting))
    decreases |s|, 3
  {
    hide ParseValue, ValueOf, ProperDoc, SkipSpaces;
    var (v, r) := ParseValue(s, nesting).value;
    var u, rest := SkipSpaces(r), ParseItems(s, nesting, acc).value.1;
    var behind := SplitWhite(r);
    HeadBehind(behind, u);
    var before, d := ValueSound(s, nesting);
    var first := Item(before, d, behind);
    NoItems(nesting);
    if u[0] == ']' {
      items := [first];
      assert u == "]" + rest && items[1..] == [];
      assert acc + [v] == acc + ItemValues(items, nesting);
    } else {
      var ws := SplitWhite(u[1..]);
      var more := ItemsSound(SkipSpaces(u[1..]), nesting, acc + [v]);
      items := [first] + WithBefore(more, ws);
      assert items[1..] == WithBefore(more, ws);
      BeforeFirst(more, ws, nesting, "]" + rest);
      Appended(acc, v, ItemValues(more, nesting));
      assert u == "," + u[1..];
    }
  }

  lemma NoItems(nesting: nat)
    ensures ProperItems([], nesting) && ItemValues([], nesting) == []
  {
  }

  lemma {:induction false} ObjectSound(t: string, nesting: nat) returns (d: Doc)
    requires t != "" && t[0] == '{' && nesting <= MAX_NESTING && ParseObject(t, nesting + 1).Some?
    ensures d.ObjectDoc? && ProperDoc(d, nesting)
    ensures t == TextThen(d, ParseObject(t, nesting + 1).value.1)
    ensures ParseObject(t, nesting + 1).value.0 == ValueOf(d, nesting)
    decreases |t|, 1
  {
    hide ParseMembers, SkipSpaces;
    var u, rest := SkipSpaces(t[1..]), ParseObject(t, nesting + 1).value.1;
    var ws := SplitWhite(t[1..]);
    assert t == "{" + t[1..];
    if Head(u) == '}' && u != "" {
      d := ObjectDoc(ws, []);
      assert u == "}" + rest;
    } else {
      MembersNeedText(u, nesting + 1, [], []);
      var members := MembersSound(u, nesting + 1, [], []);
      d := ObjectDoc("", FromBehind(members, ws));
      BeforeFirstMember(members, ws, nesting + 1, "}" + rest);
      assert [] + NamesOf(members) == NamesOf(members);
      assert [] + MemberValues(members, nesting + 1) == MemberValues(members, nesting + 1);
    }
  }

  lemma MembersNeedText(s: string, nesting: nat, names: seq<string>, values: seq<Json>)
    requires ParseMembers(s, nesting, names, values).Some?
    ensures s != ""
  {
  }

  /** The members with this white space in front. */
  function FromBehind(members: seq<Member>, ws: string): (r: seq<Member>)
    requires members != []
    ensures |r| == |members|
  {
    [members[0].(before := ws)] + members[1..]
  }

  lemma BeforeFirstMember(members: seq<Member>, ws: string, nesting: nat, rest: string)
    requires members != [] && ProperMembers(members, nesting) && AllWhite(ws)
    ensures ProperMembers(FromBehind(members, ws), nesting) && FromBehind(members, ws)[0].open == members[0].open
    ensures MembersThen(FromBehind(members, ws), rest) == ws + FirstMember(members, rest)
    ensures MemberValues(FromBehind(members, ws), nesting) == MemberValues(members, nesting)
    ensures NamesOf(FromBehind(members, ws)) == NamesOf(members)
  {
    hide ProperDoc, ValueOf, ProperString, StringValue;
    var r := FromBehind(members, ws);
    assert r[1..] == members[1..];
    assert FirstMember(r, rest) == FirstMember(members, rest);
    assert MembersThen(r, rest) == ws + FirstMember(r, rest);
  }

  /** A round of the loop over the members: the name in front of r0, the value in front of r, and what is done then. */
  predicate MembersRound(s: string, nesting: nat, names: seq<string>, values: seq<Json>,
                         key: string, r0: string, v: Json, r: string)
  {
    var t, u := SkipSpaces(r0), SkipSpaces(r);
    && s != "" && QuotedString(s) == (Some(key), r0) && t != "" && t[0] == ':'
    && ParseValue(t[1..], nesting) == Some((v, r)) && |names| < OBJECT_MAX_CAPACITY && key !in names
    && u != "" && (u[0] == '}' || u[0] == ',')
    && ParseMembers(s, nesting, names, values) ==
       if u[0] == '}' then Some((Obj(names + [key], values + [v]), u[1..]))
       else ParseMembers(SkipSpaces(u[1..]), nesting, names + [key], values + [v])
  }

  lemma MembersStep(s: string, nesting: nat, names: seq<string>, values: seq<Json>)
    returns (key: string, r0: string, v: Json, r: string)
    requires ParseMembers(s, nesting, names, values).Some?
    ensures MembersRound(s, nesting, names, values, key, r0, v, r) && |r0| < |s| && |r| < |s|
  {
    hide ParseValue, QuotedString, SkipSpaces;
    key, r0 := QuotedString(s).0.value, QuotedString(s).1;
    v, r := ParseValue(SkipSpaces(r0)[1..], nesting).value.0, ParseValue(SkipSpaces(r0)[1..], nesting).value.1;
  }

  lemma {:induction false} FirstMemberSound(s: string, key: string, r0: string, v: Json, r: string, nesting: nat)
    returns (m: Member)
    requires StartsSolid(s) && QuotedString(s) == (Some(key), r0) && |r0| < |s|
    requires var t, u := SkipSpaces(r0), SkipSpaces(r);
             && t != "" && t[0] == ':' && ParseValue(t[1..], nesting) == Some((v, r))
             && u != "" && (u[0] == '}' || u[0] == ',')
    ensures ProperMember(m) && m.before == "" && m.open == s[0] && StringValue(m.name) == key
    ensures ProperDoc(m.item.doc, nesting) && ValueOf(m.item.doc, nesting) == v
    ensures s == StringThen(m.open, m.name, m.behind + (":" + (m.item.before + TextThen(m.item.doc,
                   m.item.behind + SkipSpaces(r)))))
    decreases |s|, 2
  {
    hide ParseValue, ValueOf, ProperDoc, SkipSpaces, QuotedString, StringValue, ProperString, TextOf;
    var ps := StringSound(s);
    var behind := SplitWhite(r0);
    var t, u := SkipSpaces(r0), SkipSpaces(r);
    var behind2 := SplitWhite(r);
    HeadBehind(behind2, u);
    var before, d := ValueSound(t[1..], nesting);
    WhiteExactly(s[0]);
    assert t == ":" + t[1..];
    m := Member("", s[0], ps, behind, Item(before, d, behind2));
  }

  lemma {:induction false} MembersSound(s: string, nesting: nat, names: seq<string>, values: seq<Json>)
    returns (members: seq<Member>)
    requires StartsSolid(s) && ParseMembers(s, nesting, names, values).Some? && Unique(names) && |names| == |values|
    ensures members != [] && ProperMembers(members, nesting) && members[0].open == s[0]
    ensures |names| + |members| <= OBJECT_MAX_CAPACITY && Unique(names + NamesOf(members))
    ensures s == FirstMember(members, "}" + ParseMembers(s, nesting, names, values).value.1)
    ensures ParseMembers(s, nesting, names, values).value.0 ==
            Obj(names + NamesOf(members), values + MemberValues(members, nesting))
    decreases |s|, 3
  {
    hide ParseValue, ParseMembers, ValueOf, ProperDoc, SkipSpaces, QuotedString, StringValue, ProperString, TextOf;
    hide Unique, StringThen, TextThen, FirstMember, FromBehind, NamesOf, MemberValues, ProperMembers, ProperMember;
    var rest := ParseMembers(s, nesting, names, values).value.1;
    var key, r0, v, r := MembersStep(s, nesting, names, values);
    var u := SkipSpaces(r);
    var first := FirstMemberSound(s, key, r0, v, r, nesting);
    OneMoreName(names, key);
    if u[0] == '}' {
      members := [first];
      OnlyMember(first, nesting, "}" + rest);
      assert u == "}" + rest;
    } else {
      var ws := SplitWhite(u[1..]);
      SkipsShorter(u[1..]);
      var w := SkipSpaces(u[1..]);
      SkipsShorter(r);
      MembersNeedText(w, nesting, names + [key], values + [v]);
      var more := MembersSound(w, nesting, names + [key], values + [v]);
      members := [first] + FromBehind(more, ws);
      ConsMember(first, more, ws, nesting, "}" + rest);
      Appended(values, v, MemberValues(more, nesting));
      assert names + [key] + NamesOf(more) == names + ([key] + NamesOf(more));
      assert u == "," + u[1..];
    }
  }

  /** A member with none behind it. */
  lemma OnlyMember(first: Member, nesting: nat, rest: string)
    requires ProperMember(first) && ProperDoc(first.item.doc, nesting)
    ensures ProperMembers([first], nesting) && NamesOf([first]) == [StringValue(first.name)]
    ensures MemberValues([first], nesting) == [ValueOf(first.item.doc, nesting)]
    ensures FirstMember([first], rest) ==
            StringThen(first.open, first.name, first.behind + (":" + (first.item.before + TextThen(first.item.doc,
              first.item.behind + rest))))
  {
    hide ProperDoc, ValueOf, StringValue, ProperString, ProperMember, StringThen, TextThen;
    NoMembers(nesting);
    assert [first][1..] == [];
  }

  /** A member in front of others. */
  lemma ConsMember(first: Member, more: seq<Member>, ws: string, nesting: nat, rest: string)
    requires more != [] && ProperMembers(more, nesting) && AllWhite(ws)
    requires ProperMember(first) && ProperDoc(first.item.doc, nesting)
    ensures var members := [first] + FromBehind(more, ws);
            && ProperMembers(members, nesting)
            && NamesOf(members) == [StringValue(first.name)] + NamesOf(more)
            && MemberValues(members, nesting) == [ValueOf(first.item.doc, nesting)] + MemberValues(more, nesting)
            && FirstMember(members, rest) ==
               StringThen(first.open, first.name, first.behind + (":" + (first.item.before + TextThen(first.item.doc,
                 first.item.behind + ("," + (ws + FirstMember(more, rest)))))))
  {
    hide ProperDoc, ValueOf, StringValue, ProperString, ProperMember, StringThen, TextThen;
    BeforeFirstMember(more, ws, nesting, rest);
    assert ([first] + FromBehind(more, ws))[1..] == FromBehind(more, ws);
  }

  lemma SkipsShorter(s: string)
    ensures |SkipSpaces(s)| <= |s|
  {
  }

  lemma NoMembers(nesting: nat)
    ensures ProperMembers([], nesting) && MemberValues([], nesting) == [] && NamesOf([]) == []
  {
  }

  lemma OneMoreName(names: seq<string>, key: string)
    requires Unique(names)
    ensures key !in names ==> Unique(names + [key])
  {
  }

  /** s is white space, an array or object spelled by the grammar, of value v, and any text. */
  ghost predicate IsText(s: string, v: Json) {
    exists ws, d, rest :: SpellsText(s, ws, d, rest, v)
  }

  ghost predicate SpellsText(s: string, ws: string, d: Doc, rest: string, v: Json) {
    AllWhite(ws) && ProperDoc(d, 0) && Container(d) && s == ws + TextThen(d, rest) && v == ValueOf(d, 0)
  }

  /** The parser takes exactly the texts of the grammar within its limits, and for what they spell. */
  lemma TextsExactly(s: string, v: Json)
    ensures ParseText(s) == Some(v) <==> IsText(s, v)
  {
    if ParseText(s) == Some(v) {
      var ws, d, rest := TextSound(s);
      assert SpellsText(s, ws, d, rest, v);
    }
    if IsText(s, v) {
      var ws, d, rest :| SpellsText(s, ws, d, rest, v);
      TextParses(ws, d, rest);
    }
  }

  lemma TextSound(s: string) returns (ws: string, d: Doc, rest: string)
    requires ParseText(s).Some?
    ensures SpellsText(s, ws, d, rest, ParseText(s).value)
  {
    hide ParseValue, SkipSpaces;
    var t := SkipSpaces(s);
    ws := SplitWhite(s);
    SkipSpacesTwice(s);
    rest := ParseValue(t, 0).value.1;
    var ws2, e := ValueSound(t, 0);
    d := e;
    SolidHasNoWhite(ws2, d, rest, t);
  }

  lemma SolidHasNoWhite(ws: string, d: Doc, rest: string, t: string)
    requires AllWhite(ws) && t == ws + TextThen(d, rest) && t != "" && t[0] in {'{', '['} && ProperDoc(d, 0)
    ensures ws == "" && t == TextThen(d, rest) && Container(d)
  {
    assert ws == "" || White(t[0]);
    assert ws == "" && t == TextThen(d, rest);
    if !Container(d) {
      NotContainer(d, rest);
    }
  }

  lemma NotContainer(d: Doc, rest: string)
    requires ProperDoc(d, 0) && !Container(d)
    ensures TextThen(d, rest) != "" && TextThen(d, rest)[0] !in {'{', '['}
  {
    ProperStarts(d, 0, rest);
    if d.NumberDoc? {
      UnsignedStarts(d.n);
      assert TextThen(d, rest)[0] == if d.n.negative then '-' else d.n.whole[0];
    }
  }
}
