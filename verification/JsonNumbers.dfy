/** Printed numbers read back: ints as they are, other numbers rounded to six decimals. */
module JsonNumbers {
  import opened Wrappers
  import opened JsonParse
  import opened JsonText

  /** The text goes on with something that ends a value. */
  predicate Stops(rest: string) {
    rest != "" && rest[0] in {',', ']', '}', '\n'}
  }

  lemma {:induction false} DecimalDigits(n: nat)
    ensures Decimal(n) != ""
    ensures forall k :: 0 <= k < |Decimal(n)| ==> IsDigit(Decimal(n)[k])
    ensures DigitsValue(Decimal(n)) == n
    ensures n > 0 ==> Decimal(n)[0] != '0'
  {
    if n < 10 {
      assert Decimal(n) == [Digit(n)];
      assert Decimal(n)[..0] == "";
    } else {
      DecimalDigits(n / 10);
      assert Decimal(n)[..|Decimal(n)| - 1] == Decimal(n / 10);
    }
  }

  lemma {:induction false} DigitCountOf(d: string, rest: string)
    requires forall k :: 0 <= k < |d| ==> IsDigit(d[k])
    requires rest == "" || !IsDigit(rest[0])
    ensures DigitCount(d + rest) == |d|
  {
    if d == "" {
      assert d + rest == rest;
    } else {
      assert (d + rest)[1..] == d[1..] + rest;
      DigitCountOf(d[1..], rest);
    }
  }

  lemma NoExponent(rest: string)
    requires Stops(rest)
    ensures ExponentLength(rest) == 0 && Head(rest) != '.' && !IsDigit(rest[0])
  {
  }

  lemma UnsignedStrToD(d: string, rest: string)
    requires d != "" && forall k :: 0 <= k < |d| ==> IsDigit(d[k])
    requires Stops(rest)
    ensures Unsigned(d + rest) == (|d|, DigitsValue(d) as real)
  {
    NoExponent(rest);
    DigitCountOf(d, rest);
    var s := d + rest;
    assert s[|d|..] == rest && s[..|d|] == d;
    WholeMantissa(d);
    hide DigitCount, DigitsValue, Mantissa, Scale, ExponentLength, Stops;
    NothingBehind(rest);
    NoScale(DigitsValue(d) as real);
  }

  lemma NothingBehind(rest: string)
    ensures rest[0..] == rest && rest[..0] == ""
  {
  }

  lemma WholeMantissa(d: string)
    requires forall k :: 0 <= k < |d| ==> IsDigit(d[k])
    ensures Mantissa(d, "") == DigitsValue(d) as real
  {
  }

  lemma NoScale(value: real)
    ensures Scale(value, "") == value
  {
  }

  lemma BehindMinus(d: string, rest: string)
    ensures Head("-" + d + rest) == '-' && ("-" + d + rest)[1..] == d + rest
  {
  }

  lemma NegativeStrToD(t: string, value: real, rest: string)
    requires Unsigned(t + rest) == (|t|, value) && t != ""
    ensures StrToD("-" + t + rest) == (|t| + 1, -value)
  {
    hide Unsigned;
    BehindMinus(t, rest);
  }

  lemma PlainStrToD(t: string, value: real, rest: string)
    requires Unsigned(t + rest) == (|t|, value) && t != "" && IsDigit(t[0])
    ensures StrToD(t + rest) == (|t|, value)
  {
    hide Unsigned;
    assert (t + rest)[0] == t[0];
  }

  lemma SignedStrToD(negative: bool, t: string, value: real, rest: string)
    requires Unsigned(t + rest) == (|t|, value) && t != "" && IsDigit(t[0])
    ensures var s := (if negative then "-" else "") + t;
            StrToD(s + rest) == (|s|, if negative then -value else value)
  {
    hide Unsigned, StrToD;
    if negative {
      NegativeStrToD(t, value, rest);
    } else {
      PlainStrToD(t, value, rest);
      assert "" + t == t;
    }
  }

  lemma StrToDOfInt(k: int, rest: string)
    requires Stops(rest)
    ensures StrToD(IntText(k) + rest) == (|IntText(k)|, k as real)
  {
    hide Unsigned, StrToD, Decimal, DigitsValue, Stops;
    var n := if k < 0 then -k else k;
    DecimalDigits(n);
    UnsignedStrToD(Decimal(n), rest);
    SignedStrToD(k < 0, Decimal(n), n as real, rest);
    assert IntText(k) == (if k < 0 then "-" else "") + Decimal(n);
    NegateReal(k);
  }

  lemma NegateReal(k: int)
    ensures -((-k) as real) == k as real
  {
  }

  lemma DecimalIsDecimal(k: int, rest: string)
    ensures IsDecimal(IntText(k) + rest, |IntText(k)|)
  {
    var n := if k < 0 then -k else k;
    var t, s := IntText(k), IntText(k) + rest;
    DecimalDigits(n);
    assert forall j :: 0 <= j < |t| ==> s[j] == t[j];
    if n == 0 {
      assert t == [Digit(0)];
    } else if k < 0 {
      assert forall j :: 1 <= j < |t| ==> t[j] == Decimal(n)[j - 1];
    }
  }

  // ---------- six decimals ----------

  /** The multiple of a millionth that is nearest to x, ties to the even one. */
  function SixDecimals(x: real): real {
    if x < 0.0 then -(Millionths(x) as real / 1000000.0) else Millionths(x) as real / 1000000.0
  }

  lemma {:induction false} DecimalLength(n: nat, k: nat)
    requires k > 0 && n < Power10(k)
    ensures 0 < |Decimal(n)| <= k
  {
    if n >= 10 {
      DecimalLength(n / 10, k - 1);
    }
  }

  lemma {:induction false} ZerosInFront(k: nat, d: string)
    requires forall i :: 0 <= i < |d| ==> IsDigit(d[i])
    ensures forall i :: 0 <= i < |Zeros(k) + d| ==> IsDigit((Zeros(k) + d)[i])
    ensures DigitsValue(Zeros(k) + d) == DigitsValue(d)
    decreases k + |d|
  {
    if d != "" {
      var e := d[..|d| - 1];
      ZerosInFront(k, e);
      assert (Zeros(k) + d)[..k + |d| - 1] == Zeros(k) + e;
    } else if k > 0 {
      ZerosInFront(k - 1, "");
      assert (Zeros(k) + d)[..k - 1] == Zeros(k - 1) + "";
    }
  }

  lemma SixDigitsValue(n: nat)
    requires n < 1000000
    ensures |SixDigits(n)| == 6 && forall i :: 0 <= i < 6 ==> IsDigit(SixDigits(n)[i])
    ensures DigitsValue(SixDigits(n)) == n
  {
    DecimalDigits(n);
    assert Power10(6) == 1000000;
    DecimalLength(n, 6);
    ZerosInFront(6 - |Decimal(n)|, Decimal(n));
    assert SixDigits(n) == Zeros(6 - |Decimal(n)|) + Decimal(n);
  }

  lemma PointedParts(d: string, f: string, rest: string)
    ensures var s, t := d + "." + f + rest, "." + (f + rest);
            && s == d + t && s[..|d|] == d && s[|d|..] == t
            && t[1..] == f + rest && t[1..1 + |f|] == f && t[1 + |f|..] == rest
  {
  }

  lemma PointedStrToD(d: string, f: string, rest: string)
    requires d != "" && forall k :: 0 <= k < |d| ==> IsDigit(d[k])
    requires forall k :: 0 <= k < |f| ==> IsDigit(f[k])
    requires Stops(rest)
    ensures Unsigned(d + "." + f + rest) == (|d| + 1 + |f|, Mantissa(d, f))
  {
    hide DigitsValue, Mantissa, Scale;
    PointedParts(d, f, rest);
    NoExponent(rest);
    DigitCountOf(d, "." + (f + rest));
    DigitCountOf(f, rest);
    hide DigitCount, ExponentLength, Stops;
    NothingBehind(rest);
    NoScale(Mantissa(d, f));
  }

  lemma MantissaOfMillionths(n: nat, d: string, f: string)
    requires (forall k :: 0 <= k < |d| ==> IsDigit(d[k])) && DigitsValue(d) == n / 1000000
    requires |f| == 6 && (forall k :: 0 <= k < |f| ==> IsDigit(f[k])) && DigitsValue(f) == n % 1000000
    ensures Mantissa(d, f) == n as real / 1000000.0
  {
    assert Power10(6) == 1000000;
    assert n == n / 1000000 * 1000000 + n % 1000000;
  }

  /** The digits of a number of millionths, read. */
  lemma MillionthsStrToD(n: nat, rest: string)
    requires Stops(rest)
    ensures var t := Decimal(n / 1000000) + "." + SixDigits(n % 1000000);
            Unsigned(t + rest) == (|t|, n as real / 1000000.0) && IsDigit(t[0])
  {
    DecimalDigits(n / 1000000);
    SixDigitsValue(n % 1000000);
    PointedStrToD(Decimal(n / 1000000), SixDigits(n % 1000000), rest);
    MantissaOfMillionths(n, Decimal(n / 1000000), SixDigits(n % 1000000));
  }

  lemma FixedStrToD(x: real, rest: string)
    requires Stops(rest)
    ensures StrToD(FixedText(x) + rest) == (|FixedText(x)|, SixDecimals(x))
  {
    hide Unsigned, StrToD, Decimal, SixDigits, Millionths, Stops;
    var t := Decimal(Millionths(x) / 1000000) + "." + SixDigits(Millionths(x) % 1000000);
    MillionthsStrToD(Millionths(x), rest);
    SignedStrToD(x < 0.0, t, Millionths(x) as real / 1000000.0, rest);
  }

  lemma FixedIsDecimal(x: real, rest: string)
    ensures IsDecimal(FixedText(x) + rest, |FixedText(x)|)
    ensures FixedText(x) != "" && (IsDigit(FixedText(x)[0]) || FixedText(x)[0] == '-')
  {
    var n := Millionths(x);
    var d, f := Decimal(n / 1000000), SixDigits(n % 1000000);
    var t := FixedText(x);
    var sign := if x < 0.0 then 1 else 0;
    DecimalDigits(n / 1000000);
    SixDigitsValue(n % 1000000);
    assert forall k :: 0 <= k < |d| ==> t[sign + k] == d[k];
    assert t[sign + |d|] == '.';
    assert forall k :: 0 <= k < |f| ==> t[sign + |d| + 1 + k] == f[k];
  }

  // ---------- printed numbers ----------

  /** Nothing is lost on a number that is printed as int. */
  lemma IntHasSixDecimals(x: real)
    requires x == x.Floor as real
    ensures SixDecimals(x) == x
  {
    var k := (if x < 0.0 then -x.Floor else x.Floor) * 1000000;
    assert (if x < 0.0 then -x else x) * 1000000.0 == k as real;
    assert (k as real).Floor == k;
  }

  /** A printed number, in front of something that ends a value, is read back with six decimals. */
  lemma NumberRoundTrip(x: real, rest: string)
    requires Stops(rest)
    ensures ParseNumber(NumberText(x) + rest) == Some((Num(SixDecimals(x)), rest))
  {
    var t := NumberText(x);
    if IsInt(x) {
      StrToDOfInt(x.Floor, rest);
      DecimalIsDecimal(x.Floor, rest);
      IntHasSixDecimals(x);
    } else {
      FixedStrToD(x, rest);
      FixedIsDecimal(x, rest);
    }
    hide StrToD, IsDecimal, NumberText, SixDecimals;
    assert (t + rest)[|t|..] == rest;
  }

  lemma NumberTextHead(x: real)
    ensures NumberText(x) != "" && (IsDigit(NumberText(x)[0]) || NumberText(x)[0] == '-')
  {
    if IsInt(x) {
      DecimalDigits(if x.Floor < 0 then -x.Floor else x.Floor);
    } else {
      FixedIsDecimal(x, "");
    }
  }

  // ---------- the text of a number, place by place ----------

  const DIGITS: string := "0123456789"

  /** The digit of n at place k, units at place 0. */
  function Place(n: nat, k: nat): (d: nat)
    ensures d < 10
  {
    Power10Positive(k);
    n / Power10(k) % 10
  }

  /** d shows n at as many decimal places as it has characters, units last. */
  ghost predicate Shows(d: string, n: nat) {
    forall i :: 0 <= i < |d| ==> d[i] == DIGITS[Place(n, |d| - 1 - i)]
  }

  /** d is n in decimal, without leading zeros. */
  ghost predicate WritesOut(d: string, n: nat) {
    d != "" && (|d| > 1 ==> d[0] != '0') && n < Power10(|d|) && Shows(d, n)
  }

  lemma DigitExactly(d: nat)
    requires d < 10
    ensures Digit(d) == DIGITS[d] && IsDigit(DIGITS[d]) && DigitValue(DIGITS[d]) == d
  {
  }

  lemma DivDiv(n: nat, p: nat)
    requires p > 0
    ensures n / (10 * p) == n / 10 / p
  {
    var q, r := n / 10 / p, n / 10 % p;
    assert n / 10 == q * p + r;
    assert n == (10 * p) * q + (10 * r + n % 10);
    assert 10 * r + n % 10 < 10 * p;
    QuotientIs(n, 10 * p, q, 10 * r + n % 10);
  }

  lemma QuotientIs(n: nat, d: nat, q: nat, r: nat)
    requires n == d * q + r && r < d
    ensures n / d == q
  {
    var e := n / d - q;
    assert n == d * (n / d) + n % d;
    assert d * e == r - n % d;
    assert e >= 1 ==> d * e >= d * 1;
    assert e <= -1 ==> d * e <= d * -1;
  }

  lemma NextPlace(n: nat, k: nat)
    ensures Place(n, k + 1) == Place(n / 10, k) && Place(n, 0) == n % 10
  {
    Power10Positive(k);
    DivDiv(n, Power10(k));
    assert n / 1 == n;
  }

  lemma NoPlace(n: nat, k: nat)
    requires n < Power10(k)
    ensures Place(n, k) == 0
  {
    QuotientIs(n, Power10(k), 0, n);
  }

  lemma OneMorePlace(d: string, n: nat)
    requires Shows(d, n / 10)
    ensures Shows(d + [Digit(n % 10)], n)
  {
    hide Place;
    var t := d + [Digit(n % 10)];
    forall i | 0 <= i < |t| ensures t[i] == DIGITS[Place(n, |t| - 1 - i)] {
      NextPlace(n, if i < |d| then |d| - 1 - i else 0);
      DigitExactly(n % 10);
      assert i < |d| ==> t[i] == d[i];
    }
  }

  lemma {:induction false} DecimalExactly(n: nat)
    ensures WritesOut(Decimal(n), n)
  {
    if n >= 10 {
      DecimalExactly(n / 10);
      OneMorePlace(Decimal(n / 10), n);
      DecimalDigits(n);
    } else {
      DigitExactly(n);
      assert Decimal(n) == [Digit(n)];
      OneMorePlace("", n);
      assert "" + [Digit(n)] == [Digit(n)];
    }
  }

  lemma OneMoreZero(t: string, n: nat)
    requires Shows(t, n) && n < Power10(|t|)
    ensures Shows(['0'] + t, n) && n < Power10(|t| + 1)
  {
    hide Place;
    NoPlace(n, |t|);
    forall i | 0 <= i < |t| + 1 ensures (['0'] + t)[i] == DIGITS[Place(n, |t| - i)] {
      assert i > 0 ==> (['0'] + t)[i] == t[i - 1];
    }
  }

  lemma {:induction false} ZerosShow(k: nat, d: string, n: nat)
    requires Shows(d, n) && n < Power10(|d|)
    ensures Shows(Zeros(k) + d, n) && n < Power10(k + |d|)
  {
    hide Shows;
    if k == 0 {
      assert Zeros(0) + d == d;
    } else {
      ZerosShow(k - 1, d, n);
      OneMoreZero(Zeros(k - 1) + d, n);
      assert Zeros(k) + d == ['0'] + (Zeros(k - 1) + d);
    }
  }

  lemma SixDigitsExactly(n: nat)
    requires n < 1000000
    ensures |SixDigits(n)| == 6 && Shows(SixDigits(n), n)
  {
    DecimalExactly(n);
    SixDigitsValue(n);
    assert Power10(6) == 1000000;
    DecimalLength(n, 6);
    ZerosShow(6 - |Decimal(n)|, Decimal(n), n);
    assert SixDigits(n) == Zeros(6 - |Decimal(n)|) + Decimal(n);
  }

  /** m is a number of millionths nearest to the size of x. */
  predicate NearestMillionths(m: nat, x: real) {
    var size := if x < 0.0 then -x else x;
    -0.5 <= m as real - size * 1000000.0 <= 0.5
  }

  lemma MillionthsAreNearest(x: real)
    ensures NearestMillionths(Millionths(x), x)
  {
  }

  function Sign(x: real): string { if x < 0.0 then "-" else "" }

  function Size(k: int): nat { if k < 0 then -k else k }

  /**
    How a number is printed: an int of 32 bits as its digits alone, any other number as its digits before and its six
    digits behind the point, to the nearest millionth.
   */
  lemma NumberTextExactly(x: real)
    ensures IsInt(x) ==> exists d :: NumberText(x) == Sign(x) + d && WritesOut(d, Size(x.Floor))
    ensures !IsInt(x) ==>
              exists m: nat, d, f ::
                && NumberText(x) == Sign(x) + d + "." + f && NearestMillionths(m, x)
                && WritesOut(d, m / 1000000) && |f| == 6 && Shows(f, m % 1000000)
  {
    if IsInt(x) {
      DecimalExactly(Size(x.Floor));
      assert NumberText(x) == Sign(x) + Decimal(Size(x.Floor));
    } else {
      var m := Millionths(x);
      MillionthsAreNearest(x);
      DecimalExactly(m / 1000000);
      SixDigitsExactly(m % 1000000);
      assert NumberText(x) == Sign(x) + Decimal(m / 1000000) + "." + SixDigits(m % 1000000);
    }
  }
}
