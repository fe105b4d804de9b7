/**
  The recursive-descent parser on values: each function takes the text from the cursor on and returns,
  with its result, the text from the advanced cursor on. The text is a C string: its end reads as NUL.
 */
module JsonParse {
  import opened Wrappers
  import opened JsonText
  import opened JsonUtf8

  const MAX_NESTING: nat := 19
  const STARTING_CAPACITY: nat := 15
  const ARRAY_MAX_CAPACITY: nat := 122880
  const OBJECT_MAX_CAPACITY: nat := 960

  /** The character under the cursor. */
  function Head(s: string): char { if s == "" then NUL else s[0] }

  predicate IsSpace(c: char) { c == ' ' || 9 <= c as int <= 13 }

  function SkipSpaces(s: string): (r: string)
    ensures |r| <= |s|
  {
    if s != "" && IsSpace(s[0]) then SkipSpaces(s[1..]) else s
  }

  lemma SkipSpacesTwice(s: string)
    ensures SkipSpaces(SkipSpaces(s)) == SkipSpaces(s)
  {
  }

  // ---------- strings ----------

  /** skip_quotes behind the opening quote: the text behind the closing one, or nothing if there is none. */
  function SkipQuotes(s: string): (r: string)
    ensures |r| <= |s|
    ensures r != "" ==> |r| < |s|
  {
    if s == "" then ""
    else if s[0] == '\"' then s[1..]
    else if s[0] == '\\' then if |s| == 1 then "" else SkipQuotes(s[2..])
    else SkipQuotes(s[1..])
  }

  function Unescape(c: char): Option<char> {
    match c
    case '\"' => Some('\"')
    case '\\' => Some('\\')
    case '/' => Some('/')
    case 'b' => Some(BACKSPACE)
    case 'f' => Some(FORMFEED)
    case 'n' => Some('\n')
    case 'r' => Some('\r')
    case 't' => Some('\t')
    case _ => None
  }

  function Prepend(s: string, r: Option<string>): Option<string> {
    match r
    case None => None
    case Some(t) => Some(s + t)
  }

  /** process_string on the characters between the quotes. */
  function ProcessString(s: string): Option<string>
    decreases |s|
  {
    if s == "" then Some("")
    else if s[0] == '\\' then
      if |s| == 1 then None
      else if s[1] == 'u' then
        match ParseUtf16(s[2..])
        case None => None
        case Some(e) => Prepend(Bytes(e.cp), ProcessString(s[2 + e.taken..]))
      else
        match Unescape(s[1])
        case None => None
        case Some(c) => Prepend([c], ProcessString(s[2..]))
    else if s[0] < ' ' then None
    else Prepend([s[0]], ProcessString(s[1..]))
  }

  /** The buffer read back as a C string ends at its first NUL, which the escape u0000 can put there. */
  function CPrefix(s: string): (r: string)
    ensures CString(r) && r <= s
  {
    if s == "" || s[0] == NUL then "" else [s[0]] + CPrefix(s[1..])
  }

  /** The string in a buffer ends at its first NUL, at n. */
  ghost predicate EndsAt(text: string, n: nat) {
    n < |text| && text[n] == NUL && NUL !in text[..n]
  }

  lemma EndIsUnique(text: string, n: nat, k: nat)
    requires EndsAt(text, n) && k <= n
    ensures text[k] == NUL <==> k == n
  {
    if k < n {
      assert text[k] in text[..n];
    }
  }

  lemma {:induction false} EndOfCPrefix(text: string, n: nat)
    requires EndsAt(text, n)
    ensures CPrefix(text) == text[..n]
  {
    EndIsUnique(text, n, 0);
    if n > 0 {
      var tail := text[1..];
      assert tail[..n - 1] == text[1..n];
      assert forall c :: c in tail[..n - 1] ==> c in text[..n];
      EndOfCPrefix(tail, n - 1);
      assert text[..n] == [text[0]] + tail[..n - 1];
    }
  }

  /** get_quoted_string: whatever character the cursor is at is taken for the opening quote. */
  function QuotedString(s: string): (r: (Option<string>, string))
    requires s != ""
    ensures |r.1| < |s|
  {
    var rest := SkipQuotes(s[1..]);
    if rest == "" then (None, "")
    else
      match ProcessString(s[1..|s| - |rest| - 1])
      case None => (None, rest)
      case Some(t) => (Some(CPrefix(t)), rest)
  }

  // ---------- numbers ----------

  predicate IsDigit(c: char) { '0' <= c <= '9' }

  function DigitValue(c: char): nat
    requires IsDigit(c)
  {
    c as nat - '0' as nat
  }

  function DigitCount(s: string): (n: nat)
    ensures n <= |s|
    ensures forall k :: 0 <= k < n ==> IsDigit(s[k])
    ensures n < |s| ==> !IsDigit(s[n])
  {
    if s != "" && IsDigit(s[0]) then 1 + DigitCount(s[1..]) else 0
  }

  function DigitsValue(s: string): nat
    requires forall k :: 0 <= k < |s| ==> IsDigit(s[k])
  {
    if s == "" then 0 else DigitsValue(s[..|s| - 1]) * 10 + DigitValue(s[|s| - 1])
  }

  function Power10(n: nat): nat { if n == 0 then 1 else 10 * Power10(n - 1) }

  lemma Power10Positive(n: nat)
    ensures Power10(n) > 0
  {
  }

  /** Length of an exponent part: the letter, an optional sign, and at least one digit. */
  function ExponentLength(s: string): (n: nat)
    ensures n <= |s|
  {
    if Head(s) in {'e', 'E'} then
      var sign := if |s| > 1 && s[1] in {'+', '-'} then 1 else 0;
      var digits := DigitCount(s[1 + sign..]);
      if digits == 0 then 0 else 1 + sign + digits
    else 0
  }

  /**
    The decimal numbers of strtod, without rounding: how many characters are taken and their value; none if no digit
    follows.
   */
  function StrToD(s: string): (r: (nat, real))
    ensures r.0 <= |s|
  {
    if Head(s) == '-' then
      var (n, value) := Unsigned(s[1..]);
      if n == 0 then (0, 0.0) else (n + 1, -value)
    else Unsigned(s)
  }

  function Unsigned(s: string): (r: (nat, real))
    ensures r.0 <= |s|
  {
    var whole := DigitCount(s);
    var t := s[whole..];
    var fraction := if Head(t) == '.' then DigitCount(t[1..]) else 0;
    if whole + fraction == 0 then (0, 0.0)
    else
      var pointed := if Head(t) == '.' then 1 + fraction else 0;
      var exponent := ExponentLength(t[pointed..]);
      var value := Mantissa(s[..whole], if pointed == 0 then "" else t[1..1 + fraction]);
      (whole + pointed + exponent, Scale(value, t[pointed..][..exponent]))
  }

  function Mantissa(whole: string, fraction: string): real
    requires forall k :: 0 <= k < |whole| ==> IsDigit(whole[k])
    requires forall k :: 0 <= k < |fraction| ==> IsDigit(fraction[k])
  {
    Power10Positive(|fraction|);
    DigitsValue(whole) as real + DigitsValue(fraction) as real / Power10(|fraction|) as real
  }

  function Scale(value: real, exponent: string): real {
    var sign := if |exponent| > 1 && exponent[1] in {'+', '-'} then 1 else 0;
    var digits := if |exponent| > 1 then exponent[1 + sign..] else "";
    if exponent == "" || !(forall k :: 0 <= k < |digits| ==> IsDigit(digits[k])) then value
    else
      var p := Power10(DigitsValue(digits));
      Power10Positive(DigitsValue(digits));
      if sign == 1 && exponent[1] == '-' then value / p as real else value * p as real
  }

  /** is_decimal on the first n characters: no leading zeros and no hexadecimal mark. */
  predicate IsDecimal(s: string, n: nat)
    requires n <= |s|
  {
    && !(n > 1 && s[0] == '0' && s[1] != '.')
    && !(n > 2 && s[0] == '-' && s[1] == '0' && s[2] != '.')
    && forall k :: 0 <= k < n ==> s[k] != 'x' && s[k] != 'X'
  }

  type Parsed = Option<(Json, string)>

  function ParseNumber(s: string): (r: Parsed)
    ensures r.Some? ==> |r.value.1| <= |s|
  {
    var (n, value) := StrToD(s);
    if IsDecimal(s, n) then Some((Num(value), s[n..])) else None
  }

  // ---------- values ----------

  function ParseToken(s: string, token: string, v: Json): (r: Parsed)
    ensures r.Some? ==> |r.value.1| <= |s|
  {
    if token <= s then Some((v, s[|token|..])) else None
  }

  function ParseString(s: string): (r: Parsed)
    requires s != ""
    ensures r.Some? ==> |r.value.1| < |s|
  {
    match QuotedString(s)
    case (None, _) => None
    case (Some(t), rest) => Some((Str(t), rest))
  }

  /** parse_value */
  function ParseValue(s: string, nesting: nat): (r: Parsed)
    ensures r.Some? ==> |r.value.1| <= |s|
    decreases |s|, 2
  {
    if nesting > MAX_NESTING then None
    else
      var t := SkipSpaces(s);
      var c := Head(t);
      if t == "" then None
      else if c == '{' then ParseObject(t, nesting + 1)
      else if c == '[' then ParseArray(t, nesting + 1)
      else if c == '\"' then ParseString(t)
      else if c == 't' || c == 'f' then
        (var yes := ParseToken(t, "true", Bool(true)); if yes.Some? then yes else ParseToken(t, "false", Bool(false)))
      else if c == '-' || IsDigit(c) then ParseNumber(t)
      else if c == 'n' then ParseToken(t, "null", Null)
      else None
  }

  /** parse_array_value, with the cursor at the opening bracket. */
  function ParseArray(s: string, nesting: nat): (r: Parsed)
    requires s != ""
    ensures r.Some? ==> |r.value.1| <= |s|
    decreases |s|, 1
  {
    var t := SkipSpaces(s[1..]);
    if Head(t) == ']' && t != "" then Some((Arr([]), t[1..])) else ParseItems(t, nesting, [])
  }

  /** The loop over the items, of which some have been read. */
  function ParseItems(s: string, nesting: nat, items: seq<Json>): (r: Parsed)
    ensures r.Some? ==> |r.value.1| <= |s|
    decreases |s|, 3
  {
    if s == "" then None
    else
      match ParseValue(s, nesting)
      case None => None
      case Some((v, rest)) =>
        if |items| >= ARRAY_MAX_CAPACITY then None
        else EndOrNextItem(SkipSpaces(rest), nesting, items + [v])
  }

  function EndOrNextItem(s: string, nesting: nat, items: seq<Json>): (r: Parsed)
    ensures r.Some? ==> |r.value.1| <= |s|
    decreases |s|, 0
  {
    if s == "" then None
    else if s[0] == ',' then ParseItems(SkipSpaces(s[1..]), nesting, items)
    else if s[0] == ']' then Some((Arr(items), s[1..]))
    else None
  }

  /** parse_object_value, with the cursor at the opening brace. */
  function ParseObject(s: string, nesting: nat): (r: Parsed)
    requires s != ""
    ensures r.Some? ==> |r.value.1| <= |s|
    decreases |s|, 1
  {
    var t := SkipSpaces(s[1..]);
    if Head(t) == '}' && t != "" then Some((Obj([], []), t[1..])) else ParseMembers(t, nesting, [], [])
  }

  /** The loop over the members; a fresh object takes new names until its capacity is used up. */
  function ParseMembers(s: string, nesting: nat, names: seq<string>, values: seq<Json>): (r: Parsed)
    ensures r.Some? ==> |r.value.1| <= |s|
    decreases |s|, 3
  {
    if s == "" then None
    else
      match QuotedString(s)
      case (None, _) => None
      case (Some(key), rest) =>
        var t := SkipSpaces(rest);
        if t == "" || t[0] != ':' then None
        else
          match ParseValue(t[1..], nesting)
          case None => None
          case Some((v, rest2)) =>
            if |names| >= OBJECT_MAX_CAPACITY || key in names then None
            else EndOrNextMember(SkipSpaces(rest2), nesting, names + [key], values + [v])
  }

  function EndOrNextMember(s: string, nesting: nat, names: seq<string>, values: seq<Json>): (r: Parsed)
    ensures r.Some? ==> |r.value.1| <= |s|
    decreases |s|, 0
  {
    if s == "" then None
    else if s[0] == ',' then ParseMembers(SkipSpaces(s[1..]), nesting, names, values)
    else if s[0] == '}' then Some((Obj(names, values), s[1..]))
    else None
  }

  /** json_parse_string: the root is an object or an array, and what follows it is not looked at. */
  function ParseText(s: string): Option<Json> {
    var t := SkipSpaces(s);
    if t == "" || t[0] !in {'{', '['} then None
    else
      match ParseValue(t, 0)
      case None => None
      case Some((v, _)) => Some(v)
  }
}
