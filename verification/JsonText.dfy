/**
  JSON trees and their text. A C string is a string without NUL; a char is the code of one byte.
  Objects keep their names and values side by side, as the program does.
 */
module JsonText {
  datatype Json =
    | Null
    | Bool(b: bool)
    | Num(n: real)
    | Str(s: string)
    | Arr(items: seq<Json>)
    | Obj(names: seq<string>, values: seq<Json>)

  const NUL: char := 0 as char
  const BACKSPACE: char := 8 as char
  const FORMFEED: char := 12 as char

  predicate CString(s: string) { NUL !in s }

  ghost predicate Unique(names: seq<string>) {
    forall i, j :: 0 <= i < j < |names| ==> names[i] != names[j]
  }

  /** What every tree built by the library satisfies. */
  ghost predicate WellFormed(v: Json) {
    match v
    case Str(s) => CString(s)
    case Arr(items) => forall i :: 0 <= i < |items| ==> WellFormed(items[i])
    case Obj(names, values) =>
      && |names| == |values| && Unique(names)
      && (forall i :: 0 <= i < |names| ==> CString(names[i]))
      && (forall i :: 0 <= i < |values| ==> WellFormed(values[i]))
    case _ => true
  }

  /** Index of the first member called name, or the number of members. */
  function Find(names: seq<string>, name: string): (i: nat)
    ensures i <= |names|
    ensures i < |names| ==> names[i] == name
    ensures forall k :: 0 <= k < i ==> names[k] != name
  {
    if names == [] then 0 else if names[0] == name then 0 else 1 + Find(names[1..], name)
  }

  lemma FindUnique(names: seq<string>, i: nat)
    requires Unique(names) && i < |names|
    ensures Find(names, names[i]) == i
  {
  }

  /** s with text written at a place. */
  ghost function Put(s: string, at: nat, text: string): string
    requires at + |text| <= |s|
  {
    s[..at] + text + s[at + |text|..]
  }

  // ---------- strings ----------

  function EscapeChar(c: char): string {
    if c == '\"' then "\\\""
    else if c == '\\' then "\\\\"
    else if c == '/' then "\\/"
    else if c == BACKSPACE then "\\b"
    else if c == FORMFEED then "\\f"
    else if c == '\n' then "\\n"
    else if c == '\r' then "\\r"
    else if c == '\t' then "\\t"
    else [c]
  }

  function Escape(s: string): string {
    if s == "" then "" else EscapeChar(s[0]) + Escape(s[1..])
  }

  /** json_serialize_string */
  function Quote(s: string): string {
    "\"" + Escape(s) + "\""
  }

  // ---------- numbers ----------

  function Digit(d: nat): char
    requires d < 10
  {
    ('0' as int + d) as char
  }

  function Decimal(n: nat): string {
    if n < 10 then [Digit(n)] else Decimal(n / 10) + [Digit(n % 10)]
  }

  /** The %d conversion. */
  function IntText(n: int): string {
    if n < 0 then "-" + Decimal(-n) else Decimal(n)
  }

  /** num == (double)(int)num, where the conversion to int is defined */
  predicate IsInt(n: real) {
    n == n.Floor as real && -0x8000_0000 <= n.Floor < 0x8000_0000
  }

  function RoundHalfEven(x: real): (n: int)
    ensures x >= 0.0 ==> n >= 0
  {
    var low := x.Floor;
    var rest := x - low as real;
    if rest < 0.5 || (rest == 0.5 && low % 2 == 0) then low else low + 1
  }

  function Zeros(n: nat): string { seq(n, _ => '0') }

  /** At least six digits. */
  function SixDigits(n: nat): string {
    var d := Decimal(n);
    (if |d| < 6 then Zeros(6 - |d|) else "") + d
  }

  /** The millionths nearest to x, without its sign; the even one if two are. */
  function Millionths(x: real): nat {
    RoundHalfEven((if x < 0.0 then -x else x) * 1000000.0)
  }

  /** The %f conversion: six decimals of the exact value. */
  function FixedText(x: real): string {
    (if x < 0.0 then "-" else "") + (Decimal(Millionths(x) / 1000000) + "." + SixDigits(Millionths(x) % 1000000))
  }

  function NumberText(n: real): string {
    if IsInt(n) then IntText(n.Floor) else FixedText(n)
  }

  // ---------- trees ----------

  function Indent(level: nat): string {
    if level == 0 then "" else "    " + Indent(level - 1)
  }

  function NewLine(pretty: bool): string { if pretty then "\n" else "" }

  function IndentIf(pretty: bool, level: nat): string { if pretty then Indent(level) else "" }

  function Gap(pretty: bool): string { if pretty then " " else "" }

  function Comma(i: nat, count: nat): string { if i + 1 < count then "," else "" }

  /** The parts from i on, laid out up to the closing bracket. */
  function Layout(parts: seq<string>, i: nat, level: nat, pretty: bool): string
    requires i <= |parts|
    decreases |parts| - i
  {
    if i == |parts| then if parts == [] then "" else IndentIf(pretty, level)
    else
      IndentIf(pretty, level + 1) + parts[i] + Comma(i, |parts|) + NewLine(pretty) + Layout(parts, i + 1, level, pretty)
  }

  /** What follows part i, up to and including close, which holds the bracket and the text behind it. */
  function AfterPart(parts: seq<string>, i: nat, level: nat, pretty: bool, close: string): string
    requires i < |parts|
  {
    Comma(i, |parts|) + (NewLine(pretty) + (Layout(parts, i + 1, level, pretty) + close))
  }

  lemma LayoutText(parts: seq<string>, i: nat, level: nat, pretty: bool, close: string)
    requires i < |parts|
    ensures Layout(parts, i, level, pretty) + close ==
            IndentIf(pretty, level + 1) + (parts[i] + AfterPart(parts, i, level, pretty, close))
  {
    Regroup(IndentIf(pretty, level + 1), parts[i], Comma(i, |parts|), NewLine(pretty),
      Layout(parts, i + 1, level, pretty), close);
  }

  lemma Regroup(a: string, b: string, c: string, d: string, e: string, f: string)
    ensures a + b + c + d + e + f == a + (b + (c + (d + (e + f))))
  {
    assert a + b + c + d + e + f == a + b + c + d + (e + f);
    assert a + b + c + d + (e + f) == a + b + c + (d + (e + f));
    assert a + b + c + (d + (e + f)) == a + b + (c + (d + (e + f)));
  }

  /** The inside of a container. */
  function Inside(parts: seq<string>, level: nat, pretty: bool): string {
    (if parts == [] then "" else NewLine(pretty)) + Layout(parts, 0, level, pretty)
  }

  /** What json_serialize_to_buffer_r writes for v at the given level. */
  function Print(v: Json, level: nat, pretty: bool): string
    requires WellFormed(v)
    decreases v, 1
  {
    match v
    case Null => "null"
    case Bool(b) => if b then "true" else "false"
    case Num(n) => NumberText(n)
    case Str(s) => Quote(s)
    case Arr(_) => "[" + Inside(Parts(v, level, pretty), level, pretty) + "]"
    case Obj(_, _) => "{" + Inside(Parts(v, level, pretty), level, pretty) + "}"
  }

  /** The texts of the items or members; the value printed for a member is the one that looking up its name finds. */
  function Parts(v: Json, level: nat, pretty: bool): (parts: seq<string>)
    requires WellFormed(v) && (v.Arr? || v.Obj?)
    ensures |parts| == if v.Arr? then |v.items| else |v.names|
    decreases v, 0
  {
    if v.Arr? then
      seq(|v.items|, k requires 0 <= k < |v.items| => Print(v.items[k], level + 1, pretty))
    else
      seq(|v.names|, k requires 0 <= k < |v.names| =>
        MemberText(v.names[k], Print(v.values[Find(v.names, v.names[k])], level + 1, pretty), pretty))
  }

  function MemberText(name: string, value: string, pretty: bool): string {
    Quote(name) + ":" + Gap(pretty) + value
  }
}
