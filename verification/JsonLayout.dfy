/** How printed containers are laid out, and how dotted names are taken apart: both said by joining parts. */
module JsonLayout {
  import opened JsonText
  import opened JsonDots

  function Join(parts: seq<string>, separator: string): string {
    if parts == [] then ""
    else if |parts| == 1 then parts[0]
    else parts[0] + separator + Join(parts[1..], separator)
  }

  function Spaces(n: nat): string { seq(n, _ => ' ') }

  // ---------- containers ----------

  lemma {:induction false} IndentIsSpaces(level: nat)
    ensures Indent(level) == Spaces(4 * level)
  {
    if level > 0 {
      IndentIsSpaces(level - 1);
    }
  }

  lemma {:induction false} LayoutIsJoin(parts: seq<string>, i: nat, level: nat, pretty: bool)
    requires i < |parts|
    ensures var n, s := NewLine(pretty), IndentIf(pretty, level + 1);
            Layout(parts, i, level, pretty) == s + (Join(parts[i..], "," + n + s) + (n + IndentIf(pretty, level)))
    decreases |parts| - i
  {
    hide Indent;
    var n, s, e := NewLine(pretty), IndentIf(pretty, level + 1), IndentIf(pretty, level);
    if i + 1 == |parts| {
      assert parts[i..] == [parts[i]];
      Rejoin(s, parts[i], n, e);
    } else {
      LayoutIsJoin(parts, i + 1, level, pretty);
      var j := Join(parts[i + 1..], "," + n + s);
      assert parts[i..][1..] == parts[i + 1..];
      Regather(s, parts[i], n, j, n + e);
    }
  }

  lemma Rejoin(s: string, x: string, n: string, e: string)
    ensures s + x + "" + n + e == s + (x + (n + e))
  {
    assert s + x + "" == s + x;
    assert s + x + n + e == s + (x + (n + e));
  }

  lemma Regather(s: string, x: string, n: string, j: string, e: string)
    ensures s + x + "," + n + (s + (j + e)) == s + ((x + ("," + n + s) + j) + e)
  {
    assert s + x + "," + n + (s + (j + e)) == s + x + "," + n + s + (j + e);
    assert s + ((x + ("," + n + s) + j) + e) == s + x + "," + n + s + (j + e);
  }

  /**
    The text of a container: compact, its parts between commas; pretty, each on a line of its own, four spaces deeper
    than the brackets. A member is its name, a colon and its value.
   */
  lemma ContainerText(v: Json, level: nat, pretty: bool)
    requires WellFormed(v) && (v.Arr? || v.Obj?)
    ensures var parts := Parts(v, level, pretty);
            var deep, flat := Spaces(4 * (level + 1)), Spaces(4 * level);
            Print(v, level, pretty) ==
            (if v.Arr? then "[" else "{")
            + (if parts == [] then "" else if pretty then "\n" + (deep + (Join(parts, ",\n" + deep) + ("\n" + flat)))
               else Join(parts, ","))
            + (if v.Arr? then "]" else "}")
    ensures v.Arr? ==>
              forall k :: 0 <= k < |v.items| ==> Parts(v, level, pretty)[k] == Print(v.items[k], level + 1, pretty)
    ensures v.Obj? ==> forall k :: 0 <= k < |v.names| ==>
              Parts(v, level, pretty)[k] ==
              Quote(v.names[k]) + (if pretty then ": " else ":") + Print(v.values[k], level + 1, pretty)
  {
    var parts := Parts(v, level, pretty);
    InsideIsJoin(parts, level, pretty);
    if v.Obj? {
      forall k | 0 <= k < |v.names|
        ensures parts[k] == Quote(v.names[k]) + (if pretty then ": " else ":") + Print(v.values[k], level + 1, pretty)
      {
        FindUnique(v.names, k);
        ColonText(v.names[k], Print(v.values[k], level + 1, pretty), pretty);
      }
    }
  }

  lemma ColonText(name: string, value: string, pretty: bool)
    ensures MemberText(name, value, pretty) == Quote(name) + (if pretty then ": " else ":") + value
  {
    hide Quote;
    assert pretty ==> Quote(name) + ":" + " " == Quote(name) + ": ";
    assert !pretty ==> Quote(name) + ":" + "" == Quote(name) + ":";
  }

  lemma InsideIsJoin(parts: seq<string>, level: nat, pretty: bool)
    ensures var deep, flat := Spaces(4 * (level + 1)), Spaces(4 * level);
            Inside(parts, level, pretty) ==
            if parts == [] then "" else if pretty then "\n" + (deep + (Join(parts, ",\n" + deep) + ("\n" + flat)))
            else Join(parts, ",")
  {
    hide Indent, Join;
    if parts != [] {
      LayoutIsJoin(parts, 0, level, pretty);
      IndentIsSpaces(level);
      IndentIsSpaces(level + 1);
      assert parts[0..] == parts;
      assert "," + "\n" + Spaces(4 * (level + 1)) == ",\n" + Spaces(4 * (level + 1));
      assert "," + "" + "" == ",";
      assert "" + ("" + (Join(parts, ",") + ("" + ""))) == Join(parts, ",");
    }
  }

  // ---------- dotted names ----------

  ghost predicate Undotted(path: seq<string>) {
    forall k :: 0 <= k < |path| ==> '.' !in path[k]
  }

  lemma {:induction false} ComponentsJoin(name: string)
    ensures Undotted(Components(name)) && Join(Components(name), ".") == name
    decreases |name|
  {
    if HasDot(name) {
      ComponentsJoin(OtherNames(name));
      var rest := Components(OtherNames(name));
      assert Components(name) == [FirstName(name)] + rest;
      assert Components(name)[1..] == rest;
      assert name == FirstName(name) + "." + OtherNames(name);
    } else {
      assert name[..Dot(name)] == name;
    }
  }

  lemma {:induction false} DotIs(first: string, rest: string)
    requires '.' !in first
    ensures Dot(first + "." + rest) == |first|
  {
    var s := first + "." + rest;
    if first != "" {
      DotIs(first[1..], rest);
      assert s[0] == first[0] && first[0] in first;
      assert s[1..] == first[1..] + "." + rest;
    }
  }

  lemma {:induction false} NoDot(name: string)
    requires '.' !in name
    ensures !HasDot(name)
  {
    if name != "" {
      assert name[0] in name;
      NoDot(name[1..]);
    }
  }

  lemma DottedComponents(first: string, rest: string)
    requires '.' !in first
    ensures Components(first + "." + rest) == [first] + Components(rest)
  {
    hide Dot;
    var name := first + "." + rest;
    DotIs(first, rest);
    assert name[..|first|] == first && name[|first| + 1..] == rest;
  }

  lemma {:induction false} JoinComponents(path: seq<string>)
    requires path != [] && Undotted(path)
    ensures Components(Join(path, ".")) == path
    decreases |path|
  {
    hide Components, Dot;
    if |path| == 1 {
      WholeComponent(path[0]);
      assert path == [path[0]];
    } else {
      JoinComponents(path[1..]);
      DottedComponents(path[0], Join(path[1..], "."));
      assert path == [path[0]] + path[1..];
    }
  }

  lemma WholeComponent(name: string)
    requires '.' !in name
    ensures Components(name) == [name]
  {
    NoDot(name);
  }

  /** The components of a dotted name are the one way to write it with dots between names that hold none. */
  lemma ComponentsExactly(name: string, path: seq<string>)
    ensures path == Components(name) <==> path != [] && Undotted(path) && Join(path, ".") == name
  {
    ComponentsJoin(name);
    if path != [] && Undotted(path) {
      JoinComponents(path);
    }
  }
}
