/** Dotted names: reading and setting members of members. */
module JsonDots {
  import opened Wrappers
  import opened JsonText
  import opened JsonParse
  import opened JsonObjects

  /** Values as the dot functions see them: objects, and everything else. */
  datatype Tree<T> = Plain(value: T) | Object(members: Entries<Tree<T>>)

  /** Every object in the tree has as many names as values, all different, within its capacity. */
  ghost predicate FineTree<T>(t: Tree<T>) {
    t.Object? ==> Fine(t.members) && forall i :: 0 <= i < |t.members.values| ==> FineTree(t.members.values[i])
  }

  // ---------- names with dots ----------

  /** strchr(name, '.'), or the length. */
  function Dot(name: string): (i: nat)
    ensures i <= |name| && '.' !in name[..i] && (i < |name| ==> name[i] == '.')
  {
    if name == "" || name[0] == '.' then 0
    else
      var i := 1 + Dot(name[1..]);
      assert name[..i] == [name[0]] + name[1..][..i - 1];
      i
  }

  predicate HasDot(name: string) { Dot(name) < |name| }

  function FirstName(name: string): string { name[..Dot(name)] }

  function OtherNames(name: string): string
    requires HasDot(name)
  {
    name[Dot(name) + 1..]
  }

  /** The components of a dotted name. */
  function Components(name: string): (path: seq<string>)
    ensures path != []
    decreases |name|
  {
    if HasDot(name) then [FirstName(name)] + Components(OtherNames(name)) else [name]
  }

  // ---------- the functions ----------

  function AsObject<T>(v: Option<Tree<T>>): Option<Entries<Tree<T>>> {
    if v.Some? && v.value.Object? then Some(v.value.members) else None
  }

  /** json_object_dotget_value; the object may be missing, and then nothing is found. */
  function DotGet<T>(o: Option<Entries<Tree<T>>>, name: string): (r: Option<Tree<T>>)
    requires o.Some? ==> FineTree(Object(o.value))
    ensures r.Some? ==> FineTree(r.value)
    decreases |name|
  {
    var first := if o.None? then None else Get(o.value, if HasDot(name) then FirstName(name) else name);
    if HasDot(name) then DotGet(AsObject(first), OtherNames(name)) else first
  }

  /** json_object_dotset_value: the object afterwards, and whether it succeeded. */
  function DotSet<T>(e: Entries<Tree<T>>, name: string, v: Tree<T>): (r: (Entries<Tree<T>>, bool))
    requires FineTree(Object(e)) && FineTree(v)
    ensures FineTree(Object(r.0))
    decreases |name|
  {
    if !HasDot(name) then
      SetKeepsFine(e, name, v);
      Set(e, name, v)
    else
      var first := FirstName(name);
      match AsObject(Get(e, first))
      case Some(child) => InChild(e, first, child, name, v)
      case None =>
        AddKeepsFine(e, first, Object(Empty()));
        var (added, ok) := Add(e, first, Object(Empty()));
        if ok then InChild(added, first, Empty(), name, v) else (added, false)
  }

  /** The recursive call, whose object is a member of e and is changed where it is. */
  function InChild<T>(e: Entries<Tree<T>>, first: string, child: Entries<Tree<T>>, name: string,
                      v: Tree<T>): (r: (Entries<Tree<T>>, bool))
    requires FineTree(Object(e)) && FineTree(Object(child)) && FineTree(v) && HasDot(name) && Has(e, first)
    ensures FineTree(Object(r.0))
    decreases |name|, 0
  {
    var (changed, ok) := DotSet(child, OtherNames(name), v);
    SetKeepsFine(e, first, Object(changed));
    (Set(e, first, Object(changed)).0, ok)
  }

  lemma SetKeepsFine<T>(e: Entries<Tree<T>>, name: string, v: Tree<T>)
    requires FineTree(Object(e)) && FineTree(v)
    ensures FineTree(Object(Set(e, name, v).0))
  {
    SetRefines(e, name, v);
  }

  lemma AddKeepsFine<T>(e: Entries<Tree<T>>, name: string, v: Tree<T>)
    requires FineTree(Object(e)) && FineTree(v)
    ensures FineTree(Object(Add(e, name, v).0))
  {
    AddRefines(e, name, v);
  }

  // ---------- what they mean ----------

  /** A tree without capacities and without order. */
  datatype Doc<T> = Value(value: T) | Members(m: map<string, Doc<T>>)

  ghost function Meaning<T>(t: Tree<T>): Doc<T>
    requires FineTree(t)
  {
    match t
    case Plain(x) => Value(x)
    case Object(e) => Members(map k | k in e.names :: Meaning(e.values[Find(e.names, k)]))
  }

  ghost function MapOf<T>(e: Entries<Tree<T>>): map<string, Doc<T>>
    requires FineTree(Object(e))
  {
    Meaning(Object(e)).m
  }

  /** Reading a path in nested maps. */
  ghost function Read<T>(m: map<string, Doc<T>>, path: seq<string>): Option<Doc<T>>
    requires path != []
    decreases |path|
  {
    if path[0] !in m then None
    else if |path| == 1 then Some(m[path[0]])
    else if m[path[0]].Members? then Read(m[path[0]].m, path[1..])
    else None
  }

  ghost function Below<T>(m: map<string, Doc<T>>, name: string): map<string, Doc<T>> {
    if name in m && m[name].Members? then m[name].m else map[]
  }

  /** Writing a path in nested maps, making the missing ones on the way. */
  ghost function Write<T>(m: map<string, Doc<T>>, path: seq<string>, d: Doc<T>): map<string, Doc<T>>
    requires path != []
    decreases |path|
  {
    if |path| == 1 then m[path[0] := d]
    else m[path[0] := Members(Write(Below(m, path[0]), path[1..], d))]
  }

  // ---------- one level ----------

  ghost function MeaningOf<T>(v: Option<Tree<T>>): Option<Doc<T>>
    requires v.Some? ==> FineTree(v.value)
  {
    if v.Some? then Some(Meaning(v.value)) else None
  }

  lemma GetMeans<T>(e: Entries<Tree<T>>, k: string)
    requires FineTree(Object(e))
    ensures Get(e, k).Some? <==> k in MapOf(e)
    ensures Get(e, k).Some? ==> FineTree(Get(e, k).value) && MapOf(e)[k] == Meaning(Get(e, k).value)
  {
  }

  /** Entries that stand for the same map of trees stand for the same map of meanings. */
  lemma MeaningFromMap<T>(e: Entries<Tree<T>>, f: Entries<Tree<T>>, name: string, v: Tree<T>)
    requires FineTree(Object(e)) && FineTree(Object(f)) && FineTree(v) && AsMap(f) == AsMap(e)[name := v]
    ensures MapOf(f) == MapOf(e)[name := Meaning(v)]
  {
    var m := MapOf(e)[name := Meaning(v)];
    forall k ensures k in MapOf(f) <==> k in m {
      GetMeans(e, k);
      GetMeans(f, k);
      GetIsLookup(e, k);
      GetIsLookup(f, k);
    }
    forall k | k in m ensures MapOf(f)[k] == m[k] {
      GetMeans(e, k);
      GetMeans(f, k);
      GetIsLookup(e, k);
      GetIsLookup(f, k);
    }
  }

  lemma SetMeans<T>(e: Entries<Tree<T>>, name: string, v: Tree<T>)
    requires FineTree(Object(e)) && FineTree(v)
    ensures var (f, ok) := Set(e, name, v);
            && (ok <==> Has(e, name) || CanTake(e))
            && FineTree(Object(f))
            && MapOf(f) == if ok then MapOf(e)[name := Meaning(v)] else MapOf(e)
  {
    SetKeepsFine(e, name, v);
    SetRefines(e, name, v);
    if Set(e, name, v).1 {
      MeaningFromMap(e, Set(e, name, v).0, name, v);
    }
  }

  lemma AddMeans<T>(e: Entries<Tree<T>>, name: string, v: Tree<T>)
    requires FineTree(Object(e)) && FineTree(v)
    ensures var (f, ok) := Add(e, name, v);
            && (ok <==> !Has(e, name) && CanTake(e))
            && FineTree(Object(f))
            && f.names == (if ok then e.names + [name] else e.names)
            && MapOf(f) == if ok then MapOf(e)[name := Meaning(v)] else MapOf(e)
  {
    AddKeepsFine(e, name, v);
    AddRefines(e, name, v);
    if Add(e, name, v).1 {
      MeaningFromMap(e, Add(e, name, v).0, name, v);
    }
  }

  // ---------- whole paths ----------

  lemma {:induction false} NothingInNothing<T>(name: string)
    ensures DotGet<T>(None, name) == None
    decreases |name|
  {
    if HasDot(name) {
      NothingInNothing<T>(OtherNames(name));
    }
  }

  /** Reading a dotted name follows its components through the nested maps. */
  lemma {:induction false} DotGetReads<T>(e: Entries<Tree<T>>, name: string)
    requires FineTree(Object(e))
    ensures MeaningOf(DotGet(Some(e), name)) == Read(MapOf(e), Components(name))
    decreases |name|
  {
    if HasDot(name) {
      var first := FirstName(name);
      GetMeans(e, first);
      assert Components(name)[1..] == Components(OtherNames(name));
      match AsObject(Get(e, first))
      case Some(child) => DotGetReads(child, OtherNames(name));
      case None => NothingInNothing<T>(OtherNames(name));
    } else {
      GetMeans(e, name);
    }
  }

  /**
    What a caller can look up beforehand: no member on the way is anything but an object, and the object that gets a
    new name can take it.
   */
  ghost predicate CanWrite<T>(e: Entries<Tree<T>>, path: seq<string>)
    requires FineTree(Object(e)) && path != []
    decreases |path|
  {
    if !Has(e, path[0]) then CanTake(e)
    else if |path| == 1 then true
    else Get(e, path[0]).value.Object? && CanWrite(Get(e, path[0]).value.members, path[1..])
  }

  /** Setting succeeds exactly when it can, writes the path then, and leaves every meaning alone otherwise. */
  ghost predicate SetsPath<T>(e: Entries<Tree<T>>, path: seq<string>, v: Tree<T>, r: (Entries<Tree<T>>, bool))
    requires FineTree(Object(e)) && FineTree(v) && path != []
  {
    && FineTree(Object(r.0))
    && (r.1 <==> CanWrite(e, path))
    && MapOf(r.0) == if r.1 then Write(MapOf(e), path, Meaning(v)) else MapOf(e)
  }

  lemma {:induction false} DotSetWrites<T>(e: Entries<Tree<T>>, name: string, v: Tree<T>)
    requires FineTree(Object(e)) && FineTree(v)
    ensures SetsPath(e, Components(name), v, DotSet(e, name, v))
    decreases |name|, 2
  {
    if !HasDot(name) {
      SetMeans(e, name, v);
    } else {
      var first := FirstName(name);
      var path := Components(name);
      assert path[1..] == Components(OtherNames(name));
      match AsObject(Get(e, first))
      case Some(child) =>
        GetMeans(e, first);
        InChildWrites(e, first, child, name, v);
      case None =>
        DotSetMakes(e, first, name, v);
    }
  }

  lemma {:induction false} InChildWrites<T>(e: Entries<Tree<T>>, first: string, child: Entries<Tree<T>>, name: string,
                                            v: Tree<T>)
    requires FineTree(Object(e)) && FineTree(v) && HasDot(name)
    requires Has(e, first) && Get(e, first).value == Object(child)
    ensures var r := InChild(e, first, child, name, v);
            && FineTree(Object(child))
            && (r.1 <==> CanWrite(child, Components(OtherNames(name))))
            && MapOf(r.0) == if r.1 then
              MapOf(e)[first := Members(Write(MapOf(child), Components(OtherNames(name)), Meaning(v)))]
                             else MapOf(e)
    decreases |name|, 0, 0
  {
    GetMeans(e, first);
    var (changed, ok) := DotSet(child, OtherNames(name), v);
    DotSetWrites(child, OtherNames(name), v);
    SetMeans(e, first, Object(changed));
    assert MapOf(e)[first] == Members(MapOf(child));
    if !ok {
      assert MapOf(e)[first := Members(MapOf(child))] == MapOf(e);
    }
  }

  /** The missing object on the way: made and filled, or not possible, in which case nothing was made. */
  lemma {:induction false} DotSetMakes<T>(e: Entries<Tree<T>>, first: string, name: string, v: Tree<T>)
    requires FineTree(Object(e)) && FineTree(v) && HasDot(name) && first == FirstName(name)
    requires AsObject(Get(e, first)).None?
    ensures SetsPath(e, Components(name), v, DotSet(e, name, v))
    decreases |name|, 1
  {
    assert Components(name)[0] == first && Components(name)[1..] == Components(OtherNames(name));
    GetMeans(e, first);
    AddMeans(e, first, Object(Empty()));
    if Add(e, first, Object(Empty())).1 {
      NewChildWrites(e, first, name, v);
      assert Below(MapOf(e), first) == map[];
    }
  }

  lemma {:induction false} NewChildWrites<T>(e: Entries<Tree<T>>, first: string, name: string, v: Tree<T>)
    requires FineTree(Object(e)) && FineTree(v) && HasDot(name)
    requires Add(e, first, Object(Empty())).1
    ensures var added := Add(e, first, Object(Empty())).0;
            && FineTree(Object(added)) && Has(added, first)
            && var r := InChild(added, first, Empty(), name, v);
            && FineTree(Object(r.0)) && r.1
            && MapOf(r.0) == MapOf(e)[first := Members(Write(map[], Components(OtherNames(name)), Meaning(v)))]
    decreases |name|, 0, 1
  {
    var added := Add(e, first, Object(Empty())).0;
    AddMeans(e, first, Object(Empty()));
    GetAdded(e, first, Object(Empty()));
    assert Has(added, first) && Get(added, first).value == Object(Empty());
    hide Add, InChild, DotSet, Write, CanWrite, MapOf, Components, Get, FineTree;
    InChildWrites(added, first, Empty(), name, v);
    EmptyCanWrite<T>(Components(OtherNames(name)));
    EmptyMeans<T>();
    UpdateTwice(MapOf(e), first, Members(map[]), Members(Write(map[], Components(OtherNames(name)), Meaning(v))));
  }

  lemma UpdateTwice<K, V>(m: map<K, V>, k: K, a: V, b: V)
    ensures m[k := a][k := b] == m[k := b]
  {
  }

  lemma GetAdded<T>(e: Entries<T>, name: string, v: T)
    requires Fine(e) && Add(e, name, v).1
    ensures Get(Add(e, name, v).0, name) == Some(v)
  {
    var f := Add(e, name, v).0;
    AddRefines(e, name, v);
    GetIsLookup(f, name);
  }

  lemma EmptyCanWrite<T>(path: seq<string>)
    requires path != []
    ensures CanWrite<T>(Empty(), path)
  {
  }

  lemma EmptyMeans<T>()
    ensures FineTree<T>(Object(Empty())) && MapOf<T>(Empty()) == map[]
  {
  }

  // ---------- what follows for the callers ----------

  lemma {:induction false} ReadWritten<T>(m: map<string, Doc<T>>, path: seq<string>, d: Doc<T>)
    requires path != []
    ensures Read(Write(m, path, d), path) == Some(d)
    decreases |path|
  {
    if |path| > 1 {
      ReadWritten(Below(m, path[0]), path[1..], d);
    }
  }

  /** Two paths part at some component. */
  predicate Diverge(p: seq<string>, q: seq<string>) {
    exists i :: 0 <= i < |p| && i < |q| && p[i] != q[i]
  }

  lemma DivergeLater(p: seq<string>, q: seq<string>)
    requires p != [] && q != [] && p[0] == q[0] && Diverge(p, q)
    ensures Diverge(p[1..], q[1..]) && |p| > 1 && |q| > 1
  {
    var i :| 0 <= i < |p| && i < |q| && p[i] != q[i];
    assert p[1..][i - 1] != q[1..][i - 1];
  }

  lemma {:induction false} ReadElsewhere<T>(m: map<string, Doc<T>>, path: seq<string>, d: Doc<T>, other: seq<string>)
    requires path != [] && other != [] && Diverge(path, other)
    ensures Read(Write(m, path, d), other) == Read(m, other)
    decreases |path|
  {
    if path[0] == other[0] {
      DivergeLater(path, other);
      ReadElsewhere(Below(m, path[0]), path[1..], d, other[1..]);
    }
  }

  /** What a dotted name reads as. */
  ghost function Reading<T>(e: Entries<Tree<T>>, name: string): Option<Doc<T>>
    requires FineTree(Object(e))
  {
    MeaningOf(DotGet(Some(e), name))
  }

  /**
    After a successful set the dotted name reads as the value and every name that parts from it reads as before;
    after a failure every name reads as before.
   */
  lemma DotSetThenGet<T>(e: Entries<Tree<T>>, name: string, v: Tree<T>, other: string)
    requires FineTree(Object(e)) && FineTree(v)
    ensures var (f, ok) := DotSet(e, name, v);
            && (ok ==> Reading(f, name) == Some(Meaning(v)))
            && (!ok || Diverge(Components(name), Components(other)) ==> Reading(f, other) == Reading(e, other))
  {
    var (f, ok) := DotSet(e, name, v);
    DotSetWrites(e, name, v);
    DotGetReads(f, name);
    DotGetReads(f, other);
    DotGetReads(e, other);
    if ok {
      ReadWritten(MapOf(e), Components(name), Meaning(v));
      if Diverge(Components(name), Components(other)) {
        ReadElsewhere(MapOf(e), Components(name), Meaning(v), Components(other));
      }
    }
  }
}
