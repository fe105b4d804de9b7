/**
  JSON objects as the library keeps them, names and values side by side in arrays of a common capacity,
  and as what they stand for: finite maps from names to values.
 */
module JsonObjects {
  import opened Wrappers
  import opened JsonText
  import opened JsonParse

  // ---------- what the operations do to the entries ----------

  datatype Entries<T> = Entries(names: seq<string>, values: seq<T>, capacity: nat)

  function Empty<T>(): Entries<T> { Entries([], [], 0) }

  ghost predicate Fine<T>(e: Entries<T>) {
    |e.names| == |e.values| <= e.capacity && Unique(e.names)
  }

  function Has<T>(e: Entries<T>, name: string): (b: bool)
    ensures b <==> name in e.names
  {
    Find(e.names, name) < |e.names|
  }

  /** json_object_get_value */
  function Get<T>(e: Entries<T>, name: string): Option<T>
    requires |e.names| == |e.values|
  {
    if Has(e, name) then Some(e.values[Find(e.names, name)]) else None
  }

  /** The next capacity of a full object or array. */
  function Grown(capacity: nat): nat {
    if capacity * 2 > STARTING_CAPACITY then capacity * 2 else STARTING_CAPACITY
  }

  /** An object can take a new name: it has a free place, or its capacity may still grow. */
  predicate CanTake<T>(e: Entries<T>) {
    |e.names| < e.capacity || Grown(e.capacity) <= OBJECT_MAX_CAPACITY
  }

  function MakeRoom<T>(e: Entries<T>): Entries<T> {
    if |e.names| < e.capacity then e else e.(capacity := Grown(e.capacity))
  }

  /** json_object_add: the capacity is looked at, and perhaps enlarged, before the name is. */
  function Add<T>(e: Entries<T>, name: string, value: T): (Entries<T>, bool) {
    if !CanTake(e) then (e, false)
    else
      var r := MakeRoom(e);
      if Has(r, name) then (r, false) else (r.(names := r.names + [name], values := r.values + [value]), true)
  }

  /** json_object_set_value */
  function Set<T>(e: Entries<T>, name: string, value: T): (Entries<T>, bool)
    requires |e.names| == |e.values|
  {
    if Has(e, name) then (e.(values := e.values[Find(e.names, name) := value]), true) else Add(e, name, value)
  }

  /** The last entry takes the place of the one at i. */
  function DropAt<T>(s: seq<T>, i: nat): (r: seq<T>)
    requires i < |s|
    ensures |r| == |s| - 1
  {
    s[i := s[|s| - 1]][..|s| - 1]
  }

  /** json_object_remove */
  function Unset<T>(e: Entries<T>, name: string): (Entries<T>, bool)
    requires |e.names| == |e.values|
  {
    if !Has(e, name) then (e, false)
    else
      var i := Find(e.names, name);
      (e.(names := DropAt(e.names, i), values := DropAt(e.values, i)), true)
  }

  // ---------- the map an object stands for ----------

  ghost function AsMap<T>(e: Entries<T>): (m: map<string, T>)
    requires |e.names| == |e.values|
    ensures forall k :: k in m <==> k in e.names
  {
    map k | k in e.names :: e.values[Find(e.names, k)]
  }

  lemma GetIsLookup<T>(e: Entries<T>, name: string)
    requires |e.names| == |e.values|
    ensures Get(e, name) == if name in AsMap(e) then Some(AsMap(e)[name]) else None
  {
  }

  /** Entries that differ in their capacity only stand for the same map. */
  lemma CapacityDoesNotShow<T>(e: Entries<T>, f: Entries<T>)
    requires |e.names| == |e.values| && f.names == e.names && f.values == e.values
    ensures AsMap(f) == AsMap(e)
  {
  }

  lemma MapAt<T>(e: Entries<T>, i: nat)
    requires Fine(e) && i < |e.names|
    ensures e.names[i] in AsMap(e) && AsMap(e)[e.names[i]] == e.values[i]
  {
    FindUnique(e.names, i);
  }

  /** Two objects that agree entry by entry up to the order stand for the same map. */
  lemma SameMap<T>(e: Entries<T>, m: map<string, T>)
    requires Fine(e)
    requires forall k :: k in m ==> k in e.names
    requires forall i :: 0 <= i < |e.names| ==> e.names[i] in m && m[e.names[i]] == e.values[i]
    ensures AsMap(e) == m
  {
    forall k | k in m ensures AsMap(e)[k] == m[k] {
      assert e.names[Find(e.names, k)] == k;
    }
  }

  /** Adding binds a new name, and fails, leaving the map alone, for a known name or a full object. */
  lemma AddRefines<T>(e: Entries<T>, name: string, value: T)
    requires Fine(e)
    ensures var (f, ok) := Add(e, name, value);
            && Fine(f)
            && (ok <==> name !in AsMap(e) && CanTake(e))
            && AsMap(f) == if ok then AsMap(e)[name := value] else AsMap(e)
  {
    var (f, ok) := Add(e, name, value);
    if ok {
      AppendKeepsUnique(e.names, name);
      SameMap(f, AsMap(e)[name := value]) by {
        forall i | 0 <= i < |f.names|
          ensures f.names[i] in AsMap(e)[name := value] && AsMap(e)[name := value][f.names[i]] == f.values[i]
        {
          if i < |e.names| {
            MapAt(e, i);
          }
        }
      }
    } else {
      CapacityDoesNotShow(e, f);
    }
  }

  lemma AppendKeepsUnique(names: seq<string>, name: string)
    requires Unique(names) && name !in names
    ensures Unique(names + [name])
  {
  }

  /** Setting binds the name, new or known, and fails, leaving the map alone, only for a new name in a full object. */
  lemma SetRefines<T>(e: Entries<T>, name: string, value: T)
    requires Fine(e)
    ensures var (f, ok) := Set(e, name, value);
            && Fine(f)
            && (ok <==> name in AsMap(e) || CanTake(e))
            && AsMap(f) == if ok then AsMap(e)[name := value] else AsMap(e)
  {
    if Has(e, name) {
      var f := Set(e, name, value).0;
      SameMap(f, AsMap(e)[name := value]) by {
        forall i | 0 <= i < |f.names|
          ensures f.names[i] in AsMap(e)[name := value] && AsMap(e)[name := value][f.names[i]] == f.values[i]
        {
          MapAt(e, i);
        }
      }
    } else {
      AddRefines(e, name, value);
    }
  }

  lemma DropAtElements<T>(s: seq<T>, i: nat, k: nat)
    requires i < |s| && k < |s| - 1
    ensures DropAt(s, i)[k] == if k == i then s[|s| - 1] else s[k]
  {
  }

  /** Where the entry at place k came from. */
  function Origin(n: nat, i: nat, k: nat): nat
    requires i < n && k < n - 1
  {
    if k == i then n - 1 else k
  }

  lemma DropKeepsUnique(names: seq<string>, i: nat)
    requires Unique(names) && i < |names|
    ensures Unique(DropAt(names, i)) && names[i] !in DropAt(names, i)
  {
    var r := DropAt(names, i);
    forall k | 0 <= k < |r| ensures r[k] == names[Origin(|names|, i, k)] && r[k] != names[i] {
      DropAtElements(names, i, k);
    }
  }

  lemma DropKeepsOthers(names: seq<string>, i: nat, name: string)
    requires i < |names| && name in names && name != names[i]
    ensures name in DropAt(names, i)
  {
    var j :| 0 <= j < |names| && names[j] == name;
    var k := if j == |names| - 1 then i else j;
    DropAtElements(names, i, k);
    assert DropAt(names, i)[k] == name;
  }

  /**
    Removing by putting the last entry in the freed place takes away that name only, and succeeds for every bound
    name.
   */
  lemma RemoveRefines<T>(e: Entries<T>, name: string)
    requires Fine(e)
    ensures var (f, ok) := Unset(e, name);
            && Fine(f)
            && (ok <==> name in AsMap(e))
            && AsMap(f) == AsMap(e) - {name}
  {
    if Has(e, name) {
      UnsetTakesOne(e, name);
    } else {
      assert AsMap(e) - {name} == AsMap(e);
    }
  }

  lemma UnsetTakesOne<T>(e: Entries<T>, name: string)
    requires Fine(e) && Has(e, name)
    ensures var f := Unset(e, name).0; Fine(f) && AsMap(f) == AsMap(e) - {name}
  {
    var i, f := Find(e.names, name), Unset(e, name).0;
    DropKeepsUnique(e.names, i);
    forall k | k in AsMap(e) - {name} ensures k in f.names {
      DropKeepsOthers(e.names, i, k);
    }
    forall k | 0 <= k < |f.names|
      ensures f.names[k] in AsMap(e) - {name} && (AsMap(e) - {name})[f.names[k]] == f.values[k]
    {
      KeptEntry(e, i, k);
    }
    SameMap(f, AsMap(e) - {name});
  }

  lemma KeptEntry<T>(e: Entries<T>, i: nat, k: nat)
    requires Fine(e) && i < |e.names| && k < |e.names| - 1
    ensures var name := DropAt(e.names, i)[k];
            name != e.names[i] && name in AsMap(e) && AsMap(e)[name] == DropAt(e.values, i)[k]
  {
    DropAtElements(e.names, i, k);
    DropAtElements(e.values, i, k);
    MapAt(e, Origin(|e.names|, i, k));
  }

  /** No name is counted twice. */
  lemma {:induction false} CountIsMapSize<T>(e: Entries<T>)
    requires Fine(e)
    ensures |AsMap(e)| == |e.names|
  {
    assert AsMap(e).Keys == NameSet(e.names);
    NameSetSize(e.names);
  }

  function NameSet(names: seq<string>): set<string> {
    set k | k in names
  }

  lemma {:induction false} NameSetSize(names: seq<string>)
    requires Unique(names)
    ensures |NameSet(names)| == |names|
  {
    if names == [] {
      assert NameSet(names) == {};
    } else {
      var n := |names| - 1;
      NameSetSize(names[..n]);
      assert names == names[..n] + [names[n]];
      assert NameSet(names) == NameSet(names[..n]) + {names[n]};
    }
  }

  // ---------- capacities ----------

  /** The capacities that doubling reaches. */
  predicate Doubled(c: nat) { c == 0 || IsDoubled(c) }

  predicate IsDoubled(c: nat)
  {
    c == STARTING_CAPACITY || (c > 0 && c % 2 == 0 && IsDoubled(c / 2))
  }

  lemma {:induction false} DoublingFits(c: nat, max: nat)
    requires IsDoubled(c) && IsDoubled(max) && c <= max
    ensures c == max || c * 2 <= max
  {
    DoubledAtLeast(c);
    DoubledAtLeast(max);
    if c == STARTING_CAPACITY {
      if max != c {
        DoubledAtLeast(max / 2);
      }
    } else if max != STARTING_CAPACITY {
      DoublingFits(c / 2, max / 2);
    }
  }

  lemma {:induction false} DoubledAtLeast(c: nat)
    requires IsDoubled(c)
    ensures c >= STARTING_CAPACITY
  {
    if c != STARTING_CAPACITY {
      DoubledAtLeast(c / 2);
    }
  }

  lemma LimitsAreDoubled()
    ensures IsDoubled(OBJECT_MAX_CAPACITY) && IsDoubled(ARRAY_MAX_CAPACITY)
  {
    assert IsDoubled(60) && IsDoubled(480);
    assert IsDoubled(1920) && IsDoubled(15360);
  }

  /** An object or array grown from nothing is full only at the very limit. */
  lemma FullOnlyAtLimit(count: nat, capacity: nat, max: nat)
    requires Doubled(capacity) && count <= capacity <= max && (max == OBJECT_MAX_CAPACITY || max == ARRAY_MAX_CAPACITY)
    ensures count < capacity || Grown(capacity) <= max <==> count < max
    ensures Doubled(Grown(capacity))
  {
    LimitsAreDoubled();
    if capacity > 0 {
      DoublingFits(capacity, max);
      DoubledAtLeast(capacity);
      assert capacity * 2 / 2 == capacity && capacity * 2 % 2 == 0;
    }
  }

  // ---------- growing ----------

  /** An array under construction, with the capacity it has reached. */
  datatype Items<T> = Items(items: seq<T>, capacity: nat)

  /** json_array_add */
  function AddItem<T>(a: Items<T>, v: T): Option<Items<T>> {
    if |a.items| < a.capacity then Some(a.(items := a.items + [v]))
    else if Grown(a.capacity) > ARRAY_MAX_CAPACITY then None
    else Some(Items(a.items + [v], Grown(a.capacity)))
  }

  /** A capacity that growth has brought about, and its use. */
  predicate Growing(count: nat, capacity: nat, max: nat) {
    Doubled(capacity) && count <= capacity <= max
  }

  lemma AddItemGrows<T>(a: Items<T>, v: T)
    requires Growing(|a.items|, a.capacity, ARRAY_MAX_CAPACITY)
    ensures var r := AddItem(a, v);
            && (r.Some? <==> |a.items| < ARRAY_MAX_CAPACITY)
            && (r.Some? ==>
                  && r.value.items == a.items + [v]
                  && Growing(|r.value.items|, r.value.capacity, ARRAY_MAX_CAPACITY))
  {
    FullOnlyAtLimit(|a.items|, a.capacity, ARRAY_MAX_CAPACITY);
  }

  lemma AddGrows<T>(e: Entries<T>, name: string, v: T)
    requires Growing(|e.names|, e.capacity, OBJECT_MAX_CAPACITY) && name !in e.names
    ensures var (r, ok) := Add(e, name, v);
            && (ok <==> |e.names| < OBJECT_MAX_CAPACITY)
            && (ok ==>
                  && r.names == e.names + [name] && r.values == e.values + [v]
                  && Growing(|r.names|, r.capacity, OBJECT_MAX_CAPACITY))
  {
    FullOnlyAtLimit(|e.names|, e.capacity, OBJECT_MAX_CAPACITY);
  }

  // ---------- trimming ----------

  /** How the parser leaves an object, or an array: with no room to spare. */
  ghost predicate TrimmedEntries<T>(e: Entries<T>) {
    |e.names| == |e.values| == e.capacity
  }

  ghost predicate TrimmedItems<T>(a: Items<T>) {
    |a.items| == a.capacity
  }

  /** A trimmed object may only double: past half the limit it takes no new name. */
  lemma TrimmedCanTake<T>(e: Entries<T>, name: string, v: T)
    requires TrimmedEntries(e)
    ensures Add(e, name, v).1 <==> name !in e.names && |e.names| <= OBJECT_MAX_CAPACITY / 2
  {
  }

  lemma TrimmedCanAppend<T>(a: Items<T>, v: T)
    requires TrimmedItems(a)
    ensures AddItem(a, v).Some? <==> |a.items| <= ARRAY_MAX_CAPACITY / 2
  {
  }

  // ---------- the object itself ----------

  class JsonObject<V(0)> {
    var names: array<string>
    var values: array<V>
    var count: nat

    ghost predicate Valid()
      reads this, names, values
    {
      && names as object != values as object
      && names.Length == values.Length && count <= names.Length && Unique(names[..count])
    }

    /** The capacity is the length of the arrays. */
    ghost function Contents(): (e: Entries<V>)
      reads this, names, values
      requires Valid()
      ensures Fine(e)
    {
      Entries(names[..count], values[..count], names.Length)
    }

    /** json_object_init */
    constructor ()
      ensures Valid() && fresh(names) && fresh(values) && Contents() == Empty()
    {
      names := new string[0];
      values := new V[0];
      count := 0;
    }

    /** json_object_resize, to a capacity that holds the entries. */
    method Resize(capacity: nat) returns (ok: bool)
      requires Valid() && count <= capacity
      modifies this
      ensures Valid() && (ok <==> capacity > 0) && count == old(count)
      ensures ok ==> fresh(names) && fresh(values) && Contents() == old(Contents()).(capacity := capacity)
      ensures !ok ==> names == old(names) && values == old(values) && Contents() == old(Contents())
    {
      if capacity == 0 {
        return false;
      }
      var newNames, newValues := new string[capacity], new V[capacity];
      ghost var e := Contents();
      for i := 0 to count
        invariant Valid() && Contents() == e
        invariant newNames[..i] == names[..i] && newValues[..i] == values[..i]
        modifies newNames, newValues
      {
        newNames[i] := names[i];
        newValues[i] := values[i];
      }
      names, values := newNames, newValues;
      ok := true;
    }

    /** json_object_nget_value: the value of the member called by the first n characters of name. */
    method NGet(name: string, n: nat) returns (r: Option<V>)
      requires Valid() && n <= |name|
      ensures r == Get(Contents(), name[..n])
    {
      for i := 0 to count
        invariant forall k :: 0 <= k < i ==> names[k] != name[..n]
      {
        if |names[i]| == n && names[i] == name[..n] {
          FindIs(names[..count], name[..n], i);
          return Some(values[i]);
        }
      }
      r := None;
    }

    method Lookup(name: string) returns (r: Option<V>)
      requires Valid()
      ensures r == Get(Contents(), name)
    {
      assert name[..|name|] == name;
      r := NGet(name, |name|);
    }

    /** The loop that looks for the place of a name known to be there. */
    method IndexOf(name: string) returns (i: nat)
      requires Valid() && Has(Contents(), name)
      ensures i == Find(Contents().names, name) < count
    {
      i := 0;
      while names[i] != name
        invariant i < count && forall k :: 0 <= k < i ==> names[k] != name
        decreases count - i
      {
        ToGo(names[..count], name, i);
        i := i + 1;
      }
      FindIs(names[..count], name, i);
    }

    /** json_object_add */
    method AddMember(name: string, value: V) returns (ok: bool)
      requires Valid()
      modifies this, names, values
      ensures Valid() && (Contents(), ok) == Add(old(Contents()), name, value)
      ensures (names == old(names) && values == old(values)) || (fresh(names) && fresh(values))
    {
      ghost var e := Contents();
      if count >= names.Length {
        var capacity := if names.Length * 2 > STARTING_CAPACITY then names.Length * 2 else STARTING_CAPACITY;
        if capacity > OBJECT_MAX_CAPACITY {
          return false;
        }
        ok := Resize(capacity);
      }
      assert Contents() == MakeRoom(e);
      var known := Lookup(name);
      if known.Some? {
        return false;
      }
      AppendKeepsUnique(names[..count], name);
      names[count] := name;
      values[count] := value;
      count := count + 1;
      assert names[..count] == e.names + [name] && values[..count] == e.values + [value];
      ok := true;
    }

    /** json_object_set_value */
    method SetMember(name: string, value: V) returns (ok: bool)
      requires Valid()
      modifies this, names, values
      ensures Valid() && (Contents(), ok) == Set(old(Contents()), name, value)
      ensures (names == old(names) && values == old(values)) || (fresh(names) && fresh(values))
    {
      ghost var e := Contents();
      var known := Lookup(name);
      if known.Some? {
        var i := IndexOf(name);
        values[i] := value;
        assert values[..count] == e.values[i := value];
        return true;
      }
      ok := AddMember(name, value);
    }

    /** json_object_remove */
    method RemoveMember(name: string) returns (ok: bool)
      requires Valid()
      modifies this, names, values
      ensures Valid() && names == old(names) && values == old(values)
      ensures (Contents(), ok) == Unset(old(Contents()), name)
    {
      ghost var e := Contents();
      var known := Lookup(name);
      if known.None? {
        return false;
      }
      var last := count - 1;
      var i := IndexOf(name);
      DropKeepsUnique(e.names, i);
      if i != last {
        names[i] := names[last];
        values[i] := values[last];
      }
      count := last;
      assert names[..count] == DropAt(e.names, i) && values[..count] == DropAt(e.values, i);
      ok := true;
    }
  }

  lemma FindIs(names: seq<string>, name: string, i: nat)
    requires i < |names| && names[i] == name && forall k :: 0 <= k < i ==> names[k] != name
    ensures Find(names, name) == i
  {
  }

  lemma ToGo(names: seq<string>, name: string, i: nat)
    requires i < |names| && name in names && forall k :: 0 <= k <= i ==> names[k] != name
    ensures i + 1 < |names|
  {
  }
}
