/** Comparing and copying trees. */
module JsonCompare {
  import opened Wrappers
  import opened JsonText
  import opened JsonParse
  import opened JsonObjects
  import opened JsonRoundTrip

  const EPSILON: real := 0.000001

  predicate Close(x: real, y: real) {
    (if x < y then y - x else x - y) < EPSILON
  }

  /** json_value_equals; objects are compared by looping over the names of the first only. */
  ghost predicate Equals(a: Json, b: Json)
    requires WellFormed(a) && WellFormed(b)
    decreases a
  {
    match a
    case Arr(items) => b.Arr? && |items| == |b.items| && forall i :: 0 <= i < |items| ==> Equals(items[i], b.items[i])
    case Obj(names, values) => b.Obj? && |names| == |b.names| && forall i :: 0 <= i < |names| ==> EqualAt(a, b, i)
    case Str(s) => b.Str? && s == b.s
    case Bool(x) => b.Bool? && x == b.b
    case Num(x) => b.Num? && Close(x, b.n)
    case Null => b.Null?
  }

  /** The body of the loop: a name that the other object lacks has the type of an error there, unlike any value. */
  ghost predicate EqualAt(a: Json, b: Json, i: nat)
    requires WellFormed(a) && WellFormed(b) && a.Obj? && b.Obj? && i < |a.names|
    decreases a, 0
  {
    var key := a.names[i];
    key in b.names && Equals(a.values[Find(a.names, key)], b.values[Find(b.names, key)])
  }

  // ---------- what it decides ----------

  /** Equality of trees up to the order of members and a tolerance on numbers, said without a preferred side. */
  ghost predicate SameTree(a: Json, b: Json)
    requires WellFormed(a) && WellFormed(b)
    decreases a
  {
    match a
    case Arr(items) => b.Arr? && |items| == |b.items| && forall i :: 0 <= i < |items| ==> SameTree(items[i], b.items[i])
    case Obj(names, values) =>
      && b.Obj? && NameSet(names) == NameSet(b.names)
      && forall i, j :: 0 <= i < |names| && 0 <= j < |b.names| && names[i] == b.names[j] ==>
        SameTree(values[i], b.values[j])
    case Str(s) => b == a
    case Bool(x) => b == a
    case Num(x) => b.Num? && Close(x, b.n)
    case Null => b == a
  }

  /** The pigeonhole: as many names, each known to the other side, are all of its names. */
  lemma SubsetOfSameSize(a: seq<string>, b: seq<string>)
    requires Unique(a) && Unique(b) && |a| == |b| && forall k :: k in a ==> k in b
    ensures NameSet(a) == NameSet(b)
  {
    NameSetSize(a);
    NameSetSize(b);
    SubsetSize(NameSet(a), NameSet(b));
  }

  lemma SubsetSize(x: set<string>, y: set<string>)
    requires x <= y && |x| == |y|
    ensures x == y
  {
    if x != y {
      var k :| k in y && k !in x;
      assert x <= y - {k};
      SubsetIsSmaller(x, y - {k});
    }
  }

  lemma {:induction false} SubsetIsSmaller(x: set<string>, y: set<string>)
    requires x <= y
    ensures |x| <= |y|
    decreases |y|
  {
    if y != {} {
      var k :| k in y;
      SubsetIsSmaller(x - {k}, y - {k});
    }
  }

  lemma SameSizeFromSameSet(a: seq<string>, b: seq<string>)
    requires Unique(a) && Unique(b) && NameSet(a) == NameSet(b)
    ensures |a| == |b| && forall k :: k in a ==> k in b
  {
    NameSetSize(a);
    NameSetSize(b);
    forall k | k in a ensures k in b {
      assert k in NameSet(a);
    }
  }

  /** The one-sided loop decides the symmetric relation. */
  lemma {:induction false} EqualsIsSameTree(a: Json, b: Json)
    requires WellFormed(a) && WellFormed(b)
    ensures Equals(a, b) <==> SameTree(a, b)
    decreases a
  {
    if a.Arr? && b.Arr? && |a.items| == |b.items| {
      forall i | 0 <= i < |a.items| ensures Equals(a.items[i], b.items[i]) <==> SameTree(a.items[i], b.items[i]) {
        EqualsIsSameTree(a.items[i], b.items[i]);
      }
    } else if a.Obj? && b.Obj? {
      forall i, j | 0 <= i < |a.names| && 0 <= j < |b.names|
        ensures Equals(a.values[i], b.values[j]) <==> SameTree(a.values[i], b.values[j])
      {
        EqualsIsSameTree(a.values[i], b.values[j]);
      }
      ObjectsAgree(a, b);
    }
  }

  /** Members that go by one name, wherever they stand. */
  lemma ObjectsAgree(a: Json, b: Json)
    requires WellFormed(a) && WellFormed(b) && a.Obj? && b.Obj?
    requires forall i, j :: 0 <= i < |a.names| && 0 <= j < |b.names| ==>
               (Equals(a.values[i], b.values[j]) <==> SameTree(a.values[i], b.values[j]))
    ensures Equals(a, b) <==> SameTree(a, b)
  {
    if Equals(a, b) {
      EqualObjectsAreSame(a, b);
    }
    if SameTree(a, b) {
      SameObjectsAreEqual(a, b);
    }
  }

  lemma SameObjectsAreEqual(a: Json, b: Json)
    requires WellFormed(a) && WellFormed(b) && a.Obj? && b.Obj? && SameTree(a, b)
    requires forall i, j :: 0 <= i < |a.names| && 0 <= j < |b.names| ==>
               (Equals(a.values[i], b.values[j]) <==> SameTree(a.values[i], b.values[j]))
    ensures Equals(a, b)
  {
    SameSizeFromSameSet(a.names, b.names);
    forall i | 0 <= i < |a.names| ensures EqualAt(a, b, i) {
      assert a.names[i] in a.names;
      FindUnique(a.names, i);
      var j := Find(b.names, a.names[i]);
      assert j < |b.names| && b.names[j] == a.names[i];
      assert SameTree(a.values[i], b.values[j]);
    }
  }

  lemma EqualObjectsAreSame(a: Json, b: Json)
    requires WellFormed(a) && WellFormed(b) && a.Obj? && b.Obj? && Equals(a, b)
    requires forall i, j :: 0 <= i < |a.names| && 0 <= j < |b.names| ==>
               (Equals(a.values[i], b.values[j]) <==> SameTree(a.values[i], b.values[j]))
    ensures SameTree(a, b)
  {
    forall k | k in a.names ensures k in b.names {
      assert EqualAt(a, b, Find(a.names, k));
    }
    SubsetOfSameSize(a.names, b.names);
    forall i, j | 0 <= i < |a.names| && 0 <= j < |b.names| && a.names[i] == b.names[j]
      ensures SameTree(a.values[i], b.values[j])
    {
      assert EqualAt(a, b, i);
      FindUnique(a.names, i);
      FindUnique(b.names, j);
    }
  }

  lemma {:induction false} SameTreeSymmetric(a: Json, b: Json)
    requires WellFormed(a) && WellFormed(b) && SameTree(a, b)
    ensures SameTree(b, a)
    decreases a
  {
    if a.Arr? {
      forall i | 0 <= i < |a.items| ensures SameTree(b.items[i], a.items[i]) {
        SameTreeSymmetric(a.items[i], b.items[i]);
      }
    } else if a.Obj? {
      forall i, j | 0 <= i < |b.names| && 0 <= j < |a.names| && b.names[i] == a.names[j]
        ensures SameTree(b.values[i], a.values[j])
      {
        SameTreeSymmetric(a.values[j], b.values[i]);
      }
    }
  }

  /** json_value_equals is symmetric although it loops over one side. */
  lemma EqualsSymmetric(a: Json, b: Json)
    requires WellFormed(a) && WellFormed(b)
    ensures Equals(a, b) <==> Equals(b, a)
  {
    EqualsIsSameTree(a, b);
    EqualsIsSameTree(b, a);
    if SameTree(a, b) {
      SameTreeSymmetric(a, b);
    }
    if SameTree(b, a) {
      SameTreeSymmetric(b, a);
    }
  }

  lemma {:induction false} EqualsReflexive(v: Json)
    requires WellFormed(v)
    ensures Equals(v, v)
    decreases v
  {
    if v.Arr? {
      forall i | 0 <= i < |v.items| ensures Equals(v.items[i], v.items[i]) {
        EqualsReflexive(v.items[i]);
      }
    } else if v.Obj? {
      forall i | 0 <= i < |v.names| ensures EqualAt(v, v, i) {
        EqualsReflexive(v.values[Find(v.names, v.names[i])]);
      }
    }
  }

  // ---------- transitivity ----------

  /** x is a multiple of the step g. */
  ghost predicate OnGrid(x: real, g: real) {
    exists k: int :: x == Multiple(k, g)
  }

  ghost function Multiple(k: int, g: real): real { k as real * g }

  ghost predicate NumbersOnGrid(v: Json, g: real) {
    match v
    case Num(n) => OnGrid(n, g)
    case Arr(items) => forall i :: 0 <= i < |items| ==> NumbersOnGrid(items[i], g)
    case Obj(_, values) => forall i :: 0 <= i < |values| ==> NumbersOnGrid(values[i], g)
    case _ => true
  }

  ghost predicate OfGrid(v: Json, g: real) {
    WellFormed(v) && NumbersOnGrid(v, g)
  }

  ghost predicate TransitiveOnGrid(g: real) {
    forall a: Json, b: Json, c: Json ::
      OfGrid(a, g) && OfGrid(b, g) && OfGrid(c, g) && Equals(a, b) && Equals(b, c) ==> Equals(a, c)
  }

  /**
    The tolerance makes json_value_equals no equivalence in general. It is transitive on the trees whose numbers are
    multiples of a step exactly when the step is no smaller than the tolerance.
   */
  lemma EqualsTransitiveExactly(g: real)
    requires g > 0.0
    ensures TransitiveOnGrid(g) <==> g >= EPSILON
  {
    if g >= EPSILON {
      forall a: Json, b: Json, c: Json | OfGrid(a, g) && OfGrid(b, g) && OfGrid(c, g) && Equals(a, b) && Equals(b, c)
        ensures Equals(a, c)
      {
        EqualsTransitive(a, b, c, g);
      }
    } else {
      FineGridFails(g);
    }
  }

  /** On a finer grid, the largest multiple below the tolerance is reached twice in a row. */
  lemma FineGridFails(g: real)
    requires 0.0 < g < EPSILON
    ensures !TransitiveOnGrid(g)
  {
    var k := LargestBelow(g);
    var x, y := Multiple(k, g), Multiple(2 * k, g);
    assert Multiple(0, g) == 0.0 && y == x + x;
    assert OnGrid(0.0, g) && OnGrid(x, g) && OnGrid(y, g);
    assert OfGrid(Num(0.0), g) && OfGrid(Num(x), g) && OfGrid(Num(y), g);
    assert Equals(Num(0.0), Num(x)) && Equals(Num(x), Num(y)) && !Equals(Num(0.0), Num(y));
  }

  lemma LargestBelow(g: real) returns (k: int)
    requires 0.0 < g < EPSILON
    ensures k > 0 && Multiple(k, g) < EPSILON <= Multiple(2 * k, g)
  {
    k := 1;
    while Multiple(k + 1, g) < EPSILON
      invariant k > 0 && Multiple(k, g) < EPSILON
      decreases (EPSILON / g).Floor - k
    {
      StaysBelow(k + 1, g);
      k := k + 1;
    }
    MultipleGrows(k + 1, 2 * k, g);
  }

  lemma StaysBelow(k: int, g: real)
    requires g > 0.0 && Multiple(k, g) < EPSILON
    ensures k <= (EPSILON / g).Floor
  {
    assert EPSILON / g * g == EPSILON;
    if k as real > EPSILON / g {
      assert k as real * g > EPSILON / g * g;
    }
  }

  lemma MultipleGrows(j: int, k: int, g: real)
    requires g > 0.0 && j <= k
    ensures Multiple(j, g) <= Multiple(k, g)
  {
    assert j as real <= k as real;
  }

  lemma CloseOnGrid(x: real, y: real, g: real)
    requires g >= EPSILON && OnGrid(x, g) && OnGrid(y, g) && Close(x, y)
    ensures x == y
  {
    var j: int :| x == Multiple(j, g);
    var k: int :| y == Multiple(k, g);
    if j < k {
      StepApart(j, k, g);
    } else if k < j {
      StepApart(k, j, g);
    }
  }

  lemma StepApart(j: int, k: int, g: real)
    requires g > 0.0 && j < k
    ensures Multiple(j, g) + g <= Multiple(k, g)
  {
    MultipleGrows(j + 1, k, g);
    assert Multiple(j + 1, g) == Multiple(j, g) + g;
  }

  lemma EqualsTransitive(a: Json, b: Json, c: Json, g: real)
    requires g >= EPSILON && OfGrid(a, g) && OfGrid(b, g) && OfGrid(c, g) && Equals(a, b) && Equals(b, c)
    ensures Equals(a, c)
  {
    EqualsIsSameTree(a, b);
    EqualsIsSameTree(b, c);
    EqualsIsSameTree(a, c);
    SameTreeTransitive(a, b, c, g);
  }

  lemma {:induction false} SameTreeTransitive(a: Json, b: Json, c: Json, g: real)
    requires g >= EPSILON && OfGrid(a, g) && OfGrid(b, g) && OfGrid(c, g) && SameTree(a, b) && SameTree(b, c)
    ensures SameTree(a, c)
    decreases a, 1
  {
    match a
    case Arr(_) => ItemsTransitive(a, b, c, g);
    case Obj(_, _) => MembersTransitive(a, b, c, g);
    case Num(x) => CloseOnGrid(x, b.n, g);
    case _ =>
  }

  lemma {:induction false} ItemsTransitive(a: Json, b: Json, c: Json, g: real)
    requires g >= EPSILON && OfGrid(a, g) && OfGrid(b, g) && OfGrid(c, g)
    requires a.Arr? && SameTree(a, b) && SameTree(b, c)
    ensures SameTree(a, c)
    decreases a, 0
  {
    forall i | 0 <= i < |a.items| ensures SameTree(a.items[i], c.items[i]) {
      SameTreeTransitive(a.items[i], b.items[i], c.items[i], g);
    }
  }

  lemma {:induction false} MembersTransitive(a: Json, b: Json, c: Json, g: real)
    requires g >= EPSILON && OfGrid(a, g) && OfGrid(b, g) && OfGrid(c, g)
    requires a.Obj? && SameTree(a, b) && SameTree(b, c)
    ensures SameTree(a, c)
    decreases a, 0
  {
    forall i, j | 0 <= i < |a.names| && 0 <= j < |c.names| && a.names[i] == c.names[j]
      ensures SameTree(a.values[i], c.values[j])
    {
      var k := Between(a.names, b.names, i);
      SameTreeTransitive(a.values[i], b.values[k], c.values[j], g);
    }
  }

  lemma Between(a: seq<string>, b: seq<string>, i: nat) returns (k: nat)
    requires NameSet(a) == NameSet(b) && i < |a|
    ensures k < |b| && b[k] == a[i]
  {
    assert a[i] in NameSet(a);
    k :| 0 <= k < |b| && b[k] == a[i];
  }

  /** Numbers that are printed as int. */
  ghost predicate IntValued(v: Json) {
    match v
    case Num(n) => IsInt(n)
    case Arr(items) => forall i :: 0 <= i < |items| ==> IntValued(items[i])
    case Obj(_, values) => forall i :: 0 <= i < |values| ==> IntValued(values[i])
    case _ => true
  }

  ghost predicate OfInts(v: Json) {
    WellFormed(v) && IntValued(v)
  }

  lemma {:induction false} IntsOnGrid(v: Json)
    requires IntValued(v)
    ensures NumbersOnGrid(v, EPSILON)
    decreases v
  {
    match v
    case Num(n) => assert n == Multiple(n.Floor * 1000000, EPSILON);
    case Arr(items) =>
      forall i | 0 <= i < |items| ensures NumbersOnGrid(items[i], EPSILON) {
        IntsOnGrid(items[i]);
      }
    case Obj(_, values) =>
      forall i | 0 <= i < |values| ensures NumbersOnGrid(values[i], EPSILON) {
        IntsOnGrid(values[i]);
      }
    case _ =>
  }

  /** So it is transitive on trees of int-valued numbers, and on those of numbers with at most six decimals. */
  lemma EqualsTransitiveOnPrinted()
    ensures TransitiveOnGrid(EPSILON)
    ensures forall a: Json, b: Json, c: Json ::
              OfInts(a) && OfInts(b) && OfInts(c) && Equals(a, b) && Equals(b, c) ==> Equals(a, c)
  {
    EqualsTransitiveExactly(EPSILON);
    forall a: Json, b: Json, c: Json
      | OfInts(a) && OfInts(b) && OfInts(c) && Equals(a, b) && Equals(b, c)
      ensures Equals(a, c)
    {
      IntsOnGrid(a);
      IntsOnGrid(b);
      IntsOnGrid(c);
    }
  }

  // ---------- copying ----------

  /** json_value_deep_copy */
  function DeepCopy(v: Json): Option<Json>
    requires WellFormed(v)
    decreases v, 1
  {
    match v
    case Arr(_) => CopyItems(v, Items([], 0))
    case Obj(_, _) => CopyMembers(v, 0, Empty())
    case _ => Some(v)
  }

  /** The loop over the items, of which those in the copy are done. */
  function CopyItems(v: Json, copy: Items<Json>): Option<Json>
    requires WellFormed(v) && v.Arr? && |copy.items| <= |v.items|
    decreases v, 0, |v.items| - |copy.items|
  {
    var i := |copy.items|;
    if i == |v.items| then Some(Arr(copy.items))
    else
      match DeepCopy(v.items[i])
      case None => None
      case Some(w) =>
        match AddItem(copy, w)
        case None => None
        case Some(more) => CopyItems(v, more)
  }

  /** The loop over the members, from i on. */
  function CopyMembers(v: Json, i: nat, copy: Entries<Json>): Option<Json>
    requires WellFormed(v) && v.Obj? && i <= |v.names|
    decreases v, 0, |v.names| - i
  {
    if i == |v.names| then Some(Obj(copy.names, copy.values))
    else
      match DeepCopy(v.values[Find(v.names, v.names[i])])
      case None => None
      case Some(w) =>
        var (more, ok) := Add(copy, v.names[i], w);
        if ok then CopyMembers(v, i + 1, more) else None
  }

  /** Sizes that adding one by one can reach. */
  ghost predicate Copyable(v: Json) {
    match v
    case Arr(items) => |items| <= ARRAY_MAX_CAPACITY && forall i :: 0 <= i < |items| ==> Copyable(items[i])
    case Obj(names, values) => |names| <= OBJECT_MAX_CAPACITY && forall i :: 0 <= i < |values| ==> Copyable(values[i])
    case _ => true
  }

  ghost predicate AllCopyable(values: seq<Json>, i: nat) {
    forall k :: i <= k < |values| ==> Copyable(values[k])
  }

  lemma AllCopyableStep(values: seq<Json>, i: nat)
    requires i < |values|
    ensures AllCopyable(values, i) <==> Copyable(values[i]) && AllCopyable(values, i + 1)
  {
  }

  lemma {:induction false} CopyItemsCopies(v: Json, copy: Items<Json>)
    requires WellFormed(v) && v.Arr? && |copy.items| <= |v.items| && copy.items == v.items[..|copy.items|]
    requires Growing(|copy.items|, copy.capacity, ARRAY_MAX_CAPACITY)
    ensures CopyItems(v, copy) ==
            if |v.items| <= ARRAY_MAX_CAPACITY && AllCopyable(v.items, |copy.items|) then Some(v) else None
    decreases v, 0, |v.items| - |copy.items|
  {
    var i := |copy.items|;
    if i == |v.items| {
      assert v.items[..i] == v.items;
    } else {
      CopyIsEqual(v.items[i]);
      AllCopyableStep(v.items, i);
      AddItemGrows(copy, v.items[i]);
      TakeStep(v.items, i);
      match AddItem(copy, v.items[i])
      case None =>
      case Some(more) => CopyItemsCopies(v, more);
    }
  }

  lemma {:induction false} CopyMembersCopies(v: Json, i: nat, copy: Entries<Json>)
    requires WellFormed(v) && v.Obj? && i <= |v.names| && copy.names == v.names[..i] && copy.values == v.values[..i]
    requires Growing(i, copy.capacity, OBJECT_MAX_CAPACITY)
    ensures CopyMembers(v, i, copy) ==
            if |v.names| <= OBJECT_MAX_CAPACITY && AllCopyable(v.values, i) then Some(v) else None
    decreases v, 0, |v.names| - i
  {
    if i == |v.names| {
      assert v.names[..i] == v.names && v.values[..i] == v.values;
    } else {
      FindUnique(v.names, i);
      CopyIsEqual(v.values[i]);
      AllCopyableStep(v.values, i);
      AddGrows(copy, v.names[i], v.values[i]);
      TakeStep(v.names, i);
      TakeStep(v.values, i);
      var (more, ok) := Add(copy, v.names[i], v.values[i]);
      if ok {
        CopyMembersCopies(v, i + 1, more);
      }
    }
  }

  /**
    The copy succeeds exactly within the capacities, has the same members in the same order, and equals its original.
   */
  lemma {:induction false} CopyIsEqual(v: Json)
    requires WellFormed(v)
    ensures DeepCopy(v) == if Copyable(v) then Some(v) else None
    ensures DeepCopy(v).Some? ==> WellFormed(DeepCopy(v).value) && Equals(v, DeepCopy(v).value)
    decreases v, 1
  {
    EqualsReflexive(v);
    match v
    case Arr(_) =>
      assert v.items[..0] == [];
      CopyItemsCopies(v, Items([], 0));
    case Obj(_, _) =>
      assert v.names[..0] == [] && v.values[..0] == [];
      CopyMembersCopies(v, 0, Empty());
    case _ =>
  }
}
