/** Permutations and circular order of queued nodes. */
module JitOrder {
  import opened Circle
  import opened Jit

  function Key(base: u32, n: Node): u32 { Sub(n.pkt.countUs, base) }

  ghost predicate KeySorted(base: u32, s: seq<Node>) {
    forall i, j :: 0 <= i < j < |s| ==> Key(base, s[i]) <= Key(base, s[j])
  }

  ghost predicate DistinctCounts(s: seq<Node>) {
    forall i, j :: 0 <= i < j < |s| ==> s[i].pkt.countUs != s[j].pkt.countUs
  }

  /** Within a half circle the comparator's order is the order of distances from its start. */
  lemma AscendingIsKeySorted(base: u32, s: seq<Node>)
    requires HalfFrom(base, s)
    ensures Ascending(s) <==> KeySorted(base, s)
  {
    forall i, j | 0 <= i < j < |s|
      ensures Compare(s[i], s[j]) <= 0 <==> Key(base, s[i]) <= Key(base, s[j])
    {
      SignedSubOnHalf(base, s[i].pkt.countUs, s[j].pkt.countUs);
    }
  }

  lemma HalfFromMembers(base: u32, s: seq<Node>, t: seq<Node>)
    requires HalfFrom(base, s)
    requires forall n :: n in t ==> n in s
    ensures HalfFrom(base, t)
  {
    forall i | 0 <= i < |t| ensures InHalfFrom(base, t[i].pkt.countUs) {
      assert t[i] in s;
    }
  }

  lemma SameMembers(s: seq<Node>, t: seq<Node>)
    requires multiset(s) == multiset(t)
    ensures |s| == |t|
    ensures forall n :: n in s <==> n in t
  {
    assert |multiset(s)| == |multiset(t)|;
    forall n ensures n in s <==> n in t {
      assert n in s <==> n in multiset(s);
      assert n in t <==> n in multiset(t);
    }
  }

  lemma SplitMultiset(s: seq<Node>, i: nat)
    requires i < |s|
    ensures multiset(s) == multiset(s[..i]) + multiset{s[i]} + multiset(s[i + 1..])
  {
    assert s == s[..i] + [s[i]] + s[i + 1..];
  }

  function Without(s: seq<Node>, i: nat): seq<Node>
    requires i < |s|
  {
    s[..i] + s[i + 1..]
  }

  lemma WithoutMultiset(s: seq<Node>, i: nat)
    requires i < |s|
    ensures multiset(s) == multiset(Without(s, i)) + multiset{s[i]}
  {
    SplitMultiset(s, i);
    assert multiset(Without(s, i)) == multiset(s[..i]) + multiset(s[i + 1..]);
  }

  lemma Cancel(a: multiset<Node>, b: multiset<Node>, n: Node)
    requires a + multiset{n} == b + multiset{n}
    ensures a == b
  {
    assert a == (a + multiset{n}) - multiset{n};
    assert b == (b + multiset{n}) - multiset{n};
  }

  /** Swapping out node i or cutting it out leaves the same nodes. */
  lemma SwapOutIsWithout(s: seq<Node>, i: nat)
    requires i < |s|
    ensures multiset(SwapOut(s, i)) == multiset(Without(s, i))
  {
    SwapOutMultiset(s, i);
    WithoutMultiset(s, i);
    Cancel(multiset(SwapOut(s, i)), multiset(Without(s, i)), s[i]);
  }

  lemma SwapOutMultiset(s: seq<Node>, i: nat)
    requires i < |s|
    ensures multiset(s) == multiset(SwapOut(s, i)) + multiset{s[i]}
  {
    var k := |s| - 1;
    var t := SwapOut(s, i);
    if i == k {
      assert s == t + [s[k]];
    } else {
      SplitMultiset(s, i);
      assert s[i + 1..] == s[i + 1..k] + [s[k]];
      SplitMultiset(t, i);
      assert t[..i] == s[..i] && t[i] == s[k] && t[i + 1..] == s[i + 1..k];
    }
  }

  /** Two nodes at different places of s keep different places in every rearrangement of s. */
  lemma TwoPlaces(s: seq<Node>, t: seq<Node>, i: nat, j: nat) returns (k: nat, l: nat)
    requires multiset(t) <= multiset(s)
    requires i < j < |t|
    ensures k < |s| && l < |s| && k != l && s[k] == t[i] && s[l] == t[j]
  {
    SplitMultiset(t, j);
    assert t[i] == t[..j][i] && t[i] in multiset(t[..j]);
    assert multiset(t)[t[i]] >= 1 && multiset(t)[t[j]] >= 1;
    assert t[i] in multiset(s) && t[j] in multiset(s);
    k :| 0 <= k < |s| && s[k] == t[i];
    SplitMultiset(s, k);
    if t[i] == t[j] {
      assert multiset(t)[t[i]] >= 2;
      var rest := multiset(s[..k]) + multiset(s[k + 1..]);
      assert rest[t[j]] >= 1;
    } else {
      var rest := multiset(s[..k]) + multiset(s[k + 1..]);
      assert rest[t[j]] >= 1;
    }
    if t[j] in multiset(s[..k]) {
      l :| 0 <= l < k && s[..k][l] == t[j];
    } else {
      assert t[j] in multiset(s[k + 1..]);
      var m :| 0 <= m < |s[k + 1..]| && s[k + 1..][m] == t[j];
      l := k + 1 + m;
    }
  }

  lemma DistinctPermutes(s: seq<Node>, t: seq<Node>)
    requires multiset(t) <= multiset(s) && DistinctCounts(s)
    ensures DistinctCounts(t)
  {
    forall i, j | 0 <= i < j < |t| ensures t[i].pkt.countUs != t[j].pkt.countUs {
      var k, l := TwoPlaces(s, t, i, j);
      if k < l { } else { }
    }
  }

  // ---------- sorted rearrangements are unique ----------

  ghost function Members(s: seq<Node>): set<Node> { set n | n in s }

  lemma DistinctSize(s: seq<Node>)
    requires DistinctCounts(s)
    ensures |Members(s)| == |s|
  {
    if s != [] {
      var k := |s| - 1;
      DistinctSize(s[..k]);
      assert s == s[..k] + [s[k]];
      assert Members(s) == Members(s[..k]) + {s[k]};
      assert s[k] !in Members(s[..k]);
    }
  }

  /** In a strictly sorted sequence the index of a node is the number of nodes before it. */
  ghost function Before(base: u32, s: seq<Node>, n: Node): set<Node> {
    set m | m in s && Key(base, m) < Key(base, n)
  }

  lemma IndexIsRank(base: u32, s: seq<Node>, k: nat)
    requires KeySorted(base, s) && DistinctCounts(s) && k < |s|
    ensures |Before(base, s, s[k])| == k
  {
    assert Before(base, s, s[k]) == Members(s[..k]) by {
      forall m ensures m in Before(base, s, s[k]) <==> m in Members(s[..k]) {
        if m in s {
          var i :| 0 <= i < |s| && s[i] == m;
          assert i < k ==> s[..k][i] == m;
        }
      }
    }
    DistinctSize(s[..k]);
  }

  lemma SortedUnique(base: u32, s: seq<Node>, t: seq<Node>)
    requires multiset(s) == multiset(t)
    requires KeySorted(base, s) && KeySorted(base, t) && DistinctCounts(s)
    ensures s == t
  {
    SameMembers(s, t);
    DistinctPermutes(s, t);
    forall k | 0 <= k < |s| ensures s[k] == t[k] {
      assert s[k] in t;
      var l :| 0 <= l < |t| && t[l] == s[k];
      IndexIsRank(base, s, k);
      IndexIsRank(base, t, l);
      assert Before(base, s, s[k]) == Before(base, t, t[l]);
    }
  }

  /** Removing a node from an ascending queue by swap and sort is plain removal. */
  lemma RemovalKeepsOrder(q: Queue, i: nat, q': Queue)
    requires Removes(q, i, q')
    requires InHalfCircle(q.nodes) && Ascending(q.nodes) && DistinctCounts(q.nodes)
    ensures q'.nodes == Without(q.nodes, i)
  {
    var s, u := q.nodes, Without(q.nodes, i);
    var base: u32 :| HalfFrom(base, s);
    RemovalMembers(base, q, i, q');
    AscendingIsKeySorted(base, s);
    AscendingIsKeySorted(base, q'.nodes);
    WithoutMultiset(s, i);
    DistinctPermutes(s, u);
    KeySortedWithout(base, s, i);
    SortedUnique(base, u, q'.nodes);
  }

  lemma RemovalMembers(base: u32, q: Queue, i: nat, q': Queue)
    requires Removes(q, i, q') && HalfFrom(base, q.nodes)
    ensures multiset(Without(q.nodes, i)) == multiset(q'.nodes)
    ensures HalfFrom(base, q'.nodes) && Ascending(q'.nodes)
  {
    var s, t := q.nodes, SwapOut(q.nodes, i);
    SwapOutIsWithout(s, i);
    SameMembers(t, q'.nodes);
    HalfFromMembers(base, s, t);
    HalfFromMembers(base, t, q'.nodes);
  }

  lemma KeySortedWithout(base: u32, s: seq<Node>, i: nat)
    requires KeySorted(base, s) && i < |s|
    ensures KeySorted(base, Without(s, i))
  {
    var u := Without(s, i);
    forall k, l | 0 <= k < l < |u| ensures Key(base, u[k]) <= Key(base, u[l]) {
      assert u[k] == s[if k < i then k else k + 1];
      assert u[l] == s[if l < i then l else l + 1];
    }
  }

  // ---------- counting beacons ----------

  function IsBeacon(n: Node): nat { if n.kind == Beacon then 1 else 0 }

  lemma {:induction false} BeaconCountWithout(s: seq<Node>, i: nat)
    requires i < |s|
    ensures BeaconCount(s) == BeaconCount(Without(s, i)) + IsBeacon(s[i])
  {
    var k := |s| - 1;
    if i == k {
      assert Without(s, i) == s[..k];
    } else {
      BeaconCountWithout(s[..k], i);
      assert Without(s, i)[..k - 1] == Without(s[..k], i);
      assert Without(s, i)[k - 1] == s[k];
    }
  }

  lemma {:induction false} BeaconCountPermutes(s: seq<Node>, t: seq<Node>)
    requires multiset(s) == multiset(t)
    ensures BeaconCount(s) == BeaconCount(t)
  {
    SameMembers(s, t);
    if s != [] {
      var k := |s| - 1;
      assert s[k] in t;
      var i :| 0 <= i < |t| && t[i] == s[k];
      assert Without(s, k) == s[..k];
      WithoutMultiset(s, k);
      WithoutMultiset(t, i);
      Cancel(multiset(s[..k]), multiset(Without(t, i)), s[k]);
      BeaconCountPermutes(s[..k], Without(t, i));
      BeaconCountWithout(t, i);
    }
  }

  lemma BeaconCountRemoved(q: Queue, i: nat, q': Queue)
    requires Removes(q, i, q')
    ensures BeaconCount(q.nodes) == BeaconCount(q'.nodes) + IsBeacon(q.nodes[i])
  {
    SwapOutIsWithout(q.nodes, i);
    BeaconCountPermutes(Without(q.nodes, i), q'.nodes);
    BeaconCountWithout(q.nodes, i);
  }
}
