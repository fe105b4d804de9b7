/**
  What jit_peek drops and which index it returns, and why that index still names the same packet
  when jit_dequeue uses it.
 */
module JitPeek {
  import opened Circle
  import opened Jit
  import opened JitOrder
  import opened JitArcs

  // ---------- for any sort ----------

  ghost predicate OnlyStaleGone(s: seq<Node>, t: seq<Node>, now: u32) {
    && multiset(t) <= multiset(s)
    && forall n :: n in multiset(s) - multiset(t) ==> Stale(n, now)
  }

  ghost predicate CountsBeacons(q: Queue) {
    q.beacons == BeaconCount(q.nodes) && |q.nodes| <= QUEUE_MAX
  }

  lemma BeaconCountBound(s: seq<Node>)
    ensures BeaconCount(s) <= |s|
  {
  }

  lemma RemovalCountsBeacons(q: Queue, i: nat, q': Queue)
    requires CountsBeacons(q) && Removes(q, i, q')
    ensures CountsBeacons(q') && |q'.nodes| == |q.nodes| - 1
  {
    BeaconCountRemoved(q, i, q');
    SameMembers(SwapOut(q.nodes, i), q'.nodes);
  }

  lemma PurgeGone(q: Queue, i: nat, p: Queue, t: seq<Node>, now: u32)
    requires Removes(q, i, p) && Stale(q.nodes[i], now) && OnlyStaleGone(p.nodes, t, now)
    ensures OnlyStaleGone(q.nodes, t, now)
  {
    SwapOutMultiset(q.nodes, i);
    assert multiset(q.nodes) == multiset(p.nodes) + multiset{q.nodes[i]};
    assert multiset(q.nodes) - multiset(t) == multiset(p.nodes) - multiset(t) + multiset{q.nodes[i]};
  }

  /**
    However qsort_r arranges the nodes, the scan loses only stale packets, permutes the others,
    keeps the beacon counter right, and leaves nothing stale behind index 0.
   */
  lemma {:induction false} ScanDropsOnlyStale(q: Queue, i: nat, idx: int, now: u32, q': Queue, r: int)
    requires Scans(q, i, idx, now, q', r)
    requires forall k :: 1 <= k < i && k < |q.nodes| ==> !Stale(q.nodes[k], now)
    ensures OnlyStaleGone(q.nodes, q'.nodes, now)
    ensures CountsBeacons(q) ==> CountsBeacons(q')
    ensures forall k :: 1 <= k < |q'.nodes| ==> !Stale(q'.nodes[k], now)
    decreases |q.nodes|, |q.nodes| - i
  {
    if i < |q.nodes| {
      if Stale(q.nodes[i], now) {
        var p: Queue :| Purged(q, i, p) && Scans(p, 1, idx, now, q', r);
        if CountsBeacons(q) {
          RemovalCountsBeacons(q, i, p);
        }
        ScanDropsOnlyStale(p, 1, idx, now, q', r);
        PurgeGone(q, i, p, q'.nodes, now);
      } else {
        ScanDropsOnlyStale(q, i + 1, NextBest(q.nodes, i, idx, now), now, q', r);
      }
    }
  }

  lemma PeekDropsOnlyStale(q: Queue, now: u32, q': Queue, idx: int)
    requires Peeks(q, now, q', idx)
    ensures OnlyStaleGone(q.nodes, q'.nodes, now)
    ensures CountsBeacons(q) ==> CountsBeacons(q')
    ensures forall k :: 1 <= k < |q'.nodes| ==> !Stale(q'.nodes[k], now)
  {
    var r :| Scans(q, 0, -1, now, q', r) && idx == PeekResult(q'.nodes, now, r);
    ScanDropsOnlyStale(q, 0, -1, now, q', r);
  }

  // ---------- without outdated packets ----------

  /** r is the place of the soonest node from lo on, or -1 if there is none. */
  ghost predicate BestFrom(s: seq<Node>, lo: nat, now: u32, r: int) {
    if |s| <= lo then r == -1
    else lo <= r < |s| && forall k :: lo <= k < |s| ==> Key(now, s[r]) <= Key(now, s[k])
  }

  /** The answer the caller wants: the soonest packet when it is due, -1 when none is due. */
  ghost predicate RightAnswer(s: seq<Node>, now: u32, idx: int) {
    if idx == -1 then forall k :: 0 <= k < |s| ==> !Due(s[k], now)
    else 0 <= idx < |s| && Due(s[idx], now) && forall k :: 0 <= k < |s| ==> Key(now, s[idx]) <= Key(now, s[k])
  }

  lemma BestExtends(s: seq<Node>, lo: nat, m: nat, now: u32, idx: int)
    requires lo <= m < |s| && BestFrom(s[..m], lo, now, idx)
    ensures BestFrom(s[..m + 1], lo, now, NextBest(s, m, idx, now))
  {
    var t, best := s[..m + 1], NextBest(s, m, idx, now);
    forall k | lo <= k < |t| ensures Key(now, t[best]) <= Key(now, t[k]) {
      if k < m {
        assert s[..m][k] == t[k];
        assert Key(now, s[..m][idx]) <= Key(now, s[..m][k]);
      }
    }
  }

  lemma {:induction false} ScanWithoutStale(q: Queue, i: nat, idx: int, now: u32, q': Queue, r: int)
    requires Scans(q, i, idx, now, q', r) && i <= |q.nodes| && BestFrom(q.nodes[..i], 0, now, idx)
    requires forall k :: 0 <= k < |q.nodes| ==> !Stale(q.nodes[k], now)
    ensures q' == q && BestFrom(q.nodes, 0, now, r)
    decreases |q.nodes| - i
  {
    if i == |q.nodes| {
      assert q.nodes[..i] == q.nodes;
    } else {
      BestExtends(q.nodes, 0, i, now, idx);
      ScanWithoutStale(q, i + 1, NextBest(q.nodes, i, idx, now), now, q', r);
    }
  }

  /** With nothing outdated on entry, in whatever order, the queue is unchanged and the answer is right. */
  lemma PeekWithoutStale(q: Queue, now: u32, q': Queue, idx: int)
    requires Peeks(q, now, q', idx)
    requires forall k :: 0 <= k < |q.nodes| ==> !Stale(q.nodes[k], now)
    ensures q' == q && RightAnswer(q.nodes, now, idx)
  {
    var r :| Scans(q, 0, -1, now, q', r) && idx == PeekResult(q'.nodes, now, r);
    ScanWithoutStale(q, 0, -1, now, q', r);
  }

  // ---------- when the comparator is an order ----------

  /** The situation the comparator is made for: all counters in a half circle, ascending and distinct. */
  ghost predicate InOrder(s: seq<Node>) {
    InHalfCircle(s) && Ascending(s) && DistinctCounts(s)
  }

  function Fresh(s: seq<Node>, now: u32): seq<Node> {
    if s == [] then [] else
      var rest := Fresh(s[..|s| - 1], now);
      if Stale(s[|s| - 1], now) then rest else rest + [s[|s| - 1]]
  }

  /** The scan starts over at index 1 after a purge, so a stale head shields its successor. */
  function ScanStart(s: seq<Node>, now: u32): nat {
    if s != [] && Stale(s[0], now) then 1 else 0
  }

  /** What a peek leaves: a stale head goes, the node after it stays whatever it is, other stale nodes go. */
  function Kept(s: seq<Node>, now: u32): seq<Node> {
    if ScanStart(s, now) == 0 then Fresh(s, now)
    else if |s| == 1 then []
    else [s[1]] + Fresh(s[2..], now)
  }

  lemma InOrderWithout(s: seq<Node>, i: nat)
    requires InOrder(s) && i < |s|
    ensures InOrder(Without(s, i))
  {
    var base: u32 :| HalfFrom(base, s);
    var u := Without(s, i);
    HalfFromMembers(base, s, u);
    AscendingIsKeySorted(base, s);
    KeySortedWithout(base, s, i);
    AscendingIsKeySorted(base, u);
    WithoutMultiset(s, i);
    DistinctPermutes(s, u);
  }

  lemma FreshPrepend(n: Node, s: seq<Node>, now: u32)
    ensures Fresh([n] + s, now) == (if Stale(n, now) then [] else [n]) + Fresh(s, now)
  {
    if s == [] {
      assert [n] + s == [n];
      assert [n][..0] == [];
    } else {
      var k := |s| - 1;
      FreshPrepend(n, s[..k], now);
      assert ([n] + s)[..k + 1] == [n] + s[..k];
    }
  }

  lemma FreshStep(s: seq<Node>, i: nat, now: u32)
    requires i < |s|
    ensures Fresh(s[i..], now) == (if Stale(s[i], now) then [] else [s[i]]) + Fresh(s[i + 1..], now)
  {
    assert s[i..] == [s[i]] + s[i + 1..];
    FreshPrepend(s[i], s[i + 1..], now);
  }

  /**
    Scanning from i, with the nodes from lo (0 or 1) up to m known to be fresh and idx the best of them:
    a purge at or after m leaves that prefix in place, so going over it again changes nothing.
   */
  lemma {:induction false} ScanExact(q: Queue, lo: nat, i: nat, m: nat, idx: int, now: u32, q': Queue, r: int)
    requires Scans(q, i, idx, now, q', r) && Resumes(q.nodes, lo, i, m, idx, now)
    ensures q'.nodes == q.nodes[..m] + Fresh(q.nodes[m..], now)
    ensures BestFrom(q'.nodes, lo, now, r)
    decreases |q.nodes|, |q.nodes| - i, 1
  {
    if i == |q.nodes| {
      assert q'.nodes == q.nodes[..m] + [];
      assert q.nodes[..m] == q.nodes;
    } else if i < m {
      KnownNode(q.nodes, lo, i, m, idx, now);
      ScansOn(q, i, idx, now, q', r);
      ScanExact(q, lo, i + 1, m, idx, now, q', r);
    } else if Stale(q.nodes[m], now) {
      ScanExactPurge(q, lo, m, idx, now, q', r);
    } else {
      ScanExactFresh(q, lo, m, idx, now, q', r);
    }
  }

  lemma {:induction false} ScanExactFresh(q: Queue, lo: nat, m: nat, idx: int, now: u32, q': Queue, r: int)
    requires Scans(q, m, idx, now, q', r) && Resumes(q.nodes, lo, m, m, idx, now)
    requires m < |q.nodes| && !Stale(q.nodes[m], now)
    ensures q'.nodes == q.nodes[..m] + Fresh(q.nodes[m..], now)
    ensures BestFrom(q'.nodes, lo, now, r)
    decreases |q.nodes|, |q.nodes| - m, 0
  {
    hide Scans, Resumes, BestFrom, Fresh, NextBest, Stale, InOrder;
    FreshStepKept(q.nodes, m, now);
    NewNode(q.nodes, lo, m, idx, now);
    ScansOn(q, m, idx, now, q', r);
    WithinNodes(q.nodes, lo, m + 1, m + 1, NextBest(q.nodes, m, idx, now), now);
    ScanExact(q, lo, m + 1, m + 1, NextBest(q.nodes, m, idx, now), now, q', r);
  }

  lemma WithinNodes(s: seq<Node>, lo: nat, i: nat, m: nat, idx: int, now: u32)
    requires Resumes(s, lo, i, m, idx, now)
    ensures i <= m <= |s|
  {
  }

  lemma ScansOn(q: Queue, i: nat, idx: int, now: u32, q': Queue, r: int)
    requires Scans(q, i, idx, now, q', r) && i < |q.nodes| && !Stale(q.nodes[i], now)
    ensures Scans(q, i + 1, NextBest(q.nodes, i, idx, now), now, q', r)
  {
  }

  ghost predicate Resumes(s: seq<Node>, lo: nat, i: nat, m: nat, idx: int, now: u32) {
    && InOrder(s) && lo <= 1 && lo <= i <= m <= |s|
    && (m == 0 && s != [] ==> !Stale(s[0], now))
    && (forall k :: lo <= k < m ==> !Stale(s[k], now))
    && BestFrom(s[..m], lo, now, idx)
  }

  lemma {:induction false} ScanExactPurge(q: Queue, lo: nat, m: nat, idx: int, now: u32, q': Queue, r: int)
    requires Scans(q, m, idx, now, q', r) && Resumes(q.nodes, lo, m, m, idx, now)
    requires m < |q.nodes| && Stale(q.nodes[m], now)
    ensures q'.nodes == q.nodes[..m] + Fresh(q.nodes[m..], now)
    ensures BestFrom(q'.nodes, lo, now, r)
    decreases |q.nodes|, |q.nodes| - m, 0
  {
    var p: Queue :| Purged(q, m, p) && Scans(p, 1, idx, now, q', r);
    PurgeStep(q, m, p, now);
    ScanExact(p, lo, 1, m, idx, now, q', r);
  }

  lemma KnownNode(s: seq<Node>, lo: nat, i: nat, m: nat, idx: int, now: u32)
    requires Resumes(s, lo, i, m, idx, now) && i < m
    ensures NextBest(s, i, idx, now) == idx && Resumes(s, lo, i + 1, m, idx, now)
  {
    assert s[..m][i] == s[i];
    assert s[..m][idx] == s[idx];
  }

  lemma NewNode(s: seq<Node>, lo: nat, m: nat, idx: int, now: u32)
    requires Resumes(s, lo, m, m, idx, now) && m < |s| && !Stale(s[m], now)
    ensures Resumes(s, lo, m + 1, m + 1, NextBest(s, m, idx, now), now)
  {
    BestExtends(s, lo, m, now, idx);
  }

  lemma PurgeStep(q: Queue, m: nat, p: Queue, now: u32)
    requires Purged(q, m, p) && InOrder(q.nodes) && m < |q.nodes| && Stale(q.nodes[m], now)
    ensures InOrder(p.nodes) && |p.nodes| == |q.nodes| - 1
    ensures p.nodes[..m] == q.nodes[..m]
    ensures forall k :: 0 <= k < m ==> p.nodes[k] == q.nodes[k]
    ensures Fresh(p.nodes[m..], now) == Fresh(q.nodes[m..], now)
  {
    RemovalKeepsOrder(q, m, p);
    InOrderWithout(q.nodes, m);
    assert p.nodes[m..] == q.nodes[m + 1..];
    FreshStep(q.nodes, m, now);
  }

  lemma FreshStepKept(s: seq<Node>, m: nat, now: u32)
    requires m < |s| && !Stale(s[m], now)
    ensures s[..m + 1] + Fresh(s[m + 1..], now) == s[..m] + Fresh(s[m..], now)
  {
    FreshStep(s, m, now);
    assert s[..m + 1] == s[..m] + [s[m]];
  }

  lemma PeekStaleHead(q: Queue, now: u32, q': Queue, r: int)
    requires Scans(q, 0, -1, now, q', r) && InOrder(q.nodes) && q.nodes != [] && Stale(q.nodes[0], now)
    ensures q'.nodes == Kept(q.nodes, now) && BestFrom(q'.nodes, 1, now, r)
  {
    var p: Queue :| Purged(q, 0, p) && Scans(p, 1, -1, now, q', r);
    HeadPurge(q, p);
    PeekAfterStaleHead(p, now, q', r);
  }

  lemma HeadPurge(q: Queue, p: Queue)
    requires InOrder(q.nodes) && q.nodes != [] && Purged(q, 0, p)
    ensures InOrder(p.nodes) && p.nodes == q.nodes[1..]
    ensures p.nodes != [] ==> p.nodes[1..] == q.nodes[2..]
  {
    RemovalKeepsOrder(q, 0, p);
    InOrderWithout(q.nodes, 0);
  }

  lemma PeekAfterStaleHead(p: Queue, now: u32, q': Queue, r: int)
    requires Scans(p, 1, -1, now, q', r) && InOrder(p.nodes)
    ensures q'.nodes == if p.nodes == [] then [] else [p.nodes[0]] + Fresh(p.nodes[1..], now)
    ensures BestFrom(q'.nodes, 1, now, r)
  {
    if p.nodes != [] {
      ScanExact(p, 1, 1, 1, -1, now, q', r);
      assert p.nodes[..1] == [p.nodes[0]];
    }
  }

  /** The exact outcome of a peek on an ascending queue. */
  lemma PeekExact(q: Queue, now: u32, q': Queue, r: int)
    requires Scans(q, 0, -1, now, q', r) && InOrder(q.nodes)
    ensures q'.nodes == Kept(q.nodes, now)
    ensures BestFrom(q'.nodes, ScanStart(q.nodes, now), now, r)
  {
    var s := q.nodes;
    if s == [] {
    } else if Stale(s[0], now) {
      PeekStaleHead(q, now, q', r);
    } else {
      ScanExact(q, 0, 0, 0, -1, now, q', r);
      assert s[0..] == s && s[..0] == [];
    }
  }

  // ---------- the order survives a peek ----------

  lemma HalfCirclePermutes(s: seq<Node>, t: seq<Node>)
    requires InHalfCircle(s) && multiset(s) == multiset(t)
    ensures InHalfCircle(t)
  {
    SameMembers(s, t);
    var base: u32 :| HalfFrom(base, s);
    HalfFromMembers(base, s, t);
  }

  lemma RemovalKeepsAscending(q: Queue, i: nat, q': Queue)
    requires Removes(q, i, q')
    ensures InHalfCircle(q'.nodes) ==> Ascending(q'.nodes)
  {
    if InHalfCircle(q'.nodes) {
      HalfCirclePermutes(q'.nodes, SwapOut(q.nodes, i));
    }
  }

  lemma {:induction false} ScanKeepsAscending(q: Queue, i: nat, idx: int, now: u32, q': Queue, r: int)
    requires Scans(q, i, idx, now, q', r)
    requires InHalfCircle(q.nodes) ==> Ascending(q.nodes)
    ensures InHalfCircle(q'.nodes) ==> Ascending(q'.nodes)
    decreases |q.nodes|, |q.nodes| - i
  {
    if i < |q.nodes| {
      if Stale(q.nodes[i], now) {
        var p: Queue :| Purged(q, i, p) && Scans(p, 1, idx, now, q', r);
        RemovalKeepsAscending(q, i, p);
        ScanKeepsAscending(p, 1, idx, now, q', r);
      } else {
        ScanKeepsAscending(q, i + 1, NextBest(q.nodes, i, idx, now), now, q', r);
      }
    }
  }

  lemma PeekKeepsInOrder(q: Queue, now: u32, q': Queue, idx: int)
    requires Peeks(q, now, q', idx) && InOrder(q.nodes)
    ensures InOrder(q'.nodes)
  {
    PeekDropsOnlyStale(q, now, q', idx);
    var r: int :| Scans(q, 0, -1, now, q', r) && idx == PeekResult(q'.nodes, now, r);
    ScanKeepsAscending(q, 0, -1, now, q', r);
    DistinctPermutes(q.nodes, q'.nodes);
    var base: u32 :| HalfFrom(base, q.nodes);
    forall n | n in q'.nodes ensures n in q.nodes {
      assert n in multiset(q'.nodes);
      assert n in multiset(q.nodes);
    }
    HalfFromMembers(base, q.nodes, q'.nodes);
  }

  // ---------- the index handed out ----------

  /** The clock is not within TX_JIT_DELAY of reading zero, where a slot that has been zeroed would pass as due. */
  predicate ClearOfWrap(now: u32) {
    Sub(0, now) >= TX_JIT_DELAY
  }

  /**
    The index handed out is -1 or names a live packet that is due: in any queue when the clock is clear of the wrap, and
    at any clock when the comparator is an order.
   */
  lemma PeekedIsLive(q: Queue, now: u32, q': Queue, idx: int)
    requires Peeks(q, now, q', idx) && (ClearOfWrap(now) || InOrder(q.nodes))
    ensures idx == -1 || (0 <= idx < |q'.nodes| && Due(q'.nodes[idx], now))
  {
    var r :| Scans(q, 0, -1, now, q', r) && idx == PeekResult(q'.nodes, now, r);
    if InOrder(q.nodes) {
      PeekExact(q, now, q', r);
    }
  }

  // ---------- what a peek misses ----------

  /** After a due node everything later in the order is farther from now. */
  lemma DueIsSoonest(s: seq<Node>, now: u32, i: nat, k: nat)
    requires InOrder(s) && i < k < |s| && Due(s[i], now)
    ensures Key(now, s[i]) < Key(now, s[k])
  {
    var base: u32 :| HalfFrom(base, s);
    assert Compare(s[i], s[k]) <= 0;
    SignedSubOnHalf(base, s[i].pkt.countUs, s[k].pkt.countUs);
    assert InHalfFrom(base, s[i].pkt.countUs) && InHalfFrom(base, s[k].pkt.countUs);
  }

  lemma FreshMembers(s: seq<Node>, now: u32)
    ensures forall n :: n in Fresh(s, now) <==> n in s && !Stale(n, now)
  {
    if s != [] {
      FreshMembers(s[..|s| - 1], now);
      assert s == s[..|s| - 1] + [s[|s| - 1]];
    }
  }

  /**
    The one case where a peek misses a due packet: the head was outdated and the packet behind it is due.
    The scan resumes past it after the purge, so it waits for the next peek (MissedIsFoundNext).
   */
  lemma PeekRightExactly(q: Queue, now: u32, q': Queue, idx: int)
    requires Peeks(q, now, q', idx) && InOrder(q.nodes)
    ensures RightAnswer(q'.nodes, now, idx)
            <==> !(|q.nodes| >= 2 && Stale(q.nodes[0], now) && Due(q.nodes[1], now))
  {
    var r :| Scans(q, 0, -1, now, q', r) && idx == PeekResult(q'.nodes, now, r);
    PeekExact(q, now, q', r);
    if |q.nodes| >= 2 && Stale(q.nodes[0], now) {
      ShieldedHead(q.nodes, now, q'.nodes, r);
    }
  }

  lemma ShieldedHead(s: seq<Node>, now: u32, t: seq<Node>, r: int)
    requires InOrder(s) && |s| >= 2 && Stale(s[0], now)
    requires t == Kept(s, now) && BestFrom(t, 1, now, r)
    ensures RightAnswer(t, now, PeekResult(t, now, r)) <==> !Due(s[1], now)
  {
    assert t[0] == s[1];
    if Due(s[1], now) {
      forall k | 1 <= k < |t| ensures Key(now, s[1]) < Key(now, t[k]) {
        FreshMembers(s[2..], now);
        assert t[k] == Fresh(s[2..], now)[k - 1];
        assert t[k] in s[2..];
        var l :| 0 <= l < |s[2..]| && s[2..][l] == t[k];
        DueIsSoonest(s, now, 1, 2 + l);
      }
    }
  }

  lemma DueHeadIsSoonest(s: seq<Node>, now: u32, k: nat)
    requires InOrder(s) && s != [] && Due(s[0], now) && k < |Fresh(s[1..], now)|
    ensures Key(now, s[0]) < Key(now, Fresh(s[1..], now)[k])
  {
    FreshMembers(s[1..], now);
    assert Fresh(s[1..], now)[k] in s[1..];
    var l :| 0 <= l < |s[1..]| && s[1..][l] == Fresh(s[1..], now)[k];
    DueIsSoonest(s, now, 0, 1 + l);
  }

  lemma DueHeadIsKept(q: Queue, now: u32, q': Queue, idx: int)
    requires Peeks(q, now, q', idx) && InOrder(q.nodes) && q.nodes != [] && Due(q.nodes[0], now)
    ensures q'.nodes == [q.nodes[0]] + Fresh(q.nodes[1..], now)
  {
    var r :| Scans(q, 0, -1, now, q', r) && idx == PeekResult(q'.nodes, now, r);
    PeekExact(q, now, q', r);
    FreshStep(q.nodes, 0, now);
    assert q.nodes[0..] == q.nodes;
  }

  /** A due packet at the head is found. */
  lemma DueHeadIsFound(q: Queue, now: u32, q': Queue, idx: int)
    requires Peeks(q, now, q', idx) && InOrder(q.nodes) && q.nodes != [] && Due(q.nodes[0], now)
    ensures idx == 0 && q'.nodes != [] && q'.nodes[0] == q.nodes[0]
  {
    DueHeadIsKept(q, now, q', idx);
    PeekRightExactly(q, now, q', idx);
    hide Peeks, InOrder, Fresh;
    assert q'.nodes[0] == q.nodes[0];
    if idx > 0 {
      DueHeadIsSoonest(q.nodes, now, idx - 1);
    }
  }

  /** What thread_jit does about the answer of a peek, when nothing is queued meanwhile. */
  ghost predicate Served(q: Queue, idx: int, q': Queue) {
    if idx < 0 then q' == q else Removes(q, idx, q')
  }

  /** The packet behind an outdated head, due already or not, is what the next peek finds if it is due then. */
  lemma MissedIsFoundNext(q: Queue, now: u32, q1: Queue, idx: int, q2: Queue, later: u32, q3: Queue, next: int)
    requires InOrder(q.nodes) && |q.nodes| >= 2 && Stale(q.nodes[0], now)
    requires Peeks(q, now, q1, idx) && Served(q1, idx, q2) && Peeks(q2, later, q3, next)
    requires Due(q.nodes[1], later)
    ensures next == 0 && q3.nodes != [] && q3.nodes[0] == q.nodes[1]
  {
    var r :| Scans(q, 0, -1, now, q1, r) && idx == PeekResult(q1.nodes, now, r);
    PeekExact(q, now, q1, r);
    PeekKeepsInOrder(q, now, q1, idx);
    assert q1.nodes[0] == q.nodes[1] && idx != 0;
    if idx > 0 {
      RemovalKeepsOrder(q1, idx, q2);
      InOrderWithout(q1.nodes, idx);
    }
    DueHeadIsFound(q2, later, q3, next);
  }

  // ---------- the index between peek and dequeue ----------

  /** n departs after m, as the circle is read from m. */
  predicate DepartsAfter(n: Node, m: Node) {
    Sub(n.pkt.countUs, m.pkt.countUs) < HALF
  }

  /** Where a node of an ascending queue stands after another one is sorted in. */
  lemma PlaceAfterSort(s: seq<Node>, n: Node, t: seq<Node>, i: nat)
    requires Sorts(s + [n], t) && InHalfCircle(t) && Ascending(s) && DistinctCounts(s + [n]) && i < |s|
    ensures |t| == |s| + 1 && DistinctCounts(t)
    ensures t[if DepartsAfter(n, s[i]) then i else i + 1] == s[i]
  {
    var u, m := s + [n], s[i];
    var base: u32 :| HalfFrom(base, t);
    SameMembers(u, t);
    HalfFromMembers(base, t, u);
    AscendingIsKeySorted(base, t);
    DistinctPermutes(u, t);
    assert m == u[i] && n == u[|s|];
    AfterIsLargerKey(base, n, m);
    OldRank(base, s, n, i);
    RankAfterSort(base, s, n, t, m);
    assert m in t;
    var l :| 0 <= l < |t| && t[l] == m;
    IndexIsRank(base, t, l);
  }

  lemma AfterIsLargerKey(base: u32, n: Node, m: Node)
    requires InHalfFrom(base, n.pkt.countUs) && InHalfFrom(base, m.pkt.countUs)
    ensures DepartsAfter(n, m) <==> Key(base, m) <= Key(base, n)
  {
  }

  lemma OldRank(base: u32, s: seq<Node>, n: Node, i: nat)
    requires HalfFrom(base, s + [n]) && Ascending(s) && DistinctCounts(s + [n]) && i < |s|
    ensures |Before(base, s, s[i])| == i && n !in s
  {
    var u := s + [n];
    assert forall k :: 0 <= k < |s| ==> s[k] == u[k];
    assert HalfFrom(base, s) && DistinctCounts(s);
    AscendingIsKeySorted(base, s);
    IndexIsRank(base, s, i);
    assert n == u[|s|];
  }

  lemma RankAfterSort(base: u32, s: seq<Node>, n: Node, t: seq<Node>, m: Node)
    requires multiset(s + [n]) == multiset(t) && n !in s
    ensures |Before(base, t, m)| == |Before(base, s, m)| + if Key(base, n) < Key(base, m) then 1 else 0
  {
    SameMembers(s + [n], t);
    assert Before(base, t, m) == Before(base, s, m) + if Key(base, n) < Key(base, m) then {n} else {};
  }

  lemma AcceptedIsDistinct(s: seq<Node>, n: Node)
    requires AllApart(s) && FirstCollision(s, 0, n) == Accepted
    ensures DistinctCounts(s + [n])
    ensures forall i :: 0 <= i < |s| ==> !Clashes(n, s[i])
  {
    ApartIsDistinct(s);
    FirstCollisionMeaning(s, 0, n);
    forall i | 0 <= i < |s| ensures s[i].pkt.countUs != n.pkt.countUs {
      assert !Clashes(n, s[i]);
    }
  }

  /** An acceptance into an ascending queue of apart nodes whose counters stay in a half circle. */
  ghost predicate AcceptsInOrder(q: Queue, now: u32, p: Packet, kind: PktType, airMs: u32, q': Queue, n: Node) {
    && Ascending(q.nodes) && AllApart(q.nodes)
    && Enqueues(q, now, p, kind, airMs, q', n, Accepted) && InHalfCircle(q'.nodes)
  }

  lemma PlaceAfterEnqueue(q: Queue, i: nat, now: u32, p: Packet, kind: PktType, airMs: u32, q': Queue, n: Node)
    requires AcceptsInOrder(q, now, p, kind, airMs, q', n) && i < |q.nodes|
    ensures |q'.nodes| == |q.nodes| + 1 && DistinctCounts(q'.nodes)
    ensures q'.nodes[if DepartsAfter(n, q.nodes[i]) then i else i + 1] == q.nodes[i]
  {
    AcceptedIsDistinct(q.nodes, n);
    PlaceAfterSort(q.nodes, n, q'.nodes, i);
  }

  /** A peeked index goes on naming its packet through an insertion exactly when the new packet departs after it. */
  lemma PeekedIndexSurvivesExactly(q: Queue, i: nat, now: u32, p: Packet, kind: PktType, airMs: u32, q': Queue, n: Node)
    requires AcceptsInOrder(q, now, p, kind, airMs, q', n) && i < |q.nodes|
    ensures i < |q'.nodes| && (q'.nodes[i] == q.nodes[i] <==> DepartsAfter(n, q.nodes[i]))
  {
    PlaceAfterEnqueue(q, i, now, p, kind, airMs, q', n);
  }

  // ---------- clocks ----------

  const QUARTER: int := 0x4000_0000

  /** How far, in microseconds, the clock of an enqueue may lag behind the clock of an earlier peek. */
  const SAFE_LAG: u32 := 5002

  /** Clock t2 is at most lag behind t1 and less than a quarter turn ahead of it. */
  predicate LagsAtMost(t1: u32, t2: u32, lag: u32) {
    Sub(Add(t2, lag), t1) < QUARTER + lag
  }

  /** n, to be queued, departs ahead of the clock, in the next quarter turn. */
  predicate DepartsAhead(n: Node, now: u32) {
    Sub(n.pkt.countUs, now) < QUARTER
  }

  /**
    A packet that departs ahead of the clock has to leave the peeked packet's start delay and the margin free, and is
    itself more than TX_START_DELAY + TX_MARGIN_DELAY + TX_JIT_DELAY ahead, so it departs after the peeked one.
   */
  lemma AheadIsAfter(m: Node, n: Node, t1: u32, t2: u32)
    requires WellMade(m) && n.pre == PreDelay(n.kind) && n.post <= MAX_POST
    requires Due(m, t1) && LagsAtMost(t1, t2, SAFE_LAG) && DepartsAhead(n, t2)
    requires !IsTooLate(n.pkt.countUs, t2) && !Clashes(n, m)
    ensures DepartsAfter(n, m)
  {
    var ahead := Sub(n.pkt.countUs, t2) + Sub(Add(t2, SAFE_LAG), t1) - SAFE_LAG;
    assert Sub(m.pkt.countUs, n.pkt.countUs) > TX_START_DELAY + TX_MARGIN_DELAY;
  }

  /** A peek at t1 and an insertion at t2, of a packet ahead of that clock, which lags by no more than lag. */
  ghost predicate Between(lag: u32, q: Queue, i: nat, t1: u32, t2: u32, p: Packet, kind: PktType, airMs: u32,
                          q': Queue, n: Node)
  {
    && AcceptsInOrder(q, t2, p, kind, airMs, q', n) && AllWellMade(q.nodes) && PostDelay(kind, airMs) <= MAX_POST
    && i < |q.nodes| && Due(q.nodes[i], t1)
    && LagsAtMost(t1, t2, lag) && DepartsAhead(n, t2)
  }

  /** Clocks that lag by no more than lag never let a packet ahead of its clock take over a peeked index. */
  ghost predicate LagIsSafe(lag: u32) {
    forall q: Queue, i: nat, t1: u32, t2: u32, p: Packet, kind: PktType, airMs: u32, q': Queue, n: Node ::
      Between(lag, q, i, t1, t2, p, kind, airMs, q', n) ==> i < |q'.nodes| && q'.nodes[i] == q.nodes[i]
  }

  /**
    The lag that is safe is exactly this much; one microsecond more, and a class A packet gets in front of a beacon.
   */
  lemma SafeLagIsExact(lag: u32)
    ensures LagIsSafe(lag) <==> lag <= SAFE_LAG
  {
    if lag <= SAFE_LAG {
      forall q: Queue, i: nat, t1: u32, t2: u32, p: Packet, kind: PktType, airMs: u32, q': Queue, n: Node
        | Between(lag, q, i, t1, t2, p, kind, airMs, q', n)
        ensures i < |q'.nodes| && q'.nodes[i] == q.nodes[i]
      {
        SafeLagKeepsIndex(lag, q, i, t1, t2, p, kind, airMs, q', n);
      }
    } else {
      LargerLagLosesIndex(lag);
    }
  }

  lemma SafeLagKeepsIndex(lag: u32, q: Queue, i: nat, t1: u32, t2: u32, p: Packet, kind: PktType, airMs: u32,
                          q': Queue, n: Node)
    requires lag <= SAFE_LAG && Between(lag, q, i, t1, t2, p, kind, airMs, q', n)
    ensures i < |q'.nodes| && q'.nodes[i] == q.nodes[i]
  {
    AcceptedIsDistinct(q.nodes, n);
    assert WellMade(q.nodes[i]) && !Clashes(n, q.nodes[i]);
    assert LagsAtMost(t1, t2, SAFE_LAG);
    AheadIsAfter(q.nodes[i], n, t1, t2);
    PeekedIndexSurvivesExactly(q, i, t2, p, kind, airMs, q', n);
  }

  lemma LargerLagLosesIndex(lag: u32)
    requires lag > SAFE_LAG
    ensures !LagIsSafe(lag)
  {
    var t1: u32, t2: u32, b, n := 100000, 100000 - (SAFE_LAG + 1), BeaconAt(129999), DownlinkAt(127498, 0);
    FirstCollisionMeaning([b], 0, n);
    SortsInFront(Queue([b], 1), Queue([n, b], 1), t2, n.pkt, ClassA, 0, n);
    assert Between(lag, Queue([b], 1), 0, t1, t2, n.pkt, ClassA, 0, Queue([n, b], 1), n);
  }

  /** An accepted packet that departs before the only queued one. */
  lemma SortsInFront(q: Queue, q': Queue, now: u32, p: Packet, kind: PktType, airMs: u32, n: Node)
    requires |q.nodes| == 1 && q'.nodes == [n, q.nodes[0]]
    requires n == MakeNode(Placed(q.nodes, now, p, kind, airMs), kind, airMs)
    requires Verdict(q.nodes, now, n) == Accepted &&
             q'.beacons == (if kind == Beacon then ByteInc(q.beacons) else q.beacons)
    requires Sub(q.nodes[0].pkt.countUs, n.pkt.countUs) < HALF
    ensures AcceptsInOrder(q, now, p, kind, airMs, q', n)
  {
    var m := q.nodes[0];
    assert q.nodes + [n] == [m, n];
    assert multiset([m, n]) == multiset([n, m]);
    assert HalfFrom(n.pkt.countUs, q'.nodes);
    AscendingIsKeySorted(n.pkt.countUs, q'.nodes);
  }

  /**
    The other way to lose the index, without any lag: a beacon behind the clock is neither too late nor, as class A
    would be, too early. It sorts in front of the packet that is due, and would be dequeued in its place.
   */
  lemma BeaconBehindTakesIndex(now: u32, m: Node, c: u32, beacons: nat)
    requires Due(m, now) && HALF + QUARTER <= Sub(c, now) && !Clashes(BeaconAt(c), m)
    ensures var q, n := Queue([m], beacons), BeaconAt(c);
            var q' := Queue([n, m], ByteInc(beacons));
            && AcceptsInOrder(q, now, n.pkt, Beacon, 0, q', n) && !DepartsAfter(n, m)
            && q'.nodes[0] != m
            && Verdict([m], now, MakeNode(n.pkt, ClassA, 0)) == TooEarly
  {
    var q, n := Queue([m], beacons), BeaconAt(c);
    FirstCollisionMeaning([m], 0, n);
    SortsInFront(q, Queue([n, m], ByteInc(beacons)), now, n.pkt, Beacon, 0, n);
  }

  /** For one: at 100 s a downlink is due, and a beacon for 90 s takes its place. */
  lemma BeaconTenSecondsBehind()
    ensures Due(DownlinkAt(100020000, 50000), 100000000)
    ensures var q := Queue([DownlinkAt(100020000, 50000)], 0);
            AcceptsInOrder(q, 100000000, BeaconAt(90000000).pkt, Beacon, 0,
                           Queue([BeaconAt(90000000), DownlinkAt(100020000, 50000)], 1), BeaconAt(90000000))
  {
    BeaconBehindTakesIndex(100000000, DownlinkAt(100020000, 50000), 90000000, 0);
  }

  /** What jit_enqueue would queue of this kind is never accepted unless it departs ahead of the clock. */
  ghost predicate AcceptedAreAhead(kind: PktType) {
    forall s: seq<Node>, now: u32, p: Packet, airMs: u32 ::
      Verdict(s, now, MakeNode(Placed(s, now, p, kind, airMs), kind, airMs)) == Accepted ==>
        DepartsAhead(MakeNode(Placed(s, now, p, kind, airMs), kind, airMs), now)
  }

  /**
    Only class A and B packets are checked for being too far ahead, that is for being behind. A beacon behind the
    clock is accepted; and a class C packet is given a departure behind the clock when the head of the queue has been
    passed.
   */
  lemma AheadExactly(kind: PktType)
    ensures AcceptedAreAhead(kind) <==> kind in {ClassA, ClassB}
  {
    match kind
    case Beacon =>
      var p := BeaconAt(90000000).pkt;
      assert Verdict([], 100000000, MakeNode(Placed([], 100000000, p, Beacon, 0), Beacon, 0)) == Accepted;
    case ClassC => ClassCBehind();
    case _ =>
  }

  lemma ClassCBehind()
    ensures !AcceptedAreAhead(ClassC)
  {
    var s := [BeaconAt(90000000), DownlinkAt(101000000, 50000)];
    var now: u32 := 100000000;
    var p := DownlinkAt(0, 0).pkt;
    assert FirstClash(s, 0, 101000000, DOWNLINK_PRE_DELAY, 50000) == 1;
    assert AsapCount(s, now, DOWNLINK_PRE_DELAY, 50000) == 92182500;
    var n := MakeNode(Placed(s, now, p, ClassC, 50), ClassC, 50);
    FirstCollisionMeaning(s, 0, n);
    assert Verdict(s, now, n) == Accepted && !DepartsAhead(n, now);
  }
}
