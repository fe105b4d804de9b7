/**
  The arcs that queued packets reserve on the counter circle stay apart: the modular collision
  test means what it should, and enqueue, removal and sorting preserve disjointness.
 */
module JitArcs {
  import opened Circle
  import opened Jit
  import opened JitOrder

  /** Longest post delay for which the sums of the collision test stay below 2^32. */
  const MAX_POST: int := TWO32 - 1 - BEACON_PRE_DELAY - TX_MARGIN_DELAY

  ghost predicate WellMade(n: Node) {
    n.pre == PreDelay(n.kind) && n.post <= MAX_POST && (n.kind == Beacon ==> n.post == BEACON_RESERVED)
  }

  ghost predicate AllWellMade(s: seq<Node>) {
    forall i :: 0 <= i < |s| ==> WellMade(s[i])
  }

  /** How much before its departure n reserves, as far as other is concerned. */
  function GuardAgainst(n: Node, other: Node): u32 {
    if n.kind == Beacon && other.kind in {ClassA, ClassC} then TX_START_DELAY else n.pre
  }

  predicate Apart(a: Node, b: Node) {
    !Collide(a.pkt.countUs, GuardAgainst(a, b), a.post, b.pkt.countUs, GuardAgainst(b, a), b.post)
  }

  ghost predicate AllApart(s: seq<Node>) {
    forall i, j :: 0 <= i < j < |s| ==> Apart(s[i], s[j])
  }

  // ---------- what the modular test means ----------

  /** Point p lies within pre before c or within post behind it. */
  predicate InWindow(p: u32, c: u32, pre: int, post: int) {
    Sub(p, c) <= post || Sub(c, p) <= pre
  }

  predicate Near(p: u32, q: u32) {
    Sub(p, q) <= TX_MARGIN_DELAY || Sub(q, p) <= TX_MARGIN_DELAY
  }

  /** Some point of one window comes within the margin of a point of the other. */
  ghost predicate WindowsMeet(c1: u32, pre1: int, post1: int, c2: u32, pre2: int, post2: int) {
    exists p: u32, q: u32 :: InWindow(p, c1, pre1, post1) && InWindow(q, c2, pre2, post2) && Near(p, q)
  }

  /** As long as the 32-bit sums do not wrap, the test for a collision says whether the windows meet. */
  lemma CollideMeansMeeting(c1: u32, pre1: u32, post1: u32, c2: u32, pre2: u32, post2: u32)
    requires pre1 + post2 + TX_MARGIN_DELAY < TWO32 && pre2 + post1 + TX_MARGIN_DELAY < TWO32
    ensures Collide(c1, pre1, post1, c2, pre2, post2) <==> WindowsMeet(c1, pre1, post1, c2, pre2, post2)
  {
    if Collide(c1, pre1, post1, c2, pre2, post2) {
      var p, q := NearPoints(c1, pre1, post1, c2, pre2, post2);
      assert InWindow(p, c1, pre1, post1) && InWindow(q, c2, pre2, post2) && Near(p, q);
    } else {
      forall p: u32, q: u32 | InWindow(p, c1, pre1, post1) && InWindow(q, c2, pre2, post2) ensures !Near(p, q) {
        PointsApart(c1, pre1, post1, c2, pre2, post2, p, q);
      }
    }
  }

  lemma PointsApart(c1: u32, pre1: u32, post1: u32, c2: u32, pre2: u32, post2: u32, p: u32, q: u32)
    requires pre1 + post2 + TX_MARGIN_DELAY < TWO32 && pre2 + post1 + TX_MARGIN_DELAY < TWO32
    requires !Collide(c1, pre1, post1, c2, pre2, post2)
    requires InWindow(p, c1, pre1, post1) && InWindow(q, c2, pre2, post2)
    ensures !Near(p, q)
  {
    if Near(p, q) {
      if Sub(p, c1) <= post1 {
        TailNear(c1, pre1, post1, c2, pre2, post2, p, q);
      } else if Sub(q, c2) <= post2 {
        TailNear(c2, pre2, post2, c1, pre1, post1, q, p);
      } else {
        assert false;
      }
    }
  }

  /** A point behind c1, near a point of the other window. */
  lemma TailNear(c1: u32, pre1: u32, post1: u32, c2: u32, pre2: u32, post2: u32, p: u32, q: u32)
    requires pre1 + post2 + TX_MARGIN_DELAY < TWO32 && pre2 + post1 + TX_MARGIN_DELAY < TWO32
    requires Sub(p, c1) <= post1 && InWindow(q, c2, pre2, post2) && Near(p, q)
    ensures Collide(c1, pre1, post1, c2, pre2, post2)
  {
  }

  /** The two windows come near each other at the start of the later one. */
  lemma NearPoints(c1: u32, pre1: u32, post1: u32, c2: u32, pre2: u32, post2: u32) returns (p: u32, q: u32)
    requires pre1 + post2 + TX_MARGIN_DELAY < TWO32 && pre2 + post1 + TX_MARGIN_DELAY < TWO32
    requires Collide(c1, pre1, post1, c2, pre2, post2)
    ensures InWindow(p, c1, pre1, post1) && InWindow(q, c2, pre2, post2) && Near(p, q)
  {
    if Sub(c1, c2) <= pre1 + post2 + TX_MARGIN_DELAY {
      p, q := Meeting(c1, pre1, post1, c2, pre2, post2);
    } else {
      q, p := Meeting(c2, pre2, post2, c1, pre1, post1);
    }
  }

  lemma Meeting(later: u32, pre1: u32, post1: u32, earlier: u32, pre2: u32, post2: u32) returns (p: u32, q: u32)
    requires pre1 + post2 + TX_MARGIN_DELAY < TWO32
    requires Sub(later, earlier) <= pre1 + post2 + TX_MARGIN_DELAY
    ensures InWindow(p, later, pre1, post1) && InWindow(q, earlier, pre2, post2) && Near(p, q)
  {
    var d := Sub(later, earlier);
    if d <= post2 {
      p, q := later, later;
    } else {
      q := Add(earlier, post2);
      var back := if d - post2 <= pre1 then d - post2 else pre1;
      p := Sub(later, back);
    }
  }

  /** Point p lies in the arc that n reserves against other. */
  predicate InArc(p: u32, n: Node, other: Node) {
    InWindow(p, n.pkt.countUs, GuardAgainst(n, other), n.post)
  }

  /** No point of one arc comes within the margin of a point of the other. */
  ghost predicate ArcsApart(a: Node, b: Node) {
    forall p: u32, q: u32 :: InArc(p, a, b) && InArc(q, b, a) ==> !Near(p, q)
  }

  lemma ApartMeansArcsApart(a: Node, b: Node)
    requires WellMade(a) && WellMade(b)
    ensures Apart(a, b) <==> ArcsApart(a, b)
  {
    CollideMeansMeeting(a.pkt.countUs, GuardAgainst(a, b), a.post, b.pkt.countUs, GuardAgainst(b, a), b.post);
  }

  // ---------- symmetry and monotonicity ----------

  lemma CollideSymmetric(c1: u32, pre1: u32, post1: u32, c2: u32, pre2: u32, post2: u32)
    ensures Collide(c1, pre1, post1, c2, pre2, post2) == Collide(c2, pre2, post2, c1, pre1, post1)
  {
  }

  lemma ApartSymmetric(a: Node, b: Node)
    ensures Apart(a, b) <==> Apart(b, a)
  {
    CollideSymmetric(a.pkt.countUs, GuardAgainst(a, b), a.post, b.pkt.countUs, GuardAgainst(b, a), b.post);
  }

  /** A longer guard collides with more, as long as the sums do not wrap around. */
  lemma CollideMonotone(c1: u32, pre1: u32, more1: u32, post1: u32, c2: u32, pre2: u32, more2: u32, post2: u32)
    requires pre1 <= more1 && pre2 <= more2
    requires more1 + post2 + TX_MARGIN_DELAY < TWO32 && more2 + post1 + TX_MARGIN_DELAY < TWO32
    ensures Collide(c1, pre1, post1, c2, pre2, post2) ==> Collide(c1, more1, post1, c2, more2, post2)
  {
  }

  /** The test made when n is queued is at least as strict as the pair's arcs require. */
  lemma NoClashIsApart(n: Node, m: Node)
    requires WellMade(n) && WellMade(m) && !Clashes(n, m)
    ensures Apart(n, m)
  {
    CollideMonotone(n.pkt.countUs, GuardAgainst(n, m), n.pre, n.post,
                    m.pkt.countUs, GuardAgainst(m, n), TargetPre(n.kind, m), m.post);
  }

  /** A beacon and a queued class A downlink, as jit_enqueue builds them. */
  function BeaconAt(c: u32): Node { Node(Packet(c, Timestamped, []), Beacon, BEACON_PRE_DELAY, BEACON_RESERVED) }

  function DownlinkAt(c: u32, post: u32): Node { Node(Packet(c, Timestamped, []), ClassA, DOWNLINK_PRE_DELAY, post) }

  /**
    The bound on the post delay is exactly what the collision test needs: beyond it the 32-bit sum
    wraps and a beacon inside a queued downlink's transmission is let through.
   */
  lemma MaxPostIsExact(post: u32)
    ensures (forall c: u32, d: u32 :: !Clashes(BeaconAt(c), DownlinkAt(d, post)) ==>
                                        ArcsApart(BeaconAt(c), DownlinkAt(d, post)))
            <==> post <= MAX_POST
  {
    if post <= MAX_POST {
      forall c: u32, d: u32 | !Clashes(BeaconAt(c), DownlinkAt(d, post))
        ensures ArcsApart(BeaconAt(c), DownlinkAt(d, post))
      {
        NoClashIsApart(BeaconAt(c), DownlinkAt(d, post));
        ApartMeansArcsApart(BeaconAt(c), DownlinkAt(d, post));
      }
    } else {
      var c: u32 := Add(Add(BEACON_PRE_DELAY, post), TX_MARGIN_DELAY) + 1;
      var b, m := BeaconAt(c), DownlinkAt(0, post);
      assert !Clashes(b, m);
      assert InArc(c, b, m) && InArc(c, m, b) && Near(c, c);
      assert !ArcsApart(b, m);
    }
  }

  // ---------- preservation ----------

  lemma FirstCollisionMeaning(s: seq<Node>, i: nat, n: Node)
    requires i <= |s|
    ensures FirstCollision(s, i, n) == Accepted <==> forall k :: i <= k < |s| ==> !Clashes(n, s[k])
    decreases |s| - i
  {
    if i < |s| && !Clashes(n, s[i]) {
      FirstCollisionMeaning(s, i + 1, n);
    }
  }

  lemma MakeNodeWellMade(p: Packet, kind: PktType, airMs: u32)
    requires PostDelay(kind, airMs) <= MAX_POST
    ensures WellMade(MakeNode(p, kind, airMs))
  {
  }

  lemma EnqueueKeepsApart(q: Queue, now: u32, p: Packet, kind: PktType, airMs: u32, q': Queue, n: Node, err: JitError)
    requires AllWellMade(q.nodes) && AllApart(q.nodes)
    requires PostDelay(kind, airMs) <= MAX_POST
    requires Enqueues(q, now, p, kind, airMs, q', n, err)
    ensures AllWellMade(q'.nodes) && AllApart(q'.nodes)
  {
    if err == Accepted {
      var s := q.nodes + [n];
      FirstCollisionMeaning(q.nodes, 0, n);
      MakeNodeWellMade(Placed(q.nodes, now, p, kind, airMs), kind, airMs);
      forall i, j | 0 <= i < j < |s| ensures Apart(s[i], s[j]) {
        if j == |q.nodes| {
          NoClashIsApart(n, s[i]);
          ApartSymmetric(n, s[i]);
        }
      }
      SubsetKeepsApart(s, q'.nodes);
    }
  }

  lemma SubsetKeepsApart(s: seq<Node>, t: seq<Node>)
    requires AllWellMade(s) && AllApart(s) && multiset(t) <= multiset(s)
    ensures AllWellMade(t) && AllApart(t)
  {
    forall i | 0 <= i < |t| ensures WellMade(t[i]) {
      assert t[i] in multiset(t);
      assert t[i] in s;
    }
    forall i, j | 0 <= i < j < |t| ensures Apart(t[i], t[j]) {
      var k, l := TwoPlaces(s, t, i, j);
      if k < l {
        assert Apart(s[k], s[l]);
      } else {
        ApartSymmetric(s[l], s[k]);
      }
    }
  }

  lemma RemovalKeepsApart(q: Queue, i: nat, q': Queue)
    requires AllWellMade(q.nodes) && AllApart(q.nodes) && Removes(q, i, q')
    ensures AllWellMade(q'.nodes) && AllApart(q'.nodes)
  {
    SwapOutMultiset(q.nodes, i);
    SubsetKeepsApart(q.nodes, q'.nodes);
  }

  lemma ApartIsDistinct(s: seq<Node>)
    requires AllApart(s)
    ensures DistinctCounts(s)
  {
    forall i, j | 0 <= i < j < |s| ensures s[i].pkt.countUs != s[j].pkt.countUs {
      assert Apart(s[i], s[j]);
    }
  }
}
