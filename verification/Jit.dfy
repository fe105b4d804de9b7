/**
  The just-in-time TX queue on values: what one locked section of jit_enqueue, jit_dequeue and
  jit_peek does to the live part of the node array and to the beacon counter.
  Sorting is a relation: qsort_r may return any permutation, and an ascending one
  when its comparator is an order on the elements, that is when the counters lie in a half circle.
 */
module Jit {
  import opened Circle
  import opened Wrappers

  const QUEUE_MAX: nat := 32
  const BEACONS_IN_QUEUE: nat := 3

  const TX_START_DELAY: u32 := 1500
  const TX_MARGIN_DELAY: u32 := 1000
  const TX_JIT_DELAY: u32 := 30000
  const TX_MAX_ADVANCE_DELAY: u32 := 512000000
  const BEACON_GUARD: u32 := 3000000
  const BEACON_RESERVED: u32 := 2120000
  const ASAP_DELAY: u32 := 1000000

  const DOWNLINK_PRE_DELAY: u32 := TX_START_DELAY + TX_JIT_DELAY
  const BEACON_PRE_DELAY: u32 := TX_START_DELAY + BEACON_GUARD + TX_JIT_DELAY

  datatype TxMode = Immediate | Timestamped | OnGps

  /** A TX packet; body stands for the radio settings and the payload, which the queue only copies. */
  datatype Packet = Packet(countUs: u32, txMode: TxMode, body: seq<bv8>)

  datatype PktType = ClassA | ClassB | ClassC | Beacon

  datatype Node = Node(pkt: Packet, kind: PktType, pre: u32, post: u32)

  /** What memset leaves in a vacated slot. */
  const ZERO_NODE: Node := Node(Packet(0, Immediate, []), ClassA, 0, 0)

  datatype JitError =
    Accepted | TooLate | TooEarly | Full | Empty | CollisionPacket | CollisionBeacon | Invalid

  /** The live nodes and the uint8_t beacon counter. */
  datatype Queue = Queue(nodes: seq<Node>, beacons: nat)

  const EMPTY_QUEUE: Queue := Queue([], 0)

  // ---------- the beacon counter ----------

  function ByteInc(b: nat): nat { if b >= 255 then 0 else b + 1 }

  function ByteDec(b: nat): nat { if b == 0 then 255 else b - 1 }

  function BeaconCount(s: seq<Node>): nat {
    if s == [] then 0 else BeaconCount(s[..|s| - 1]) + if s[|s| - 1].kind == Beacon then 1 else 0
  }

  // ---------- sorting ----------

  /** The comparator handed to qsort_r. */
  function Compare(p: Node, q: Node): int {
    SignedSub(ToSigned(p.pkt.countUs), ToSigned(q.pkt.countUs))
  }

  ghost predicate HalfFrom(base: u32, s: seq<Node>) {
    forall i :: 0 <= i < |s| ==> InHalfFrom(base, s[i].pkt.countUs)
  }

  ghost predicate InHalfCircle(s: seq<Node>) {
    exists base: u32 :: HalfFrom(base, s)
  }

  ghost predicate Ascending(s: seq<Node>) {
    forall i, j :: 0 <= i < j < |s| ==> Compare(s[i], s[j]) <= 0
  }

  ghost predicate Sorts(s: seq<Node>, t: seq<Node>) {
    multiset(s) == multiset(t) && (InHalfCircle(s) ==> Ascending(t))
  }

  // ---------- collisions ----------

  function Collide(c1: u32, pre1: u32, post1: u32, c2: u32, pre2: u32, post2: u32): bool {
    || Sub(c1, c2) <= Add(Add(pre1, post2), TX_MARGIN_DELAY)
    || Sub(c2, c1) <= Add(Add(pre2, post1), TX_MARGIN_DELAY)
  }

  function PreDelay(kind: PktType): u32 {
    if kind == Beacon then BEACON_PRE_DELAY else DOWNLINK_PRE_DELAY
  }

  /** Time on air comes from the HAL in milliseconds; the product is cut to 32 bits. */
  function PostDelay(kind: PktType, airMs: u32): u32 {
    if kind == Beacon then BEACON_RESERVED else Truncate(airMs * 1000)
  }

  /** The beacon guard of a queued beacon does not count against class A and C. */
  function TargetPre(kind: PktType, target: Node): u32 {
    if kind in {ClassA, ClassC} && target.kind == Beacon then TX_START_DELAY else target.pre
  }

  // ---------- jit_enqueue ----------

  /** Index of the first queued node that collides with a packet at c, or |s|. */
  function FirstClash(s: seq<Node>, i: nat, c: u32, pre: u32, post: u32): nat
    requires i <= |s|
    decreases |s| - i
  {
    if i == |s| || Collide(c, pre, post, s[i].pkt.countUs, s[i].pre, s[i].post) then i
    else FirstClash(s, i + 1, c, pre, post)
  }

  function After(n: Node, pre: u32): u32 {
    Add(Add(Add(Add(n.pkt.countUs, n.post), pre), TX_JIT_DELAY), TX_MARGIN_DELAY)
  }

  /** The gap search of a class C packet: after node i when that leaves node i + 1 alone. */
  function Gap(s: seq<Node>, i: nat, pre: u32, post: u32): u32
    requires i < |s|
    decreases |s| - i
  {
    var c := After(s[i], pre);
    if i == |s| - 1 then c
    else if Collide(c, pre, post, s[i + 1].pkt.countUs, s[i + 1].pre, s[i + 1].post) then Gap(s, i + 1, pre, post)
    else c
  }

  function AsapCount(s: seq<Node>, now: u32, pre: u32, post: u32): u32 {
    var c := Add(now, ASAP_DELAY);
    if FirstClash(s, 0, c, pre, post) == |s| then c else Gap(s, 0, pre, post)
  }

  /** The packet as jit_enqueue leaves it: class C gets its departure time from the queue. */
  function Placed(s: seq<Node>, now: u32, p: Packet, kind: PktType, airMs: u32): Packet {
    if kind == ClassC then
      p.(txMode := Timestamped, countUs := AsapCount(s, now, PreDelay(kind), PostDelay(kind, airMs)))
    else p
  }

  function MakeNode(p: Packet, kind: PktType, airMs: u32): Node {
    Node(p, kind, PreDelay(kind), PostDelay(kind, airMs))
  }

  /** Does n, about to be queued, collide with the queued node m? */
  function Clashes(n: Node, m: Node): bool {
    Collide(n.pkt.countUs, n.pre, n.post, m.pkt.countUs, TargetPre(n.kind, m), m.post)
  }

  function CollisionError(m: Node): JitError {
    if m.kind == Beacon then CollisionBeacon else CollisionPacket
  }

  function FirstCollision(s: seq<Node>, i: nat, n: Node): JitError
    requires i <= |s|
    decreases |s| - i
  {
    if i == |s| then Accepted
    else if Clashes(n, s[i]) then CollisionError(s[i])
    else FirstCollision(s, i + 1, n)
  }

  predicate IsTooLate(c: u32, now: u32) {
    Sub(c, now) <= TX_START_DELAY + TX_MARGIN_DELAY + TX_JIT_DELAY
  }

  predicate IsTooEarly(kind: PktType, c: u32, now: u32) {
    kind in {ClassA, ClassB} && Sub(c, now) > TX_MAX_ADVANCE_DELAY
  }

  function Verdict(s: seq<Node>, now: u32, n: Node): JitError {
    if IsTooLate(n.pkt.countUs, now) then TooLate
    else if IsTooEarly(n.kind, n.pkt.countUs, now) then TooEarly
    else FirstCollision(s, 0, n)
  }

  /** The locked section of jit_enqueue on a queue that is not full. */
  ghost predicate Enqueues(q: Queue, now: u32, p: Packet, kind: PktType, airMs: u32, q': Queue, n: Node,
                           err: JitError)
  {
    && n == MakeNode(Placed(q.nodes, now, p, kind, airMs), kind, airMs)
    && err == Verdict(q.nodes, now, n)
    && if err == Accepted then
         && Sorts(q.nodes + [n], q'.nodes)
         && q'.beacons == if kind == Beacon then ByteInc(q.beacons) else q.beacons
       else q' == q
  }

  // ---------- jit_dequeue ----------

  /** Node i is overwritten by the last one. */
  function SwapOut(s: seq<Node>, i: nat): seq<Node>
    requires i < |s|
  {
    s[i := s[|s| - 1]][..|s| - 1]
  }

  function BeaconsWithout(q: Queue, n: Node): nat {
    if n.kind == Beacon then ByteDec(q.beacons) else q.beacons
  }

  /** Removal of node i, in jit_dequeue and in the purge of jit_peek. */
  ghost predicate Removes(q: Queue, i: nat, q': Queue) {
    && i < |q.nodes|
    && Sorts(SwapOut(q.nodes, i), q'.nodes)
    && q'.beacons == BeaconsWithout(q, q.nodes[i])
  }

  /**
    What jit_dequeue does with an index behind the live nodes: it hands out slot, whatever the slot holds, counts one
    packet less, and copies the last packet to where nothing looks for it.
   */
  ghost predicate LosesLast(q: Queue, slot: Node, q': Queue) {
    && q.nodes != []
    && Sorts(q.nodes[..|q.nodes| - 1], q'.nodes)
    && q'.beacons == BeaconsWithout(q, slot)
  }

  // ---------- jit_peek ----------

  predicate Stale(n: Node, now: u32) {
    Sub(n.pkt.countUs, now) >= TX_MAX_ADVANCE_DELAY
  }

  predicate Due(n: Node, now: u32) {
    Sub(n.pkt.countUs, now) < TX_JIT_DELAY
  }

  /** The array slot k: a slot vacated by the purge has been zeroed. */
  function Slot(s: seq<Node>, k: nat): Node {
    if k < |s| then s[k] else ZERO_NODE
  }

  predicate Sooner(n: Node, m: Node, now: u32) {
    Sub(n.pkt.countUs, now) < Sub(m.pkt.countUs, now)
  }

  /** The best candidate after looking at node i. */
  function NextBest(s: seq<Node>, i: nat, idx: int, now: u32): int
    requires i < |s|
  {
    if idx < 0 || Sooner(s[i], Slot(s, idx), now) then i else idx
  }

  /**
    The scanning loop of jit_peek from index i with best candidate idx. A stale node is purged
    and the scan resumes at index 1, because the loop increment follows the reset of i to 0;
    the candidate is kept across the purge.
   */
  ghost predicate Scans(q: Queue, i: nat, idx: int, now: u32, q': Queue, r: int)
    decreases |q.nodes|, |q.nodes| - i, 1
  {
    if i >= |q.nodes| then q' == q && r == idx
    else if Stale(q.nodes[i], now) then PurgesAndScans(q, i, idx, now, q', r)
    else Scans(q, i + 1, NextBest(q.nodes, i, idx, now), now, q', r)
  }

  ghost predicate PurgesAndScans(q: Queue, i: nat, idx: int, now: u32, q': Queue, r: int)
    requires i < |q.nodes|
    decreases |q.nodes|, |q.nodes| - i, 0
  {
    exists p: Queue :: Purged(q, i, p) && Scans(p, 1, idx, now, q', r)
  }

  ghost predicate Purged(q: Queue, i: nat, p: Queue)
    ensures Purged(q, i, p) ==> |p.nodes| < |q.nodes|
  {
    if Removes(q, i, p) then
      assert |multiset(SwapOut(q.nodes, i))| == |multiset(p.nodes)|;
      true
    else false
  }

  /** The locked section of jit_peek; idx is the index handed to the caller. */
  ghost predicate Peeks(q: Queue, now: u32, q': Queue, idx: int) {
    exists r: int :: Scans(q, 0, -1, now, q', r) && idx == PeekResult(q'.nodes, now, r)
  }

  /** A best index still at -1 yields -1 in both branches. */
  function PeekResult(s: seq<Node>, now: u32, r: int): int {
    if r >= 0 && Due(Slot(s, r), now) then r else -1
  }
}
