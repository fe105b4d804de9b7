/**
  The downlink thread, which alone enqueues, and the JIT thread, which alone peeks and dequeues,
  interleaved at every point where the queue's lock is released. Times, packets and times on air
  are arbitrary at every step.
 */
module JitThreads {
  import opened Circle
  import opened Jit
  import opened JitOrder
  import opened JitArcs
  import opened JitPeek

  /** Where thread_down stands; left is its beacon_loop, a uint8_t. */
  datatype DownState =
    | DownTop
    | DownBeacons(left: nat)
    | BeaconCleared(left: nat, now: u32, pkt: Packet)
    | DownPacket
    | PacketCleared(now: u32, pkt: Packet, kind: PktType, airMs: u32)

  /**
    Where thread_jit stands. Of a peek, node records the packet that the index named, and overtaken how many packets
    that depart before it have been accepted since.
   */
  datatype JitState =
    | JitTop
    | Peeking(now: u32)
    | Peeked(idx: int, now: u32, node: Node, overtaken: nat)
    | Taking(idx: int, now: u32, node: Node, overtaken: nat)

  /**
    The queue, the two threads, and the history: packets accepted, dequeued, dropped as outdated, and lost to a dequeue
    with an index behind the live nodes.
   */
  datatype State = State(q: Queue, down: DownState, jit: JitState, accepted: multiset<Node>,
                         dequeued: multiset<Node>, dropped: multiset<Node>, lost: multiset<Node>)

  datatype Action =
    | ReadBeaconCount
    | LeaveBeaconLoop
    | CheckForBeacon(now: u32, pkt: Packet)
    | InsertBeacon
    | NoPacket
    | CheckForPacket(now: u32, pkt: Packet, kind: PktType, airMs: u32)
    | InsertPacket
    | CheckForPeek(now: u32)
    | Peek
    | CheckForDequeue
    | Dequeue

  const INITIAL: State := State(EMPTY_QUEUE, DownTop, JitTop, multiset{}, multiset{}, multiset{}, multiset{})

  function Offered(q: Queue, now: u32, p: Packet, kind: PktType, airMs: u32): Node {
    MakeNode(Placed(q.nodes, now, p, kind, airMs), kind, airMs)
  }

  /** An accepted packet n overtakes the peeked one unless it departs after it. */
  function Overtake(j: JitState, n: Node): JitState {
    match j
    case Peeked(idx, now, node, k) => Peeked(idx, now, node, if DepartsAfter(n, node) then k else k + 1)
    case Taking(idx, now, node, k) => Taking(idx, now, node, if DepartsAfter(n, node) then k else k + 1)
    case _ => j
  }

  /** One insertion; down is where the thread goes on, given the verdict. */
  ghost predicate Inserts(s: State, now: u32, p: Packet, kind: PktType, airMs: u32, s': State) {
    var n := Offered(s.q, now, p, kind, airMs);
    var err := Verdict(s.q.nodes, now, n);
    && Enqueues(s.q, now, p, kind, airMs, s'.q, n, err)
    && s'.accepted == (if err == Accepted then s.accepted + multiset{n} else s.accepted)
    && s'.jit == (if err == Accepted then Overtake(s.jit, n) else s.jit)
    && s'.dequeued == s.dequeued && s'.dropped == s.dropped && s'.lost == s.lost
  }

  function InsertVerdict(s: State, now: u32, p: Packet, kind: PktType, airMs: u32): JitError {
    Verdict(s.q.nodes, now, Offered(s.q, now, p, kind, airMs))
  }

  ghost predicate Step(s: State, a: Action, s': State) {
    match a
    case ReadBeaconCount =>
      s.down == DownTop && s' == s.(down := DownBeacons((BEACONS_IN_QUEUE - s.q.beacons) % 256))
    case LeaveBeaconLoop =>
      s.down.DownBeacons? && s' == s.(down := DownPacket)
    case CheckForBeacon(now, p) =>
      && s.down.DownBeacons? && s.down.left > 0
      && s' == s.(down := if |s.q.nodes| == QUEUE_MAX then s.down else BeaconCleared(s.down.left, now, p))
    case InsertBeacon =>
      && s.down.BeaconCleared?
      && Inserts(s, s.down.now, s.down.pkt, Beacon, 0, s')
      && s'.down == DownBeacons(if InsertVerdict(s, s.down.now, s.down.pkt, Beacon, 0) == Accepted && s.down.left > 0
                                then s.down.left - 1 else s.down.left)
    case NoPacket =>
      s.down.DownPacket? && s' == s.(down := DownTop)
    case CheckForPacket(now, p, kind, airMs) =>
      && s.down.DownPacket? && kind != Beacon && PostDelay(kind, airMs) <= MAX_POST
      && s' == s.(down := if |s.q.nodes| == QUEUE_MAX then DownTop else PacketCleared(now, p, kind, airMs))
    case InsertPacket =>
      && s.down.PacketCleared?
      && Inserts(s, s.down.now, s.down.pkt, s.down.kind, s.down.airMs, s')
      && s'.down == DownTop
    case CheckForPeek(now) =>
      s.jit == JitTop && s' == s.(jit := if s.q.nodes == [] then JitTop else Peeking(now))
    case Peek =>
      && s.jit.Peeking?
      && exists idx: int :: Peeks(s.q, s.jit.now, s'.q, idx) && s' == AfterPeek(s, s'.q, idx)
    case CheckForDequeue =>
      && s.jit.Peeked?
      && s' == s.(jit := if s.q.nodes == [] then JitTop else Taking(s.jit.idx, s.jit.now, s.jit.node, s.jit.overtaken))
    case Dequeue =>
      && s.jit.Taking?
      && if 0 <= s.jit.idx < |s.q.nodes| then Takes(s, s.jit.idx, s') else TakesNothingLive(s, s')
  }

  ghost predicate Takes(s: State, i: nat, s': State)
    requires i < |s.q.nodes|
  {
    && Removes(s.q, i, s'.q)
    && s' == s.(q := s'.q, jit := JitTop, dequeued := s.dequeued + multiset{s.q.nodes[i]})
  }

  /** The index has outlived the packets behind it. What the slot it names holds is left open here. */
  ghost predicate TakesNothingLive(s: State, s': State) {
    && (exists slot: Node :: LosesLast(s.q, slot, s'.q))
    && s' == s.(q := s'.q, jit := JitTop, lost := s.lost + multiset{s.q.nodes[|s.q.nodes| - 1]})
  }

  function AfterPeek(s: State, q': Queue, idx: int): State
    requires s.jit.Peeking?
  {
    s.(q := q', dropped := s.dropped + (multiset(s.q.nodes) - multiset(q'.nodes)),
       jit := if idx >= 0 then Peeked(idx, s.jit.now, Slot(q'.nodes, idx), 0) else JitTop)
  }

  // ---------- the invariant ----------

  function Outstanding(d: DownState): nat {
    if d.DownBeacons? || d.BeaconCleared? then d.left else 0
  }

  /** Sizes and the balance of packets, in every run. */
  ghost predicate Balanced(s: State) {
    && |s.q.nodes| <= QUEUE_MAX
    && (s.down.BeaconCleared? || s.down.PacketCleared? ==> |s.q.nodes| < QUEUE_MAX)
    && (s.jit.Peeking? || s.jit.Taking? ==> s.q.nodes != [])
    && s.accepted == multiset(s.q.nodes) + s.dequeued + s.dropped + s.lost
  }

  /** The beacon counter, in runs that never dequeue behind the live nodes. */
  ghost predicate CountedRight(s: State) {
    && CountsBeacons(s.q)
    && s.q.beacons + Outstanding(s.down) <= BEACONS_IN_QUEUE
    && (s.down.BeaconCleared? ==> s.down.left > 0)
    && s.lost == multiset{}
  }

  ghost predicate Placing(s: State) {
    && AllWellMade(s.q.nodes) && AllApart(s.q.nodes)
    && (InHalfCircle(s.q.nodes) ==> Ascending(s.q.nodes))
    && (s.down.PacketCleared? ==> s.down.kind != Beacon && PostDelay(s.down.kind, s.down.airMs) <= MAX_POST)
  }

  ghost predicate Inv(s: State) {
    Balanced(s) && Placing(s)
  }

  /** A peeked index names a live node. */
  ghost predicate IndexIsLive(s: State) {
    s.jit.Peeked? || s.jit.Taking? ==> 0 <= s.jit.idx < |s.q.nodes|
  }

  // ---------- insertions ----------

  lemma InsertBalances(s: State, now: u32, p: Packet, kind: PktType, airMs: u32, s': State)
    requires Inserts(s, now, p, kind, airMs, s') && |s.q.nodes| < QUEUE_MAX
    ensures |s.q.nodes| <= |s'.q.nodes| <= QUEUE_MAX
    ensures s.accepted == multiset(s.q.nodes) + s.dequeued + s.dropped + s.lost ==>
              s'.accepted == multiset(s'.q.nodes) + s'.dequeued + s'.dropped + s'.lost
  {
    if InsertVerdict(s, now, p, kind, airMs) == Accepted {
      SameMembers(s.q.nodes + [Offered(s.q, now, p, kind, airMs)], s'.q.nodes);
    }
  }

  lemma InsertCounts(s: State, now: u32, p: Packet, kind: PktType, airMs: u32, s': State)
    requires Inserts(s, now, p, kind, airMs, s') && CountsBeacons(s.q) && |s.q.nodes| < QUEUE_MAX
    ensures CountsBeacons(s'.q)
    ensures s'.q.beacons ==
            s.q.beacons + if kind == Beacon && InsertVerdict(s, now, p, kind, airMs) == Accepted then 1 else 0
  {
    var n := Offered(s.q, now, p, kind, airMs);
    if InsertVerdict(s, now, p, kind, airMs) == Accepted {
      SameMembers(s.q.nodes + [n], s'.q.nodes);
      assert (s.q.nodes + [n])[..|s.q.nodes|] == s.q.nodes;
      BeaconCountPermutes(s.q.nodes + [n], s'.q.nodes);
      BeaconCountBound(s.q.nodes);
    }
  }

  lemma InsertKeepsInv(s: State, now: u32, p: Packet, kind: PktType, airMs: u32, s': State)
    requires Inv(s) && |s.q.nodes| < QUEUE_MAX && Inserts(s, now, p, kind, airMs, s')
    requires PostDelay(kind, airMs) <= MAX_POST && !s'.down.BeaconCleared? && !s'.down.PacketCleared?
    ensures Inv(s')
  {
    var n := Offered(s.q, now, p, kind, airMs);
    InsertBalances(s, now, p, kind, airMs, s');
    EnqueueKeepsApart(s.q, now, p, kind, airMs, s'.q, n, InsertVerdict(s, now, p, kind, airMs));
    InsertKeepsAscending(s.q, now, p, kind, airMs, s'.q, n);
  }

  lemma InsertKeepsAscending(q: Queue, now: u32, p: Packet, kind: PktType, airMs: u32, q': Queue, n: Node)
    requires Enqueues(q, now, p, kind, airMs, q', n, Verdict(q.nodes, now, n))
    requires InHalfCircle(q.nodes) ==> Ascending(q.nodes)
    ensures InHalfCircle(q'.nodes) ==> Ascending(q'.nodes)
  {
    if InHalfCircle(q'.nodes) && Verdict(q.nodes, now, n) == Accepted {
      HalfCirclePermutes(q'.nodes, q.nodes + [n]);
    }
  }

  // ---------- peeks ----------

  lemma PeekKeepsPlacing(q: Queue, now: u32, q': Queue, idx: int)
    requires Peeks(q, now, q', idx)
    requires AllWellMade(q.nodes) && AllApart(q.nodes) && (InHalfCircle(q.nodes) ==> Ascending(q.nodes))
    ensures AllWellMade(q'.nodes) && AllApart(q'.nodes) && (InHalfCircle(q'.nodes) ==> Ascending(q'.nodes))
  {
    PeekDropsOnlyStale(q, now, q', idx);
    SubsetKeepsApart(q.nodes, q'.nodes);
    var r: int :| Scans(q, 0, -1, now, q', r) && idx == PeekResult(q'.nodes, now, r);
    ScanKeepsAscending(q, 0, -1, now, q', r);
  }

  lemma FewerBeacons(s: seq<Node>, t: seq<Node>)
    requires multiset(t) <= multiset(s)
    ensures BeaconCount(t) <= BeaconCount(s) && |t| <= |s|
  {
    if t != [] {
      var k := |t| - 1;
      assert t[k] in multiset(t);
      assert t[k] in s;
      var i :| 0 <= i < |s| && s[i] == t[k];
      WithoutMultiset(s, i);
      assert Without(t, k) == t[..k];
      WithoutMultiset(t, k);
      assert multiset(t[..k]) <= multiset(Without(s, i));
      FewerBeacons(Without(s, i), t[..k]);
      BeaconCountWithout(s, i);
    }
  }

  lemma PeekKeepsInv(s: State, s': State)
    requires Inv(s) && Step(s, Peek, s')
    ensures Inv(s') && (CountedRight(s) ==> CountedRight(s'))
  {
    var now := s.jit.now;
    var idx: int :| Peeks(s.q, now, s'.q, idx) && s' == AfterPeek(s, s'.q, idx);
    PeekKeepsPlacing(s.q, now, s'.q, idx);
    PeekBalances(s, idx, s');
  }

  lemma PeekBalances(s: State, idx: int, s': State)
    requires Balanced(s) && s.jit.Peeking? && Peeks(s.q, s.jit.now, s'.q, idx) && s' == AfterPeek(s, s'.q, idx)
    ensures Balanced(s') && (CountedRight(s) ==> CountedRight(s'))
  {
    PeekDropsOnlyStale(s.q, s.jit.now, s'.q, idx);
    hide Peeks, Stale, CountsBeacons;
    FewerBeacons(s.q.nodes, s'.q.nodes);
    SplitOff(multiset(s.q.nodes), multiset(s'.q.nodes), s.dequeued, s.dropped, s.lost);
    if CountedRight(s) {
      StillCounted(s, s');
    }
  }

  lemma SplitOff(all: multiset<Node>, left: multiset<Node>, a: multiset<Node>, b: multiset<Node>, c: multiset<Node>)
    requires left <= all
    ensures all + a + b + c == left + a + (b + (all - left)) + c
  {
  }

  lemma StillCounted(s: State, s': State)
    requires CountedRight(s) && CountsBeacons(s'.q) && BeaconCount(s'.q.nodes) <= BeaconCount(s.q.nodes)
    requires s'.down == s.down && s'.lost == s.lost
    ensures CountedRight(s')
  {
  }

  // ---------- dequeues ----------

  lemma TakesKeepsInv(s: State, i: nat, s': State)
    requires Inv(s) && s.jit.Taking? && i < |s.q.nodes| && Takes(s, i, s')
    ensures Inv(s') && (CountedRight(s) ==> CountedRight(s'))
  {
    SwapOutMultiset(s.q.nodes, i);
    SameMembers(SwapOut(s.q.nodes, i), s'.q.nodes);
    RemovalKeepsApart(s.q, i, s'.q);
    RemovalKeepsAscending(s.q, i, s'.q);
    if CountedRight(s) {
      RemovalCountsBeacons(s.q, i, s'.q);
      BeaconCountRemoved(s.q, i, s'.q);
    }
  }

  lemma TakesNothingKeepsInv(s: State, s': State)
    requires Inv(s) && s.jit.Taking? && TakesNothingLive(s, s')
    ensures Inv(s')
  {
    LossBalances(s, s');
    LossKeepsPlacing(s.q.nodes, s.q.nodes[..|s.q.nodes| - 1], s'.q.nodes);
  }

  lemma LossBalances(s: State, s': State)
    requires Balanced(s) && s.jit.Taking? && TakesNothingLive(s, s')
    ensures Balanced(s') && multiset(s.q.nodes[..|s.q.nodes| - 1]) <= multiset(s.q.nodes)
  {
    hide InHalfCircle, Ascending;
    LastOff(s.q.nodes);
    SameMembers(s.q.nodes[..|s.q.nodes| - 1], s'.q.nodes);
    MovesOver(multiset(s'.q.nodes), multiset{s.q.nodes[|s.q.nodes| - 1]}, s.dequeued, s.dropped, s.lost);
  }

  lemma MovesOver(left: multiset<Node>, gone: multiset<Node>, a: multiset<Node>, b: multiset<Node>, c: multiset<Node>)
    ensures (left + gone) + a + b + c == left + a + b + (c + gone)
  {
  }

  lemma LastOff(s: seq<Node>)
    requires s != []
    ensures multiset(s) == multiset(s[..|s| - 1]) + multiset{s[|s| - 1]}
  {
    assert s == s[..|s| - 1] + [s[|s| - 1]];
  }

  lemma LossKeepsPlacing(s: seq<Node>, rest: seq<Node>, t: seq<Node>)
    requires AllWellMade(s) && AllApart(s) && multiset(rest) <= multiset(s) && Sorts(rest, t)
    ensures AllWellMade(t) && AllApart(t) && (InHalfCircle(t) ==> Ascending(t))
  {
    SubsetKeepsApart(s, t);
    if InHalfCircle(t) {
      HalfCirclePermutes(t, rest);
    }
  }

  // ---------- steps ----------

  predicate ChangesQueue(a: Action) { a in {InsertBeacon, InsertPacket, Peek, Dequeue} }

  lemma ControlKeepsInv(s: State, a: Action, s': State)
    requires Inv(s) && Step(s, a, s') && !ChangesQueue(a)
    ensures Inv(s') && s'.q == s.q
  {
  }

  lemma ControlCounts(s: State, a: Action, s': State)
    requires CountedRight(s) && Step(s, a, s') && !ChangesQueue(a)
    ensures CountedRight(s')
  {
  }

  /** Every step keeps the invariant, wherever the counters lie. */
  lemma StepKeepsInv(s: State, a: Action, s': State)
    requires Inv(s) && Step(s, a, s')
    ensures Inv(s')
  {
    match a
    case InsertBeacon => InsertKeepsInv(s, s.down.now, s.down.pkt, Beacon, 0, s');
    case InsertPacket => InsertKeepsInv(s, s.down.now, s.down.pkt, s.down.kind, s.down.airMs, s');
    case Peek => PeekKeepsInv(s, s');
    case Dequeue =>
      if 0 <= s.jit.idx < |s.q.nodes| {
        TakesKeepsInv(s, s.jit.idx, s');
      } else {
        TakesNothingKeepsInv(s, s');
      }
    case _ => ControlKeepsInv(s, a, s');
  }

  lemma BeaconCounts(s: State, s': State)
    requires Inv(s) && CountedRight(s) && Step(s, InsertBeacon, s')
    ensures CountedRight(s')
  {
    InsertCounts(s, s.down.now, s.down.pkt, Beacon, 0, s');
  }

  lemma PacketCounts(s: State, s': State)
    requires Inv(s) && CountedRight(s) && Step(s, InsertPacket, s')
    ensures CountedRight(s')
  {
    InsertCounts(s, s.down.now, s.down.pkt, s.down.kind, s.down.airMs, s');
  }

  lemma StepCounts(s: State, a: Action, s': State)
    requires Inv(s) && CountedRight(s) && IndexIsLive(s) && Step(s, a, s')
    ensures CountedRight(s')
  {
    match a
    case InsertBeacon => BeaconCounts(s, s');
    case InsertPacket => PacketCounts(s, s');
    case Peek => PeekKeepsInv(s, s');
    case Dequeue => TakesKeepsInv(s, s.jit.idx, s');
    case _ => ControlCounts(s, a, s');
  }

  /** Between a peek and its dequeue the queue only grows. */
  lemma InsertKeepsIndex(s: State, now: u32, p: Packet, kind: PktType, airMs: u32, s': State)
    requires IndexIsLive(s) && Inserts(s, now, p, kind, airMs, s') && |s.q.nodes| < QUEUE_MAX
    ensures IndexIsLive(s')
  {
    InsertBalances(s, now, p, kind, airMs, s');
  }

  lemma PeekAnswers(s: State, s': State) returns (idx: int)
    requires Inv(s) && Step(s, Peek, s') && SafePeek(s, Peek)
    ensures s' == AfterPeek(s, s'.q, idx)
    ensures idx == -1 || (0 <= idx < |s'.q.nodes| && Due(s'.q.nodes[idx], s.jit.now))
  {
    ApartIsDistinct(s.q.nodes);
    idx :| Peeks(s.q, s.jit.now, s'.q, idx) && s' == AfterPeek(s, s'.q, idx);
    hide Peeks, Due, AllApart, AllWellMade;
    PeekedIsLive(s.q, s.jit.now, s'.q, idx);
  }

  lemma PeekGivesLiveIndex(s: State, s': State)
    requires Inv(s) && Step(s, Peek, s') && SafePeek(s, Peek)
    ensures IndexIsLive(s')
  {
    hide Inv, SafePeek;
    var idx := PeekAnswers(s, s');
  }

  lemma ControlKeepsIndex(s: State, a: Action, s': State)
    requires IndexIsLive(s) && Step(s, a, s') && !ChangesQueue(a)
    ensures IndexIsLive(s')
  {
  }

  lemma StepKeepsIndex(s: State, a: Action, s': State)
    requires Inv(s) && CountedRight(s) && IndexIsLive(s) && Step(s, a, s') && SafePeek(s, a)
    ensures CountedRight(s') && IndexIsLive(s')
  {
    StepCounts(s, a, s');
    match a
    case InsertBeacon => InsertKeepsIndex(s, s.down.now, s.down.pkt, Beacon, 0, s');
    case InsertPacket => InsertKeepsIndex(s, s.down.now, s.down.pkt, s.down.kind, s.down.airMs, s');
    case Peek => PeekGivesLiveIndex(s, s');
    case Dequeue =>
    case _ => ControlKeepsIndex(s, a, s');
  }

  // ---------- runs ----------

  ghost predicate Run(states: seq<State>, actions: seq<Action>) {
    && |states| == |actions| + 1
    && states[0] == INITIAL
    && forall i :: 0 <= i < |actions| ==> Step(states[i], actions[i], states[i + 1])
  }

  /** A peek, if a is one, at a clock clear of the wrap, or in a half circle. */
  ghost predicate SafePeek(s: State, a: Action) {
    a == Peek && s.jit.Peeking? ==> ClearOfWrap(s.jit.now) || InHalfCircle(s.q.nodes)
  }

  ghost predicate SafePeeks(states: seq<State>, actions: seq<Action>, i: nat) {
    i <= |states| && i <= |actions| && forall j :: 0 <= j < i ==> SafePeek(states[j], actions[j])
  }

  lemma {:induction false} RunKeepsInv(states: seq<State>, actions: seq<Action>, i: nat)
    requires Run(states, actions) && i < |states|
    ensures Inv(states[i])
  {
    if i > 0 {
      RunKeepsInv(states, actions, i - 1);
      hide Step, Inv;
      assert Step(states[i - 1], actions[i - 1], states[i]);
      StepKeepsInv(states[i - 1], actions[i - 1], states[i]);
    }
  }

  lemma {:induction false} SafeRunKeepsIndex(states: seq<State>, actions: seq<Action>, i: nat)
    requires Run(states, actions) && i < |states| && SafePeeks(states, actions, i)
    ensures CountedRight(states[i]) && IndexIsLive(states[i])
  {
    if i > 0 {
      SafeRunKeepsIndex(states, actions, i - 1);
      RunKeepsInv(states, actions, i - 1);
      hide Step, Inv, CountedRight, IndexIsLive, SafePeek;
      assert Step(states[i - 1], actions[i - 1], states[i]) && SafePeek(states[i - 1], actions[i - 1]);
      StepKeepsIndex(states[i - 1], actions[i - 1], states[i]);
    }
  }

  /** In every reachable state, the reserved arcs of any two queued packets stay more than the margin apart. */
  lemma QueuedArcsAreApart(states: seq<State>, actions: seq<Action>, i: nat, j: nat, k: nat)
    requires Run(states, actions) && i < |states|
    requires j < |states[i].q.nodes| && k < |states[i].q.nodes| && j != k
    ensures ArcsApart(states[i].q.nodes[j], states[i].q.nodes[k])
  {
    RunKeepsInv(states, actions, i);
    var s := states[i].q.nodes;
    assert WellMade(s[j]) && WellMade(s[k]);
    ApartSymmetric(s[j], s[k]);
    ApartMeansArcsApart(s[j], s[k]);
  }

  /**
    In every reachable state: at most 32 packets, although the full check and the insertion hold the lock separately,
    and the accepted packets are those queued, dequeued, dropped and lost. As long as no peek outside a half circle
    comes within TX_JIT_DELAY of the counter's wrap, none is lost, and the beacon counter counts the beacons, at most 3,
    so the beacon loop's byte subtraction does not wrap.
   */
  lemma NothingLostOrMiscounted(states: seq<State>, actions: seq<Action>, i: nat)
    requires Run(states, actions) && i < |states|
    ensures var s := states[i];
            && |s.q.nodes| <= QUEUE_MAX
            && s.accepted == multiset(s.q.nodes) + s.dequeued + s.dropped + s.lost
            && (SafePeeks(states, actions, i) ==>
                  s.lost == multiset{} && s.q.beacons == BeaconCount(s.q.nodes) <= BEACONS_IN_QUEUE)
  {
    RunKeepsInv(states, actions, i);
    if SafePeeks(states, actions, i) {
      SafeRunKeepsIndex(states, actions, i);
    }
  }

  /** Then, too, a peeked index names a live packet up to its dequeue. */
  lemma DequeueIsSafe(states: seq<State>, actions: seq<Action>, i: nat)
    requires Run(states, actions) && i < |states| && SafePeeks(states, actions, i)
    requires states[i].jit.Peeked? || states[i].jit.Taking?
    ensures 0 <= states[i].jit.idx < |states[i].q.nodes|
  {
    SafeRunKeepsIndex(states, actions, i);
  }

  // ---------- the peeked packet and the dequeued one ----------

  /** The peeked packet stands behind those that have overtaken it. */
  ghost predicate Tracks(s: State) {
    s.jit.Peeked? || s.jit.Taking? ==>
      && 0 <= s.jit.idx && s.jit.idx + s.jit.overtaken < |s.q.nodes|
      && s.q.nodes[s.jit.idx + s.jit.overtaken] == s.jit.node
      && Due(s.jit.node, s.jit.now)
  }

  lemma InsertTracks(s: State, now: u32, p: Packet, kind: PktType, airMs: u32, s': State)
    requires Inv(s) && Tracks(s) && Inserts(s, now, p, kind, airMs, s')
    requires InHalfCircle(s.q.nodes) && InHalfCircle(s'.q.nodes)
    ensures Tracks(s')
  {
    InsertEffects(s, now, p, kind, airMs, s');
    hide Inserts, Offered, InsertVerdict, Tracks, Overtake;
    if InsertVerdict(s, now, p, kind, airMs) == Accepted {
      var n := Offered(s.q, now, p, kind, airMs);
      if s.jit.Peeked? || s.jit.Taking? {
        InsertInOrder(s, now, p, kind, airMs, s');
        InsertMoves(s, now, p, kind, airMs, s', n);
      } else {
        Untracked(s, s', n);
      }
    } else {
      Unmoved(s, s');
    }
  }

  lemma InsertEffects(s: State, now: u32, p: Packet, kind: PktType, airMs: u32, s': State)
    requires Inserts(s, now, p, kind, airMs, s')
    ensures if InsertVerdict(s, now, p, kind, airMs) == Accepted
            then s'.jit == Overtake(s.jit, Offered(s.q, now, p, kind, airMs))
            else s'.jit == s.jit && s'.q == s.q
  {
  }

  lemma Untracked(s: State, s': State, n: Node)
    requires !s.jit.Peeked? && !s.jit.Taking? && s'.jit == Overtake(s.jit, n)
    ensures Tracks(s')
  {
  }

  lemma Unmoved(s: State, s': State)
    requires Tracks(s) && s'.jit == s.jit && s'.q == s.q
    ensures Tracks(s')
  {
  }

  lemma InsertInOrder(s: State, now: u32, p: Packet, kind: PktType, airMs: u32, s': State)
    requires Inv(s) && Inserts(s, now, p, kind, airMs, s') && InsertVerdict(s, now, p, kind, airMs) == Accepted
    requires InHalfCircle(s.q.nodes) && InHalfCircle(s'.q.nodes)
    ensures AcceptsInOrder(s.q, now, p, kind, airMs, s'.q, Offered(s.q, now, p, kind, airMs))
  {
  }

  lemma InsertMoves(s: State, now: u32, p: Packet, kind: PktType, airMs: u32, s': State, n: Node)
    requires Tracks(s) && (s.jit.Peeked? || s.jit.Taking?) && s'.jit == Overtake(s.jit, n)
    requires AcceptsInOrder(s.q, now, p, kind, airMs, s'.q, n)
    ensures Tracks(s')
  {
    hide AcceptsInOrder, DepartsAfter;
    PlaceAfterEnqueue(s.q, s.jit.idx + s.jit.overtaken, now, p, kind, airMs, s'.q, n);
  }

  lemma PeekTracks(s: State, s': State)
    requires Inv(s) && Step(s, Peek, s') && SafePeek(s, Peek)
    ensures Tracks(s')
  {
    hide Inv, SafePeek, Peeks, Due;
    var idx := PeekAnswers(s, s');
  }

  lemma ControlTracks(s: State, a: Action, s': State)
    requires Tracks(s) && Step(s, a, s') && !ChangesQueue(a)
    ensures Tracks(s')
  {
  }

  lemma DequeueTracks(s: State, s': State)
    requires Step(s, Dequeue, s')
    ensures Tracks(s')
  {
  }

  lemma StepTracks(s: State, a: Action, s': State)
    requires Inv(s) && Tracks(s) && Step(s, a, s') && InHalfCircle(s.q.nodes) && InHalfCircle(s'.q.nodes)
    ensures Tracks(s')
  {
    match a
    case InsertBeacon => InsertTracks(s, s.down.now, s.down.pkt, Beacon, 0, s');
    case InsertPacket => InsertTracks(s, s.down.now, s.down.pkt, s.down.kind, s.down.airMs, s');
    case Peek => PeekTracks(s, s');
    case Dequeue => DequeueTracks(s, s');
    case _ => ControlTracks(s, a, s');
  }

  /**
    The comparator is an order on the queued packets at every point from a peek at j, or from after it if its clock is
    clear of the wrap, up to i.
   */
  ghost predicate OrderlySince(states: seq<State>, actions: seq<Action>, j: nat, i: nat) {
    && j < i < |states| && j < |actions|
    && actions[j] == Peek && SafePeek(states[j], actions[j])
    && forall k :: j < k <= i ==> InHalfCircle(states[k].q.nodes)
  }

  lemma SinceShorter(states: seq<State>, actions: seq<Action>, j: nat, i: nat)
    requires OrderlySince(states, actions, j, i)
    ensures j + 1 < i ==> OrderlySince(states, actions, j, i - 1) && InHalfCircle(states[i - 1].q.nodes)
    ensures InHalfCircle(states[i].q.nodes)
  {
    hide InHalfCircle, SafePeek;
  }

  ghost predicate NotOvertaken(s: State) {
    s.jit.Peeked? || s.jit.Taking? ==> s.jit.overtaken == 0
  }

  lemma PeekNotOvertaken(s: State, s': State)
    requires Step(s, Peek, s')
    ensures NotOvertaken(s')
  {
  }

  lemma FirstTracks(states: seq<State>, actions: seq<Action>, j: nat)
    requires Run(states, actions) && j < |actions| && actions[j] == Peek && SafePeek(states[j], Peek)
    ensures Tracks(states[j + 1]) && NotOvertaken(states[j + 1])
  {
    RunKeepsInv(states, actions, j);
    hide Inv, Tracks, NotOvertaken, SafePeek;
    assert Step(states[j], actions[j], states[j + 1]);
    hide Step;
    PeekTracks(states[j], states[j + 1]);
    PeekNotOvertaken(states[j], states[j + 1]);
  }

  lemma NextTracks(states: seq<State>, actions: seq<Action>, i: nat)
    requires Run(states, actions) && i < |actions| && Tracks(states[i])
    requires InHalfCircle(states[i].q.nodes) && InHalfCircle(states[i + 1].q.nodes)
    ensures Tracks(states[i + 1])
  {
    RunKeepsInv(states, actions, i);
    hide Inv, Tracks, InHalfCircle;
    assert Step(states[i], actions[i], states[i + 1]);
    hide Step;
    StepTracks(states[i], actions[i], states[i + 1]);
  }

  lemma {:induction false} RunTracks(states: seq<State>, actions: seq<Action>, j: nat, i: nat)
    requires Run(states, actions) && OrderlySince(states, actions, j, i)
    ensures Tracks(states[i])
    decreases i
  {
    hide Step, Tracks, InHalfCircle;
    if i == j + 1 {
      FirstTracks(states, actions, j);
    } else {
      SinceShorter(states, actions, j, i);
      RunTracks(states, actions, j, i - 1);
      NextTracks(states, actions, i - 1);
    }
  }

  /** jit_dequeue takes the packet that jit_peek chose exactly when no accepted packet has overtaken it in between. */
  lemma DequeuesWhatItPeeked(states: seq<State>, actions: seq<Action>, j: nat, i: nat)
    requires Run(states, actions) && OrderlySince(states, actions, j, i) && i < |actions| && actions[i] == Dequeue
    ensures var s := states[i];
            && s.jit.Taking? && Due(s.jit.node, s.jit.now)
            && (states[i + 1].dequeued == s.dequeued + multiset{s.jit.node} <==> s.jit.overtaken == 0)
  {
    RunTracks(states, actions, j, i);
    RunKeepsInv(states, actions, i);
    ApartIsDistinct(states[i].q.nodes);
    assert Step(states[i], actions[i], states[i + 1]);
    TakesTracked(states[i], states[i + 1]);
  }

  lemma TakesTracked(s: State, s': State)
    requires Step(s, Dequeue, s') && Tracks(s) && DistinctCounts(s.q.nodes)
    ensures s.jit.Taking? && Due(s.jit.node, s.jit.now)
    ensures s'.dequeued == s.dequeued + multiset{s.jit.node} <==> s.jit.overtaken == 0
  {
    SameAddition(s.dequeued, s.q.nodes[s.jit.idx], s.jit.node);
  }

  lemma SameAddition(m: multiset<Node>, a: Node, b: Node)
    ensures m + multiset{a} == m + multiset{b} <==> a == b
  {
    if m + multiset{a} == m + multiset{b} {
      assert (m + multiset{a})[a] == m[a] + 1;
    }
  }

  // ---------- clocks ----------

  /** An insertion, between a peek and its dequeue, of a packet ahead of a clock that does not lag too much. */
  predicate TimelyInsert(j: JitState, n: Node, now: u32) {
    j.Peeked? || j.Taking? ==> LagsAtMost(j.now, now, SAFE_LAG) && DepartsAhead(n, now)
  }

  predicate Timely(s: State, a: Action) {
    && (a == InsertBeacon && s.down.BeaconCleared? ==>
          TimelyInsert(s.jit, Offered(s.q, s.down.now, s.down.pkt, Beacon, 0), s.down.now))
    && (a == InsertPacket && s.down.PacketCleared? ==>
          TimelyInsert(s.jit, Offered(s.q, s.down.now, s.down.pkt, s.down.kind, s.down.airMs), s.down.now))
  }

  lemma InsertNotOvertaking(s: State, now: u32, p: Packet, kind: PktType, airMs: u32, s': State)
    requires Inv(s) && Tracks(s) && NotOvertaken(s) && Inserts(s, now, p, kind, airMs, s')
    requires PostDelay(kind, airMs) <= MAX_POST && TimelyInsert(s.jit, Offered(s.q, now, p, kind, airMs), now)
    ensures NotOvertaken(s')
  {
    var n := Offered(s.q, now, p, kind, airMs);
    if (s.jit.Peeked? || s.jit.Taking?) && Verdict(s.q.nodes, now, n) == Accepted {
      AcceptedIsDistinct(s.q.nodes, n);
      assert WellMade(s.q.nodes[s.jit.idx]) && !Clashes(n, s.q.nodes[s.jit.idx]);
      AheadIsAfter(s.jit.node, n, s.jit.now, now);
    }
  }

  lemma StepNotOvertaking(s: State, a: Action, s': State)
    requires Inv(s) && Tracks(s) && NotOvertaken(s) && Step(s, a, s') && Timely(s, a)
    ensures NotOvertaken(s')
  {
    match a
    case InsertBeacon => InsertNotOvertaking(s, s.down.now, s.down.pkt, Beacon, 0, s');
    case InsertPacket => InsertNotOvertaking(s, s.down.now, s.down.pkt, s.down.kind, s.down.airMs, s');
    case _ =>
  }

  /** From the peek at j up to i, insertions are timely. */
  ghost predicate TimelySince(states: seq<State>, actions: seq<Action>, j: nat, i: nat) {
    i <= |states| && i <= |actions| && forall k :: j < k < i ==> Timely(states[k], actions[k])
  }

  lemma TimelyShorter(states: seq<State>, actions: seq<Action>, j: nat, i: nat)
    requires TimelySince(states, actions, j, i) && j + 1 < i
    ensures TimelySince(states, actions, j, i - 1) && Timely(states[i - 1], actions[i - 1])
  {
    hide Timely;
  }

  lemma NextNotOvertaken(states: seq<State>, actions: seq<Action>, i: nat)
    requires Run(states, actions) && i < |actions| && Tracks(states[i]) && NotOvertaken(states[i])
    requires Timely(states[i], actions[i])
    ensures NotOvertaken(states[i + 1])
  {
    RunKeepsInv(states, actions, i);
    hide Inv, Tracks, Timely, NotOvertaken;
    assert Step(states[i], actions[i], states[i + 1]);
    hide Step;
    StepNotOvertaking(states[i], actions[i], states[i + 1]);
  }

  /** With packets ahead of clocks that lag by at most SAFE_LAG, nothing overtakes a peeked packet. */
  lemma {:induction false} TimelyRunIsNotOvertaken(states: seq<State>, actions: seq<Action>, j: nat, i: nat)
    requires Run(states, actions) && OrderlySince(states, actions, j, i) && TimelySince(states, actions, j, i)
    ensures NotOvertaken(states[i])
    decreases i
  {
    hide Step, Tracks, NotOvertaken, InHalfCircle, Timely;
    if i == j + 1 {
      FirstTracks(states, actions, j);
    } else {
      SinceShorter(states, actions, j, i);
      TimelyShorter(states, actions, j, i);
      TimelyRunIsNotOvertaken(states, actions, j, i - 1);
      RunTracks(states, actions, j, i - 1);
      NextNotOvertaken(states, actions, i - 1);
    }
  }
}
