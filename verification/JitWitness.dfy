/** Runs of the two threads that end where one would not want them to. */
module JitWitness {
  import opened Circle
  import opened Jit
  import opened JitOrder
  import opened JitArcs
  import opened JitPeek
  import opened JitThreads

  // ---------- building runs ----------

  /** A run in which the comparator was an order on the queued packets at every point. */
  ghost predicate OrderlyRun(states: seq<State>, actions: seq<Action>) {
    Run(states, actions) && forall i :: 0 <= i < |states| ==> InHalfCircle(states[i].q.nodes)
  }

  lemma Starts()
    ensures OrderlyRun([INITIAL], [])
  {
    assert HalfFrom(0, []);
  }

  /** The run, one step longer. */
  lemma Extend(states: seq<State>, actions: seq<Action>, a: Action, s': State)
    requires Run(states, actions) && Step(states[|actions|], a, s')
    ensures Run(states + [s'], actions + [a])
  {
    hide Step;
    var states', actions' := states + [s'], actions + [a];
    forall i | 0 <= i < |actions'| ensures Step(states'[i], actions'[i], states'[i + 1]) {
      if i < |actions| {
        assert states'[i] == states[i] && states'[i + 1] == states[i + 1] && actions'[i] == actions[i];
      }
    }
  }

  lemma Then(states: seq<State>, actions: seq<Action>, a: Action, s': State)
    returns (states': seq<State>, actions': seq<Action>)
    requires OrderlyRun(states, actions) && InHalfCircle(s'.q.nodes)
    requires Step(states[|actions|], a, s')
    ensures OrderlyRun(states', actions') && actions' != [] && actions'[|actions'| - 1] == a
    ensures states'[|actions'| - 1] == states[|actions|] && states'[|actions'|] == s'
  {
    hide Step, InHalfCircle;
    states', actions' := states + [s'], actions + [a];
    Extend(states, actions, a, s');
  }

  /** The insertion of a class A packet that is accepted. */
  lemma PacketInserted(s: State, now: u32, n: Node, airMs: u32, nodes: seq<Node>)
    requires s.down == PacketCleared(now, n.pkt, ClassA, airMs) && s.jit == JitTop
    requires n == MakeNode(n.pkt, ClassA, airMs) && Verdict(s.q.nodes, now, n) == Accepted
    requires Sorts(s.q.nodes + [n], nodes)
    ensures Step(s, InsertPacket,
              s.(q := Queue(nodes, s.q.beacons), accepted := s.accepted + multiset{n}, down := DownTop))
  {
    assert Offered(s.q, now, n.pkt, ClassA, airMs) == n;
    hide Verdict, Sorts;
  }

  /** The downlink thread, at its top, goes round without beacons and queues one class A packet. */
  lemma Queues(states: seq<State>, actions: seq<Action>, now: u32, n: Node, airMs: u32, nodes: seq<Node>)
    returns (states': seq<State>, actions': seq<Action>)
    requires OrderlyRun(states, actions) && states[|actions|].down == DownTop && states[|actions|].jit == JitTop
    requires |states[|actions|].q.nodes| < QUEUE_MAX
    requires n == MakeNode(n.pkt, ClassA, airMs) && PostDelay(ClassA, airMs) <= MAX_POST
    requires Verdict(states[|actions|].q.nodes, now, n) == Accepted
    requires Sorts(states[|actions|].q.nodes + [n], nodes) && InHalfCircle(nodes)
    ensures OrderlyRun(states', actions')
    ensures states'[|actions'|] == states[|actions|].(q := Queue(nodes, states[|actions|].q.beacons),
                                                      accepted := states[|actions|].accepted + multiset{n})
  {
    var s := states[|actions|];
    var s1 := s.(down := DownBeacons((BEACONS_IN_QUEUE - s.q.beacons) % 256));
    var s2 := s.(down := DownPacket);
    var s3 := s.(down := PacketCleared(now, n.pkt, ClassA, airMs));
    var s4 := s.(q := Queue(nodes, s.q.beacons), accepted := s.accepted + multiset{n});
    assert InHalfCircle(s.q.nodes);
    hide OrderlyRun;
    states', actions' := Then(states, actions, ReadBeaconCount, s1);
    states', actions' := Then(states', actions', LeaveBeaconLoop, s2);
    states', actions' := Then(states', actions', CheckForPacket(now, n.pkt, ClassA, airMs), s3);
    PacketInserted(s3, now, n, airMs, nodes);
    states', actions' := Then(states', actions', InsertPacket, s4);
  }

  /** The JIT thread, at its top, peeks. */
  lemma PeeksNow(states: seq<State>, actions: seq<Action>, now: u32, q': Queue, idx: int)
    returns (states': seq<State>, actions': seq<Action>)
    requires OrderlyRun(states, actions) && states[|actions|].jit == JitTop && states[|actions|].q.nodes != []
    requires Peeks(states[|actions|].q, now, q', idx) && InHalfCircle(q'.nodes)
    ensures OrderlyRun(states', actions')
    ensures actions' != [] && actions'[|actions'| - 1] == Peek
    ensures states'[|actions'| - 1] == states[|actions|].(jit := Peeking(now))
    ensures states'[|actions'|] == AfterPeek(states[|actions|].(jit := Peeking(now)), q', idx)
  {
    var s1 := states[|actions|].(jit := Peeking(now));
    var s2 := AfterPeek(s1, q', idx);
    assert InHalfCircle(states[|actions|].q.nodes);
    hide OrderlyRun, Peeks, InHalfCircle;
    states', actions' := Then(states, actions, CheckForPeek(now), s1);
    assert Step(s1, Peek, s2);
    states', actions' := Then(states', actions', Peek, s2);
  }

  lemma InHalf(base: u32, s: seq<Node>)
    requires HalfFrom(base, s)
    ensures InHalfCircle(s)
  {
  }

  lemma SortsOne(n: Node)
    ensures Sorts([] + [n], [n])
  {
    assert [] + [n] == [n];
  }

  // ---------- a due packet behind an outdated head ----------

  const EARLY: u32 := 100000000
  const LATE: u32 := 100100000

  /** Two class A downlinks of a millisecond each, 100 ms apart. */
  function Head(): Node { DownlinkAt(EARLY, 1000) }

  function Second(): Node { DownlinkAt(LATE, 1000) }

  lemma TwoQueued() returns (states: seq<State>, actions: seq<Action>)
    ensures OrderlyRun(states, actions)
    ensures states[|actions|] == INITIAL.(q := Queue([Head(), Second()], 0), accepted := multiset{Head(), Second()})
  {
    var now: u32 := 99900000;
    Starts();
    SortsOne(Head());
    InHalf(now, [Head()]);
    states, actions := Queues([INITIAL], [], now, Head(), 1, [Head()]);
    SecondSorts(now);
    states, actions := Queues(states, actions, now, Second(), 1, [Head(), Second()]);
  }

  lemma SecondSorts(now: u32)
    requires now == 99900000
    ensures Verdict([Head()], now, Second()) == Accepted && Sorts([Head()] + [Second()], [Head(), Second()])
    ensures InHalfCircle([Head(), Second()])
  {
    FirstCollisionMeaning([Head()], 0, Second());
    InHalf(now, [Head(), Second()]);
    assert [Head()] + [Second()] == [Head(), Second()];
    AscendingIsKeySorted(now, [Head(), Second()]);
  }

  /** 80 ms after the head should have left, the second packet is due, and the peek that drops the head misses it. */
  lemma PeekMissesSecond(now: u32)
    requires now == 100080000
    ensures Stale(Head(), now) && Due(Second(), now)
    ensures Peeks(Queue([Head(), Second()], 0), now, Queue([Second()], 0), -1)
  {
    var q, p := Queue([Head(), Second()], 0), Queue([Second()], 0);
    assert SwapOut(q.nodes, 0) == [Second()];
    assert BeaconsWithout(q, Head()) == 0;
    assert Purged(q, 0, p);
    assert Scans(p, 1, -1, now, p, -1);
    assert PurgesAndScans(q, 0, -1, now, p, -1);
    assert Scans(q, 0, -1, now, p, -1);
  }

  /** A run that ends in a peek which finds nothing although the only packet left is due. */
  lemma DuePacketIsMissed() returns (states: seq<State>, actions: seq<Action>)
    ensures OrderlyRun(states, actions) && actions != [] && actions[|actions| - 1] == Peek
    ensures var s, s' := states[|actions| - 1], states[|actions|];
            && s.jit.Peeking? && s'.jit == JitTop
            && s'.q.nodes == [Second()] && Due(Second(), s.jit.now)
            && !RightAnswer(s'.q.nodes, s.jit.now, -1)
  {
    states, actions := TwoQueued();
    PeekMissesSecond(100080000);
    InHalf(LATE, [Second()]);
    states, actions := PeeksNow(states, actions, 100080000, Queue([Second()], 0), -1);
    assert [Second()][0] == Second();
  }

  // ---------- a beacon in the place of a due packet ----------

  const NOW: u32 := 100000000

  /** A class A downlink of 50 ms, due at NOW, and a beacon that should have left ten seconds before. */
  function DueOne(): Node { DownlinkAt(100020000, 50000) }

  function PassedOne(): Node { BeaconAt(90000000) }

  lemma OneQueuedAndPeeked() returns (states: seq<State>, actions: seq<Action>)
    ensures OrderlyRun(states, actions)
    ensures states[|actions|] == INITIAL.(q := Queue([DueOne()], 0), accepted := multiset{DueOne()},
                                          jit := Peeked(0, NOW, DueOne(), 0))
  {
    Starts();
    SortsOne(DueOne());
    InHalf(99900000, [DueOne()]);
    states, actions := Queues([INITIAL], [], 99900000, DueOne(), 50, [DueOne()]);
    PeekFindsOne();
    states, actions := PeeksNow(states, actions, NOW, Queue([DueOne()], 0), 0);
    assert multiset(states[|actions| - 1].q.nodes) - multiset([DueOne()]) == multiset{};
  }

  lemma PeekFindsOne()
    ensures Due(DueOne(), NOW) && Peeks(Queue([DueOne()], 0), NOW, Queue([DueOne()], 0), 0)
  {
    var q := Queue([DueOne()], 0);
    assert Scans(q, 1, 0, NOW, q, 0);
    assert Scans(q, 0, -1, NOW, q, 0);
  }

  /** A state in which DueOne has been peeked; only where the downlink thread stands is left open. */
  function AfterPeeking(down: DownState): State {
    INITIAL.(q := Queue([DueOne()], 0), accepted := multiset{DueOne()}, jit := Peeked(0, NOW, DueOne(), 0),
      down := down)
  }

  /** The beacon has been queued in front. */
  function Overtaken(jit: JitState): State {
    INITIAL.(q := Queue([PassedOne(), DueOne()], 1), accepted := multiset{DueOne()} + multiset{PassedOne()},
             jit := jit, down := DownBeacons(2))
  }

  function Ended(): State {
    Overtaken(JitTop).(q := Queue([DueOne()], 0), dequeued := multiset{PassedOne()})
  }

  lemma BeaconStep()
    ensures Step(AfterPeeking(BeaconCleared(3, NOW, PassedOne().pkt)), InsertBeacon,
            Overtaken(Peeked(0, NOW, DueOne(), 1)))
  {
    BeaconTenSecondsBehind();
    assert Offered(Queue([DueOne()], 0), NOW, PassedOne().pkt, Beacon, 0) == PassedOne();
  }

  lemma CheckStep()
    ensures Step(Overtaken(Peeked(0, NOW, DueOne(), 1)), CheckForDequeue, Overtaken(Taking(0, NOW, DueOne(), 1)))
  {
  }

  lemma WrongDequeue()
    ensures Step(Overtaken(Taking(0, NOW, DueOne(), 1)), Dequeue, Ended())
  {
    var s := Overtaken(Taking(0, NOW, DueOne(), 1));
    assert SwapOut(s.q.nodes, 0) == [DueOne()];
    assert Removes(s.q, 0, Ended().q);
    assert s.dequeued + multiset{s.q.nodes[0]} == multiset{PassedOne()};
  }

  lemma HalfCircles(jit: JitState)
    ensures InHalfCircle(Overtaken(jit).q.nodes) && InHalfCircle(Ended().q.nodes)
  {
    InHalf(90000000, [DueOne()]);
    InHalf(90000000, [PassedOne(), DueOne()]);
  }

  lemma BeaconChecked() returns (states: seq<State>, actions: seq<Action>)
    ensures OrderlyRun(states, actions) && states[|actions|] == AfterPeeking(BeaconCleared(3, NOW, PassedOne().pkt))
  {
    states, actions := OneQueuedAndPeeked();
    var loop, cleared := AfterPeeking(DownBeacons(3)), AfterPeeking(BeaconCleared(3, NOW, PassedOne().pkt));
    InHalf(90000000, [DueOne()]);
    hide OrderlyRun, InHalfCircle;
    states, actions := Then(states, actions, ReadBeaconCount, loop);
    states, actions := Then(states, actions, CheckForBeacon(NOW, PassedOne().pkt), cleared);
  }

  /** A run in which the downlink is peeked as due and the beacon, ten seconds late, is dequeued in its place. */
  lemma PassedBeaconIsDequeued() returns (states: seq<State>, actions: seq<Action>)
    ensures OrderlyRun(states, actions) && actions != [] && actions[|actions| - 1] == Dequeue
    ensures states[|actions| - 1] == Overtaken(Taking(0, NOW, DueOne(), 1)) && Due(DueOne(), NOW)
    ensures states[|actions|] == Ended()
  {
    hide OrderlyRun, InHalfCircle, Step, Overtaken, Ended, AfterPeeking, DueOne, PassedOne, Due;
    states, actions := BeaconChecked();
    PeekFindsOne();
    BeaconStep();
    HalfCircles(Peeked(0, NOW, DueOne(), 1));
    states, actions := Then(states, actions, InsertBeacon, Overtaken(Peeked(0, NOW, DueOne(), 1)));
    CheckStep();
    HalfCircles(Taking(0, NOW, DueOne(), 1));
    states, actions := Then(states, actions, CheckForDequeue, Overtaken(Taking(0, NOW, DueOne(), 1)));
    WrongDequeue();
    states, actions := Then(states, actions, Dequeue, Ended());
  }

  // ---------- an index behind the live nodes ----------

  /** Beacons nearly a third of a turn apart, and one packet ahead of the clock: no half circle holds them. */
  function Far(k: nat): Node
    requires k <= 2
  {
    BeaconAt(if k == 0 then 1500000000 else if k == 1 then 1300000000 else 2800000000)
  }

  function Ahead(): Node { DownlinkAt(1000000, 1000) }

  /**
    Outside a half circle the sort may return any order. Then a peek can hand out index 1 of a queue of one packet: the
    candidate was found while an outdated node stood at index 0. The slot it names has been vacated, and reads as due
    when the clock is about to wrap.
   */
  lemma PeekBehindLiveNodes(now: u32)
    requires !ClearOfWrap(now)
    ensures AllApart(FarQueue().nodes) && AllWellMade(FarQueue().nodes) && CountsBeacons(FarQueue())
    ensures Peeks(FarQueue(), now, Queue([Ahead()], 0), 1)
  {
    FarIsApart();
    FarCounts();
    hide AllApart, AllWellMade, Purged, CountsBeacons;
    FarPurges();
    FarScans(now);
  }

  function FarQueue(): Queue { Queue([Far(0), Far(1), Ahead(), Far(2)], 3) }

  lemma FarCounts()
    ensures CountsBeacons(FarQueue())
  {
    var s := FarQueue().nodes;
    assert s[..3] == [Far(0), Far(1), Ahead()] && s[..3][..2] == [Far(0), Far(1)] && s[..3][..2][..1] == [Far(0)];
    assert BeaconCount([Far(0)]) == 1;
  }

  /** Nothing else is wrong with these four. */
  lemma FarIsApart()
    ensures AllApart([Far(0), Far(1), Ahead(), Far(2)]) && AllWellMade([Far(0), Far(1), Ahead(), Far(2)])
  {
  }

  lemma FarScans(now: u32)
    requires !ClearOfWrap(now)
    requires Purged(Queue([Far(0), Far(1), Ahead(), Far(2)], 3), 0, Queue([Far(1), Ahead(), Far(2)], 2))
    requires Purged(Queue([Far(1), Ahead(), Far(2)], 2), 2, Queue([Ahead(), Far(1)], 1))
    requires Purged(Queue([Ahead(), Far(1)], 1), 1, Queue([Ahead()], 0))
    ensures Scans(Queue([Far(0), Far(1), Ahead(), Far(2)], 3), 0, -1, now, Queue([Ahead()], 0), 1)
  {
    hide Purged;
    var q := Queue([Far(0), Far(1), Ahead(), Far(2)], 3);
    var p1, p2, p3 := Queue([Far(1), Ahead(), Far(2)], 2), Queue([Ahead(), Far(1)], 1), Queue([Ahead()], 0);
    assert Scans(p3, 1, 1, now, p3, 1);
    assert PurgesAndScans(p2, 1, 1, now, p3, 1);
    assert Scans(p2, 1, 1, now, p3, 1);
    assert PurgesAndScans(p1, 2, 1, now, p3, 1);
    assert Scans(p1, 2, 1, now, p3, 1);
    assert Scans(p1, 1, -1, now, p3, 1);
    assert PurgesAndScans(q, 0, -1, now, p3, 1);
  }

  lemma FarPurges()
    ensures Purged(Queue([Far(0), Far(1), Ahead(), Far(2)], 3), 0, Queue([Far(1), Ahead(), Far(2)], 2))
    ensures Purged(Queue([Far(1), Ahead(), Far(2)], 2), 2, Queue([Ahead(), Far(1)], 1))
    ensures Purged(Queue([Ahead(), Far(1)], 1), 1, Queue([Ahead()], 0))
  {
    hide Purged;
    FirstFarPurge();
    SecondFarPurge();
    ThirdFarPurge();
  }

  lemma SecondFarPurge()
    ensures Purged(Queue([Far(1), Ahead(), Far(2)], 2), 2, Queue([Ahead(), Far(1)], 1))
  {
    assert SwapOut([Far(1), Ahead(), Far(2)], 2) == [Far(1), Ahead()];
    assert multiset([Far(1), Ahead()]) == multiset([Ahead(), Far(1)]);
    AscendingIsKeySorted(1000000, [Ahead(), Far(1)]);
  }

  lemma ThirdFarPurge()
    ensures Purged(Queue([Ahead(), Far(1)], 1), 1, Queue([Ahead()], 0))
  {
    assert SwapOut([Ahead(), Far(1)], 1) == [Ahead()];
  }

  lemma FirstFarPurge()
    ensures Purged(Queue([Far(0), Far(1), Ahead(), Far(2)], 3), 0, Queue([Far(1), Ahead(), Far(2)], 2))
  {
    assert SwapOut([Far(0), Far(1), Ahead(), Far(2)], 0) == [Far(2), Far(1), Ahead()];
    NoHalfCircle();
    assert multiset([Far(2), Far(1), Ahead()]) == multiset([Far(1), Ahead(), Far(2)]);
  }

  lemma NoHalfCircle()
    ensures !InHalfCircle([Far(2), Far(1), Ahead()])
  {
    var t := [Far(2), Far(1), Ahead()];
    forall base: u32 ensures !HalfFrom(base, t) {
      var x, y, z := t[0].pkt.countUs, t[1].pkt.countUs, t[2].pkt.countUs;
      assert !(InHalfFrom(base, x) && InHalfFrom(base, y) && InHalfFrom(base, z));
    }
  }

  /** Every peek at this clock, of a queue that insertions can build, hands out -1 or the index of a live packet. */
  ghost predicate PeeksAreLive(now: u32) {
    forall q: Queue, q': Queue, idx: int ::
      AllApart(q.nodes) && AllWellMade(q.nodes) && CountsBeacons(q) && Peeks(q, now, q', idx) ==>
        -1 <= idx < |q'.nodes|
  }

  /** Whether indices can be trusted is a matter of the clock alone: all but the last 30 ms before the wrap will do. */
  lemma PeeksAreLiveExactly(now: u32)
    ensures PeeksAreLive(now) <==> ClearOfWrap(now)
  {
    if ClearOfWrap(now) {
      forall q: Queue, q': Queue, idx: int | Peeks(q, now, q', idx) ensures -1 <= idx < |q'.nodes| {
        PeekedIsLive(q, now, q', idx);
      }
    } else {
      PeekBehindLiveNodes(now);
    }
  }

  // ---------- a packet that is lost ----------

  /** A state that a run without peeks reaches. */
  ghost predicate Unpeeked(s: State) {
    exists states, actions :: Run(states, actions) && Peek !in actions && states[|actions|] == s
  }

  lemma UnpeekedStep(s: State, a: Action, s': State)
    requires Unpeeked(s) && Step(s, a, s') && a != Peek
    ensures Unpeeked(s')
  {
    var states, actions :| Run(states, actions) && Peek !in actions && states[|actions|] == s;
    Extend(states, actions, a, s');
    assert (states + [s'])[|actions + [a]|] == s';
  }

  /** The downlink thread, in its beacon loop, queues a beacon. */
  lemma QueuesBeacon(s: State, left: nat, now: u32, n: Node, nodes: seq<Node>) returns (s': State)
    requires Unpeeked(s) && s.down == DownBeacons(left) && left > 0 && s.jit == JitTop
    requires |s.q.nodes| < QUEUE_MAX && s.q.beacons < 255
    requires n == MakeNode(n.pkt, Beacon, 0) && Verdict(s.q.nodes, now, n) == Accepted
    requires Sorts(s.q.nodes + [n], nodes)
    ensures s' == s.(q := Queue(nodes, s.q.beacons + 1), accepted := s.accepted + multiset{n},
                     down := DownBeacons(left - 1))
    ensures Unpeeked(s')
  {
    var s1 := s.(down := BeaconCleared(left, now, n.pkt));
    s' := s.(q := Queue(nodes, s.q.beacons + 1), accepted := s.accepted + multiset{n}, down := DownBeacons(left - 1));
    hide Unpeeked;
    assert Offered(s.q, now, n.pkt, Beacon, 0) == n;
    UnpeekedStep(s, CheckForBeacon(now, n.pkt), s1);
    UnpeekedStep(s1, InsertBeacon, s');
  }

  /** 60 ms before the wrap, give or take. */
  const FAR_CLOCK: u32 := 4294900000

  lemma FirstFar()
    ensures Verdict([], FAR_CLOCK, Far(1)) == Accepted && Sorts([] + [Far(1)], [Far(1)])
  {
    SortsOne(Far(1));
  }

  lemma SecondFar()
    ensures Verdict([Far(1)], FAR_CLOCK, Far(0)) == Accepted && Sorts([Far(1)] + [Far(0)], [Far(1), Far(0)])
  {
    FirstCollisionMeaning([Far(1)], 0, Far(0));
    assert [Far(1)] + [Far(0)] == [Far(1), Far(0)];
    AscendingIsKeySorted(1300000000, [Far(1), Far(0)]);
  }

  lemma ThirdFar()
    ensures Verdict([Far(1), Far(0)], FAR_CLOCK, Far(2)) == Accepted
    ensures Sorts([Far(1), Far(0)] + [Far(2)], [Far(1), Far(0), Far(2)])
  {
    FirstCollisionMeaning([Far(1), Far(0)], 0, Far(2));
    ThirdFarSorts();
  }

  lemma ThirdFarSorts()
    ensures Sorts([Far(1), Far(0)] + [Far(2)], [Far(1), Far(0), Far(2)])
  {
    assert [Far(1), Far(0)] + [Far(2)] == [Far(1), Far(0), Far(2)];
    AscendingIsKeySorted(1300000000, [Far(1), Far(0), Far(2)]);
  }

  lemma AheadOfFar()
    ensures Verdict([Far(1), Far(0), Far(2)], FAR_CLOCK, Ahead()) == Accepted
    ensures Sorts([Far(1), Far(0), Far(2)] + [Ahead()], FarQueue().nodes)
  {
    var s := [Far(1), Far(0), Far(2)];
    FirstCollisionMeaning(s, 0, Ahead());
    assert s + [Ahead()] == [Far(1), Far(0), Far(2), Ahead()];
    NoHalfCircle();
    if InHalfCircle(s + [Ahead()]) {
      var base: u32 :| HalfFrom(base, s + [Ahead()]);
      HalfFromMembers(base, s + [Ahead()], [Far(2), Far(1), Ahead()]);
      assert false;
    }
  }

  /** All four are queued, in an order that no half circle forbids. */
  function FarState(jit: JitState): State {
    INITIAL.(q := FarQueue(), accepted := multiset{Far(0), Far(1), Far(2), Ahead()}, jit := jit)
  }

  lemma StartsUnpeeked()
    ensures Unpeeked(INITIAL.(down := DownBeacons(3)))
  {
    var none: seq<Action> := [];
    assert Run([INITIAL], none) && Peek !in none && [INITIAL][|none|] == INITIAL;
    UnpeekedStep(INITIAL, ReadBeaconCount, INITIAL.(down := DownBeacons(3)));
  }

  lemma FarAreBeacons(k: nat)
    requires k <= 2
    ensures Far(k) == MakeNode(Far(k).pkt, Beacon, 0)
  {
  }

  lemma TwoFarQueued() returns (s: State)
    ensures Unpeeked(s)
    ensures s == INITIAL.(q := Queue([Far(1), Far(0)], 2), accepted := multiset{Far(0), Far(1)}, down := DownBeacons(1))
  {
    StartsUnpeeked();
    FarAreBeacons(0);
    FarAreBeacons(1);
    FirstFar();
    SecondFar();
    hide Unpeeked, Verdict, Sorts, Far, MakeNode;
    s := QueuesBeacon(INITIAL.(down := DownBeacons(3)), 3, FAR_CLOCK, Far(1), [Far(1)]);
    s := QueuesBeacon(s, 2, FAR_CLOCK, Far(0), [Far(1), Far(0)]);
  }

  lemma FarBeaconsQueued() returns (s: State)
    ensures Unpeeked(s)
    ensures s == INITIAL.(q := Queue([Far(1), Far(0), Far(2)], 3), accepted := multiset{Far(0), Far(1), Far(2)},
                          down := DownBeacons(0))
  {
    FarAreBeacons(2);
    ThirdFar();
    hide Unpeeked, Verdict, Sorts, Far, MakeNode;
    s := TwoFarQueued();
    s := QueuesBeacon(s, 1, FAR_CLOCK, Far(2), [Far(1), Far(0), Far(2)]);
  }

  lemma FarAccepted()
    ensures multiset{Far(0), Far(1), Far(2)} + multiset{Ahead()} == multiset{Far(0), Far(1), Far(2), Ahead()}
  {
  }

  lemma FarQueued()
    ensures Unpeeked(FarState(JitTop))
  {
    var s := FarBeaconsQueued();
    var s1, s2 := s.(down := DownPacket), s.(down := PacketCleared(FAR_CLOCK, Ahead().pkt, ClassA, 1));
    AheadOfFar();
    assert Ahead() == MakeNode(Ahead().pkt, ClassA, 1) && FarQueue() == Queue(FarQueue().nodes, 3);
    hide Unpeeked, Verdict, Sorts, Far, Ahead, MakeNode, FarQueue;
    UnpeekedStep(s, LeaveBeaconLoop, s1);
    UnpeekedStep(s1, CheckForPacket(FAR_CLOCK, Ahead().pkt, ClassA, 1), s2);
    PacketInserted(s2, FAR_CLOCK, Ahead(), 1, FarQueue().nodes);
    FarAccepted();
    UnpeekedStep(s2, InsertPacket, FarState(JitTop));
  }

  /** Every peek of the run reads one of these clocks. */
  ghost predicate PeeksAt(states: seq<State>, actions: seq<Action>, clocks: iset<u32>) {
    |states| >= |actions| &&
    forall i :: 0 <= i < |actions| && actions[i] == Peek && states[i].jit.Peeking? ==> states[i].jit.now in clocks
  }

  /** What is left when the beacons have been dropped, and the index of the packet that remains is off by one. */
  function FarPeeked(jit: JitState): State {
    FarState(jit).(q := Queue([Ahead()], 0), dropped := multiset{Far(0), Far(1), Far(2)})
  }

  lemma FarDrops()
    ensures multiset{} + (multiset(FarQueue().nodes) - multiset([Ahead()])) == multiset{Far(0), Far(1), Far(2)}
  {
    assert multiset(FarQueue().nodes) == multiset{Far(0), Far(1), Far(2)} + multiset([Ahead()]);
  }

  lemma PeekStep(s: State, q': Queue, idx: int)
    requires s.jit.Peeking? && Peeks(s.q, s.jit.now, q', idx)
    ensures Step(s, Peek, AfterPeek(s, q', idx))
  {
    hide Peeks;
  }

  lemma FarPeek(now: u32)
    requires !ClearOfWrap(now)
    ensures Step(FarState(Peeking(now)), Peek, FarPeeked(Peeked(1, now, ZERO_NODE, 0)))
  {
    PeekBehindLiveNodes(now);
    FarDrops();
    hide Step, Peeks, AllApart, AllWellMade, CountsBeacons, FarQueue, ClearOfWrap, Far, Ahead;
    PeekStep(FarState(Peeking(now)), Queue([Ahead()], 0), 1);
  }

  lemma FarCheck(now: u32)
    ensures Step(FarPeeked(Peeked(1, now, ZERO_NODE, 0)), CheckForDequeue, FarPeeked(Taking(1, now, ZERO_NODE, 0)))
  {
  }

  lemma FarDequeue(now: u32)
    ensures Step(FarPeeked(Taking(1, now, ZERO_NODE, 0)), Dequeue,
            FarPeeked(JitTop).(q := EMPTY_QUEUE, lost := multiset{Ahead()}))
  {
    var q := Queue([Ahead()], 0);
    assert q.nodes[..0] == [];
    assert LosesLast(q, ZERO_NODE, EMPTY_QUEUE);
  }

  /** A run without peeks, and then a peek and a dequeue. */
  lemma PeeksOnce(s: State, s1: State, s2: State, s3: State) returns (states: seq<State>, actions: seq<Action>)
    requires Unpeeked(s) && s.jit.Peeking?
    requires Step(s, Peek, s1) && Step(s1, CheckForDequeue, s2) && Step(s2, Dequeue, s3)
    ensures Run(states, actions) && PeeksAt(states, actions, iset{s.jit.now})
    ensures actions != [] && actions[|actions| - 1] == Dequeue && states[|actions|] == s3
  {
    hide Step;
    var before, none :| Run(before, none) && Peek !in none && before[|none|] == s;
    Extend(before, none, Peek, s1);
    Extend(before + [s1], none + [Peek], CheckForDequeue, s2);
    Extend(before + [s1] + [s2], none + [Peek] + [CheckForDequeue], Dequeue, s3);
    states, actions := before + [s1] + [s2] + [s3], none + [Peek] + [CheckForDequeue] + [Dequeue];
    assert forall i :: 0 <= i < |none| ==> actions[i] == none[i] && none[i] in none;
  }

  lemma FarPeeking(now: u32)
    ensures Unpeeked(FarState(Peeking(now)))
  {
    FarQueued();
    hide Unpeeked;
    UnpeekedStep(FarState(JitTop), CheckForPeek(now), FarState(Peeking(now)));
  }

  /** A run with a single peek, at any clock of the last 30 ms, that ends in the loss of a packet. */
  lemma PacketIsLost(now: u32) returns (states: seq<State>, actions: seq<Action>)
    requires !ClearOfWrap(now)
    ensures Run(states, actions) && PeeksAt(states, actions, iset{now})
    ensures actions != [] && actions[|actions| - 1] == Dequeue
    ensures states[|actions|].lost == multiset{Ahead()}
  {
    var s3 := FarPeeked(JitTop).(q := EMPTY_QUEUE, lost := multiset{Ahead()});
    assert FarState(Peeking(now)).jit == Peeking(now) && s3.lost == multiset{Ahead()};
    FarPeeking(now);
    FarPeek(now);
    FarCheck(now);
    FarDequeue(now);
    hide Step, Run, PeeksAt, Unpeeked, FarState, FarPeeked, Ahead;
    states, actions := PeeksOnce(FarState(Peeking(now)), FarPeeked(Peeked(1, now, ZERO_NODE, 0)),
      FarPeeked(Taking(1, now, ZERO_NODE, 0)), s3);
  }

  /** No run whose peeks read these clocks loses a packet. */
  ghost predicate LosesNothingAt(clocks: iset<u32>) {
    forall states: seq<State>, actions: seq<Action> ::
      Run(states, actions) && PeeksAt(states, actions, clocks) ==> states[|actions|].lost == multiset{}
  }

  /** Wherever the counters lie, no packet is lost exactly when no peek comes in the last 30 ms before the wrap. */
  lemma LossExactly(clocks: iset<u32>)
    ensures LosesNothingAt(clocks) <==> forall now :: now in clocks ==> ClearOfWrap(now)
  {
    if forall now :: now in clocks ==> ClearOfWrap(now) {
      forall states: seq<State>, actions: seq<Action> | Run(states, actions) && PeeksAt(states, actions, clocks)
        ensures states[|actions|].lost == multiset{}
      {
        assert SafePeeks(states, actions, |actions|);
        NothingLostOrMiscounted(states, actions, |actions|);
      }
    } else {
      var now: u32 :| now in clocks && !ClearOfWrap(now);
      var states, actions := PacketIsLost(now);
      assert PeeksAt(states, actions, clocks);
    }
  }
}
