/**
  Times on air. What is reserved for a packet is told here from its kind and its time on air alone, in microseconds
  written out, and compared with what the queue accepts and holds.
 */
module JitAir {
  import opened Circle
  import opened Jit
  import opened JitArcs
  import opened JitThreads

  /** A packet as it was queued, and the milliseconds for which it will be on the air. */
  datatype Sending = Sending(pkt: Packet, kind: PktType, airMs: u32)

  /** How long it lasts from its departure on; a beacon has its slot reserved. */
  function Lasts(x: Sending): int {
    if x.kind == Beacon then 2120000 else 1000 * x.airMs
  }

  /** How much before its departure it needs: 1.5 ms to start, 30 ms to be picked up, and 3 s to guard a beacon. */
  function Lead(kind: PktType): int {
    if kind == Beacon then 3031500 else 31500
  }

  /** Towards class A and C a queued beacon waives its guard. */
  function LeadTowards(kind: PktType, other: PktType): int {
    if kind == Beacon && other in {ClassA, ClassC} then 1500 else Lead(kind)
  }

  /** It is not so long that 32 bits are too few. */
  predicate Bearable(x: Sending) { Lasts(x) <= MAX_POST }

  function NodeOf(x: Sending): Node { MakeNode(x.pkt, x.kind, x.airMs) }

  lemma NodeLasts(x: Sending)
    requires Lasts(x) < TWO32
    ensures NodeOf(x).post == Lasts(x) && NodeOf(x).pre == Lead(x.kind)
    ensures NodeOf(x).pkt == x.pkt && NodeOf(x).kind == x.kind
  {
  }

  // ---------- one insertion ----------

  /** x, offered, comes within a millisecond of y, which is queued. */
  ghost predicate Disturbs(x: Sending, y: Sending) {
    WindowsMeet(x.pkt.countUs, Lead(x.kind), Lasts(x), y.pkt.countUs, LeadTowards(y.kind, x.kind), Lasts(y))
  }

  lemma ClashesExactly(x: Sending, y: Sending)
    requires Bearable(x) && Bearable(y)
    ensures Clashes(NodeOf(x), NodeOf(y)) <==> Disturbs(x, y)
  {
    NodeLasts(x);
    NodeLasts(y);
    CollideMeansMeeting(x.pkt.countUs, Lead(x.kind), Lasts(x), y.pkt.countUs, LeadTowards(y.kind, x.kind), Lasts(y));
  }

  /** The queue s was built from these packets. */
  ghost predicate Holds(s: seq<Node>, xs: seq<Sending>) {
    |s| == |xs| && forall k :: 0 <= k < |s| ==> s[k] == NodeOf(xs[k]) && Bearable(xs[k])
  }

  /** xs[k] is the first of xs, from i on, that x disturbs. */
  ghost predicate FirstDisturbed(x: Sending, xs: seq<Sending>, i: nat, k: int) {
    i <= k < |xs| && Disturbs(x, xs[k]) && forall j :: i <= j < k ==> !Disturbs(x, xs[j])
  }

  ghost predicate DisturbsNone(x: Sending, xs: seq<Sending>, i: nat) {
    forall k :: i <= k < |xs| ==> !Disturbs(x, xs[k])
  }

  lemma {:induction false} CollisionsExactly(s: seq<Node>, xs: seq<Sending>, i: nat, x: Sending)
    requires Holds(s, xs) && Bearable(x) && i <= |s|
    ensures FirstCollision(s, i, NodeOf(x)) == Accepted <==> DisturbsNone(x, xs, i)
    ensures FirstCollision(s, i, NodeOf(x)) == CollisionBeacon <==>
            exists k :: FirstDisturbed(x, xs, i, k) && xs[k].kind == Beacon
    ensures FirstCollision(s, i, NodeOf(x)) == CollisionPacket <==>
            exists k :: FirstDisturbed(x, xs, i, k) && xs[k].kind != Beacon
    decreases |s| - i
  {
    hide Disturbs, Clashes, MakeNode, Bearable;
    if i < |s| {
      ClashesExactly(x, xs[i]);
      NodeKind(xs[i]);
      if Disturbs(x, xs[i]) {
        assert FirstDisturbed(x, xs, i, i);
      } else {
        CollisionsExactly(s, xs, i + 1, x);
        assert forall k :: FirstDisturbed(x, xs, i, k) <==> FirstDisturbed(x, xs, i + 1, k);
      }
    }
  }

  lemma NodeKind(x: Sending)
    ensures NodeOf(x).kind == x.kind
  {
  }

  /** The departure lies far enough ahead, and for class A and B not too far. */
  predicate Timely(x: Sending, now: u32) {
    32500 < Sub(x.pkt.countUs, now) && (x.kind in {ClassA, ClassB} ==> Sub(x.pkt.countUs, now) <= 512000000)
  }

  /**
    The verdict on a packet, exactly: too late, too early, accepted when it disturbs nothing that is queued, or refused
    for the first packet it disturbs, by the kind of that one.
   */
  lemma VerdictExactly(s: seq<Node>, xs: seq<Sending>, now: u32, x: Sending)
    requires Holds(s, xs) && Bearable(x)
    ensures var v, ahead := Verdict(s, now, NodeOf(x)), Sub(x.pkt.countUs, now);
            && (v == TooLate <==> ahead <= 32500)
            && (v == TooEarly <==> ahead > 512000000 && x.kind in {ClassA, ClassB})
            && (v == Accepted <==> Timely(x, now) && forall k :: 0 <= k < |xs| ==> !Disturbs(x, xs[k]))
            && (v == CollisionBeacon <==>
                  Timely(x, now) && exists k :: FirstDisturbed(x, xs, 0, k) && xs[k].kind == Beacon)
            && (v == CollisionPacket <==>
                  Timely(x, now) && exists k :: FirstDisturbed(x, xs, 0, k) && xs[k].kind != Beacon)
  {
    CollisionsExactly(s, xs, 0, x);
    FirstCollisionIsCollision(s, 0, NodeOf(x));
    hide FirstCollision, Disturbs, FirstDisturbed;
  }

  lemma FirstCollisionIsCollision(s: seq<Node>, i: nat, n: Node)
    requires i <= |s|
    ensures FirstCollision(s, i, n) in {Accepted, CollisionPacket, CollisionBeacon}
    decreases |s| - i
  {
  }

  /** A packet that departs while a queued one is on the air, or is on the air when that one departs, is refused. */
  lemma RefusedOnAir(s: seq<Node>, xs: seq<Sending>, now: u32, x: Sending, k: nat)
    requires Holds(s, xs) && Bearable(x) && k < |xs|
    requires var c, d := x.pkt.countUs, xs[k].pkt.countUs; Sub(c, d) <= Lasts(xs[k]) || Sub(d, c) <= Lasts(x)
    ensures Verdict(s, now, NodeOf(x)) != Accepted
  {
    var c, d := x.pkt.countUs, xs[k].pkt.countUs;
    VerdictExactly(s, xs, now, x);
    var p := if Sub(c, d) <= Lasts(xs[k]) then c else d;
    assert InWindow(p, c, Lead(x.kind), Lasts(x)) && InWindow(p, d, LeadTowards(xs[k].kind, x.kind), Lasts(xs[k]));
    assert Near(p, p);
    assert Disturbs(x, xs[k]);
  }

  /**
    The two bounds on the advance overlap in one point: class A and B are accepted up to 512 s ahead, and a peek at the
    same clock drops what is 512 s ahead.
   */
  lemma AcceptedIsOutdatedExactly(s: seq<Node>, xs: seq<Sending>, now: u32, x: Sending)
    requires Holds(s, xs) && Bearable(x) && Verdict(s, now, NodeOf(x)) == Accepted && x.kind in {ClassA, ClassB}
    ensures Stale(NodeOf(x), now) <==> Sub(x.pkt.countUs, now) == 512000000
  {
    VerdictExactly(s, xs, now, x);
  }

  // ---------- whole runs ----------

  /** What is queued for an offer at some clock: the packet itself, but class C is given a departure and a mode. */
  ghost predicate Queued(x: Sending, p: Packet, kind: PktType, airMs: u32) {
    && x.kind == kind && x.airMs == airMs && x.pkt.body == p.body
    && if kind == ClassC then x.pkt.txMode == Timestamped else x.pkt == p
  }

  /** Step i of the run accepts n, which the downlink thread has offered as x. */
  ghost predicate Accepts(states: seq<State>, actions: seq<Action>, i: nat, n: Node, x: Sending) {
    && i < |actions| && i + 1 < |states|
    && (match actions[i]
        case InsertBeacon => states[i].down.BeaconCleared? && Queued(x, states[i].down.pkt, Beacon, 0)
        case InsertPacket =>
          states[i].down.PacketCleared? && Queued(x, states[i].down.pkt, states[i].down.kind, states[i].down.airMs)
        case _ => false)
    && n.pkt == x.pkt && n.kind == x.kind
    && states[i + 1].accepted == states[i].accepted + multiset{n}
  }

  lemma InsertOffers(s: State, now: u32, p: Packet, kind: PktType, airMs: u32, s': State)
    requires Inserts(s, now, p, kind, airMs, s')
    ensures var n := Offered(s.q, now, p, kind, airMs);
            s'.accepted == s.accepted || s'.accepted == s.accepted + multiset{n}
    ensures var n := Offered(s.q, now, p, kind, airMs);
            n == NodeOf(Sending(n.pkt, kind, airMs)) && Queued(Sending(n.pkt, kind, airMs), p, kind, airMs)
  {
  }

  lemma OneAdded(m: multiset<Node>, a: Node, b: Node)
    ensures m + multiset{a} != m
    ensures m + multiset{a} == m + multiset{b} ==> a == b
  {
    SameAddition(m, a, b);
    assert (m + multiset{a})[a] == m[a] + 1;
  }

  /** A step that accepts n accepts what its packet and time on air make. */
  lemma AcceptsItsNode(states: seq<State>, actions: seq<Action>, i: nat, n: Node, x: Sending)
    requires Run(states, actions) && Accepts(states, actions, i, n, x)
    ensures n == NodeOf(x)
  {
    var s, s' := states[i], states[i + 1];
    assert Step(s, actions[i], s');
    var kind, airMs := x.kind, x.airMs;
    var m := Offered(s.q, s.down.now, s.down.pkt, kind, airMs);
    InsertOffers(s, s.down.now, s.down.pkt, kind, airMs, s');
    OneAdded(s.accepted, n, m);
  }

  lemma ControlAcceptsNothing(s: State, a: Action, s': State)
    requires Step(s, a, s') && a != InsertBeacon && a != InsertPacket
    ensures s'.accepted == s.accepted
  {
  }

  /** Every accepted packet was offered, and accepted then. */
  lemma {:induction false} AcceptedWasOffered(states: seq<State>, actions: seq<Action>, i: nat, n: Node)
    returns (j: nat, x: Sending)
    requires Run(states, actions) && i < |states| && n in states[i].accepted
    ensures j < i && Accepts(states, actions, j, n, x)
  {
    if n in states[i - 1].accepted {
      j, x := AcceptedWasOffered(states, actions, i - 1, n);
    } else {
      j := i - 1;
      x := AddedByStep(states, actions, j, n);
    }
  }

  lemma AddedByStep(states: seq<State>, actions: seq<Action>, i: nat, n: Node) returns (x: Sending)
    requires Run(states, actions) && i < |actions| && n in states[i + 1].accepted && n !in states[i].accepted
    ensures Accepts(states, actions, i, n, x)
  {
    var s, s' := states[i], states[i + 1];
    assert Step(s, actions[i], s');
    x := Sending(n.pkt, n.kind, 0);
    match actions[i]
    case InsertBeacon =>
      InsertOffers(s, s.down.now, s.down.pkt, Beacon, 0, s');
      x := Sending(n.pkt, Beacon, 0);
    case InsertPacket =>
      InsertOffers(s, s.down.now, s.down.pkt, s.down.kind, s.down.airMs, s');
      x := Sending(n.pkt, s.down.kind, s.down.airMs);
    case a =>
      ControlAcceptsNothing(s, a, s');
      assert false;
  }

  /** Every packet in the queue was offered by the downlink thread, and accepted then. */
  lemma QueuedWasOffered(states: seq<State>, actions: seq<Action>, i: nat, k: nat) returns (j: nat, x: Sending)
    requires Run(states, actions) && i < |states| && k < |states[i].q.nodes|
    ensures j < i && Accepts(states, actions, j, states[i].q.nodes[k], x)
  {
    RunKeepsInv(states, actions, i);
    var s := states[i];
    assert s.q.nodes[k] in multiset(s.q.nodes);
    assert s.q.nodes[k] in s.accepted;
    j, x := AcceptedWasOffered(states, actions, i, s.q.nodes[k]);
  }

  /** At p the packet is on the air. */
  predicate OnAir(p: u32, x: Sending) { Sub(p, x.pkt.countUs) <= Lasts(x) }

  /**
    In every reachable state: what two queued packets need of the time, from their lead to the end of their
    transmissions as they were offered, is more than a millisecond apart; so they are never on the air together.
   */
  lemma TransmissionsAreApart(states: seq<State>, actions: seq<Action>, i: nat, a: nat, b: nat,
                              j: nat, x: Sending, k: nat, y: Sending)
    requires Run(states, actions) && i < |states| && Lasts(x) < TWO32 && Lasts(y) < TWO32
    requires a < |states[i].q.nodes| && b < |states[i].q.nodes| && a != b
    requires Accepts(states, actions, j, states[i].q.nodes[a], x)
    requires Accepts(states, actions, k, states[i].q.nodes[b], y)
    ensures !WindowsMeet(x.pkt.countUs, LeadTowards(x.kind, y.kind), Lasts(x),
                         y.pkt.countUs, LeadTowards(y.kind, x.kind), Lasts(y))
    ensures forall p: u32 :: !(OnAir(p, x) && OnAir(p, y))
  {
    var m, n := states[i].q.nodes[a], states[i].q.nodes[b];
    QueuedArcsAreApart(states, actions, i, a, b);
    AcceptsItsNode(states, actions, j, m, x);
    AcceptsItsNode(states, actions, k, n, y);
    NodeLasts(x);
    NodeLasts(y);
    hide Run, Accepts, MakeNode;
    ApartOnAir(m, n, x, y);
  }

  lemma ApartOnAir(m: Node, n: Node, x: Sending, y: Sending)
    requires ArcsApart(m, n) && m.pkt == x.pkt && m.kind == x.kind && m.pre == Lead(x.kind) && m.post == Lasts(x)
    requires n.pkt == y.pkt && n.kind == y.kind && n.pre == Lead(y.kind) && n.post == Lasts(y)
    ensures !WindowsMeet(x.pkt.countUs, LeadTowards(x.kind, y.kind), Lasts(x),
                         y.pkt.countUs, LeadTowards(y.kind, x.kind), Lasts(y))
    ensures forall p: u32 :: !(OnAir(p, x) && OnAir(p, y))
  {
    forall p: u32, q: u32 | InWindow(p, x.pkt.countUs, LeadTowards(x.kind, y.kind), Lasts(x)) &&
                            InWindow(q, y.pkt.countUs, LeadTowards(y.kind, x.kind), Lasts(y))
      ensures !Near(p, q)
    {
      assert InArc(p, m, n) && InArc(q, n, m);
    }
    forall p: u32 ensures !(OnAir(p, x) && OnAir(p, y)) {
      assert Near(p, p);
    }
  }

  /** No packet accepted in the run is too long for 32 bits. */
  ghost predicate AllBearable(states: seq<State>, actions: seq<Action>) {
    forall j: nat, n: Node, x: Sending :: Accepts(states, actions, j, n, x) ==> Bearable(x)
  }

  ghost predicate AcceptedBefore(states: seq<State>, actions: seq<Action>, i: nat, n: Node, x: Sending) {
    exists j: nat :: j < i && Accepts(states, actions, j, n, x)
  }

  /** In every reachable state the queue holds packets as they were offered, so VerdictExactly is about every offer. */
  lemma QueueHoldsOffers(states: seq<State>, actions: seq<Action>, i: nat) returns (xs: seq<Sending>)
    requires Run(states, actions) && i < |states| && AllBearable(states, actions)
    ensures Holds(states[i].q.nodes, xs)
    ensures forall k :: 0 <= k < |xs| ==> AcceptedBefore(states, actions, i, states[i].q.nodes[k], xs[k])
  {
    var s := states[i].q.nodes;
    hide Run, Accepts, MakeNode, Bearable;
    xs := [];
    while |xs| < |s|
      invariant |xs| <= |s|
      invariant forall k :: 0 <= k < |xs| ==> s[k] == NodeOf(xs[k]) && Bearable(xs[k])
      invariant forall k :: 0 <= k < |xs| ==> AcceptedBefore(states, actions, i, s[k], xs[k])
    {
      var j, x := QueuedWasOffered(states, actions, i, |xs|);
      AcceptsItsNode(states, actions, j, s[|xs|], x);
      xs := xs + [x];
    }
  }
}
