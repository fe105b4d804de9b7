/** The JIT queue as the forwarder keeps it: an array of nodes changed in place. */
module JitQueues {
  import opened Circle
  import opened Wrappers
  import opened Jit
  import opened JitOrder
  import opened JitPeek
  import opened TimerSync

  class JitQueue {
    var numPkt: nat
    var numBeacon: nat
    const nodes: array<Node>

    ghost predicate Valid()
      reads this, nodes
    {
      nodes.Length == QUEUE_MAX && numPkt <= QUEUE_MAX && numBeacon <= 255
    }

    /** The live part of the queue as a value. */
    ghost function View(): Queue
      requires nodes.Length == QUEUE_MAX && numPkt <= QUEUE_MAX
      reads this, nodes
    {
      Queue(nodes[..numPkt], numBeacon)
    }

    /** jit_queue_init. */
    constructor ()
      ensures Valid() && fresh(nodes) && View() == EMPTY_QUEUE
    {
      numPkt, numBeacon := 0, 0;
      nodes := new Node[QUEUE_MAX](_ => ZERO_NODE);
    }

    method IsFull() returns (full: bool)
      requires Valid()
      ensures full <==> |View().nodes| == QUEUE_MAX
    {
      full := numPkt == QUEUE_MAX;
    }

    method IsEmpty() returns (empty: bool)
      requires Valid()
      ensures empty <==> View().nodes == []
    {
      empty := numPkt == 0;
    }

    /** jit_sort_queue, with an insertion sort in the place of qsort_r. */
    method Sort()
      requires nodes.Length == QUEUE_MAX && numPkt <= QUEUE_MAX
      modifies nodes
      ensures Sorts(old(nodes[..numPkt]), nodes[..numPkt])
      ensures forall k :: numPkt <= k < QUEUE_MAX ==> nodes[k] == old(nodes[k])
    {
      ghost var before := nodes[..numPkt];
      ghost var half := InHalfCircle(before);
      ghost var base: u32 := 0;
      if half {
        base :| HalfFrom(base, before);
      }
      var i := 0;
      while i < numPkt
        invariant 0 <= i <= numPkt
        invariant forall k :: numPkt <= k < QUEUE_MAX ==> nodes[k] == old(nodes[k])
        invariant multiset(nodes[..numPkt]) == multiset(before)
        invariant half ==> HalfFrom(base, nodes[..numPkt]) && KeySorted(base, nodes[..i])
      {
        InsertAt(i, half, base);
        i := i + 1;
      }
      if half {
        AscendingIsKeySorted(base, nodes[..numPkt]);
      }
    }

    /** Moves node i down to its place among the sorted nodes before it. */
    method InsertAt(i: nat, ghost half: bool, ghost base: u32)
      requires nodes.Length == QUEUE_MAX && i < numPkt <= QUEUE_MAX
      requires half ==> HalfFrom(base, nodes[..numPkt]) && KeySorted(base, nodes[..i])
      modifies nodes
      ensures forall k :: numPkt <= k < QUEUE_MAX ==> nodes[k] == old(nodes[k])
      ensures multiset(nodes[..numPkt]) == multiset(old(nodes[..numPkt]))
      ensures half ==> HalfFrom(base, nodes[..numPkt]) && KeySorted(base, nodes[..i + 1])
    {
      ghost var before := nodes[..numPkt];
      assert before[..i] == nodes[..i];
      StartInserting(before, i, half, base);
      var j := i;
      while j > 0 && Compare(nodes[j - 1], nodes[j]) > 0
        invariant 0 <= j <= i
        invariant forall k :: numPkt <= k < QUEUE_MAX ==> nodes[k] == old(nodes[k])
        invariant Inserting(before, nodes[..numPkt], i, j, half, base)
      {
        ghost var s := nodes[..numPkt];
        SwapDown(j);
        SwapStep(before, s, nodes[..numPkt], i, j, half, base);
        j := j - 1;
      }
      InPlace(before, nodes[..numPkt], i, j, half, base);
      assert nodes[..numPkt][..i + 1] == nodes[..i + 1];
    }

    method SwapDown(j: nat)
      requires nodes.Length == QUEUE_MAX && 0 < j < numPkt <= QUEUE_MAX
      modifies nodes
      ensures var s := old(nodes[..numPkt]); nodes[..numPkt] == s[j - 1 := s[j]][j := s[j - 1]]
      ensures forall k :: numPkt <= k < QUEUE_MAX ==> nodes[k] == old(nodes[k])
    {
      nodes[j - 1], nodes[j] := nodes[j], nodes[j - 1];
    }

    /** jit_enqueue: the full check and the insertion are two locked sections. */
    method Enqueue(time: TimeVal, packet: Option<Packet>, kind: PktType, airMs: u32)
      returns (err: JitError, placed: Option<Packet>)
      requires Valid()
      modifies this, nodes
      ensures Valid()
      ensures packet.None? ==> err == Invalid && placed == None && View() == old(View())
      ensures packet.Some? && |old(View()).nodes| == QUEUE_MAX ==>
                err == Full && placed == packet && View() == old(View())
      ensures packet.Some? && |old(View()).nodes| < QUEUE_MAX ==>
                var n := MakeNode(Placed(old(View()).nodes, CounterTime(time), packet.value, kind, airMs), kind, airMs);
                Enqueues(old(View()), CounterTime(time), packet.value, kind, airMs, View(), n, err) &&
                  placed == Some(n.pkt)
    {
      var now := Truncate(time.sec * 1000000 + time.usec);
      if packet.None? {
        return Invalid, None;
      }
      var full := IsFull();
      if full {
        return Full, packet;
      }
      var p;
      err, p := Insert(now, packet.value, kind, airMs);
      placed := Some(p);
    }

    /** The locked section of jit_enqueue. */
    method Insert(now: u32, packet: Packet, kind: PktType, airMs: u32) returns (err: JitError, placed: Packet)
      requires Valid() && numPkt < QUEUE_MAX
      modifies this, nodes
      ensures Valid()
      ensures var n := MakeNode(Placed(old(View()).nodes, now, packet, kind, airMs), kind, airMs);
              Enqueues(old(View()), now, packet, kind, airMs, View(), n, err) && placed == n.pkt
    {
      var pre, post := PreDelay(kind), PostDelay(kind, airMs);
      placed := packet;
      if kind == ClassC {
        var c := FindAsap(now, pre, post);
        placed := placed.(txMode := Timestamped, countUs := c);
      }
      var n := Node(placed, kind, pre, post);
      if Sub(placed.countUs, now) <= TX_START_DELAY + TX_MARGIN_DELAY + TX_JIT_DELAY {
        return TooLate, placed;
      }
      if kind in {ClassA, ClassB} && Sub(placed.countUs, now) > TX_MAX_ADVANCE_DELAY {
        return TooEarly, placed;
      }
      err := FindCollision(n);
      if err != Accepted {
        return;
      }
      Append(n);
    }

    /** Puts n behind the last node and sorts. */
    method Append(n: Node)
      requires Valid() && numPkt < QUEUE_MAX
      modifies this, nodes
      ensures Valid()
      ensures Sorts(old(View()).nodes + [n], View().nodes)
      ensures numBeacon == if n.kind == Beacon then ByteInc(old(numBeacon)) else old(numBeacon)
    {
      PutLast(n);
      Sort();
    }

    method PutLast(n: Node)
      requires nodes.Length == QUEUE_MAX && numPkt < QUEUE_MAX
      modifies this, nodes
      ensures numPkt == old(numPkt) + 1 && nodes[..numPkt] == old(nodes[..numPkt]) + [n]
      ensures numBeacon == if n.kind == Beacon then ByteInc(old(numBeacon)) else old(numBeacon)
    {
      nodes[numPkt] := n;
      if n.kind == Beacon {
        numBeacon := ByteInc(numBeacon);
      }
      numPkt := numPkt + 1;
    }

    /** The departure time search for class C. */
    method FindAsap(now: u32, pre: u32, post: u32) returns (c: u32)
      requires Valid()
      ensures c == AsapCount(nodes[..numPkt], now, pre, post)
    {
      ghost var s := nodes[..numPkt];
      c := Add(now, ASAP_DELAY);
      if numPkt != 0 {
        var i := 0;
        while i < numPkt && !Collide(c, pre, post, nodes[i].pkt.countUs, nodes[i].pre, nodes[i].post)
          invariant 0 <= i <= numPkt
          invariant FirstClash(s, 0, c, pre, post) == FirstClash(s, i, c, pre, post)
        {
          i := i + 1;
        }
        if i != numPkt {
          i := 0;
          ghost var want := Gap(s, 0, pre, post);
          var found := false;
          while i < numPkt && !found
            invariant 0 <= i <= numPkt
            invariant found || i == numPkt ==> c == want
            invariant !found && i < numPkt ==> Gap(s, i, pre, post) == want
            decreases numPkt - i, if found then 0 else 1
          {
            c := After(nodes[i], pre);
            if i != numPkt - 1 &&
               !Collide(c, pre, post, nodes[i + 1].pkt.countUs, nodes[i + 1].pre, nodes[i + 1].post)
            {
              found := true;
            } else {
              i := i + 1;
            }
          }
        }
      }
    }

    /** The collision check against every queued node. */
    method FindCollision(n: Node) returns (err: JitError)
      requires Valid()
      ensures err == FirstCollision(nodes[..numPkt], 0, n)
    {
      ghost var s := nodes[..numPkt];
      for i := 0 to numPkt
        invariant FirstCollision(s, 0, n) == FirstCollision(s, i, n)
      {
        var targetPre := if n.kind in {ClassA, ClassC} && nodes[i].kind == Beacon then TX_START_DELAY else nodes[i].pre;
        if Collide(n.pkt.countUs, n.pre, n.post, nodes[i].pkt.countUs, targetPre, nodes[i].post) {
          return if nodes[i].kind == Beacon then CollisionBeacon else CollisionPacket;
        }
      }
      err := Accepted;
    }

    /**
      jit_dequeue; wanted says that the pointer for the packet is not null. An index behind the live nodes is not
      noticed.
     */
    method Dequeue(index: int, wanted: bool) returns (err: JitError, taken: Option<Node>)
      requires Valid()
      modifies this, nodes
      ensures Valid()
      ensures err == Invalid <==> !wanted || !(0 <= index < QUEUE_MAX)
      ensures wanted && 0 <= index < QUEUE_MAX && old(View()).nodes == [] ==> err == Empty
      ensures err != Accepted ==> taken == None && View() == old(View())
      ensures wanted && 0 <= index < QUEUE_MAX && old(View()).nodes != [] ==>
                err == Accepted && taken == Some(old(nodes[index]))
      ensures err == Accepted ==>
                if index < |old(View()).nodes| then Removes(old(View()), index, View())
                else LosesLast(old(View()), old(nodes[index]), View())
    {
      if !wanted {
        return Invalid, None;
      }
      if index < 0 || index >= QUEUE_MAX {
        return Invalid, None;
      }
      var empty := IsEmpty();
      if empty {
        return Empty, None;
      }
      taken := Some(nodes[index]);
      RemoveAt(index);
      err := Accepted;
    }

    /** Overwrites slot i with the last node, zeroes the last node's slot and sorts. */
    method RemoveAt(i: nat)
      requires Valid() && numPkt > 0 && i < QUEUE_MAX
      modifies this, nodes
      ensures Valid() && numPkt == old(numPkt) - 1
      ensures i < old(numPkt) ==> Removes(old(View()), i, View()) && nodes[numPkt] == ZERO_NODE
      ensures i >= old(numPkt) ==> LosesLast(old(View()), old(nodes[i]), View())
      ensures forall k :: numPkt < k < QUEUE_MAX && k != i ==> nodes[k] == old(nodes[k])
    {
      hide InHalfCircle, Ascending;
      VacateSlot(i);
      Sort();
    }

    /** The removal without the sort. */
    method VacateSlot(i: nat)
      requires Valid() && numPkt > 0 && i < QUEUE_MAX
      modifies this, nodes
      ensures Valid() && numPkt == old(numPkt) - 1 && numBeacon == BeaconsWithout(old(View()), old(nodes[i]))
      ensures i < old(numPkt) ==> nodes[..numPkt] == SwapOut(old(View()).nodes, i) && nodes[numPkt] == ZERO_NODE
      ensures i >= old(numPkt) ==> nodes[..numPkt] == old(View()).nodes[..numPkt]
      ensures forall k :: numPkt < k < QUEUE_MAX && k != i ==> nodes[k] == old(nodes[k])
    {
      if nodes[i].kind == Beacon {
        numBeacon := ByteDec(numBeacon);
      }
      numPkt := numPkt - 1;
      nodes[i] := nodes[numPkt];
      nodes[numPkt] := ZERO_NODE;
    }

    /** jit_peek; an absent time is the null pointer, and wanted says that the pointer for the index is not null. */
    method Peek(time: Option<TimeVal>, wanted: bool) returns (err: JitError, idx: int)
      requires Valid()
      modifies this, nodes
      ensures Valid()
      ensures err == Invalid <==> time.None? || !wanted
      ensures time.Some? && wanted && old(View()).nodes == [] ==> err == Empty
      ensures err != Accepted ==> View() == old(View())
      ensures time.Some? && wanted && old(View()).nodes != [] ==>
                err == Accepted && Peeks(old(View()), CounterTime(time.value), View(), idx)
    {
      idx := -1;
      if time.None? || !wanted {
        return Invalid, idx;
      }
      var empty := IsEmpty();
      if empty {
        return Empty, idx;
      }
      var now := Truncate(time.value.sec * 1000000 + time.value.usec);
      var best := Scan(now);
      // A best index of -1 reads outside the array in the original; both branches then hand out -1.
      if best >= 0 && Sub(nodes[best].pkt.countUs, now) < TX_JIT_DELAY {
        idx := best;
      }
      err := Accepted;
    }

    /** The scanning loop; slots vacated on the way read as zero. */
    method Scan(now: u32) returns (best: int)
      requires Valid()
      modifies this, nodes
      ensures Valid()
      ensures Scans(old(View()), 0, -1, now, View(), best)
      ensures -1 <= best < QUEUE_MAX && (best >= 0 ==> nodes[best] == Slot(nodes[..numPkt], best))
    {
      ghost var start := View();
      ghost var top := numPkt;
      var i := 0;
      best := -1;
      while i < numPkt
        invariant Valid() && numPkt <= top && 0 <= i
        invariant forall k :: numPkt <= k < top ==> nodes[k] == ZERO_NODE
        invariant -1 <= best < top
        invariant forall q', r :: Scans(View(), i, best, now, q', r) ==> Scans(start, 0, -1, now, q', r)
        decreases numPkt, numPkt - i
      {
        ghost var q := View();
        if Sub(nodes[i].pkt.countUs, now) >= TX_MAX_ADVANCE_DELAY {
          RemoveAt(i);
          PurgeStepScans(start, q, i, best, now, View());
          i := 1;
        } else {
          if best < 0 || Sub(nodes[i].pkt.countUs, now) < Sub(nodes[best].pkt.countUs, now) {
            best := i;
          }
          i := i + 1;
        }
      }
      assert Scans(View(), i, best, now, View(), best);
    }
  }

  // ---------- steps of the loops above ----------

  lemma PurgeStepScans(start: Queue, q: Queue, i: nat, best: int, now: u32, p: Queue)
    requires i < |q.nodes| && Stale(q.nodes[i], now) && Removes(q, i, p)
    requires forall q', r :: Scans(q, i, best, now, q', r) ==> Scans(start, 0, -1, now, q', r)
    ensures forall q', r :: Scans(p, 1, best, now, q', r) ==> Scans(start, 0, -1, now, q', r)
  {
    forall q', r | Scans(p, 1, best, now, q', r) ensures Scans(start, 0, -1, now, q', r) {
      assert Purged(q, i, p);
      assert PurgesAndScans(q, i, best, now, q', r);
      assert Scans(q, i, best, now, q', r);
    }
  }

  lemma CompareKeys(base: u32, s: seq<Node>, i: nat, j: nat)
    requires i < |s| && j < |s| && HalfFrom(base, s)
    ensures Compare(s[i], s[j]) == Key(base, s[i]) - Key(base, s[j])
  {
    SignedSubOnHalf(base, s[i].pkt.countUs, s[j].pkt.countUs);
  }

  /** Sorted, except that node j may still have to move down. */
  ghost predicate SortedBut(base: u32, s: seq<Node>, j: nat) {
    forall k, l :: 0 <= k < l < |s| && l != j ==> Key(base, s[k]) <= Key(base, s[l])
  }

  ghost predicate Inserting(before: seq<Node>, s: seq<Node>, i: nat, j: nat, half: bool, base: u32)
    requires i < |s|
  {
    multiset(s) == multiset(before) && (half ==> HalfFrom(base, s) && SortedBut(base, s[..i + 1], j))
  }

  lemma StartInserting(s: seq<Node>, i: nat, half: bool, base: u32)
    requires i < |s| && (half ==> HalfFrom(base, s) && KeySorted(base, s[..i]))
    ensures Inserting(s, s, i, i, half, base)
  {
    if half {
      var u := s[..i + 1];
      forall k, l | 0 <= k < l < |u| && l != i ensures Key(base, u[k]) <= Key(base, u[l]) {
        assert s[..i][k] == u[k] && s[..i][l] == u[l];
      }
    }
  }

  lemma InPlace(before: seq<Node>, s: seq<Node>, i: nat, j: nat, half: bool, base: u32)
    requires j <= i < |s| && Inserting(before, s, i, j, half, base)
    requires j > 0 ==> Compare(s[j - 1], s[j]) <= 0
    ensures half ==> KeySorted(base, s[..i + 1])
  {
    if half && j > 0 {
      CompareKeys(base, s, j - 1, j);
      var u := s[..i + 1];
      forall k | 0 <= k < j ensures Key(base, u[k]) <= Key(base, u[j]) {
        assert k < j - 1 ==> Key(base, u[k]) <= Key(base, u[j - 1]);
      }
    }
  }

  lemma SwapStep(before: seq<Node>, s: seq<Node>, t: seq<Node>, i: nat, j: nat, half: bool, base: u32)
    requires 0 < j <= i < |s| && t == s[j - 1 := s[j]][j := s[j - 1]]
    requires Inserting(before, s, i, j, half, base) && Compare(s[j - 1], s[j]) > 0
    ensures Inserting(before, t, i, j - 1, half, base)
  {
    assert multiset(t) == multiset(s);
    if half {
      CompareKeys(base, s, j - 1, j);
      var u, v := s[..i + 1], t[..i + 1];
      forall k, l | 0 <= k < l < |v| && l != j - 1 ensures Key(base, v[k]) <= Key(base, v[l]) {
        if l == j {
          assert v[l] == u[j - 1];
          if k < j - 1 {
            assert v[k] == u[k];
          }
        } else {
          assert v[l] == u[l];
          assert v[k] == u[if k == j then j - 1 else if k == j - 1 then j else k];
        }
      }
    }
  }
}
