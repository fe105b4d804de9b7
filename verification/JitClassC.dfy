/** The ASAP search for class C packets always ends in a slot that the later checks accept. */
module JitClassC {
  import opened Circle
  import opened Jit
  import opened JitOrder
  import opened JitArcs

  /** Distance from a queued node's departure to the slot tried after it, beyond its post delay. */
  const GAP: int := DOWNLINK_PRE_DELAY + TX_JIT_DELAY + TX_MARGIN_DELAY

  /**
    The node lies ahead of now, in the near half of the circle, and a transmission of length post placed after it
    ends before the counter comes round to the guards ahead of now.
   */
  ghost predicate AheadOf(now: u32, n: Node, post: u32) {
    && InHalfFrom(now, n.pkt.countUs)
    && Key(now, n) + n.post + GAP + post + BEACON_PRE_DELAY + TX_MARGIN_DELAY < TWO32
  }

  ghost predicate Window(now: u32, s: seq<Node>, post: u32) {
    forall i :: 0 <= i < |s| ==> AheadOf(now, s[i], post)
  }

  ghost predicate Fits(s: seq<Node>, c: u32, post: u32) {
    forall k :: 0 <= k < |s| ==>
                  !Collide(c, DOWNLINK_PRE_DELAY, post, s[k].pkt.countUs, TargetPre(ClassC, s[k]), s[k].post)
  }

  lemma {:induction false} FirstClashMeaning(s: seq<Node>, i: nat, c: u32, pre: u32, post: u32)
    requires i <= |s|
    ensures i <= FirstClash(s, i, c, pre, post) <= |s|
    ensures forall k :: i <= k < FirstClash(s, i, c, pre, post) ==>
                          !Collide(c, pre, post, s[k].pkt.countUs, s[k].pre, s[k].post)
    ensures var k := FirstClash(s, i, c, pre, post);
            k < |s| ==> Collide(c, pre, post, s[k].pkt.countUs, s[k].pre, s[k].post)
    decreases |s| - i
  {
    if i < |s| && !Collide(c, pre, post, s[i].pkt.countUs, s[i].pre, s[i].post) {
      FirstClashMeaning(s, i + 1, c, pre, post);
    }
  }

  /** Ignoring the beacon guard only removes collisions. */
  lemma RelaxedFits(n: Node, c: u32, post: u32)
    requires WellMade(n) && post <= MAX_POST
    requires !Collide(c, DOWNLINK_PRE_DELAY, post, n.pkt.countUs, n.pre, n.post)
    ensures !Collide(c, DOWNLINK_PRE_DELAY, post, n.pkt.countUs, TargetPre(ClassC, n), n.post)
  {
  }

  lemma AfterOffset(now: u32, n: Node, post: u32)
    requires WellMade(n) && AheadOf(now, n, post)
    ensures Sub(After(n, DOWNLINK_PRE_DELAY), now) == Key(now, n) + n.post + GAP
  {
  }

  /** In a sorted window of apart nodes the earlier of two ends before the later one's guard begins. */
  lemma OffsetsApart(now: u32, s: seq<Node>, i: nat, j: nat, post: u32)
    requires i < j < |s| && Window(now, s, post) && KeySorted(now, s) && AllWellMade(s) && AllApart(s)
    ensures Key(now, s[i]) + s[i].post + GuardAgainst(s[j], s[i]) + TX_MARGIN_DELAY < Key(now, s[j])
  {
    assert Apart(s[i], s[j]);
    assert WellMade(s[i]) && WellMade(s[j]);
    assert Key(now, s[i]) <= Key(now, s[j]);
  }

  /** The slot after node i misses node i and everything before it. */
  lemma SlotMissesEarlier(now: u32, s: seq<Node>, k: nat, i: nat, post: u32)
    requires k <= i < |s|
    requires Window(now, s, post) && KeySorted(now, s) && AllWellMade(s) && AllApart(s)
    ensures var c := After(s[i], DOWNLINK_PRE_DELAY);
            !Collide(c, DOWNLINK_PRE_DELAY, post, s[k].pkt.countUs, s[k].pre, s[k].post)
  {
    var c := After(s[i], DOWNLINK_PRE_DELAY);
    AfterOffset(now, s[i], post);
    if k < i {
      OffsetsApart(now, s, k, i, post);
    }
    ClearAhead(now, s[k], c, post);
  }

  /** A slot far enough after n, in offsets from now, does not collide with it. */
  lemma ClearAhead(now: u32, n: Node, c: u32, post: u32)
    requires WellMade(n) && InHalfFrom(now, n.pkt.countUs)
    requires Key(now, n) + n.post + DOWNLINK_PRE_DELAY + TX_MARGIN_DELAY < Sub(c, now)
    requires Sub(c, now) + post + BEACON_PRE_DELAY + TX_MARGIN_DELAY < TWO32
    ensures !Collide(c, DOWNLINK_PRE_DELAY, post, n.pkt.countUs, n.pre, n.post)
  {
    assert Sub(c, n.pkt.countUs) == Sub(c, now) - Key(now, n);
  }

  /** A slot that ends before the given guard of n begins does not collide with it. */
  lemma ClearBehind(now: u32, n: Node, c: u32, post: u32, guard: u32)
    requires guard <= BEACON_PRE_DELAY && AheadOf(now, n, post)
    requires Sub(c, now) + post + guard + TX_MARGIN_DELAY < Key(now, n)
    ensures !Collide(c, DOWNLINK_PRE_DELAY, post, n.pkt.countUs, guard, n.post)
  {
    assert Sub(n.pkt.countUs, c) == Key(now, n) - Sub(c, now);
  }

  /** A slot that misses node i + 1 ends before the guard of node i + 1 begins. */
  lemma SlotEndsBeforeNext(now: u32, s: seq<Node>, i: nat, post: u32)
    requires i + 1 < |s|
    requires Window(now, s, post) && KeySorted(now, s) && AllWellMade(s) && AllApart(s)
    requires var c := After(s[i], DOWNLINK_PRE_DELAY);
             !Collide(c, DOWNLINK_PRE_DELAY, post, s[i + 1].pkt.countUs, s[i + 1].pre, s[i + 1].post)
    ensures Sub(After(s[i], DOWNLINK_PRE_DELAY), now) + post + s[i + 1].pre + TX_MARGIN_DELAY < Key(now, s[i + 1])
  {
    AfterOffset(now, s[i], post);
    OffsetsApart(now, s, i, i + 1, post);
    assert WellMade(s[i + 1]);
  }

  lemma SlotMissesLater(now: u32, s: seq<Node>, i: nat, k: nat, post: u32)
    requires i + 1 < k < |s|
    requires Window(now, s, post) && KeySorted(now, s) && AllWellMade(s) && AllApart(s)
    requires var c := After(s[i], DOWNLINK_PRE_DELAY);
             !Collide(c, DOWNLINK_PRE_DELAY, post, s[i + 1].pkt.countUs, s[i + 1].pre, s[i + 1].post)
    ensures var c := After(s[i], DOWNLINK_PRE_DELAY);
            !Collide(c, DOWNLINK_PRE_DELAY, post, s[k].pkt.countUs, TargetPre(ClassC, s[k]), s[k].post)
  {
    SlotEndsBeforeNext(now, s, i, post);
    OffsetsApart(now, s, i + 1, k, post);
    assert WellMade(s[i + 1]) && WellMade(s[k]) && AheadOf(now, s[k], post);
    ClearBehind(now, s[k], After(s[i], DOWNLINK_PRE_DELAY), post, TargetPre(ClassC, s[k]));
  }

  /** The slot found between two neighbours, or after the last node, fits the whole queue. */
  lemma {:induction false} GapFits(now: u32, s: seq<Node>, i: nat, post: u32)
    requires i < |s|
    requires Window(now, s, post) && KeySorted(now, s) && AllWellMade(s) && AllApart(s)
    ensures Fits(s, Gap(s, i, DOWNLINK_PRE_DELAY, post), post)
    ensures Sub(Gap(s, i, DOWNLINK_PRE_DELAY, post), now) >= GAP
    decreases |s| - i
  {
    var c := After(s[i], DOWNLINK_PRE_DELAY);
    AfterOffset(now, s[i], post);
    if i < |s| - 1 && Collide(c, DOWNLINK_PRE_DELAY, post, s[i + 1].pkt.countUs, s[i + 1].pre, s[i + 1].post) {
      GapFits(now, s, i + 1, post);
    } else {
      forall k | 0 <= k < |s|
        ensures !Collide(c, DOWNLINK_PRE_DELAY, post, s[k].pkt.countUs, TargetPre(ClassC, s[k]), s[k].post)
      {
        if k <= i {
          SlotMissesEarlier(now, s, k, i, post);
          RelaxedFits(s[k], c, post);
        } else if k == i + 1 {
          RelaxedFits(s[k], c, post);
        } else {
          SlotMissesLater(now, s, i, k, post);
        }
      }
    }
  }

  lemma AsapFits(now: u32, s: seq<Node>, post: u32)
    requires now + ASAP_DELAY < TWO32
    requires Window(now, s, post) && KeySorted(now, s) && AllWellMade(s) && AllApart(s)
    ensures Fits(s, AsapCount(s, now, DOWNLINK_PRE_DELAY, post), post)
    ensures Sub(AsapCount(s, now, DOWNLINK_PRE_DELAY, post), now) >= GAP
  {
    var c := Add(now, ASAP_DELAY);
    FirstClashMeaning(s, 0, c, DOWNLINK_PRE_DELAY, post);
    if FirstClash(s, 0, c, DOWNLINK_PRE_DELAY, post) == |s| {
      forall k | 0 <= k < |s|
        ensures !Collide(c, DOWNLINK_PRE_DELAY, post, s[k].pkt.countUs, TargetPre(ClassC, s[k]), s[k].post)
      {
        RelaxedFits(s[k], c, post);
      }
    } else {
      GapFits(now, s, 0, post);
    }
  }

  /**
    A class C packet offered to an ascending queue of apart packets, all ahead of now with room to spare,
    is accepted, whatever the queue holds.
   */
  lemma ClassCIsAccepted(q: Queue, now: u32, p: Packet, airMs: u32, q': Queue, n: Node, err: JitError)
    requires Enqueues(q, now, p, ClassC, airMs, q', n, err)
    requires now + ASAP_DELAY < TWO32
    requires Window(now, q.nodes, PostDelay(ClassC, airMs))
    requires Ascending(q.nodes) && AllWellMade(q.nodes) && AllApart(q.nodes)
    ensures err == Accepted
  {
    var s, post := q.nodes, PostDelay(ClassC, airMs);
    assert HalfFrom(now, s);
    AscendingIsKeySorted(now, s);
    AsapFits(now, s, post);
    FirstCollisionMeaning(s, 0, n);
    assert forall k :: 0 <= k < |s| ==> !Clashes(n, s[k]);
  }

  // ---------- which slot it is ----------

  /** A packet of duration d at c, with its lead of 31.5 ms, comes within a millisecond of n and its guard. */
  ghost predicate Blocked(c: u32, d: int, n: Node) {
    WindowsMeet(c, 31500, d, n.pkt.countUs, n.pre, n.post)
  }

  /** The slot behind n leaves 62.5 ms from its end. */
  function Behind(n: Node): u32 {
    Truncate(n.pkt.countUs + n.post + 62500)
  }

  lemma BehindIsAfter(n: Node)
    ensures Behind(n) == After(n, DOWNLINK_PRE_DELAY)
  {
  }

  lemma BlockedExactly(c: u32, d: u32, n: Node)
    requires WellMade(n) && d <= MAX_POST
    ensures Blocked(c, d, n) <==> Collide(c, DOWNLINK_PRE_DELAY, d, n.pkt.countUs, n.pre, n.post)
  {
    CollideMeansMeeting(c, DOWNLINK_PRE_DELAY, d, n.pkt.countUs, n.pre, n.post);
  }

  /**
    c is the slot behind node i: the first, from node l on, that the next node does not block, or the one behind the
    last node.
   */
  ghost predicate FirstSlot(s: seq<Node>, l: nat, i: int, c: u32, d: int) {
    && l <= i < |s| && c == Behind(s[i])
    && (i + 1 < |s| ==> !Blocked(c, d, s[i + 1]))
    && forall j :: l <= j < i ==> Blocked(Behind(s[j]), d, s[j + 1])
  }

  lemma {:induction false} GapIsFirstSlot(s: seq<Node>, l: nat, d: u32) returns (i: nat)
    requires l < |s| && AllWellMade(s) && d <= MAX_POST
    ensures FirstSlot(s, l, i, Gap(s, l, DOWNLINK_PRE_DELAY, d), d)
    decreases |s| - l
  {
    hide Blocked, Collide;
    BehindIsAfter(s[l]);
    i := l;
    if l + 1 < |s| {
      BlockedExactly(Behind(s[l]), d, s[l + 1]);
      if Blocked(Behind(s[l]), d, s[l + 1]) {
        i := GapIsFirstSlot(s, l + 1, d);
      }
    }
  }

  /** A packet of duration d at c is blocked by no queued node. */
  ghost predicate Unblocked(s: seq<Node>, c: u32, d: int) {
    forall k :: 0 <= k < |s| ==> !Blocked(c, d, s[k])
  }

  lemma UnblockedExactly(s: seq<Node>, c: u32, d: u32)
    requires AllWellMade(s) && d <= MAX_POST
    ensures Unblocked(s, c, d) <==> FirstClash(s, 0, c, DOWNLINK_PRE_DELAY, d) == |s|
  {
    FirstClashMeaning(s, 0, c, DOWNLINK_PRE_DELAY, d);
    hide Blocked, Collide, WellMade, FirstClash;
    forall k | 0 <= k < |s|
      ensures Blocked(c, d, s[k]) <==> Collide(c, DOWNLINK_PRE_DELAY, d, s[k].pkt.countUs, s[k].pre, s[k].post)
    {
      BlockedExactly(c, d, s[k]);
    }
  }

  ghost predicate InFirstSlot(s: seq<Node>, c: u32, d: int) {
    exists i :: FirstSlot(s, 0, i, c, d)
  }

  lemma AsapIsSoonOrGap(s: seq<Node>, now: u32, d: u32)
    ensures var soon := Add(now, 1000000);
            AsapCount(s, now, DOWNLINK_PRE_DELAY, d) ==
            if FirstClash(s, 0, soon, DOWNLINK_PRE_DELAY, d) == |s| then soon else Gap(s, 0, DOWNLINK_PRE_DELAY, d)
  {
    hide Gap, FirstClash;
  }

  lemma AsapExactly(s: seq<Node>, now: u32, d: u32)
    requires AllWellMade(s) && d <= MAX_POST
    ensures var c, soon := AsapCount(s, now, DOWNLINK_PRE_DELAY, d), Add(now, 1000000);
            if Unblocked(s, soon, d) then c == soon else InFirstSlot(s, c, d)
  {
    var soon := Add(now, 1000000);
    hide Add, Unblocked, Collide, Gap, FirstSlot, AllWellMade, FirstClash, AsapCount;
    UnblockedExactly(s, soon, d);
    AsapIsSoonOrGap(s, now, d);
    if !Unblocked(s, soon, d) {
      EmptyUnblocked(soon, d);
      var i := GapIsFirstSlot(s, 0, d);
    }
  }

  lemma EmptyUnblocked(c: u32, d: int)
    ensures Unblocked([], c, d)
  {
  }

  lemma PlacedAsap(s: seq<Node>, now: u32, p: Packet, airMs: u32)
    requires 1000 * airMs < TWO32
    ensures Placed(s, now, p, ClassC, airMs).countUs == AsapCount(s, now, DOWNLINK_PRE_DELAY, 1000 * airMs)
    ensures Add(now, 1000000) == Truncate(now + 1000000)
  {
    assert PostDelay(ClassC, airMs) == 1000 * airMs;
    hide AsapCount;
  }

  /**
    The departure of a class C packet, exactly: a second from now if nothing queued is in the way, else in the first
    slot.
   */
  lemma ClassCDeparture(s: seq<Node>, now: u32, p: Packet, airMs: u32)
    requires AllWellMade(s) && 1000 * airMs <= MAX_POST
    ensures var c, d, soon := Placed(s, now, p, ClassC, airMs).countUs, 1000 * airMs, Truncate(now + 1000000);
            if Unblocked(s, soon, d) then c == soon else InFirstSlot(s, c, d)
  {
    PlacedAsap(s, now, p, airMs);
    hide Placed, AsapCount, InFirstSlot, Unblocked, AllWellMade;
    AsapExactly(s, now, 1000 * airMs);
  }

  // ---------- nothing sooner ----------

  /**
    A departure k microseconds from now keeps 62.5 ms from the end of n, if n departs before it, and else ends more than
    a millisecond before the guard of n.
   */
  predicate Clears(now: u32, k: int, d: int, n: Node) {
    if Key(now, n) <= k then Key(now, n) + n.post + 62500 <= k
    else k + d + n.pre + 1000 < Key(now, n)
  }

  lemma {:induction false} LastBefore(now: u32, s: seq<Node>, k: int, l: nat) returns (i: nat)
    requires l < |s| && Key(now, s[l]) <= k
    ensures l <= i < |s| && Key(now, s[i]) <= k && (i + 1 < |s| ==> k < Key(now, s[i + 1]))
    decreases |s| - l
  {
    i := l;
    if l + 1 < |s| && Key(now, s[l + 1]) <= k {
      i := LastBefore(now, s, k, l + 1);
    }
  }

  /**
    In an ascending window of apart nodes, the first slot is the soonest: no departure behind the first node that keeps
    the same distances from every node comes before it.
   */
  lemma NothingSooner(now: u32, s: seq<Node>, i: nat, c: u32, d: u32, k: int)
    requires Window(now, s, d) && KeySorted(now, s) && AllWellMade(s) && AllApart(s) && FirstSlot(s, 0, i, c, d)
    requires Key(now, s[0]) <= k && forall j :: 0 <= j < |s| ==> Clears(now, k, d, s[j])
    ensures Sub(c, now) <= k
  {
    var j := LastBefore(now, s, k, 0);
    assert Clears(now, k, d, s[j]);
    BehindIsAfter(s[i]);
    AfterOffset(now, s[i], d);
    if j >= i {
      if i < j {
        OffsetsApart(now, s, i, j, d);
      }
    } else {
      NextBlocksNothing(now, s, j, d, k);
    }
  }

  /** A departure between two nodes that clears both: the slot behind the first is not blocked by the second. */
  lemma NextBlocksNothing(now: u32, s: seq<Node>, j: nat, d: u32, k: int)
    requires Window(now, s, d) && AllWellMade(s) && j + 1 < |s| && Key(now, s[j]) <= k < Key(now, s[j + 1])
    requires Clears(now, k, d, s[j]) && Clears(now, k, d, s[j + 1])
    ensures !Blocked(Behind(s[j]), d, s[j + 1])
  {
    assert WellMade(s[j]) && WellMade(s[j + 1]) && AheadOf(now, s[j], d) && AheadOf(now, s[j + 1], d);
    BehindIsAfter(s[j]);
    AfterOffset(now, s[j], d);
    ClearBehind(now, s[j + 1], Behind(s[j]), d, s[j + 1].pre);
    BlockedExactly(Behind(s[j]), d, s[j + 1]);
  }
}
