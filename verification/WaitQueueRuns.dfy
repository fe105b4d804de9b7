/** Every interleaving of threads on one queue: wake-ups, order, accounting, and graceful closing. */
module WaitQueueRuns {
  import opened Wrappers
  import opened WaitQueues

  /**
    What became of an accepted message: data was handed to a call that asked for up to len bytes, or a close threw it
    away.
   */
  datatype Fate = Given(data: Msg, len: nat) | Thrown

  /**
    The queue with its history: the call each thread made last, the messages of the sends that succeeded, cut to the
    buffer, what became of messages in the order in which it did, and how the last step ended a call.
   */
  datatype State = State(m: Monitor, calls: map<Tid, Action>, accepted: seq<Msg>, fates: seq<Fate>,
    last: Option<Outcome>)

  const INITIAL: State := State(EMPTY, map[], [], [], None)

  datatype Action =
    | Send(t: Tid, msg: Msg, hwm: int, timeout: int)
    | Recv(t: Tid, len: nat, timeout: int)
    | Resume(t: Tid)
    | TimeOut(t: Tid)
    | Spurious(t: Tid)
    | Close(immediately: bool)
    | Reset

  /** Step a may be taken: a blocked thread makes no calls and goes on only when awake. */
  predicate Enabled(m: Monitor, a: Action) {
    match a
    case Send(t, _, _, _) => t !in m.waiters
    case Recv(t, _, _) => t !in m.waiters
    case Resume(t) => t in m.waiters && m.waiters[t].wake != Asleep
    case TimeOut(t) => t in m.waiters && m.waiters[t].wake == Asleep && m.waiters[t].timed
    case Spurious(t) => t in m.waiters && m.waiters[t].wake == Asleep
    case Close(_) => true
    case Reset => true
  }

  function Op(c: Config, m: Monitor, a: Action): (Monitor, Option<Outcome>)
    requires Enabled(m, a)
  {
    match a
    case Send(t, msg, hwm, timeout) => SendBegin(c, m, t, msg, hwm, timeout)
    case Recv(t, len, timeout) => RecvBegin(c, m, t, len, timeout)
    case Resume(t) => if m.waiters[t].call.SendCall? then SendResume(m, t) else RecvResume(m, t)
    case TimeOut(t) => (m.(waiters := m.waiters[t := m.waiters[t].(wake := TimedOut)]), None)
    case Spurious(t) => (m.(waiters := m.waiters[t := m.waiters[t].(wake := Notified)]), None)
    case Close(immediately) => (CloseOp(c, m, immediately), None)
    case Reset => (ResetOp(c, m), None)
  }

  function Accepts(res: Option<Outcome>): bool { res.Some? && res.value.Sent? }

  function Receives(res: Option<Outcome>): bool { res.Some? && res.value.Received? }

  function Trimmed(msg: Msg, len: nat): Msg { if |msg| <= len then msg else msg[..len] }

  /** The call that a step belongs to. */
  function CallOf(s: State, a: Action): Action {
    if a.Resume? && a.t in s.calls then s.calls[a.t] else a
  }

  function MessageOf(c: Config, call: Action): Msg {
    if call.Send? then Cut(c, call.msg) else []
  }

  function LengthOf(call: Action): nat {
    if call.Recv? then call.len else 0
  }

  /** What a step adds to the fates, told from how its call ended, or from how many messages a close took away. */
  function NewFates(res: Option<Outcome>, len: nat, thrown: nat): seq<Fate> {
    if Receives(res) then [Given(res.value.data, len)] else seq(thrown, _ => Thrown)
  }

  function Apply(c: Config, s: State, a: Action): State
    requires Enabled(s.m, a)
  {
    var (m, res) := Op(c, s.m, a);
    var call := CallOf(s, a);
    State(m,
          if a.Send? || a.Recv? then s.calls[a.t := a] else s.calls,
          if Accepts(res) then s.accepted + [MessageOf(c, call)] else s.accepted,
          s.fates + NewFates(res, LengthOf(call), if a.Close? && m.q == [] then |s.m.q| else 0),
          res)
  }

  ghost predicate Run(c: Config, states: seq<State>, actions: seq<Action>) {
    && |states| == |actions| + 1
    && states[0] == INITIAL
    && forall i :: 0 <= i < |actions| ==>
                     Enabled(states[i].m, actions[i]) && states[i + 1] == Apply(c, states[i], actions[i])
  }

  // ---------- accounting ----------

  function Total(q: seq<Msg>): nat {
    if q == [] then 0 else |q[0]| + Total(q[1..])
  }

  lemma TotalAppend(q: seq<Msg>, msg: Msg)
    ensures Total(q + [msg]) == Total(q) + |msg|
  {
    if q == [] {
      assert q + [msg] == [msg];
    } else {
      TotalAppend(q[1..], msg);
      assert (q + [msg])[1..] == q[1..] + [msg];
    }
  }

  /** The size is right, closed means empty, and messages have been cut to the buffer. */
  ghost predicate Sized(c: Config, m: Monitor) {
    && m.size == Total(m.q)
    && (m.closed ==> m.q == [])
    && (forall i :: 0 <= i < |m.q| ==> |m.q[i]| <= c.buflen)
  }

  predicate WaiterOk(c: Config, w: Waiter) {
    w.call.SendCall? ==> |w.call.msg| <= c.buflen && w.call.hwm > 0
  }

  ghost predicate WaitersOk(c: Config, w: Waiters) {
    forall t :: t in w ==> WaiterOk(c, w[t])
  }

  ghost predicate Base(c: Config, m: Monitor) {
    Sized(c, m) && WaitersOk(c, m.waiters)
  }

  lemma AcceptBase(c: Config, m: Monitor, msg: Msg)
    requires Base(c, m) && !m.closed && |msg| <= c.buflen
    ensures Base(c, Accept(m, msg))
  {
    TotalAppend(m.q, msg);
  }

  lemma ResumedSendBase(c: Config, m: Monitor, t: Tid)
    requires Base(c, m) && t in m.waiters && m.waiters[t].call.SendCall?
    ensures Base(c, SendResume(m, t).0)
  {
    assert WaiterOk(c, m.waiters[t]);
    if !m.closed {
      AcceptBase(c, m.(waiters := Gone(m.waiters, t)), m.waiters[t].call.msg);
    }
  }

  lemma ResumedRecvBase(c: Config, m: Monitor, t: Tid)
    requires Base(c, m) && t in m.waiters && m.waiters[t].call.RecvCall?
    ensures Base(c, RecvResume(m, t).0)
  {
  }

  lemma SendBase(c: Config, m: Monitor, t: Tid, msg: Msg, hwm: int, timeout: int)
    requires Base(c, m)
    ensures Base(c, SendBegin(c, m, t, msg, hwm, timeout).0)
  {
    if !m.closed {
      AcceptBase(c, m, Cut(c, msg));
    }
  }

  lemma StepBase(c: Config, m: Monitor, a: Action)
    requires Base(c, m) && Enabled(m, a)
    ensures Base(c, Op(c, m, a).0)
  {
    match a
    case Send(t, msg, hwm, timeout) => SendBase(c, m, t, msg, hwm, timeout);
    case Resume(t) =>
      if m.waiters[t].call.SendCall? {
        ResumedSendBase(c, m, t);
      } else {
        ResumedRecvBase(c, m, t);
      }
    case _ =>
  }

  // ---------- order ----------

  /** A waiter stands for the call its thread made. */
  predicate Matches(c: Config, w: Call, call: Action) {
    match w
    case SendCall(msg, hwm) => call.Send? && msg == Cut(c, call.msg) && hwm == call.hwm
    case RecvCall(len) => call.Recv? && len == call.len
  }

  ghost predicate WaitersMatch(c: Config, s: State) {
    forall t :: t in s.m.waiters ==> t in s.calls && Matches(c, s.m.waiters[t].call, s.calls[t])
  }

  /** The fate of each message told so far is its own. */
  ghost predicate RightFates(accepted: seq<Msg>, fates: seq<Fate>) {
    |fates| <= |accepted| &&
    forall i :: 0 <= i < |fates| && fates[i].Given? ==> fates[i].data == Trimmed(accepted[i], fates[i].len)
  }

  /** Messages leave in the order in which they were accepted, and those not yet gone are the ones queued. */
  ghost predicate InOrder(s: State) {
    RightFates(s.accepted, s.fates) && s.m.q == s.accepted[|s.fates|..]
  }

  /** The queue takes the message that was sent, and hands out its first one, trimmed to what was asked for. */
  lemma OpQueue(c: Config, s: State, a: Action)
    requires Enabled(s.m, a) && WaitersMatch(c, s)
    ensures var (m', res) := Op(c, s.m, a);
            && (Accepts(res) ==>
                  && m'.q == s.m.q + [MessageOf(c, CallOf(s, a))]
                  && res.value.n == |MessageOf(c, CallOf(s, a))|)
            && (Receives(res) ==>
                  && s.m.q != [] && m'.q == s.m.q[1..]
                  && res.value.data == Trimmed(s.m.q[0], LengthOf(CallOf(s, a))))
            && (!Accepts(res) && !Receives(res) ==> m'.q == s.m.q || (a.Close? && m'.q == []))
            && (a.Close? ==> res == None)
  {
    if a.Resume? {
      assert Matches(c, s.m.waiters[a.t].call, s.calls[a.t]);
    }
  }

  /** A waiter keeps its call; a new one is the caller. */
  lemma OpWaiters(c: Config, m: Monitor, a: Action, t: Tid)
    requires Enabled(m, a) && t in Op(c, m, a).0.waiters
    ensures var w := Op(c, m, a).0.waiters[t].call;
            if (a.Send? || a.Recv?) && a.t == t then Matches(c, w, a) else t in m.waiters && w == m.waiters[t].call
  {
  }

  lemma StepMatches(c: Config, s: State, a: Action)
    requires Enabled(s.m, a) && WaitersMatch(c, s)
    ensures WaitersMatch(c, Apply(c, s, a))
  {
    var s' := Apply(c, s, a);
    forall t | t in s'.m.waiters ensures t in s'.calls && Matches(c, s'.m.waiters[t].call, s'.calls[t]) {
      OpWaiters(c, s.m, a, t);
    }
  }

  lemma StepInOrder(c: Config, s: State, a: Action)
    requires Enabled(s.m, a) && WaitersMatch(c, s) && InOrder(s)
    ensures InOrder(Apply(c, s, a))
  {
    OpQueue(c, s, a);
    var (m, res) := Op(c, s.m, a);
    var s' := Apply(c, s, a);
    hide Op, Apply, Matches, CallOf, MessageOf;
    if Accepts(res) {
      Grows(s, s');
    } else if Receives(res) {
      Gives(s, s', LengthOf(CallOf(s, a)));
    } else if a.Close? {
      Empties(s, s');
    }
  }

  lemma Grows(s: State, s': State)
    requires InOrder(s) && |s'.accepted| > 0 && s'.fates == s.fates
    requires s'.accepted == s.accepted + [s'.accepted[|s'.accepted| - 1]]
    requires s'.m.q == s.m.q + [s'.accepted[|s'.accepted| - 1]]
    ensures InOrder(s')
  {
  }

  lemma Gives(s: State, s': State, len: nat)
    requires InOrder(s) && s'.accepted == s.accepted && s.m.q != [] && s'.m.q == s.m.q[1..]
    requires s'.fates == s.fates + [Given(Trimmed(s.m.q[0], len), len)]
    ensures InOrder(s')
  {
    assert s.m.q[0] == s.accepted[|s.fates|];
  }

  lemma Empties(s: State, s': State)
    requires InOrder(s) && s'.accepted == s.accepted
    requires || (s'.m.q == s.m.q && s'.fates == s.fates)
             || (s'.m.q == [] && s'.fates == s.fates + seq(|s.m.q|, _ => Thrown))
    ensures InOrder(s')
  {
  }

  lemma {:induction false} RunAccounts(c: Config, states: seq<State>, actions: seq<Action>, i: nat)
    requires Run(c, states, actions) && i < |states|
    ensures Base(c, states[i].m) && WaitersMatch(c, states[i]) && InOrder(states[i])
  {
    if i > 0 {
      RunAccounts(c, states, actions, i - 1);
      StepBase(c, states[i - 1].m, actions[i - 1]);
      StepMatches(c, states[i - 1], actions[i - 1]);
      StepInOrder(c, states[i - 1], actions[i - 1]);
      ApplyOp(c, states[i - 1], actions[i - 1]);
    }
  }

  lemma ApplyOp(c: Config, s: State, a: Action)
    requires Enabled(s.m, a)
    ensures Apply(c, s, a).m == Op(c, s.m, a).0
  {
  }

  /**
    In every interleaving, closes included: the messages of successful sends, cut to the buffer, leave in the order in
    which they were accepted, each handed out as itself, trimmed to the receiver's length, or thrown away by a close;
    those that have not left are the ones queued; size is the number of queued bytes, and a closed queue is empty.
   */
  lemma QueueIsFifo(c: Config, states: seq<State>, actions: seq<Action>, i: nat)
    requires Run(c, states, actions) && i < |states|
    ensures var s := states[i];
            && |s.accepted| == |s.fates| + |s.m.q| && s.m.q == s.accepted[|s.fates|..]
            && (forall k :: 0 <= k < |s.fates| && s.fates[k].Given? ==>
                              s.fates[k].data == Trimmed(s.accepted[k], s.fates[k].len))
            && s.m.size == Total(s.m.q)
            && (s.m.closed ==> s.m.q == [] && s.m.size == 0)
  {
    RunAccounts(c, states, actions, i);
  }

  /** A send that succeeds returns the length of the message it queued last. */
  lemma SendReturnsLength(c: Config, states: seq<State>, actions: seq<Action>, i: nat)
    requires Run(c, states, actions) && i < |actions| && Accepts(states[i + 1].last)
    ensures states[i + 1].m.q != [] && states[i + 1].last == Some(Sent(|states[i + 1].m.q[|states[i + 1].m.q| - 1]|))
  {
    RunAccounts(c, states, actions, i);
    OpQueue(c, states[i], actions[i]);
  }

  // ---------- high-water marks ----------

  predicate MarkWithin(a: Action, high: nat) {
    a.Send? ==> 1 <= a.hwm <= high
  }

  ghost predicate BelowMark(c: Config, m: Monitor, high: nat) {
    && m.size < high + c.buflen
    && forall t :: t in m.waiters && m.waiters[t].call.SendCall? ==> m.waiters[t].call.hwm <= high
  }

  lemma StepBelowMark(c: Config, m: Monitor, a: Action, high: nat)
    requires Base(c, m) && BelowMark(c, m, high) && Enabled(m, a) && MarkWithin(a, high) && high > 0
    ensures BelowMark(c, Op(c, m, a).0, high)
  {
    if a.Resume? {
      assert WaiterOk(c, m.waiters[a.t]);
    }
  }

  /** If every send waits for a mark from 1 to high, the queue never holds high + buflen bytes. */
  lemma {:induction false} SizeIsBounded(c: Config, states: seq<State>, actions: seq<Action>, i: nat, high: nat)
    requires Run(c, states, actions) && i < |states| && high > 0
    requires forall j :: 0 <= j < |actions| ==> MarkWithin(actions[j], high)
    ensures BelowMark(c, states[i].m, high)
  {
    if i > 0 {
      SizeIsBounded(c, states, actions, i - 1, high);
      RunAccounts(c, states, actions, i - 1);
      assert MarkWithin(actions[i - 1], high);
      StepBelowMark(c, states[i - 1].m, actions[i - 1], high);
      ApplyOp(c, states[i - 1], actions[i - 1]);
    }
  }

  // ---------- wake-ups ----------

  /** What a thread sleeps for: a sender for room below its mark, a receiver for a message. */
  predicate SleepsRightly(m: Monitor, w: Waiter) {
    w.wake == Asleep ==> !m.closed && if w.call.SendCall? then m.size >= w.call.hwm else m.q == []
  }

  ghost predicate NoLostWakeup(m: Monitor) {
    forall t :: t in m.waiters ==> SleepsRightly(m, m.waiters[t])
  }

  ghost predicate OnlyReader(m: Monitor, r: Tid) {
    forall t :: t in m.waiters && m.waiters[t].call.RecvCall? ==> t == r
  }

  predicate ReadBy(a: Action, r: Tid) { a.Recv? ==> a.t == r }

  lemma AcceptWakes(m: Monitor, msg: Msg)
    requires NoLostWakeup(m)
    ensures NoLostWakeup(Accept(m, msg))
  {
    var m' := Accept(m, msg);
    forall t | t in m'.waiters ensures SleepsRightly(m', m'.waiters[t]) {
      assert SleepsRightly(m, m.waiters[t]);
    }
  }

  lemma DeliverWakes(m: Monitor)
    requires NoLostWakeup(m) && m.q != []
    ensures NoLostWakeup(Deliver(m))
  {
    var m' := Deliver(m);
    forall t | t in m'.waiters ensures SleepsRightly(m', m'.waiters[t]) {
      assert SleepsRightly(m, m.waiters[t]);
    }
  }

  lemma GoneWakes(m: Monitor, t: Tid)
    requires NoLostWakeup(m)
    ensures NoLostWakeup(m.(waiters := Gone(m.waiters, t)))
  {
    var m' := m.(waiters := Gone(m.waiters, t));
    forall u | u in m'.waiters ensures SleepsRightly(m', m'.waiters[u]) {
      assert SleepsRightly(m, m.waiters[u]);
    }
  }

  lemma PutWakes(m: Monitor, t: Tid, w: Waiter)
    requires NoLostWakeup(m) && SleepsRightly(m, w)
    ensures NoLostWakeup(m.(waiters := m.waiters[t := w]))
  {
    var m' := m.(waiters := m.waiters[t := w]);
    forall u | u in m'.waiters ensures SleepsRightly(m', m'.waiters[u]) {
      if u != t {
        assert SleepsRightly(m, m.waiters[u]);
      }
    }
  }

  /** The silent close of a log queue strands no sender, and no receiver if only the caller receives. */
  lemma SilentCloseWakes(c: Config, m: Monitor, r: Tid)
    requires Base(c, m) && NoLostWakeup(m) && OnlyReader(m, r) && r !in m.waiters && m.q == []
    ensures NoLostWakeup(m.(closed := true))
  {
    var m' := m.(closed := true);
    forall t | t in m'.waiters ensures SleepsRightly(m', m'.waiters[t]) {
      assert SleepsRightly(m, m.waiters[t]) && WaiterOk(c, m.waiters[t]);
    }
  }

  lemma SendWakes(c: Config, m: Monitor, a: Action)
    requires NoLostWakeup(m) && Enabled(m, a) && a.Send?
    ensures NoLostWakeup(Op(c, m, a).0)
  {
    if !m.closed && a.hwm != 0 {
      if a.hwm > 0 && m.size >= a.hwm {
        PutWakes(m, a.t, Waiter(SendCall(Cut(c, a.msg), a.hwm), a.timeout > 0, Asleep));
      } else {
        AcceptWakes(m, Cut(c, a.msg));
      }
    }
  }

  lemma RecvWakes(c: Config, m: Monitor, a: Action)
    requires Base(c, m) && NoLostWakeup(m) && Enabled(m, a) && a.Recv?
    requires c.isLog ==> OnlyReader(m, a.t)
    ensures NoLostWakeup(Op(c, m, a).0)
  {
    if !m.closed {
      if m.q != [] {
        DeliverWakes(m);
      } else if c.isLog && m.closePending {
        SilentCloseWakes(c, m, a.t);
      } else {
        PutWakes(m, a.t, Waiter(RecvCall(a.len), a.timeout > 0, Asleep));
      }
    }
  }

  lemma ResumeWakes(c: Config, m: Monitor, a: Action)
    requires NoLostWakeup(m) && Enabled(m, a) && a.Resume?
    ensures NoLostWakeup(Op(c, m, a).0)
  {
    var w := m.waiters[a.t];
    var free := m.(waiters := Gone(m.waiters, a.t));
    GoneWakes(m, a.t);
    if w.call.SendCall? {
      AcceptWakes(free, w.call.msg);
    } else if m.q != [] {
      DeliverWakes(free);
    }
    if SleepsRightly(m, w.(wake := Asleep)) {
      PutWakes(m, a.t, w.(wake := Asleep));
    }
  }

  lemma StepWakes(c: Config, m: Monitor, a: Action)
    requires Base(c, m) && NoLostWakeup(m) && Enabled(m, a)
    requires c.isLog && a.Recv? ==> OnlyReader(m, a.t)
    ensures NoLostWakeup(Op(c, m, a).0)
  {
    match a
    case Send(_, _, _, _) => SendWakes(c, m, a);
    case Recv(_, _, _) => RecvWakes(c, m, a);
    case Resume(_) => ResumeWakes(c, m, a);
    case TimeOut(t) => PutWakes(m, t, m.waiters[t].(wake := TimedOut));
    case Spurious(t) => PutWakes(m, t, m.waiters[t].(wake := Notified));
    case Close(_) => CloseWakes(c, m, a);
    case Reset => ResetWakes(c, m);
  }

  lemma CloseWakes(c: Config, m: Monitor, a: Action)
    requires NoLostWakeup(m) && a.Close?
    ensures NoLostWakeup(CloseOp(c, m, a.immediately))
  {
    var m' := CloseOp(c, m, a.immediately);
    forall t | t in m'.waiters ensures SleepsRightly(m', m'.waiters[t]) {
      assert SleepsRightly(m, m.waiters[t]);
    }
  }

  lemma ResetWakes(c: Config, m: Monitor)
    requires NoLostWakeup(m)
    ensures NoLostWakeup(ResetOp(c, m))
  {
    var m' := ResetOp(c, m);
    forall t | t in m'.waiters ensures SleepsRightly(m', m'.waiters[t]) {
      assert SleepsRightly(m, m.waiters[t]);
    }
  }

  lemma StepOnlyReader(c: Config, m: Monitor, a: Action, r: Tid)
    requires OnlyReader(m, r) && Enabled(m, a) && ReadBy(a, r)
    ensures OnlyReader(Op(c, m, a).0, r)
  {
  }

  ghost predicate OneReader(actions: seq<Action>) {
    exists r: Tid :: AllReadBy(actions, r)
  }

  ghost predicate AllReadBy(actions: seq<Action>, r: Tid) {
    forall i :: 0 <= i < |actions| ==> ReadBy(actions[i], r)
  }

  lemma {:induction false} RunWakes(c: Config, states: seq<State>, actions: seq<Action>, i: nat, r: Tid)
    requires Run(c, states, actions) && i < |states|
    requires c.isLog ==> AllReadBy(actions, r)
    ensures NoLostWakeup(states[i].m)
    ensures c.isLog ==> OnlyReader(states[i].m, r)
  {
    if i > 0 {
      var m, a := states[i - 1].m, actions[i - 1];
      RunWakes(c, states, actions, i - 1, r);
      RunAccounts(c, states, actions, i - 1);
      ApplyOp(c, states[i - 1], a);
      if c.isLog {
        assert ReadBy(a, r);
        StepOnlyReader(c, m, a, r);
      }
      StepWakes(c, m, a);
    }
  }

  /**
    No wake-up is lost in any interleaving: a thread left asleep sleeps rightly. A log queue needs a single reader,
    because the reader that finds it drained closes it without notifying.
   */
  lemma NoWakeupIsLost(c: Config, states: seq<State>, actions: seq<Action>, i: nat)
    requires Run(c, states, actions) && i < |states| && (c.isLog ==> OneReader(actions))
    ensures NoLostWakeup(states[i].m)
  {
    if c.isLog {
      var r: Tid :| AllReadBy(actions, r);
      RunWakes(c, states, actions, i, r);
    } else {
      RunWakes(c, states, actions, i, 0);
    }
  }

  /** Once a queue is closed, every blocked call is awake and fails with EBADF when it goes on. */
  lemma ClosedQueueFreesAll(c: Config, states: seq<State>, actions: seq<Action>, i: nat, t: Tid)
    requires Run(c, states, actions) && i < |states| && (c.isLog ==> OneReader(actions))
    requires states[i].m.closed && t in states[i].m.waiters
    ensures Enabled(states[i].m, Resume(t))
    ensures Op(c, states[i].m, Resume(t)).1 == Some(Ebadf) && t !in Op(c, states[i].m, Resume(t)).0.waiters
  {
    NoWakeupIsLost(c, states, actions, i);
    assert SleepsRightly(states[i].m, states[i].m.waiters[t]);
  }

  // ---------- two readers of a log queue ----------

  /** One reader sleeps, is notified, and finds the queue drained by the other, which then closes it silently. */
  function StrandingRun(r1: Tid, r2: Tid, w: Tid): seq<Action> {
    [Recv(r1, 1, -1), Send(w, [], -1, -1), Close(false), Recv(r2, 1, -1), Resume(r1), Recv(r2, 1, -1)]
  }

  const SLEEPER: Waiter := Waiter(RecvCall(1), false, Asleep)
  const WOKEN: Waiter := Waiter(RecvCall(1), false, Notified)

  lemma WakeOne(r: Tid)
    ensures NotifyReceivers(map[r := SLEEPER]) == map[r := WOKEN]
    ensures NotifySenders(map[r := WOKEN]) == map[r := WOKEN]
  {
  }

  lemma StrandingStates(c: Config, r1: Tid, r2: Tid, w: Tid) returns (states: seq<State>)
    requires c.isLog && r1 != r2 && w != r1 && w != r2
    ensures Run(c, states, StrandingRun(r1, r2, w))
    ensures states[6].m == Monitor([], 0, true, true, map[r1 := SLEEPER])
  {
    var acts := StrandingRun(r1, r2, w);
    var s1 := Apply(c, INITIAL, acts[0]);
    assert s1.m == Monitor([], 0, false, false, map[r1 := SLEEPER]);
    var s2 := Apply(c, s1, acts[1]);
    WakeOne(r1);
    assert s2.m == Monitor([[]], 0, false, false, map[r1 := WOKEN]);
    var s3 := Apply(c, s2, acts[2]);
    assert s3.m == Monitor([[]], 0, false, true, map[r1 := WOKEN]);
    states := Stranded(c, r1, r2, w, s3);
    states := [INITIAL, s1, s2] + states;
  }

  lemma Stranded(c: Config, r1: Tid, r2: Tid, w: Tid, s3: State) returns (states: seq<State>)
    requires c.isLog && r1 != r2
    requires s3.m == Monitor([[]], 0, false, true, map[r1 := WOKEN])
    ensures |states| == 4 && states[0] == s3
    ensures forall i :: 0 <= i < 3 ==>
                          Enabled(states[i].m, StrandingRun(r1, r2, w)[3 + i]) &&
                          states[i + 1] == Apply(c, states[i], StrandingRun(r1, r2, w)[3 + i])
    ensures states[3].m == Monitor([], 0, true, true, map[r1 := SLEEPER])
  {
    var acts := StrandingRun(r1, r2, w);
    var s4 := Apply(c, s3, acts[3]);
    WakeOne(r1);
    assert s4.m == Monitor([], 0, false, true, map[r1 := WOKEN]);
    var s5 := Apply(c, s4, acts[4]);
    assert s5.m == Monitor([], 0, false, true, map[r1 := SLEEPER]);
    var s6 := Apply(c, s5, acts[5]);
    assert s6.m == Monitor([], 0, true, true, map[r1 := SLEEPER]);
    states := [s3, s4, s5, s6];
  }

  ghost predicate ReadersIn(actions: seq<Action>, readers: set<Tid>) {
    forall i :: 0 <= i < |actions| && actions[i].Recv? ==> actions[i].t in readers
  }

  /** No run of a log queue strands a thread. */
  ghost predicate NeverStrands(c: Config, readers: set<Tid>) {
    forall states: seq<State>, actions: seq<Action>, i ::
      Run(c, states, actions) && ReadersIn(actions, readers) && 0 <= i < |states| ==> NoLostWakeup(states[i].m)
  }

  /** A log queue never loses a wake-up exactly when at most one thread reads it. */
  lemma LogNeedsOneReader(c: Config, readers: set<Tid>)
    requires c.isLog
    ensures NeverStrands(c, readers) <==> |readers| <= 1
  {
    if |readers| <= 1 {
      FewReadersAreSafe(c, readers);
    } else {
      TwoReadersStrand(c, readers);
    }
  }

  lemma FewReadersAreSafe(c: Config, readers: set<Tid>)
    requires c.isLog && |readers| <= 1
    ensures NeverStrands(c, readers)
  {
    var r: Tid := if readers == {} then 0 else var x :| x in readers; x;
    SmallSet(readers, r);
    forall states: seq<State>, actions: seq<Action>, i |
      Run(c, states, actions) && ReadersIn(actions, readers) && 0 <= i < |states|
      ensures NoLostWakeup(states[i].m)
    {
      assert AllReadBy(actions, r);
      NoWakeupIsLost(c, states, actions, i);
    }
  }

  lemma TwoReadersStrand(c: Config, readers: set<Tid>)
    requires c.isLog && |readers| > 1
    ensures !NeverStrands(c, readers)
  {
    var r1 :| r1 in readers;
    assert readers != {r1};
    var r2 :| r2 in readers && r2 != r1;
    var w := r1 + r2 + 1;
    hide Run, NeverStrands, NoLostWakeup;
    var states := StrandingStates(c, r1, r2, w);
    StrandedSleeper(states[6].m, r1);
    StrandingReaders(r1, r2, w, readers);
    RunLength(c, states, StrandingRun(r1, r2, w));
    hide StrandingRun, ReadersIn;
    Refute(c, readers, states, StrandingRun(r1, r2, w), 6);
  }

  lemma StrandingReaders(r1: Tid, r2: Tid, w: Tid, readers: set<Tid>)
    requires r1 in readers && r2 in readers
    ensures ReadersIn(StrandingRun(r1, r2, w), readers) && |StrandingRun(r1, r2, w)| == 6
  {
  }

  lemma RunLength(c: Config, states: seq<State>, actions: seq<Action>)
    requires Run(c, states, actions)
    ensures |states| == |actions| + 1
  {
  }

  lemma StrandedSleeper(m: Monitor, r: Tid)
    requires m == Monitor([], 0, true, true, map[r := SLEEPER])
    ensures !NoLostWakeup(m)
  {
    assert !SleepsRightly(m, m.waiters[r]);
  }

  lemma Refute(c: Config, readers: set<Tid>, states: seq<State>, actions: seq<Action>, i: nat)
    requires Run(c, states, actions) && ReadersIn(actions, readers) && i < |states| && !NoLostWakeup(states[i].m)
    ensures !NeverStrands(c, readers)
  {
  }

  lemma SmallSet(s: set<Tid>, x: Tid)
    requires |s| <= 1 && (s != {} ==> x in s)
    ensures forall y :: y in s ==> y == x
  {
    if s != {} {
      assert |s - {x}| == 0;
    }
  }

  // ---------- graceful closing ----------

  ghost predicate NeverImmediate(actions: seq<Action>) {
    forall i :: 0 <= i < |actions| && actions[i].Close? ==> !actions[i].immediately
  }

  lemma EbadfMeansClosed(c: Config, s: State, a: Action)
    requires Enabled(s.m, a) && Apply(c, s, a).last == Some(Ebadf)
    ensures Apply(c, s, a).m.closed
  {
  }

  lemma {:induction false} GentleRunThrowsNothing(c: Config, states: seq<State>, actions: seq<Action>, i: nat)
    requires Run(c, states, actions) && c.isLog && NeverImmediate(actions) && i < |states|
    ensures forall k :: 0 <= k < |states[i].fates| ==> states[i].fates[k].Given?
  {
    if i > 0 {
      GentleRunThrowsNothing(c, states, actions, i - 1);
      GentleStepThrowsNothing(c, states[i - 1], actions[i - 1]);
    }
  }

  lemma GentleStepThrowsNothing(c: Config, s: State, a: Action)
    requires Enabled(s.m, a) && c.isLog && (a.Close? ==> !a.immediately)
    ensures forall k :: |s.fates| <= k < |Apply(c, s, a).fates| ==> Apply(c, s, a).fates[k].Given?
    ensures s.fates <= Apply(c, s, a).fates
  {
  }

  /**
    A log queue that is never closed immediately: whenever a call fails with EBADF, every message accepted so far
    has been handed out, in order and as itself, trimmed to the receiver's length.
   */
  lemma GracefulClose(c: Config, states: seq<State>, actions: seq<Action>, i: nat)
    requires Run(c, states, actions) && c.isLog && NeverImmediate(actions) && i < |states|
    requires states[i].last == Some(Ebadf)
    ensures var s := states[i];
            && s.m.closed && |s.fates| == |s.accepted|
            && forall k :: 0 <= k < |s.accepted| ==>
                             s.fates[k].Given? && s.fates[k].data == Trimmed(s.accepted[k], s.fates[k].len)
  {
    GentleRunThrowsNothing(c, states, actions, i);
    RunAccounts(c, states, actions, i);
    if i > 0 {
      EbadfMeansClosed(c, states[i - 1], actions[i - 1]);
    }
  }

  /** The outcomes of n calls of recv by thread t with nothing in between. */
  function Reads(c: Config, m: Monitor, t: Tid, len: nat, n: nat): (r: (Monitor, seq<Option<Outcome>>))
    decreases n
  {
    if n == 0 then (m, [])
    else
      var (m1, res) := RecvBegin(c, m, t, len, -1);
      var (m2, rest) := Reads(c, m1, t, len, n - 1);
      (m2, [res] + rest)
  }

  /**
    Left to one reader, a log queue that is to be closed gives out its messages and then closes, without ever
    blocking.
   */
  lemma {:induction false} DrainsThenCloses(c: Config, m: Monitor, t: Tid, len: nat)
    requires c.isLog && m.closePending && !m.closed
    ensures var (m', outs) := Reads(c, m, t, len, |m.q| + 1);
            && |outs| == |m.q| + 1
            && (forall i :: 0 <= i < |m.q| ==> outs[i] == Some(Received(Trimmed(m.q[i], len))))
            && outs[|m.q|] == Some(Ebadf)
            && m'.closed && m'.q == []
    decreases |m.q|
  {
    if m.q == [] {
      assert Reads(c, m.(closed := true), t, len, 0) == (m.(closed := true), []);
    } else {
      DrainsThenCloses(c, Deliver(m), t, len);
    }
  }
}
