/** How every call of send and recv ends, and exactly when, in every interleaving. */
module WaitQueueOutcomes {
  import opened Wrappers
  import opened WaitQueues
  import opened WaitQueueRuns

  // ---------- the call and its situation ----------

  function TimeoutOf(call: Action): int {
    if call.Send? || call.Recv? then call.timeout else 0
  }

  /** A step of a thread inside send or recv. */
  predicate InCall(a: Action) { a.Send? || a.Recv? || a.Resume? }

  /** A send with a zero mark, which does nothing. */
  predicate Idle(call: Action) { call.Send? && call.hwm == 0 }

  /** There is something to take, or room for the message. */
  predicate CanGoOn(m: Monitor, call: Action) {
    if call.Send? then call.hwm < 0 || m.size < call.hwm else m.q != []
  }

  /** The timeout is zero, or has run out. */
  predicate OutOfTime(m: Monitor, a: Action) {
    if a.Resume? then a.t in m.waiters && m.waiters[a.t].wake == TimedOut else TimeoutOf(a) == 0
  }

  /** A receive that begins on an empty log queue which is to be closed. */
  predicate FindsDrained(c: Config, m: Monitor, a: Action) {
    a.Recv? && c.isLog && m.closePending && m.q == []
  }

  // ---------- what waiters remember ----------

  /** A waiter can time out exactly when its call came with a positive timeout, and none waits with a zero one. */
  ghost predicate TimedRightly(s: State) {
    forall t :: t in s.m.waiters ==>
      t in s.calls && TimeoutOf(s.calls[t]) != 0 && (s.m.waiters[t].timed <==> TimeoutOf(s.calls[t]) > 0)
  }

  lemma OpTimes(c: Config, m: Monitor, a: Action, t: Tid)
    requires Enabled(m, a) && t in Op(c, m, a).0.waiters
    ensures var w := Op(c, m, a).0.waiters[t];
            if (a.Send? || a.Recv?) && a.t == t then TimeoutOf(a) != 0 && (w.timed <==> TimeoutOf(a) > 0)
            else t in m.waiters && w.timed == m.waiters[t].timed
  {
  }

  lemma StepTimes(c: Config, s: State, a: Action)
    requires Enabled(s.m, a) && TimedRightly(s)
    ensures TimedRightly(Apply(c, s, a))
  {
    var s' := Apply(c, s, a);
    forall t | t in s'.m.waiters
      ensures t in s'.calls && TimeoutOf(s'.calls[t]) != 0
      ensures s'.m.waiters[t].timed <==> TimeoutOf(s'.calls[t]) > 0
    {
      OpTimes(c, s.m, a, t);
    }
  }

  lemma {:induction false} RunTimes(c: Config, states: seq<State>, actions: seq<Action>, i: nat)
    requires Run(c, states, actions) && i < |states|
    ensures TimedRightly(states[i])
  {
    if i > 0 {
      RunTimes(c, states, actions, i - 1);
      StepTimes(c, states[i - 1], actions[i - 1]);
    }
  }

  // ---------- outcomes ----------

  /** The waiter that goes on stands for the call its thread made, with a positive mark if it is a send. */
  lemma ResumedCall(c: Config, s: State, t: Tid)
    requires Base(c, s.m) && WaitersMatch(c, s) && t in s.m.waiters
    ensures t in s.calls && CallOf(s, Resume(t)) == s.calls[t] && Matches(c, s.m.waiters[t].call, s.calls[t])
    ensures s.calls[t].Send? ==> s.calls[t].hwm > 0
  {
    assert WaiterOk(c, s.m.waiters[t]);
  }

  lemma OutcomeOfResume(c: Config, s: State, t: Tid)
    requires Base(c, s.m) && WaitersMatch(c, s) && Enabled(s.m, Resume(t))
    ensures var m, a, call, res := s.m, Resume(t), CallOf(s, Resume(t)), Op(c, s.m, Resume(t)).1;
            && (call.Send? || call.Recv?) && !Idle(call)
            && (res == Some(Ebadf) <==> m.closed)
            && res != Some(Skipped)
            && (Accepts(res) <==> !m.closed && call.Send? && CanGoOn(m, call))
            && (Receives(res) <==> !m.closed && call.Recv? && CanGoOn(m, call))
            && (res == Some(Eagain) <==> !m.closed && !CanGoOn(m, call) && OutOfTime(m, a))
            && (res == None <==> !m.closed && !CanGoOn(m, call) && !OutOfTime(m, a))
  {
    ResumedCall(c, s, t);
  }

  lemma OutcomeOfCall(c: Config, s: State, a: Action)
    requires Enabled(s.m, a) && (a.Send? || a.Recv?)
    ensures var m, res := s.m, Op(c, s.m, a).1;
            && CallOf(s, a) == a
            && (res == Some(Ebadf) <==> m.closed || FindsDrained(c, m, a))
            && (res == Some(Skipped) <==> !m.closed && Idle(a))
            && (Accepts(res) <==> !m.closed && !Idle(a) && a.Send? && CanGoOn(m, a))
            && (Receives(res) <==> !m.closed && a.Recv? && CanGoOn(m, a))
            && (res == Some(Eagain) <==>
                  !m.closed && !Idle(a) && !FindsDrained(c, m, a) && !CanGoOn(m, a) && OutOfTime(m, a))
            && (res == None <==>
                  !m.closed && !Idle(a) && !FindsDrained(c, m, a) && !CanGoOn(m, a) && !OutOfTime(m, a))
  {
  }

  /**
    The outcome of every step inside a call, exactly. EBADF: the queue is closed, or a receive begins on a drained log
    queue. Otherwise nothing for a zero mark; success if there is something to take, or room; and if not, EAGAIN when
    the timeout is zero or has run out. In the remaining cases the call blocks.
   */
  lemma OutcomesExactly(c: Config, states: seq<State>, actions: seq<Action>, i: nat)
    requires Run(c, states, actions) && i < |actions| && InCall(actions[i])
    ensures var m, a, call, res := states[i].m, actions[i], CallOf(states[i], actions[i]), states[i + 1].last;
            && (call.Send? || call.Recv?)
            && (res == Some(Ebadf) <==> m.closed || FindsDrained(c, m, a))
            && (res == Some(Skipped) <==> !m.closed && Idle(call))
            && (Accepts(res) <==> !m.closed && !Idle(call) && call.Send? && CanGoOn(m, call))
            && (Receives(res) <==> !m.closed && call.Recv? && CanGoOn(m, call))
            && (res == Some(Eagain) <==>
                  !m.closed && !Idle(call) && !FindsDrained(c, m, a) && !CanGoOn(m, call) && OutOfTime(m, a))
            && (res == None <==>
                  !m.closed && !Idle(call) && !FindsDrained(c, m, a) && !CanGoOn(m, call) && !OutOfTime(m, a))
  {
    RunAccounts(c, states, actions, i);
    LastIsOutcome(c, states, actions, i);
    hide Run, Op, CallOf, Base, WaitersMatch;
    if actions[i].Resume? {
      OutcomeOfResume(c, states[i], actions[i].t);
    } else {
      OutcomeOfCall(c, states[i], actions[i]);
    }
  }

  lemma LastIsOutcome(c: Config, states: seq<State>, actions: seq<Action>, i: nat)
    requires Run(c, states, actions) && i < |actions|
    ensures i + 1 < |states| && Enabled(states[i].m, actions[i])
    ensures states[i + 1].last == Op(c, states[i].m, actions[i]).1
    ensures states[i + 1].m == Op(c, states[i].m, actions[i]).0
  {
  }

  /**
    A call that blocks leaves its thread asleep in the queue, where it may time out exactly if the timeout given is
    positive; a call that ends leaves no trace of its thread; and no other thread comes or goes.
   */
  lemma BlocksExactly(c: Config, states: seq<State>, actions: seq<Action>, i: nat)
    requires Run(c, states, actions) && i < |actions| && InCall(actions[i])
    ensures var t, w, s' := actions[i].t, states[i].m.waiters, states[i + 1];
            && (s'.last == None <==> t in s'.m.waiters)
            && (t in s'.m.waiters ==>
                  && s'.m.waiters[t].wake == Asleep
                  && t in s'.calls && (Enabled(s'.m, TimeOut(t)) <==> TimeoutOf(s'.calls[t]) > 0))
            && s'.m.waiters.Keys - {t} == w.Keys - {t}
  {
    RunTimes(c, states, actions, i + 1);
    LastIsOutcome(c, states, actions, i);
    BlocksAsleep(c, states[i].m, actions[i]);
  }

  lemma BlocksAsleep(c: Config, m: Monitor, a: Action)
    requires Enabled(m, a) && InCall(a)
    ensures var (m', res) := Op(c, m, a);
            && (res == None <==> a.t in m'.waiters)
            && (res == None ==> m'.waiters[a.t].wake == Asleep)
            && m'.waiters.Keys - {a.t} == m.waiters.Keys - {a.t}
  {
  }

  // ---------- what is sent and received ----------

  function Least(x: nat, y: nat): nat { if x <= y then x else y }

  lemma CutAndTrimmed(c: Config, msg: Msg, len: nat)
    ensures Cut(c, msg) == msg[..Least(|msg|, c.buflen)] && Trimmed(msg, len) == msg[..Least(|msg|, len)]
  {
  }

  /**
    A send that succeeds says how much of its message it has queued: all, or what fits the buffer. A receive that
    succeeds hands out the first message queued: all, or as much as was asked for.
   */
  lemma DataExactly(c: Config, states: seq<State>, actions: seq<Action>, i: nat)
    requires Run(c, states, actions) && i < |actions|
    ensures var s, s', call := states[i], states[i + 1], CallOf(states[i], actions[i]);
            && (Accepts(s'.last) ==>
                  && call.Send? && s'.last.value.n == Least(|call.msg|, c.buflen)
                  && s'.m.q == s.m.q + [call.msg[..s'.last.value.n]])
            && (Receives(s'.last) ==>
                  && call.Recv? && s.m.q != [] && s'.m.q == s.m.q[1..]
                  && s'.last.value.data == s.m.q[0][..Least(|s.m.q[0]|, call.len)])
  {
    RunAccounts(c, states, actions, i);
    LastIsOutcome(c, states, actions, i);
    if InCall(actions[i]) {
      OutcomesExactly(c, states, actions, i);
      OpQueue(c, states[i], actions[i]);
      var call := CallOf(states[i], actions[i]);
      hide Run, Op, CallOf, Cut, Trimmed, WaitersMatch, Base;
      if call.Send? {
        CutAndTrimmed(c, call.msg, 0);
      } else if states[i].m.q != [] {
        CutAndTrimmed(c, states[i].m.q[0], call.len);
      }
    }
  }

  // ---------- closing and opening ----------

  /**
    Closing empties a queue, wakes everyone and makes it refuse calls: at once, or, for a log queue that holds messages
    and is not closed immediately, later, until when nothing else changes.
   */
  lemma ClosesExactly(c: Config, states: seq<State>, actions: seq<Action>, i: nat)
    requires Run(c, states, actions) && i < |actions| && actions[i].Close?
    ensures var m, m' := states[i].m, states[i + 1].m;
            && m'.closePending == (c.isLog || m.closePending)
            && if !c.isLog || actions[i].immediately || m.q == [] then
                 && m'.closed && m'.q == [] && m'.size == 0 && m'.waiters.Keys == m.waiters.Keys
                 && forall t :: t in m'.waiters ==> Enabled(m', Resume(t)) && Op(c, m', Resume(t)).1 == Some(Ebadf)
               else m' == m.(closePending := true)
  {
    LastIsOutcome(c, states, actions, i);
  }

  /** A reset opens the queue again, with what it holds and who waits. */
  lemma ResetsExactly(c: Config, states: seq<State>, actions: seq<Action>, i: nat)
    requires Run(c, states, actions) && i < |actions| && actions[i].Reset?
    ensures var m, m' := states[i].m, states[i + 1].m;
            && !m'.closed && (c.isLog ==> !m'.closePending)
            && m'.q == m.q && m'.size == m.size && m'.waiters == m.waiters
  {
    LastIsOutcome(c, states, actions, i);
  }
}
