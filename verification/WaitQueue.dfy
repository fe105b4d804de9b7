/**
  The bounded message queues behind the links and the logs: a monitor with one condition variable for
  senders and one for receivers. Each operation is what one thread does between taking and releasing the mutex;
  a blocked thread is asleep, notified or timed out.
 */
module WaitQueues {
  import opened Wrappers

  type Tid = nat
  type Byte = b: int | 0 <= b < 256
  type Msg = seq<Byte>

  datatype Wake = Asleep | Notified | TimedOut

  /** A call blocked in a wait; timed unless its timeout is negative. */
  datatype Waiter = Waiter(call: Call, timed: bool, wake: Wake)

  datatype Call = SendCall(msg: Msg, hwm: int) | RecvCall(len: nat)

  type Waiters = map<Tid, Waiter>

  /** How a call ends: Skipped is the 0 returned for a zero mark, Ebadf and Eagain are -1 with that errno. */
  datatype Outcome = Sent(n: nat) | Skipped | Received(data: Msg) | Ebadf | Eagain

  /** The fields of the queue. closePending belongs to log queues, and stays false in the others. */
  datatype Monitor = Monitor(q: seq<Msg>, size: int, closed: bool, closePending: bool, waiters: Waiters)

  const EMPTY: Monitor := Monitor([], 0, false, false, map[])

  /** The configuration of a queue: LogQueue overrides waiting for a message and closes gracefully. */
  datatype Config = Config(isLog: bool, buflen: nat)

  // ---------- condition variables ----------

  function NotifySenders(w: Waiters): Waiters {
    map t | t in w :: if w[t].call.SendCall? && w[t].wake == Asleep then w[t].(wake := Notified) else w[t]
  }

  function NotifyReceivers(w: Waiters): Waiters {
    map t | t in w :: if w[t].call.RecvCall? && w[t].wake == Asleep then w[t].(wake := Notified) else w[t]
  }

  function NotifyAll(w: Waiters): Waiters {
    map t | t in w :: if w[t].wake == Asleep then w[t].(wake := Notified) else w[t]
  }

  // ---------- sending ----------

  /** What fits the send buffer. */
  function Cut(c: Config, msg: Msg): (r: Msg)
    ensures |r| <= c.buflen && r <= msg
  {
    if |msg| <= c.buflen then msg else msg[..c.buflen]
  }

  function Accept(m: Monitor, msg: Msg): Monitor {
    m.(q := m.q + [msg], size := m.size + |msg|, waiters := NotifyReceivers(m.waiters))
  }

  /** The call of send by thread t, up to its end or its first wait. A zero timeout fails without another look. */
  function SendBegin(c: Config, m: Monitor, t: Tid, msg: Msg, hwm: int, timeout: int): (Monitor, Option<Outcome>) {
    if m.closed then (m, Some(Ebadf))
    else if hwm == 0 then (m, Some(Skipped))
    else if hwm > 0 && m.size >= hwm then
      if timeout == 0 then (m, Some(Eagain))
      else (m.(waiters := m.waiters[t := Waiter(SendCall(Cut(c, msg), hwm), timeout > 0, Asleep)]), None)
    else (Accept(m, Cut(c, msg)), Some(Sent(|Cut(c, msg)|)))
  }

  function Gone(w: Waiters, t: Tid): Waiters {
    w - {t}
  }

  /** A sender that is awake again tests its predicate under the mutex. */
  function SendResume(m: Monitor, t: Tid): (Monitor, Option<Outcome>)
    requires t in m.waiters && m.waiters[t].call.SendCall?
  {
    var w := m.waiters[t];
    var free := m.(waiters := Gone(m.waiters, t));
    if m.closed then (free, Some(Ebadf))
    else if m.size < w.call.hwm then (Accept(free, w.call.msg), Some(Sent(|w.call.msg|)))
    else if w.wake == TimedOut then (free, Some(Eagain))
    else (m.(waiters := m.waiters[t := w.(wake := Asleep)]), None)
  }

  // ---------- receiving ----------

  function Deliver(m: Monitor): Monitor
    requires m.q != []
  {
    m.(q := m.q[1..], size := m.size - |m.q[0]|, waiters := NotifySenders(m.waiters))
  }

  function Taken(m: Monitor, len: nat): Outcome
    requires m.q != []
  {
    Received(if |m.q[0]| <= len then m.q[0] else m.q[0][..len])
  }

  /**
    The call of recv by thread t, up to its end or its first wait. A log queue that is to be closed
    when empty is closed here, without notifying anyone.
   */
  function RecvBegin(c: Config, m: Monitor, t: Tid, len: nat, timeout: int): (Monitor, Option<Outcome>) {
    if m.closed then (m, Some(Ebadf))
    else if m.q != [] then (Deliver(m), Some(Taken(m, len)))
    else if c.isLog && m.closePending then (m.(closed := true), Some(Ebadf))
    else if timeout == 0 then (m, Some(Eagain))
    else (m.(waiters := m.waiters[t := Waiter(RecvCall(len), timeout > 0, Asleep)]), None)
  }

  function RecvResume(m: Monitor, t: Tid): (Monitor, Option<Outcome>)
    requires t in m.waiters && m.waiters[t].call.RecvCall?
  {
    var w := m.waiters[t];
    var free := m.(waiters := Gone(m.waiters, t));
    if m.closed then (free, Some(Ebadf))
    else if m.q != [] then (Deliver(free), Some(Taken(free, w.call.len)))
    else if w.wake == TimedOut then (free, Some(Eagain))
    else (m.(waiters := m.waiters[t := w.(wake := Asleep)]), None)
  }

  // ---------- closing ----------

  /** maybe_close when its test succeeds. */
  function Shut(m: Monitor): Monitor {
    m.(q := [], size := 0, closed := true, waiters := NotifyAll(m.waiters))
  }

  function CloseOp(c: Config, m: Monitor, immediately: bool): Monitor {
    if !c.isLog then Shut(m)
    else
      var p := m.(closePending := true);
      if immediately || m.q == [] then Shut(p) else p
  }

  function ResetOp(c: Config, m: Monitor): Monitor {
    m.(closed := false, closePending := if c.isLog then false else m.closePending)
  }

  // ---------- the queue object ----------

  class WaitQueue {
    const config: Config
    var q: seq<Msg>
    var size: int
    var closed: bool
    var closePending: bool
    var waiters: Waiters

    function View(): Monitor
      reads this
    {
      Monitor(q, size, closed, closePending, waiters)
    }

    constructor (isLog: bool, buflen: nat)
      ensures View() == EMPTY && config == Config(isLog, buflen)
    {
      config := Config(isLog, buflen);
      q, size, closed, closePending, waiters := [], 0, false, false, map[];
    }

    /** The enqueue callback of send. */
    method Emplace(msg: Msg) returns (n: nat)
      modifies this
      ensures View() == Accept(old(View()), msg) && n == |msg|
    {
      q := q + [msg];
      size := size + |msg|;
      waiters := NotifyReceivers(waiters);
      n := |msg|;
    }

    method Send(t: Tid, buf: Msg, hwm: int, timeout: int) returns (res: Option<Outcome>)
      modifies this
      ensures (View(), res) == SendBegin(config, old(View()), t, buf, hwm, timeout)
    {
      if closed {
        return Some(Ebadf);
      }
      if hwm == 0 {
        return Some(Skipped);
      }
      var msg := Cut(config, buf);
      if hwm > 0 && size >= hwm {
        if timeout == 0 {
          return Some(Eagain);
        }
        waiters := waiters[t := Waiter(SendCall(msg, hwm), timeout > 0, Asleep)];
        return None;
      }
      var n := Emplace(msg);
      res := Some(Sent(n));
    }

    method ResumeSend(t: Tid) returns (res: Option<Outcome>)
      requires t in waiters && waiters[t].call.SendCall?
      modifies this
      ensures (View(), res) == SendResume(old(View()), t)
    {
      var w := waiters[t];
      if !closed && size >= w.call.hwm && w.wake != TimedOut {
        waiters := waiters[t := w.(wake := Asleep)];
        return None;
      }
      waiters := Gone(waiters, t);
      if closed {
        return Some(Ebadf);
      }
      if size >= w.call.hwm {
        return Some(Eagain);
      }
      var n := Emplace(w.call.msg);
      res := Some(Sent(n));
    }

    /** The dequeue callback of recv, giving out the length of the popped element before it is popped. */
    method Pop(len: nat) returns (data: Msg)
      requires q != []
      modifies this
      ensures View() == Deliver(old(View())) && Received(data) == Taken(old(View()), len)
    {
      var el := q[0];
      data := if |el| <= len then el else el[..len];
      q := q[1..];
      size := size - |el|;
      waiters := NotifySenders(waiters);
    }

    method Recv(t: Tid, len: nat, timeout: int) returns (res: Option<Outcome>)
      modifies this
      ensures (View(), res) == RecvBegin(config, old(View()), t, len, timeout)
    {
      if closed {
        return Some(Ebadf);
      }
      if q == [] {
        if config.isLog && closePending {
          closed := true;
          return Some(Ebadf);
        }
        if timeout == 0 {
          return Some(Eagain);
        }
        waiters := waiters[t := Waiter(RecvCall(len), timeout > 0, Asleep)];
        return None;
      }
      var data := Pop(len);
      res := Some(Received(data));
    }

    method ResumeRecv(t: Tid) returns (res: Option<Outcome>)
      requires t in waiters && waiters[t].call.RecvCall?
      modifies this
      ensures (View(), res) == RecvResume(old(View()), t)
    {
      var w := waiters[t];
      if !closed && q == [] && w.wake != TimedOut {
        waiters := waiters[t := w.(wake := Asleep)];
        return None;
      }
      waiters := Gone(waiters, t);
      if closed {
        return Some(Ebadf);
      }
      if q == [] {
        return Some(Eagain);
      }
      var data := Pop(w.call.len);
      res := Some(Received(data));
    }

    method Close(immediately: bool)
      modifies this
      ensures View() == CloseOp(config, old(View()), immediately)
    {
      if config.isLog {
        closePending := true;
      }
      if !config.isLog || immediately || q == [] {
        q, size, closed := [], 0, true;
        waiters := NotifyAll(waiters);
      }
    }

    method Reset()
      modifies this
      ensures View() == ResetOp(config, old(View()))
    {
      if config.isLog {
        closePending := false;
      }
      closed := false;
    }
  }
}
