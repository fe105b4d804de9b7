/** The link between the host's unix clock and the concentrator's microsecond counter. */
module TimerSync {
  import opened Circle

  /** struct timeval; kept with usec in [0, 1000000) by every producer of one. */
  datatype TimeVal = TimeVal(sec: int, usec: int) {
    predicate Normal() { 0 <= usec < 1000000 }

    function Micros(): int { sec * 1000000 + usec }
  }

  /** The timersub macro: subtraction with a borrow from the seconds. */
  function TimerSub(a: TimeVal, b: TimeVal): TimeVal {
    var sec, usec := a.sec - b.sec, a.usec - b.usec;
    if usec < 0 then TimeVal(sec - 1, usec + 1000000) else TimeVal(sec, usec)
  }

  lemma TimerSubMicros(a: TimeVal, b: TimeVal)
    requires a.Normal() && b.Normal()
    ensures TimerSub(a, b).Normal() && TimerSub(a, b).Micros() == a.Micros() - b.Micros()
  {
  }

  /** A 32-bit counter reading as a timeval. */
  function FromCounter(count: u32): (tv: TimeVal)
    ensures tv.Normal() && tv.Micros() == count
  {
    var sec := count / 1000000;
    TimeVal(sec, count - sec * 1000000)
  }

  /** The scheduler's conversion of a timeval to uint32_t microseconds. */
  function CounterTime(tv: TimeVal): u32 {
    Truncate(tv.sec * 1000000 + tv.usec)
  }

  lemma CounterTimeIsMicros(tv: TimeVal, micros: int)
    requires tv.Micros() == micros
    ensures CounterTime(tv) == Truncate(micros)
  {
  }

  lemma CountIsItself(count: u32)
    ensures Truncate(count) == count
  {
  }

  /** Subtracting an offset set at the sync, and converting, gives the counter at the sync plus the time elapsed. */
  lemma OffsetGivesCounter(offset: TimeVal, sync: TimeVal, count: u32, unixTime: TimeVal)
    requires offset.Normal() && unixTime.Normal() && offset.Micros() == sync.Micros() - count
    ensures CounterTime(TimerSub(unixTime, offset)) == Add(count, Truncate(unixTime.Micros() - sync.Micros()))
  {
    var elapsed := unixTime.Micros() - sync.Micros();
    TimerSubMicros(unixTime, offset);
    CounterTimeIsMicros(TimerSub(unixTime, offset), count + elapsed);
    TruncateAdd(count, elapsed);
    CountIsItself(count);
  }

  const ZERO: TimeVal := TimeVal(0, 0)

  /** An offset that takes the counter to the unix time at a sync. */
  ghost predicate Syncs(offset: TimeVal, sync: TimeVal, count: u32) {
    offset.Normal() && offset.Micros() == sync.Micros() - count
  }

  lemma ZeroSyncs()
    ensures Syncs(ZERO, ZERO, 0)
  {
  }

  class Synchronizer {
    var offset: TimeVal

    /**
      The unix time and the counter value of the last synchronization, as if both clocks had started together before.
     */
    ghost var syncTime: TimeVal
    ghost var syncCount: u32

    ghost predicate Valid()
      reads this
    {
      Syncs(offset, syncTime, syncCount)
    }

    constructor ()
      ensures Valid() && syncTime == ZERO && syncCount == 0
    {
      hide Syncs;
      ZeroSyncs();
      offset := ZERO;
      syncTime := ZERO;
      syncCount := 0;
    }

    /** set_concentrator_time, with the unix time and the counter value it reads; drift is what it reports. */
    method SetConcentratorTime(unixTime: TimeVal, count: u32) returns (drift: TimeVal)
      requires Valid() && unixTime.Normal()
      modifies this
      ensures Valid() && syncTime == unixTime && syncCount == count
      ensures drift.Normal()
      ensures drift.Micros() == (unixTime.Micros() - old(syncTime).Micros()) - (count - old(syncCount))
    {
      var concentrator := FromCounter(count);
      var previous := offset;
      offset := TimerSub(unixTime, concentrator);
      drift := TimerSub(offset, previous);
      TimerSubMicros(unixTime, concentrator);
      TimerSubMicros(offset, previous);
      syncTime, syncCount := unixTime, count;
    }

    /**
      get_concentrator_time. Whatever the unix times, before or after the epoch, and however often the counter has
      wrapped since: the scheduler sees the counter value at the last sync plus the microseconds elapsed, on the
      32-bit circle.
     */
    method GetConcentratorTime(unixTime: TimeVal) returns (time: TimeVal)
      requires Valid() && unixTime.Normal()
      ensures time.Normal() && time.Micros() == syncCount + (unixTime.Micros() - syncTime.Micros())
      ensures CounterTime(time) == Add(syncCount, Truncate(unixTime.Micros() - syncTime.Micros()))
    {
      time := TimerSub(unixTime, offset);
      TimerSubMicros(unixTime, offset);
      OffsetGivesCounter(offset, syncTime, syncCount, unixTime);
    }
  }

  /** A negative elapsed time is refined too: two readings differ by the unix time between them. */
  lemma ReadingsDifferByElapsed(offset: TimeVal, unix1: TimeVal, unix2: TimeVal)
    requires offset.Normal() && unix1.Normal() && unix2.Normal()
    ensures Sub(CounterTime(TimerSub(unix2, offset)), CounterTime(TimerSub(unix1, offset)))
            == Truncate(unix2.Micros() - unix1.Micros())
  {
    var start, elapsed := unix1.Micros() - offset.Micros(), unix2.Micros() - unix1.Micros();
    TimerSubMicros(unix1, offset);
    TimerSubMicros(unix2, offset);
    CounterTimeIsMicros(TimerSub(unix1, offset), start);
    CounterTimeIsMicros(TimerSub(unix2, offset), start + elapsed);
    TruncateAdd(start, elapsed);
  }
}
