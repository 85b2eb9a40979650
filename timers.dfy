// Timer 1 timekeeping: the 1 ms tick that advances the real-time clock and
// the uptime, the 100 ms countdown used by the scheduler, the timespec
// arithmetic, and channel 1 used to strobe a transmission a fixed number of
// ticks after a captured radio event.
module Timers {
  import opened Bytes

  const FClk: nat := 27_000_000
  /** Timer 1 counts `T1Period` clock cycles per millisecond. */
  const T1Period: nat := FClk / 1000
  /** Nanoseconds per timer count (integer division, 37). */
  const T1Tick: nat := 1_000_000_000 / FClk
  const NsPerSecond: nat := 1_000_000_000
  const NsPerMs: nat := 1_000_000
  const MsPerSecond: nat := 1000
  /** Reload value of the scheduler countdown: 100 ms. */
  const TimerCountPeriod: u16 := 100
  /** Channel-1 interrupts between a captured radio event and the strobe. */
  const RfPreciseTimingDelay: byte := 3

  datatype Timespec = Timespec(seconds: u32, nanoseconds: u32)

  predicate Normalised(t: Timespec)
  {
    t.nanoseconds < NsPerSecond
  }

  // ---------------------------------------------------------------------
  // Reading and setting the clock

  /** The nanoseconds `timers_get_time` reports for a millisecond count and
      a timer count, in 32-bit arithmetic. */
  function NanosOf(millis: u16, fine: u16): u32
  {
    Wrap32(millis * NsPerMs + fine * T1Tick)
  }

  /** The millisecond count `timers_set_time` keeps (truncated to 16 bits). */
  function MillisOf(nanoseconds: u32): u16
  {
    Wrap16(nanoseconds / NsPerMs)
  }

  /** A reading taken from a running clock (milliseconds below 1000, the
      timer count below its period) is a normalised time, and setting the
      clock from it gives back the same millisecond count. */
  lemma ReadThenSet(millis: u16, fine: u16)
    requires millis < MsPerSecond && fine < T1Period
    ensures NanosOf(millis, fine) < NsPerSecond
    ensures MillisOf(NanosOf(millis, fine)) == millis
  {
    assert T1Tick == 37 && T1Period == 27000;
    var r := fine * T1Tick;
    assert r < NsPerMs;
    var n := millis * NsPerMs + r;
    assert n < NsPerSecond;
    assert n / NsPerMs == millis;
  }

  // ---------------------------------------------------------------------
  // Timespec arithmetic

  /** `timers_add_time`: nanoseconds add, one second is carried only when
      the sum exceeds a second strictly, then the seconds add; all in 32-bit
      arithmetic. */
  function AddTime(t1: Timespec, t2: Timespec): (r: Timespec)
    ensures Normalised(t1) && Normalised(t2) ==> r.nanoseconds <= NsPerSecond
  {
    var ns := Wrap32(t1.nanoseconds + t2.nanoseconds);
    if ns > NsPerSecond
    then Timespec(Wrap32(Wrap32(t1.seconds + 1) + t2.seconds), Wrap32(ns - NsPerSecond))
    else Timespec(Wrap32(t1.seconds + t2.seconds), ns)
  }

  /** `timers_subtract_time`: one second is borrowed exactly when `t1`'s
      nanoseconds are below `t2`'s. */
  function SubtractTime(t1: Timespec, t2: Timespec): (r: Timespec)
    ensures Normalised(t1) && Normalised(t2) ==> Normalised(r)
  {
    if t1.nanoseconds < t2.nanoseconds
    then Timespec(Wrap32(Wrap32(t1.seconds - 1) - t2.seconds),
                  Wrap32(Wrap32(t1.nanoseconds + NsPerSecond) - t2.nanoseconds))
    else Timespec(Wrap32(t1.seconds - t2.seconds), Wrap32(t1.nanoseconds - t2.nanoseconds))
  }

  /** Seconds and nanoseconds of a timespec as one count of nanoseconds. */
  function Total(t: Timespec): int
  {
    t.seconds * NsPerSecond + t.nanoseconds
  }

  const SecondsWrap: int := 0x1_0000_0000 * NsPerSecond

  /** On normalised operands the sum is exact up to the 32-bit wrap of the
      seconds. */
  lemma AddKeepsTotal(t1: Timespec, t2: Timespec)
    requires Normalised(t1) && Normalised(t2)
    ensures (Total(AddTime(t1, t2)) - Total(t1) - Total(t2)) % SecondsWrap == 0
  {
    var r := AddTime(t1, t2);
    var c := if t1.nanoseconds + t2.nanoseconds > NsPerSecond then 1 else 0;
    var k := (t1.seconds + c + t2.seconds) / 0x1_0000_0000;
    assert r.seconds == t1.seconds + c + t2.seconds - k * 0x1_0000_0000;
    assert r.nanoseconds == t1.nanoseconds + t2.nanoseconds - c * NsPerSecond;
    assert Total(r) - Total(t1) - Total(t2) == -k * SecondsWrap;
  }

  /** The carry is taken only above a second: two halves of a second add up
      to a nanosecond count of exactly one second, left unnormalised. */
  lemma AddExactSecondUnnormalised(t1: Timespec, t2: Timespec)
    requires t1.nanoseconds + t2.nanoseconds == NsPerSecond
    ensures AddTime(t1, t2) == Timespec(Wrap32(t1.seconds + t2.seconds), NsPerSecond)
    ensures !Normalised(AddTime(t1, t2))
  {
  }

  /** Subtracting what was added gives back the original time, including the
      exact-second case the addition leaves unnormalised. */
  lemma SubtractUndoesAdd(t1: Timespec, t2: Timespec)
    requires Normalised(t1) && Normalised(t2)
    ensures SubtractTime(AddTime(t1, t2), t2) == t1
  {
    if t1.nanoseconds + t2.nanoseconds > NsPerSecond {
      CarriedAddUndone(t1, t2);
    } else {
      PlainAddUndone(t1, t2);
    }
  }

  lemma CarriedAddUndone(t1: Timespec, t2: Timespec)
    requires Normalised(t1) && Normalised(t2) && t1.nanoseconds + t2.nanoseconds > NsPerSecond
    ensures SubtractTime(AddTime(t1, t2), t2) == t1
  {
    var s := AddTime(t1, t2);
    assert s == Timespec(Wrap32(Wrap32(t1.seconds + 1) + t2.seconds), t1.nanoseconds + t2.nanoseconds - NsPerSecond);
    CarriedSecondsUndone(t1.seconds, t2.seconds);
  }

  lemma PlainAddUndone(t1: Timespec, t2: Timespec)
    requires Normalised(t1) && Normalised(t2) && t1.nanoseconds + t2.nanoseconds <= NsPerSecond
    ensures SubtractTime(AddTime(t1, t2), t2) == t1
  {
    var s := AddTime(t1, t2);
    assert s == Timespec(Wrap32(t1.seconds + t2.seconds), t1.nanoseconds + t2.nanoseconds);
    Wrap32Minus(t1.seconds + t2.seconds, t2.seconds);
  }

  /** The seconds of a carrying addition, with the borrow taken back. */
  lemma CarriedSecondsUndone(a: u32, b: u32)
    ensures Wrap32(Wrap32(Wrap32(Wrap32(a + 1) + b) - 1) - b) == a
  {
    Wrap32Plus(a + 1, b);
    Wrap32Minus(a + 1 + b, 1);
    Wrap32Minus(a + b, b);
  }

  // ---------------------------------------------------------------------
  // The 1 ms tick

  /** The millisecond-driven part of the timer state. */
  datatype Rtc = Rtc(uptime: u32, seconds: u32, millis: u16, countMs: u16)

  /** Channel 0 of `t1_isr`: one millisecond passes, the scheduler countdown
      falls towards 0 and stops there, and the thousandth millisecond rolls
      over into the seconds and the uptime. */
  function MillisecondTick(r: Rtc): (r': Rtc)
    ensures r.millis < MsPerSecond ==> r'.millis < MsPerSecond
    ensures r.millis + 1 < MsPerSecond ==> r' == r.(millis := r.millis + 1, countMs := r'.countMs)
    ensures r.millis + 1 == MsPerSecond ==>
              r'.millis == 0 && r'.seconds == Wrap32(r.seconds + 1) && r'.uptime == Wrap32(r.uptime + 1)
    ensures r'.countMs <= r.countMs && (r.countMs > 0 ==> r'.countMs == r.countMs - 1)
  {
    var ms := Wrap16(r.millis + 1);
    var count := if r.countMs != 0 then r.countMs - 1 else 0;
    if ms >= MsPerSecond
    then Rtc(Wrap32(r.uptime + 1), Wrap32(r.seconds + 1), 0, count)
    else Rtc(r.uptime, r.seconds, ms, count)
  }

  function Ticks(r: Rtc, n: nat): Rtc
    decreases n
  {
    if n == 0 then r else Ticks(MillisecondTick(r), n - 1)
  }

  /** Within a second, `n` ticks add `n` milliseconds and only count down
      the scheduler counter. */
  lemma {:induction false} TicksWithinSecond(r: Rtc, n: nat)
    requires r.millis + n < MsPerSecond
    ensures Ticks(r, n) == Rtc(r.uptime, r.seconds, r.millis + n,
                               if r.countMs >= n then r.countMs - n else 0)
    decreases n
  {
    if n > 0 {
      TicksWithinSecond(MillisecondTick(r), n - 1);
    }
  }

  /** From a valid millisecond count, the clock reaches the next second after
      exactly the remaining milliseconds: seconds and uptime rise by one and
      the milliseconds restart at 0. */
  lemma SecondRollover(r: Rtc)
    requires r.millis < MsPerSecond
    ensures var n := MsPerSecond - r.millis;
            Ticks(r, n) == Rtc(Wrap32(r.uptime + 1), Wrap32(r.seconds + 1), 0,
                               if r.countMs >= n then r.countMs - n else 0)
  {
    var n := MsPerSecond - r.millis;
    TicksWithinSecond(r, n - 1);
    var before := Ticks(r, n - 1);
    TicksLast(r, n);
    assert Ticks(r, n) == MillisecondTick(before);
  }

  /** The last of `n` ticks. */
  lemma {:induction false} TicksLast(r: Rtc, n: nat)
    requires n > 0
    ensures Ticks(r, n) == MillisecondTick(Ticks(r, n - 1))
    decreases n
  {
    if n > 1 {
      TicksLast(MillisecondTick(r), n - 1);
    }
  }

  // ---------------------------------------------------------------------
  // Channel 1: radio-event capture and the precise transmit strobe

  /** Channel 1's configuration: capture on a radio event, or compare and
      count down `delay` interrupts; `enabled` is its interrupt mask. */
  datatype Channel1 = Channel1(capture: bool, enabled: bool, delay: byte)

  /** Channel 1 of `t1_isr`: a capture disables the channel; in compare mode
      the 8-bit delay is pre-decremented and the strobe fires when it
      reaches 0, which also disables the interrupt. Returns the new
      configuration and whether the transmitter was strobed. */
  function Channel1Event(c: Channel1): (Channel1, bool)
  {
    if c.capture then (Channel1(false, false, c.delay), false)
    else
      var d := (c.delay - 1) % 0x100;
      if d == 0 then (Channel1(false, false, 0), true)
      else (Channel1(false, c.enabled, d), false)
  }

  /** `timers_trigger_for_RF`: compare mode with the precise-timing delay. */
  const Triggered: Channel1 := Channel1(false, true, RfPreciseTimingDelay)

  /** After the trigger the transmitter is strobed on exactly the third
      channel-1 interrupt, which also disables the channel. */
  lemma StrobeOnThirdEvent()
    ensures var (c1, s1) := Channel1Event(Triggered);
            var (c2, s2) := Channel1Event(c1);
            var (c3, s3) := Channel1Event(c2);
            !s1 && !s2 && s3 && !c3.enabled && c1.enabled && c2.enabled
  {
  }

  /** Which interrupt flag the timer-1 interrupt finds set. */
  datatype Flag = Channel0 | Channel1Flag | NoFlag

  class Clock {
    var uptime: u32
    var rtcSeconds: u32
    var rtcMilliseconds: u16
    /** Counts down once per millisecond; the scheduler reloads it. */
    var timerCountMs: u16
    var rtcSet: bool
    var channel1: Channel1

    ghost function Time(): Rtc
      reads this`uptime, this`rtcSeconds, this`rtcMilliseconds, this`timerCountMs
    {
      Rtc(uptime, rtcSeconds, rtcMilliseconds, timerCountMs)
    }

    /** `timers_init`: everything at 0 and the clock not yet set, so the
        scheduler's 100 ms step runs at once. The transmit delay is not
        initialised, and channel 1 starts disabled. */
    constructor ()
      ensures Time() == Rtc(0, 0, 0, 0) && !rtcSet && !channel1.enabled
    {
      uptime := 0;
      timerCountMs := 0;
      rtcSet := false;
      rtcSeconds := 0;
      rtcMilliseconds := 0;
      channel1 := Channel1(false, false, 0);
    }

    /** `timers_get_time`, with `fine` the timer count read from the
        hardware. Changes nothing; on a running clock the time is normalised
        and its milliseconds are the clock's. */
    method GetTime(fine: u16) returns (t: Timespec)
      ensures t.seconds == rtcSeconds
      ensures t.nanoseconds == NanosOf(rtcMilliseconds, fine)
      ensures rtcMilliseconds < MsPerSecond && fine < T1Period ==>
                Normalised(t) && MillisOf(t.nanoseconds) == rtcMilliseconds
    {
      var ms := rtcMilliseconds;
      t := Timespec(rtcSeconds, Wrap32(ms * NsPerMs + fine * T1Tick));
      if ms < MsPerSecond && fine < T1Period {
        ReadThenSet(ms, fine);
      }
    }

    /** `timers_set_time`: the nanoseconds are not range-checked. */
    method SetTime(t: Timespec)
      modifies this`rtcMilliseconds, this`rtcSeconds, this`rtcSet
      ensures rtcMilliseconds == MillisOf(t.nanoseconds)
      ensures rtcSeconds == t.seconds && rtcSet
    {
      var milliseconds := Wrap16(t.nanoseconds / NsPerMs);
      rtcMilliseconds := milliseconds;
      rtcSeconds := t.seconds;
      rtcSet := true;
    }

    /** `timers_watch_for_RF`: channel 1 captures the next radio event. */
    method WatchForRf()
      modifies this`channel1
      ensures channel1 == Channel1(true, true, old(channel1.delay))
    {
      channel1 := Channel1(true, true, channel1.delay);
    }

    /** `timers_trigger_for_RF`: channel 1 counts down to the strobe. */
    method TriggerForRf()
      modifies this`channel1
      ensures channel1 == Triggered
    {
      channel1 := Channel1(false, true, RfPreciseTimingDelay);
    }

    /** `t1_isr`: the channel-0 flag takes precedence over channel 1. */
    method Interrupt(flag: Flag) returns (strobe: bool)
      modifies this
      ensures flag == Channel0 ==>
                Time() == MillisecondTick(old(Time())) && channel1 == old(channel1) && !strobe
      ensures flag == Channel1Flag ==>
                Time() == old(Time()) && (channel1, strobe) == Channel1Event(old(channel1))
      ensures flag == NoFlag ==> Time() == old(Time()) && channel1 == old(channel1) && !strobe
      ensures rtcSet == old(rtcSet)
    {
      strobe := false;
      if flag == Channel0 {
        rtcMilliseconds := Wrap16(rtcMilliseconds + 1);
        if timerCountMs != 0 {
          timerCountMs := timerCountMs - 1;
        }
        if rtcMilliseconds >= 1000 {
          rtcMilliseconds := 0;
          rtcSeconds := Wrap32(rtcSeconds + 1);
          uptime := Wrap32(uptime + 1);
        }
      } else if flag == Channel1Flag {
        if channel1.capture {
          channel1 := Channel1(false, false, channel1.delay);
        } else {
          var d := (channel1.delay - 1) % 0x100;
          channel1 := channel1.(delay := d);
          if d == 0 {
            strobe := true;
            channel1 := channel1.(enabled := false);
          }
        }
      }
    }
  }
}
