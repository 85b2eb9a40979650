// The application's scheduled events: the automatic reboot deadline, which
// commands may postpone up to a cap, and the 100 ms step that re-arms a
// receiver that has heard nothing for too long.
module Schedule {
  import opened Bytes
  import Timers
  import Radio

  const AutoRebootSeconds: u32 := 600
  /** Longest postponement a command may ask for: one week. */
  const AutoRebootMax: u32 := 604800
  /** 100 ms steps without a received packet before the receiver is reset. */
  const MaxRxTicks: u16 := 50

  /** Status codes of `schedule_postpone_reboot`. */
  const Postponed: byte := 0
  const TooLong: byte := 1

  /** `schedule_postpone_reboot` on values: the new deadline and the status.
      A request above the cap changes nothing. */
  function Postpone(autoReboot: u32, uptime: u32, postpone: u32): (r: (u32, byte))
    ensures r.1 == Postponed <==> postpone <= AutoRebootMax
    ensures r.1 == TooLong <==> postpone > AutoRebootMax
    ensures r.1 == TooLong ==> r.0 == autoReboot
  {
    if postpone > AutoRebootMax then (autoReboot, TooLong)
    else (Wrap32(uptime + postpone), Postponed)
  }

  /** The reboot is due once the uptime reaches a non-zero deadline. */
  predicate RebootDue(autoReboot: u32, uptime: u32)
    ensures autoReboot == 0 ==> !RebootDue(autoReboot, uptime)
    ensures RebootDue(autoReboot, uptime) ==> uptime > 0
    ensures uptime == 0xFFFF_FFFF ==> (RebootDue(autoReboot, uptime) <==> autoReboot != 0)
  {
    autoReboot != 0 && uptime >= autoReboot
  }

  /** An accepted postponement that does not wrap delays the reboot by
      exactly the requested seconds: it is due at a later uptime iff that
      uptime is at least `postpone` seconds on. A deadline of 0 (postponing
      by 0 at uptime 0, or a wrap to 0) switches the reboot off for good. */
  lemma PostponeDelaysReboot(autoReboot: u32, uptime: u32, postpone: u32, later: u32)
    requires postpone <= AutoRebootMax && uptime + postpone < 0x1_0000_0000
    ensures var (deadline, _) := Postpone(autoReboot, uptime, postpone);
            deadline != 0 ==> (RebootDue(deadline, later) <==> later >= uptime + postpone)
    ensures Postpone(autoReboot, uptime, postpone).0 == 0 ==>
              forall t: u32 :: !RebootDue(Postpone(autoReboot, uptime, postpone).0, t)
  {
  }

  /** One 100 ms step of the receive-tick counter: the 16-bit pre-increment
      and, at the limit, the reset that re-arms the receiver. */
  function RxTick(ticks: u16): (r: (u16, bool))
    ensures r.1 <==> Wrap16(ticks + 1) >= MaxRxTicks
  {
    var t := Wrap16(ticks + 1);
    if t >= MaxRxTicks then (0, true) else (t, false)
  }

  /** The counter after `n` steps with no packet received, and how many times
      the receiver was re-armed. */
  function RxTicks(ticks: u16, n: nat): (u16, nat)
    decreases n
  {
    if n == 0 then (ticks, 0)
    else
      var (t, rearm) := RxTick(ticks);
      var (t', count) := RxTicks(t, n - 1);
      (t', count + if rearm then 1 else 0)
  }

  /** From a counter below the limit and no packet received, the receiver is
      re-armed once every 50 steps (5 seconds). */
  lemma {:induction false} RearmedEveryFiftySteps(ticks: u16, n: nat)
    requires ticks < MaxRxTicks
    ensures RxTicks(ticks, n) == ((ticks + n) % MaxRxTicks as int, (ticks + n) / MaxRxTicks as int)
    decreases n
  {
    if n > 0 {
      var (t, rearm) := RxTick(ticks);
      RearmedEveryFiftySteps(t, n - 1);
      if rearm {
        assert ticks + 1 == MaxRxTicks as int;
        assert (ticks + n) % 50 == (n - 1) % 50;
        assert (ticks + n) / 50 == (n - 1) / 50 + 1;
      } else {
        assert t == ticks + 1;
      }
    }
  }

  class Scheduler {
    var autoReboot: u32
    const clock: Timers.Clock
    const radio: Radio.RadioLink

    /** `schedule_init`: the deadline starts `AutoRebootSeconds` after the
        current uptime. */
    constructor (clock: Timers.Clock, radio: Radio.RadioLink)
      ensures this.clock == clock && this.radio == radio
      ensures autoReboot == Wrap32(clock.uptime + AutoRebootSeconds as int)
    {
      this.clock := clock;
      this.radio := radio;
      autoReboot := Wrap32(clock.uptime + AutoRebootSeconds as int);
    }

    /** `schedule_postpone_reboot`. */
    method PostponeReboot(postpone: u32) returns (status: byte)
      modifies this`autoReboot
      ensures (autoReboot, status) == Postpone(old(autoReboot), clock.uptime, postpone)
    {
      if postpone > AutoRebootMax {
        return TooLong;
      }
      autoReboot := Wrap32(clock.uptime + postpone);
      status := Postponed;
    }

    /** `schedule_handle_events`. A due reboot does not return, so nothing
        else happens; otherwise, when the 100 ms countdown has run out, it is
        reloaded and the receive-tick counter steps, re-arming the receiver
        at its limit. The telemetry snapshot and ADC sampling are not part of
        this model. */
    method HandleEvents() returns (reboot: bool)
      modifies clock`timerCountMs, radio`lastRxTicks, radio`rxComplete, radio`events
      ensures reboot <==> RebootDue(autoReboot, clock.uptime)
      ensures reboot || old(clock.timerCountMs) != 0 ==>
                clock.timerCountMs == old(clock.timerCountMs) && radio.lastRxTicks == old(radio.lastRxTicks) &&
                radio.events == old(radio.events) && radio.rxComplete == old(radio.rxComplete)
      ensures !reboot && old(clock.timerCountMs) == 0 ==>
                clock.timerCountMs == Timers.TimerCountPeriod &&
                (radio.lastRxTicks, radio.events != old(radio.events)) == RxTick(old(radio.lastRxTicks)) &&
                radio.events == old(radio.events) + (if RxTick(old(radio.lastRxTicks)).1 then [Radio.Listened] else []) &&
                radio.rxComplete == (old(radio.rxComplete) && !RxTick(old(radio.lastRxTicks)).1)
    {
      if autoReboot != 0 && clock.uptime >= autoReboot {
        return true;
      }
      reboot := false;
      if clock.timerCountMs == 0 {
        clock.timerCountMs := Timers.TimerCountPeriod;
        radio.lastRxTicks := Wrap16(radio.lastRxTicks + 1);
        if radio.lastRxTicks >= MaxRxTicks {
          radio.lastRxTicks := 0;
          radio.Listen();
        }
      }
    }
  }
}
