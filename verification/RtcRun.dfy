/** Whole runs of the RTC and its timer. */
module RtcRun {
  import opened Clock
  import opened QTimer
  import opened Rtc

  datatype Call =
    | SetTime(t: Instant, valid: bool)
    | BeginSetTime
    | EndSetTime(call: nat, t: Instant)
    | GetTime
    | SetAlarm(id: nat, mask: nat, t: Instant, isNull: bool, valid: bool)
    | IsPending
    | SetCallback(present: bool)
    | Cancel
    | Start
    | Stop
    | Tick
    | Interrupt

  predicate Proper(c: Call) {
    match c
    case SetTime(t, valid) => valid ==> Normal(t)
    case EndSetTime(_, t) => Normal(t)
    case SetAlarm(_, _, t, _, valid) => valid ==> Normal(t)
    case _ => true
  }

  /** Calls that may arm the timer. */
  predicate Arms(c: Call) { c.SetTime? || c.EndSetTime? || c.SetAlarm? }

  /** Calls that store a count or a time. */
  predicate SetsClock(c: Call) { c.SetTime? || c.BeginSetTime? || c.EndSetTime? }

  function CountSets(calls: seq<Call>): nat {
    if calls == [] then 0 else CountSets(calls[..|calls| - 1]) + if Arms(calls[|calls| - 1]) then 1 else 0
  }

  /** Any run of calls, ticks and interrupts keeps the invariant, also with other calls between the two
      steps of setting the clock.  Alarms are conserved: what was
      armed has fired, was dropped, or is the one armed alarm, and every firing was delivered once.
      An alarm that was set fires once at most, and once more for each time that setting the clock
      armed it anew after it was served.  An armed compare value is the count read after the clock was
      last set plus floor(D * freq / 10^9), in 64 bits. */
  method AnyRun(rtc: RtcDevice, calls: seq<Call>)
    requires rtc.Valid() && forall c | c in calls :: Proper(c)
    modifies rtc, rtc.timer
    ensures rtc.Valid()
    ensures rtc.timer.arms == rtc.timer.fired + rtc.timer.cancelled + if rtc.timer.hw.imsk then 0 else 1
    ensures rtc.timer.fired == rtc.called + rtc.flagged <= rtc.alarmsSet + rtc.again
    ensures rtc.timer.arms - old(rtc.timer.arms) <= CountSets(calls)
    ensures rtc.timer.hw.count >= old(rtc.timer.hw.count) && (old(rtc.timeSet) ==> rtc.timeSet)
    ensures (forall c | c in calls :: !SetsClock(c)) ==>
              HeldBy(rtc) == old(HeldBy(rtc)) && rtc.base == old(rtc.base) && rtc.setCount == old(rtc.setCount)
    ensures !rtc.timer.hw.imsk ==>
              && rtc.alarmMask != 0 && rtc.base == BaseIn(rtc.events) && AtOrBefore(rtc.base, rtc.alarm)
              && Between(rtc.baseAt, rtc.armReads, rtc.timer.hw.count)
              && Cval(rtc.timer.hw) == Low64(First(rtc.armReads) + AlarmTicks(rtc.base, rtc.alarm, rtc.timer.freq))
              && Second(rtc.armReads) <= Cval(rtc.timer.hw) < 0x100_0000_0000_0000
  {
    var i := 0;
    while i < |calls|
      invariant 0 <= i <= |calls| && rtc.Valid()
      invariant rtc.timer.arms - old(rtc.timer.arms) <= CountSets(calls[..i])
      invariant rtc.timer.hw.count >= old(rtc.timer.hw.count) && (old(rtc.timeSet) ==> rtc.timeSet)
      invariant (forall c | c in calls :: !SetsClock(c)) ==> HeldBy(rtc) == old(HeldBy(rtc))
    {
      assert calls[..i + 1][..i] == calls[..i];
      assert calls[i] in calls;
      OneCall(rtc, calls[i]);
      i := i + 1;
    }
    assert calls[..i] == calls;
  }

  /** What only the calls that set the clock change. */
  datatype Held = Held(events: seq<Event>, timeSet: bool, setC1: nat, setC2: nat)

  ghost function HeldBy(rtc: RtcDevice): Held
    reads rtc
  {
    Held(rtc.events, rtc.timeSet, rtc.setC1, rtc.setC2)
  }

  method OneCall(rtc: RtcDevice, c: Call)
    requires rtc.Valid() && Proper(c)
    modifies rtc, rtc.timer
    ensures rtc.Valid()
    ensures rtc.timer.arms <= old(rtc.timer.arms) + if Arms(c) then 1 else 0
    ensures rtc.timer.hw.count >= old(rtc.timer.hw.count) && (old(rtc.timeSet) ==> rtc.timeSet)
    ensures !SetsClock(c) ==> HeldBy(rtc) == old(HeldBy(rtc))
  {
    if SetsClock(c) {
      ClockCall(rtc, c);
    } else if c.GetTime? || c.SetAlarm? || c.IsPending? || c.SetCallback? {
      AlarmCall(rtc, c);
    } else if c.Cancel? || c.Start? || c.Stop? {
      TimerCall(rtc, c);
    } else {
      Happens(rtc, c);
    }
  }

  method ClockCall(rtc: RtcDevice, c: Call)
    requires rtc.Valid() && Proper(c) && SetsClock(c)
    modifies rtc, rtc.timer
    ensures rtc.Valid()
    ensures rtc.timer.arms <= old(rtc.timer.arms) + if Arms(c) then 1 else 0
    ensures rtc.timer.hw.count >= old(rtc.timer.hw.count) && (old(rtc.timeSet) ==> rtc.timeSet)
  {
    match c
    case SetTime(t, valid) => var _, _ := rtc.SetTime(t, valid);
    case BeginSetTime => ghost var _ := rtc.StoreCount();
    case EndSetTime(call, t) => var _, _ := rtc.CommitTime(t, call);
  }

  method AlarmCall(rtc: RtcDevice, c: Call)
    requires rtc.Valid() && Proper(c) && (c.GetTime? || c.SetAlarm? || c.IsPending? || c.SetCallback?)
    modifies rtc, rtc.timer
    ensures rtc.Valid()
    ensures rtc.timer.arms <= old(rtc.timer.arms) + if Arms(c) then 1 else 0
    ensures rtc.timer.hw.count >= old(rtc.timer.hw.count) && HeldBy(rtc) == old(HeldBy(rtc))
  {
    match c
    case GetTime => var _, _, _ := rtc.GetTime();
    case SetAlarm(id, mask, t, isNull, valid) => var _, _ := rtc.AlarmSetTime(id, mask, t, isNull, valid);
    case IsPending => var _ := rtc.AlarmIsPending();
    case SetCallback(present) => rtc.AlarmSetCallback(present);
  }

  /** The calls that reach the timer directly. */
  method TimerCall(rtc: RtcDevice, c: Call)
    requires rtc.Valid() && (c.Cancel? || c.Start? || c.Stop?)
    modifies rtc, rtc.timer
    ensures rtc.Valid() && rtc.timer.arms == old(rtc.timer.arms) && rtc.timer.hw.count >= old(rtc.timer.hw.count)
    ensures HeldBy(rtc) == old(HeldBy(rtc))
  {
    match c
    case Cancel => rtc.timer.CancelAlarm();
    case Start => rtc.timer.Start();
    case Stop => rtc.timer.Stop();
  }

  /** What happens by itself. */
  method Happens(rtc: RtcDevice, c: Call)
    requires rtc.Valid() && (c.Tick? || c.Interrupt?)
    modifies rtc, rtc.timer
    ensures rtc.Valid() && rtc.timer.arms == old(rtc.timer.arms) && rtc.timer.hw.count >= old(rtc.timer.hw.count)
    ensures HeldBy(rtc) == old(HeldBy(rtc))
  {
    match c
    case Tick => rtc.timer.Tick();
    case Interrupt =>
      if Line(rtc.timer.hw) {
        var _ := rtc.Interrupt();
      }
  }
}
