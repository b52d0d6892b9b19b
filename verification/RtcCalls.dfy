/** What a caller of the RTC gets, call by call, in exact arithmetic. */
module RtcCalls {
  import opened Arith
  import opened Codes
  import opened Clock
  import opened QTimer
  import opened Rtc
  import opened RtcRace
  import opened RtcRun

  /** The time that a clock set to `base` at count setCount shows, with the counter words read at c1 and c2
      and the ticks in 64 bits. */
  function ShownTime(base: Instant, setCount: nat, freq: nat, c1: nat, c2: nat): Instant
    requires freq > 0
  {
    var now := c2 / 0x1_0000_0000 * 0x1_0000_0000 + c1 % 0x1_0000_0000;
    Reading(base, (now - setCount) % 0x1_0000_0000_0000_0000, freq)
  }

  /** It is exact to the nanosecond. */
  lemma {:induction false} ShownSays(base: Instant, setCount: nat, freq: nat, c1: nat, c2: nat)
    requires Normal(base) && 0 < freq < 0x1_0000_0000
    ensures var now := c2 / 0x1_0000_0000 * 0x1_0000_0000 + c1 % 0x1_0000_0000;
            var t, ticks := ShownTime(base, setCount, freq, c1, c2), (now - setCount) % 0x1_0000_0000_0000_0000;
            0 <= t.ns < 1_000_000_000 && Total(t) == Total(base) + ticks * 1_000_000_000 / freq
  {
    var now := c2 / 0x1_0000_0000 * 0x1_0000_0000 + c1 % 0x1_0000_0000;
    ReadingExact(base, (now - setCount) % 0x1_0000_0000_0000_0000, freq);
  }

  /** When the low word did not roll over between the accesses, and the count is not before the stored one,
      it is the time at the first of them. */
  lemma {:induction false} WithoutRollOver(base: Instant, setCount: nat, freq: nat, c1: nat, c2: nat)
    requires Normal(base) && 0 < freq < 0x1_0000_0000
    requires c1 / 0x1_0000_0000 == c2 / 0x1_0000_0000 && setCount <= c1 < 0x1_0000_0000_0000_0000
    ensures ShownTime(base, setCount, freq, c1, c2) == Reading(base, c1 - setCount, freq)
    ensures Total(ShownTime(base, setCount, freq, c1, c2)) == Total(base) + Elapsed(c1 - setCount, freq)
  {
    TicksSince(setCount, c1, c2);
    ReadingExact(base, c1 - setCount, freq);
  }

  lemma {:induction false} TicksSince(setCount: nat, c1: nat, c2: nat)
    requires c1 / 0x1_0000_0000 == c2 / 0x1_0000_0000 && setCount <= c1 < 0x1_0000_0000_0000_0000
    ensures (c2 / 0x1_0000_0000 * 0x1_0000_0000 + c1 % 0x1_0000_0000 - setCount) % 0x1_0000_0000_0000_0000
            == c1 - setCount
  {
    DivMod(c1, 0x1_0000_0000);
    DivModUnique(c1 - setCount, 0x1_0000_0000_0000_0000, 0, c1 - setCount);
  }

  lemma {:induction false} ReadingShown(base: Instant, setCount: nat, freq: nat, c1: nat, c2: nat)
    requires freq > 0
    ensures Reading(base, Low64(TwoWordRead(c1, c2) - setCount), freq) == ShownTime(base, setCount, freq, c1, c2)
  {
    FromWords(c1, c2);
    LowIs(TwoWordRead(c1, c2) - setCount, 0x1_0000_0000_0000_0000);
  }

  /** Reading the clock: the time that was stored last plus the time since the count that was stored last.
      It is refused before a time was set, and only then, or at frequency 0. */
  method ReadClock(rtc: RtcDevice) returns (r: Code, t: Instant, ghost c1: nat, ghost c2: nat)
    requires rtc.Valid()
    modifies rtc.timer`hw
    ensures rtc.Valid() && rtc.timer.hw == old(rtc.timer.hw).(count := c2) && old(rtc.timer.hw.count) <= c1 <= c2
    ensures r == if !rtc.timeSet then ENODATA else if rtc.timer.freq == 0 then EIO else Success
    ensures r == Success ==> t == ShownTime(BaseIn(rtc.events), CountIn(rtc.events), rtc.timer.freq, c1, c2)
  {
    r, t, c1 := rtc.GetTime();
    c2 := rtc.timer.hw.count;
    if r == Success {
      ReadingShown(rtc.base, rtc.setCount, rtc.timer.freq, c1, c2);
    }
  }

  /** The value that a call returns is true, for a device whose clock was set by the call that stored its
      count at p and its time at q, exactly when no other call has stored a later count since p. */
  method ReadTrueIff(rtc: RtcDevice, ghost p: nat, ghost q: nat)
    returns (r: Code, t: Instant, ghost c1: nat, ghost c2: nat)
    requires rtc.Valid() && rtc.timer.freq <= 1_000_000_000 && Ascending(rtc.events)
    requires p < q < |rtc.events| && rtc.events[p].Store? && rtc.events[q].Commit?
    requires rtc.events[q].call == rtc.events[p].call
    requires forall j :: q < j < |rtc.events| ==> rtc.events[j].Store?
    modifies rtc.timer`hw
    ensures old(rtc.timer.hw.count) <= c1 <= c2
    ensures r == Success ==>
              TrueUnlessOvertaken(rtc.events, p, rtc.events[q].t, rtc.timer.freq, c1, c2, t)
  {
    r, t, c1, c2 := ReadClock(rtc);
    if r == Success {
      LastCommit(rtc.events, q);
      Overtaken(rtc.events, p, q, rtc.timer.freq, c1, c2, t);
    }
  }

  /** `t` is the time `base` plus the time since the count stored at p, exactly when no later count was stored
      after p; said of counter readings without a roll-over. */
  predicate TrueUnlessOvertaken(events: seq<Event>, p: nat, base: Instant, freq: nat, c1: nat, c2: nat, t: Instant)
    requires p < |events| && events[p].Store?
  {
    freq > 0 && c1 / 0x1_0000_0000 == c2 / 0x1_0000_0000 && CountIn(events) <= c1 < 0x1_0000_0000_0000_0000 ==>
      && events[p].count <= c1
      && (t == Reading(base, c1 - events[p].count, freq)
          <==> !exists j :: p < j < |events| && events[j].Store? && events[j].count > events[p].count)
  }

  lemma {:induction false} Overtaken(events: seq<Event>, p: nat, q: nat, freq: nat, c1: nat, c2: nat, t: Instant)
    requires p < q < |events| && events[p].Store? && events[q].Commit? && events[q].call == events[p].call
    requires forall j :: q < j < |events| ==> events[j].Store?
    requires Ascending(events) && Normal(events[q].t) && 0 < freq <= 1_000_000_000
    requires t == ShownTime(events[q].t, CountIn(events), freq, c1, c2) && events[q].t == BaseIn(events)
    ensures TrueUnlessOvertaken(events, p, events[q].t, freq, c1, c2, t)
  {
    if c1 / 0x1_0000_0000 == c2 / 0x1_0000_0000 && CountIn(events) <= c1 < 0x1_0000_0000_0000_0000 {
      WithoutRollOver(BaseIn(events), CountIn(events), freq, c1, c2);
      ReadingTrueIff(events, p, q, c1, freq);
    }
  }

  /** Setting the clock.  An invalid time changes nothing.  Without a stored alarm a valid one always
      succeeds.  An alarm before the new time is an error; any other is armed if its count, in 64 bits, has
      not passed by the second counter reading and fits the register, and is an error if not. */
  method SetClock(rtc: RtcDevice, t: Instant, valid: bool) returns (r: Code, ghost k: Reads)
    requires rtc.Valid() && (valid ==> 0 <= t.ns < 1_000_000_000)
    modifies rtc, rtc.timer
    ensures rtc.Valid() && rtc.alarmMask == old(rtc.alarmMask) && rtc.alarm == old(rtc.alarm)
    ensures !valid ==> r == EINVAL && rtc.base == old(rtc.base) && rtc.setCount == old(rtc.setCount)
    ensures valid ==> rtc.base == t && old(rtc.timer.hw.count) <= rtc.setC1 <= rtc.setC2 <= k.c1
    ensures rtc.setCount == TwoWordRead(rtc.setC1, rtc.setC2) && rtc.setC2 <= rtc.timer.hw.count
    ensures valid ==> r == SetCode(rtc.alarmMask, t, rtc.alarm, rtc.timer.freq, k)
    ensures rtc.timeSet == (old(rtc.timeSet) || r == Success)
  {
    r, k := rtc.SetTime(t, valid);
    if valid {
      SetSays(rtc.alarmMask, t, rtc.alarm, rtc.timer.freq, k);
    }
  }

  function SetCode(mask: nat, t: Instant, alarm: Instant, freq: nat, k: Reads): Code {
    if mask == 0 then Success
    else if Total(alarm) < Total(t) then EINVAL
    else
      var due := TwoWordRead(k.c1, k.c2) + (Total(alarm) - Total(t)) * freq / 1_000_000_000;
      if TwoWordRead(k.c3, k.c4) <= due % 0x1_0000_0000_0000_0000 < 0x100_0000_0000_0000 then Success else EIO
  }

  lemma {:induction false} SetSays(mask: nat, t: Instant, alarm: Instant, freq: nat, k: Reads)
    requires Normal(t) && Normal(alarm)
    ensures Rearmed(mask, t, alarm, freq, k) == SetCode(mask, t, alarm, freq, k)
  {
    RearmedSays(mask, t, alarm, freq, k);
  }

  /** Setting an alarm: an empty mask or a missing time cancels, which always succeeds; a second alarm, an
      invalid time or one before the clock's base is an error; any other is armed if none is armed and its
      count is in time, as for SetClock.  A refused alarm leaves the stored one. */
  method SetAlarmClock(rtc: RtcDevice, id: nat, mask: nat, t: Instant, isNull: bool, valid: bool)
    returns (r: Code, ghost k: Reads)
    requires rtc.Valid() && (valid ==> 0 <= t.ns < 1_000_000_000)
    modifies rtc, rtc.timer
    ensures rtc.Valid() && rtc.base == old(rtc.base)
    ensures mask == 0 || isNull ==> r == Success && rtc.alarmMask == 0 && rtc.timer.hw.imsk
    ensures mask != 0 && !isNull && (id > 0 || !valid) ==> r == EINVAL
    ensures mask != 0 && !isNull && id == 0 && valid ==>
              && r == AlarmCode(old(rtc.timer.hw.imsk), rtc.base, t, rtc.timer.freq, k)
              && (r == Success ==> rtc.alarm == t && rtc.alarmMask == mask && !rtc.timer.hw.imsk)
    ensures r != Success ==> rtc.alarm == old(rtc.alarm) && rtc.alarmMask == old(rtc.alarmMask)
  {
    r, k := rtc.AlarmSetTime(id, mask, t, isNull, valid);
    if mask != 0 && !isNull && id == 0 && valid {
      AlarmSays(old(rtc.timer.hw.imsk), rtc.base, t, rtc.timer.freq, k);
    }
  }

  /** `free`: no alarm is armed. */
  function AlarmCode(free: bool, base: Instant, t: Instant, freq: nat, k: Reads): Code {
    if Total(t) < Total(base) then EINVAL else if free then SetCode(1, base, t, freq, k) else EIO
  }

  lemma {:induction false} AlarmSays(free: bool, base: Instant, t: Instant, freq: nat, k: Reads)
    requires Normal(base) && Normal(t)
    ensures AlarmCode(free, base, t, freq, k) ==
            if !AtOrBefore(base, t) then EINVAL else if free && Taken(base, t, freq, k) then Success else EIO
  {
    OrderIsTotal(base, t);
    SetSays(1, base, t, freq, k);
  }

  /** Setting the clock and reading it after any calls, ticks and interrupts that do not set it again: the
      reading is the time set plus the time since the count n at which it was set, whenever the low word of
      the counter rolled over in neither of the two counter readings. */
  method SetRunRead(rtc: RtcDevice, t: Instant, calls: seq<Call>)
    returns (done: Code, r: Code, shown: Instant, ghost n: nat, ghost n2: nat, ghost c1: nat, ghost c2: nat)
    requires rtc.Valid() && Normal(t) && forall c | c in calls :: Proper(c) && !SetsClock(c)
    modifies rtc, rtc.timer
    ensures rtc.Valid() && old(rtc.timer.hw.count) <= n <= n2 <= c1 <= c2
    ensures done == Success ==> r == if rtc.timer.freq == 0 then EIO else Success
    ensures done == Success && r == Success ==> shown == ShownTime(t, TwoWordRead(n, n2), rtc.timer.freq, c1, c2)
    ensures done == Success && r == Success && Steady(n, n2) && Steady(c1, c2) ==>
              Total(shown) == Total(t) + Elapsed(c1 - n, rtc.timer.freq)
  {
    done := SetAndRun(rtc, t, calls);
    n, n2 := rtc.setC1, rtc.setC2;
    r, shown, c1, c2 := ReadClock(rtc);
    if r == Success && Steady(n, n2) && Steady(c1, c2) {
      SetThenRead(t, n, n2, c1, c2, rtc.timer.freq);
    }
  }

  method SetAndRun(rtc: RtcDevice, t: Instant, calls: seq<Call>) returns (done: Code)
    requires rtc.Valid() && Normal(t) && forall c | c in calls :: Proper(c) && !SetsClock(c)
    modifies rtc, rtc.timer
    ensures rtc.Valid() && rtc.base == t && (done == Success ==> rtc.timeSet)
    ensures old(rtc.timer.hw.count) <= rtc.setC1 <= rtc.setC2 <= rtc.timer.hw.count
    ensures rtc.setCount == TwoWordRead(rtc.setC1, rtc.setC2)
  {
    ghost var k;
    done, k := rtc.SetTime(t, true);
    AnyRun(rtc, calls);
  }

  /** The low word of the counter did not roll over between two accesses, and the count fits in 64 bits. */
  predicate Steady(c1: nat, c2: nat) {
    c1 / 0x1_0000_0000 == c2 / 0x1_0000_0000 && c1 < 0x1_0000_0000_0000_0000
  }

  lemma {:induction false} SetThenRead(t: Instant, n: nat, n2: nat, c1: nat, c2: nat, freq: nat)
    requires Normal(t) && 0 < freq < 0x1_0000_0000 && n <= c1 && Steady(n, n2) && Steady(c1, c2)
    ensures TwoWordRead(n, n2) == n
    ensures Total(ShownTime(t, n, freq, c1, c2)) == Total(t) + Elapsed(c1 - n, freq)
  {
    FromWords(n, n2);
    DivMod(n, 0x1_0000_0000);
    WithoutRollOver(t, n, freq, c1, c2);
  }
}
