/** The software RTC, the qtimer's only client: set and read the time, one alarm, its callback. */
module Rtc {
  import opened Arith
  import opened Codes
  import opened Clock
  import opened QTimer

  /** What 64 bits keep of a number. */
  function Low64(a: int): (r: nat)
    ensures r < 0x1_0000_0000_0000_0000
  {
    Low(a, 0x1_0000_0000_0000_0000)
  }

  /** The compare count that an alarm should get: the current count plus the ticks, in 64 bits. */
  function DueCount(base: Instant, alarm: Instant, freq: nat, now: int): nat {
    Low64(now + AlarmTicks(base, alarm, freq))
  }

  /** Ticks for a difference as the code computes them. */
  function Ticks64(d: Instant, freq: nat): nat { Low64(Low64(d.sec * freq) + d.ns * freq / 1_000_000_000) }

  /** The borrow and the conversion of the code. */
  method TicksUntil(base: Instant, t: Instant, freq: nat) returns (ticks: nat)
    requires Normal(base) && Normal(t) && AtOrBefore(base, t)
    ensures ticks == Low64(AlarmTicks(base, t, freq))
  {
    CodeTicks(base, t, freq);
    var diffSec, diffNs := t.sec - base.sec, t.ns - base.ns;
    if diffNs < 0 {
      diffNs := diffNs + 1_000_000_000;
      diffSec := diffSec - 1;
    }
    ticks := Low64(diffSec * freq);
    ticks := Low64(ticks + diffNs * freq / 1_000_000_000);
  }

  /** Cutting every intermediate result to 64 bits loses no more than cutting the ticks once. */
  lemma {:induction false} CodeTicks(base: Instant, t: Instant, freq: nat)
    requires Normal(base) && Normal(t) && AtOrBefore(base, t)
    ensures Ticks64(Diff(base, t), freq) == Low64(AlarmTicks(base, t, freq)) && AlarmTicks(base, t, freq) >= 0
  {
    AlarmTicksExact(base, t, freq);
    var d := Diff(base, t);
    LowAdd(d.sec * freq, d.ns * freq / 1_000_000_000);
  }

  /** The compare count is now + floor(D * freq / 10^9), D the nanoseconds from set time to alarm
      time, exactly when that number fits in 64 bits. */
  lemma {:induction false} DueCountIff(base: Instant, alarm: Instant, freq: nat, now: nat)
    requires Normal(base) && Normal(alarm) && AtOrBefore(base, alarm)
    ensures var exact := now + (Total(alarm) - Total(base)) * freq / 1_000_000_000;
            && exact >= 0 && DueCount(base, alarm, freq, now) == Low64(exact)
            && (DueCount(base, alarm, freq, now) == exact <==> exact < 0x1_0000_0000_0000_0000)
  {
    AlarmTicksExact(base, alarm, freq);
    LowIff(now + AlarmTicks(base, alarm, freq));
  }

  lemma {:induction false} LowIff(a: nat)
    ensures Low64(a) == a <==> a < 0x1_0000_0000_0000_0000
  {
  }

  /** The counts at which one arming accesses the two counter words: c1 and c2 to add the current
      count, c3 and c4 to see whether the sum has passed. */
  datatype Reads = Reads(c1: nat, c2: nat, c3: nat, c4: nat)

  function First(k: Reads): int { TwoWordRead(k.c1, k.c2) }

  function Second(k: Reads): int { TwoWordRead(k.c3, k.c4) }

  predicate Between(lo: nat, k: Reads, hi: nat) { lo <= k.c1 <= k.c2 <= k.c3 <= k.c4 <= hi }

  /** Does a masked timer take the alarm? */
  predicate Taken(base: Instant, alarm: Instant, freq: nat, k: Reads) {
    InTime(DueCount(base, alarm, freq, First(k)), k)
  }

  /** What arming the stored alarm anew from a base gives. */
  function Rearmed(mask: nat, base: Instant, alarm: Instant, freq: nat, k: Reads): Code {
    if mask == 0 then Success
    else if !AtOrBefore(base, alarm) then EINVAL
    else if Taken(base, alarm, freq, k) then Success else EIO
  }

  /** A compare value that has not passed by the second reading and fits the register. */
  predicate InTime(value: int, k: Reads) { Second(k) <= value <= MAX }

  /** With the counter standing at n, every alarm that is not before the base and fits is taken; so
      setting the clock back to t after the alarm was served has it armed a second time. */
  lemma {:induction false} TakenAgain(t: Instant, alarm: Instant, freq: nat, n: nat)
    requires Normal(t) && Normal(alarm) && AtOrBefore(t, alarm) && n + AlarmTicks(t, alarm, freq) <= MAX
    ensures Taken(t, alarm, freq, Reads(n, n, n, n))
  {
    CodeTicks(t, alarm, freq);
    LowIff(n + AlarmTicks(t, alarm, freq));
  }

  /** For instance an alarm for second 10, set at second 0 of a 1 kHz clock and due at count 10000,
      when the clock is set back to second 5 at count 20000. */
  lemma {:induction false} ServedAlarmTakenAgain()
    ensures Taken(Instant(0, 0), Instant(10, 0), 1000, Reads(0, 0, 0, 0))
    ensures Taken(Instant(5, 0), Instant(10, 0), 1000, Reads(20000, 20000, 20000, 20000))
  {
    assert AlarmTicks(Instant(0, 0), Instant(10, 0), 1000) == 10000;
    assert AlarmTicks(Instant(5, 0), Instant(10, 0), 1000) == 5000;
    TakenAgain(Instant(0, 0), Instant(10, 0), 1000, 0);
    TakenAgain(Instant(5, 0), Instant(10, 0), 1000, 20000);
  }

  /** In exact arithmetic, and in 64 bits. */
  lemma {:induction false} TakenIff(base: Instant, alarm: Instant, freq: nat, k: Reads)
    requires Normal(base) && Normal(alarm) && AtOrBefore(base, alarm)
    ensures var exact := TwoWordRead(k.c1, k.c2) + (Total(alarm) - Total(base)) * freq / 1_000_000_000;
            && (Taken(base, alarm, freq, k) <==>
                  TwoWordRead(k.c3, k.c4) <= exact % 0x1_0000_0000_0000_0000 < 0x100_0000_0000_0000)
            && (exact < 0x1_0000_0000_0000_0000 ==>
                  (Taken(base, alarm, freq, k) <==> TwoWordRead(k.c3, k.c4) <= exact < 0x100_0000_0000_0000))
  {
    FromWords(k.c1, k.c2);
    DueCountIff(base, alarm, freq, First(k));
    LowIs(TwoWordRead(k.c1, k.c2) + (Total(alarm) - Total(base)) * freq / 1_000_000_000, 0x1_0000_0000_0000_0000);
  }

  /** What setting the clock to t gives: without a stored alarm it succeeds; an alarm before t is an error;
      any other is armed if its count, computed in 64 bits from the first counter reading, has not passed
      by the second and fits the register. */
  lemma {:induction false} RearmedSays(mask: nat, t: Instant, alarm: Instant, freq: nat, k: Reads)
    requires Normal(t) && Normal(alarm)
    ensures mask == 0 ==> Rearmed(mask, t, alarm, freq, k) == Success
    ensures mask != 0 && Total(alarm) < Total(t) ==> Rearmed(mask, t, alarm, freq, k) == EINVAL
    ensures mask != 0 && Total(alarm) >= Total(t) ==>
              var exact := TwoWordRead(k.c1, k.c2) + (Total(alarm) - Total(t)) * freq / 1_000_000_000;
              Rearmed(mask, t, alarm, freq, k) ==
              if TwoWordRead(k.c3, k.c4) <= exact % 0x1_0000_0000_0000_0000 < 0x100_0000_0000_0000 then Success
              else EIO
  {
    OrderIsTotal(t, alarm);
    if AtOrBefore(t, alarm) {
      TakenIff(t, alarm, freq, k);
    }
  }

  lemma {:induction false} LowAdd(a: int, b: int)
    ensures Low64(Low64(a) + b) == Low64(a + b)
  {
    LowIs(a, 0x1_0000_0000_0000_0000);
    LowIs(a % 0x1_0000_0000_0000_0000 + b, 0x1_0000_0000_0000_0000);
    LowIs(a + b, 0x1_0000_0000_0000_0000);
    ModAdd(a, b);
  }

  lemma {:induction false} ModAdd(a: int, b: int)
    ensures (a % 0x1_0000_0000_0000_0000 + b) % 0x1_0000_0000_0000_0000 == (a + b) % 0x1_0000_0000_0000_0000
  {
    var q := a / 0x1_0000_0000_0000_0000;
    assert a + b == q * 0x1_0000_0000_0000_0000 + (a % 0x1_0000_0000_0000_0000 + b);
  }

  /** The conversion of elapsed ticks to a time: seconds, remainder, carry. */
  method Convert(base: Instant, ticksElapsed: nat, freq: nat) returns (t: Instant)
    requires Normal(base) && 0 < freq < 0x1_0000_0000
    ensures t == Reading(base, ticksElapsed, freq)
    ensures Normal(t) && Total(t) == Total(base) + Elapsed(ticksElapsed, freq)
  {
    ReadingExact(base, ticksElapsed, freq);
    var elapsedSec := ticksElapsed / freq;
    var remTicks := ticksElapsed - elapsedSec * freq;
    var fracNs := remTicks * 1_000_000_000 / freq;
    var nowNsTotal := base.ns + fracNs;
    var carrySec := nowNsTotal / 1_000_000_000;
    t := Instant(base.sec + elapsedSec + carrySec, nowNsTotal - carrySec * 1_000_000_000);
  }

  /** What setting the clock does to the two fields that a reading uses: first the count is stored,
      before the lock is taken, then the time is stored under the lock.  `call` names the call. */
  datatype Event = Store(call: nat, count: nat) | Commit(call: nat, t: Instant)

  /** The count that was stored last. */
  function CountIn(events: seq<Event>): nat {
    if events == [] then 0
    else if events[|events| - 1].Store? then events[|events| - 1].count
    else CountIn(events[..|events| - 1])
  }

  /** The time that was stored last. */
  function BaseIn(events: seq<Event>): Instant {
    if events == [] then Instant(0, 0)
    else if events[|events| - 1].Commit? then events[|events| - 1].t
    else BaseIn(events[..|events| - 1])
  }

  /** The count and the time were stored by the same call. */
  predicate Matched(events: seq<Event>) {
    events != [] && events[|events| - 1].Commit? && StoredBy(events[..|events| - 1], events[|events| - 1].call)
  }

  /** The last count is that of this call. */
  predicate StoredBy(events: seq<Event>, call: nat) {
    events != []
    && if events[|events| - 1].Store? then events[|events| - 1].call == call
       else StoredBy(events[..|events| - 1], call)
  }

  class RtcDevice {
    const timer: Timer
    var base: Instant
    var setCount: nat
    var timeSet: bool
    var alarm: Instant
    var alarmMask: nat
    var alarmPending: bool
    var hasCallback: bool
    /** The stores to setCount and base so far. */
    ghost var events: seq<Event>
    /** The counts of the accesses behind setCount, when base was stored, and behind the armed
        compare value. */
    ghost var setC1: nat
    ghost var setC2: nat
    ghost var baseAt: nat
    ghost var armReads: Reads
    // bookkeeping for whole runs
    ghost var called: nat
    ghost var flagged: nat
    ghost var alarmsSet: nat
    ghost var rearmed: nat
    /** The stored alarm has fired; how often such an alarm was armed anew. */
    ghost var served: bool
    ghost var again: nat

    ghost predicate Valid()
      reads this, timer
    {
      Sound() && (!timer.hw.imsk ==> alarmMask != 0 && AtOrBefore(base, alarm) && Encodes())
    }

    /** What holds even while the base is being changed. */
    ghost predicate Sound()
      reads this, timer
    {
      && timer.Valid()
      && Normal(base) && Normal(alarm)
      && setC1 <= setC2 <= timer.hw.count && baseAt <= timer.hw.count
      && setCount == CountIn(events) && base == BaseIn(events)
      && setCount == TwoWordRead(setC1, setC2)
      && (Matched(events) ==> setC2 <= baseAt)
      && timer.fired == called + flagged
      && timer.arms == alarmsSet + rearmed
      && timer.fired + Open() <= alarmsSet + again
    }

    /** The compare value was computed from the stored alarm, the current base and a count that was
        read after the base was set. */
    ghost predicate Encodes()
      reads this, timer
    {
      && Between(baseAt, armReads, timer.hw.count) && InTime(Cval(timer.hw), armReads)
      && Cval(timer.hw) == DueCount(base, alarm, timer.freq, First(armReads))
    }

    /** Firings that may still come without another arming. */
    ghost function Open(): nat
      reads this, timer
    {
      if served then (if timer.hw.imsk then 0 else 1) else if alarmMask != 0 then 1 else 0
    }

    constructor (timer: Timer)
      requires timer.Valid() && timer.hw.imsk && timer.arms == 0 && timer.fired == 0
      modifies timer
      ensures Valid() && this.timer == timer && timer.hw.en && timer.hw.imsk
      ensures !timeSet && alarmMask == 0 && !alarmPending && !hasCallback && events == [] && !served
      ensures alarmsSet == 0 && rearmed == 0 && again == 0
    {
      this.timer := timer;
      base, setCount, timeSet := Instant(0, 0), 0, false;
      alarm, alarmMask, alarmPending, hasCallback := Instant(0, 0), 0, false, false;
      events, setC1, setC2, baseAt, armReads := [], 0, 0, 0, Reads(0, 0, 0, 0);
      called, flagged, alarmsSet, rearmed, served, again := 0, 0, 0, 0, false, 0;
      new;
      timer.Start();
    }

    /** Computes the compare count from the current base and the current count, and arms the timer
        there.  This says when it succeeds. */
    method AlarmSetTimeShared(t: Instant) returns (r: Code, ghost k: Reads)
      requires timer.Valid() && Normal(base) && Normal(t)
      modifies timer`hw, timer`hasCallback, timer`ticks, timer`arms
      ensures timer.Valid() && Between(old(timer.hw.count), k, timer.hw.count) && timer.hw.en == old(timer.hw.en)
      ensures r == if !AtOrBefore(base, t) then EINVAL
                   else if old(timer.hw.imsk) && Taken(base, t, timer.freq, k) then Success else EIO
      ensures !AtOrBefore(base, t) ==> timer.hw == old(timer.hw)
      ensures r == Success ==> !timer.hw.imsk && Cval(timer.hw) == DueCount(base, t, timer.freq, First(k))
                               && timer.arms == old(timer.arms) + 1
      ensures r != Success ==> timer.hw == old(timer.hw).(count := timer.hw.count) && timer.arms == old(timer.arms)
                               && timer.ticks == old(timer.ticks)
    {
      var c := timer.hw.count;
      k := Reads(c, c, c, c);
      if t.sec < base.sec || (t.sec == base.sec && t.ns < base.ns) {
        return EINVAL, k;
      }
      var ticks := TicksUntil(base, t, timer.freq);
      r, k := ArmAfter(ticks);
      LowAdd(AlarmTicks(base, t, timer.freq), First(k));
    }

    /** Adds the current count to the ticks and arms the timer there. */
    method ArmAfter(ticks: nat) returns (r: Code, ghost k: Reads)
      requires timer.Valid()
      modifies timer`hw, timer`hasCallback, timer`ticks, timer`arms
      ensures timer.Valid() && Between(old(timer.hw.count), k, timer.hw.count) && timer.hw.en == old(timer.hw.en)
      ensures var value := Low64(ticks + First(k));
              && r == (if old(timer.hw.imsk) && InTime(value, k) then Success else EIO)
              && (r == Success ==> !timer.hw.imsk && Cval(timer.hw) == value && timer.arms == old(timer.arms) + 1)
      ensures r != Success ==> timer.hw == old(timer.hw).(count := timer.hw.count) && timer.arms == old(timer.arms)
                               && timer.ticks == old(timer.ticks)
    {
      var ticksNow;
      ghost var c1, c3, c4;
      ticksNow, c1 := timer.GetValue64();
      ghost var c2 := timer.hw.count;
      var ret;
      ret, c3, c4 := timer.SetAlarmAbsolute(true, Low64(ticks + ticksNow));
      k := Reads(c1, c2, c3, c4);
      r := if ret == Success then Success else EIO;
    }

    /** Sets the clock, with nothing between its two steps.  A stored alarm, served or not, is cancelled
        and armed anew from the new base, exactly when it is not before that base and the timer takes
        it; if not, the base has changed all the same. */
    method SetTime(t: Instant, valid: bool) returns (r: Code, ghost k: Reads)
      requires Valid() && (valid ==> Normal(t))
      modifies this`setCount, this`setC1, this`setC2, this`base, this`baseAt, this`timeSet, this`events
      modifies this`armReads, this`rearmed, this`again
      modifies timer`hw, timer`hasCallback, timer`ticks, timer`arms, timer`cancelled
      ensures Valid() && timer.hw.count >= old(timer.hw.count)
      ensures r == if valid then Rearmed(alarmMask, t, alarm, timer.freq, k) else EINVAL
      ensures valid && alarmMask == 0 ==> r == Success
      ensures !valid ==> events == old(events) && setCount == old(setCount) && timer.hw == old(timer.hw)
      ensures valid ==>
                && events == old(events) + [Store(|old(events)|, setCount), Commit(|old(events)|, t)]
                && old(timer.hw.count) <= setC1 && Between(setC2, k, timer.hw.count)
                && (!timer.hw.imsk <==> alarmMask != 0 && r == Success)
      ensures timeSet == (old(timeSet) || r == Success)
      ensures valid && alarmMask != 0 && r == Success ==> armReads == k
      ensures rearmed == old(rearmed) + if valid && alarmMask != 0 && r == Success then 1 else 0
      ensures again == old(again) + if valid && alarmMask != 0 && r == Success && served then 1 else 0
      ensures valid ==> timer.cancelled == old(timer.cancelled) + if old(timer.hw.imsk) then 0 else 1
    {
      if valid {
        r, k := SetNormal(t);
      } else {
        r, k := EINVAL, armReads;
      }
    }

    /** Both steps for a valid time. */
    method SetNormal(t: Instant) returns (r: Code, ghost k: Reads)
      requires Valid() && Normal(t)
      modifies this`setCount, this`setC1, this`setC2, this`base, this`baseAt, this`timeSet, this`events
      modifies this`armReads, this`rearmed, this`again
      modifies timer`hw, timer`hasCallback, timer`ticks, timer`arms, timer`cancelled
      ensures Valid() && r == Rearmed(alarmMask, t, alarm, timer.freq, k) && (alarmMask == 0 ==> r == Success)
      ensures events == old(events) + [Store(|old(events)|, setCount), Commit(|old(events)|, t)]
      ensures old(timer.hw.count) <= setC1 && Between(setC2, k, timer.hw.count)
      ensures !timer.hw.imsk <==> alarmMask != 0 && r == Success
      ensures timeSet == (old(timeSet) || r == Success)
      ensures alarmMask != 0 && r == Success ==> armReads == k
      ensures rearmed == old(rearmed) + if alarmMask != 0 && r == Success then 1 else 0
      ensures again == old(again) + if alarmMask != 0 && r == Success && served then 1 else 0
      ensures timer.cancelled == old(timer.cancelled) + if old(timer.hw.imsk) then 0 else 1
    {
      ghost var call := StoreCount();
      r, k := CommitTime(t, call);
    }

    /** The first step of setting the clock, outside the lock: the current count is stored. */
    method StoreCount() returns (ghost call: nat)
      requires Valid()
      modifies this`setCount, this`setC1, this`setC2, this`events, timer`hw
      ensures Valid() && call == |old(events)| && events == old(events) + [Store(call, setCount)]
      ensures old(timer.hw.count) <= setC1 && timer.hw == old(timer.hw).(count := timer.hw.count)
    {
      var value;
      ghost var c1;
      value, c1 := timer.GetValue64();
      setCount := value;
      call := |events|;
      setC1, setC2, events := c1, timer.hw.count, events + [Store(call, value)];
    }

    /** The second step, under the lock: the time is stored and the alarm is armed anew. */
    method CommitTime(t: Instant, ghost call: nat) returns (r: Code, ghost k: Reads)
      requires Valid() && Normal(t)
      modifies this`base, this`baseAt, this`timeSet, this`events, this`armReads, this`rearmed, this`again
      modifies timer`hw, timer`hasCallback, timer`ticks, timer`arms, timer`cancelled
      ensures Valid() && events == old(events) + [Commit(call, t)]
      ensures r == Rearmed(alarmMask, t, alarm, timer.freq, k) && Between(old(timer.hw.count), k, timer.hw.count)
      ensures alarmMask == 0 ==> r == Success
      ensures !timer.hw.imsk <==> alarmMask != 0 && r == Success
      ensures timeSet == (old(timeSet) || r == Success)
      ensures alarmMask != 0 && r == Success ==> armReads == k
      ensures rearmed == old(rearmed) + if alarmMask != 0 && r == Success then 1 else 0
      ensures again == old(again) + if alarmMask != 0 && r == Success && served then 1 else 0
      ensures timer.cancelled == old(timer.cancelled) + if old(timer.hw.imsk) then 0 else 1
    {
      r, k := Rebase(t, call);
      timeSet := timeSet || r == Success;
    }

    /** The base changes and the stored alarm with it. */
    method Rebase(t: Instant, ghost call: nat) returns (r: Code, ghost k: Reads)
      requires Valid() && Normal(t)
      modifies this`base, this`baseAt, this`events, this`armReads, this`rearmed, this`again
      modifies timer`hw, timer`hasCallback, timer`ticks, timer`arms, timer`cancelled
      ensures Valid() && events == old(events) + [Commit(call, t)]
      ensures r == Rearmed(alarmMask, t, alarm, timer.freq, k) && Between(old(timer.hw.count), k, timer.hw.count)
      ensures !timer.hw.imsk <==> alarmMask != 0 && r == Success
      ensures alarmMask != 0 && r == Success ==> armReads == k
      ensures rearmed == old(rearmed) + if alarmMask != 0 && r == Success then 1 else 0
      ensures again == old(again) + if alarmMask != 0 && r == Success && served then 1 else 0
      ensures timer.cancelled == old(timer.cancelled) + if old(timer.hw.imsk) then 0 else 1
    {
      SetBase(t, call);
      r, k := ArmStored();
    }

    method SetBase(t: Instant, ghost call: nat)
      requires Sound() && Normal(t)
      modifies this`base, this`baseAt, this`events
      ensures Sound() && base == t && baseAt == timer.hw.count && events == old(events) + [Commit(call, t)]
    {
      base, baseAt, events := t, timer.hw.count, events + [Commit(call, t)];
    }

    /** Cancels the stored alarm, if there is one, and arms it anew from the current base. */
    method ArmStored() returns (r: Code, ghost k: Reads)
      requires Sound() && (alarmMask == 0 ==> timer.hw.imsk)
      modifies this`armReads, this`rearmed, this`again, timer`hw, timer`hasCallback, timer`ticks, timer`arms,
               timer`cancelled
      ensures Valid() && Between(old(timer.hw.count), k, timer.hw.count)
      ensures r == Rearmed(alarmMask, base, alarm, timer.freq, k)
      ensures !timer.hw.imsk <==> alarmMask != 0 && r == Success
      ensures alarmMask != 0 && r == Success ==> armReads == k
      ensures rearmed == old(rearmed) + if alarmMask != 0 && r == Success then 1 else 0
      ensures again == old(again) + if alarmMask != 0 && r == Success && served then 1 else 0
      ensures timer.cancelled == old(timer.cancelled) + if old(timer.hw.imsk) then 0 else 1
    {
      ghost var c := timer.hw.count;
      r, k := Success, Reads(c, c, c, c);
      if alarmMask != 0 {
        timer.CancelAlarm();
        r, k := ArmAgain();
      }
    }

    /** Arms the stored alarm from the current base. */
    method ArmAgain() returns (r: Code, ghost k: Reads)
      requires Sound() && alarmMask != 0 && timer.hw.imsk
      modifies this`armReads, this`rearmed, this`again, timer`hw, timer`hasCallback, timer`ticks, timer`arms
      ensures Valid() && Between(old(timer.hw.count), k, timer.hw.count)
      ensures r == Rearmed(alarmMask, base, alarm, timer.freq, k)
      ensures !timer.hw.imsk <==> r == Success
      ensures r == Success ==> armReads == k
      ensures rearmed == old(rearmed) + if r == Success then 1 else 0
      ensures again == old(again) + if r == Success && served then 1 else 0
    {
      r, k := AlarmSetTimeShared(alarm);
      if r == Success {
        armReads := k;
        rearmed, again := rearmed + 1, if served then again + 1 else again;
      }
    }

    /** Sets or (with an empty mask) cancels the alarm. */
    method AlarmSetTime(id: nat, mask: nat, t: Instant, isNull: bool, valid: bool) returns (r: Code, ghost k: Reads)
      requires Valid() && (valid ==> Normal(t))
      modifies this`alarm, this`alarmMask, this`armReads, this`served, this`alarmsSet
      modifies timer`hw, timer`hasCallback, timer`ticks, timer`arms, timer`cancelled
      ensures Valid() && timer.hw.count >= old(timer.hw.count)
      ensures r == if mask == 0 || isNull then Success
                   else if id > 0 || !valid || !AtOrBefore(base, t) then EINVAL
                   else if old(timer.hw.imsk) && Taken(base, t, timer.freq, k) then Success else EIO
      ensures mask == 0 || isNull ==>
                timer.hw.imsk && alarmMask == 0 && alarm == Instant(0, 0) && timer.arms == old(timer.arms)
                && timer.cancelled == old(timer.cancelled) + if old(timer.hw.imsk) then 0 else 1
      ensures mask != 0 && !isNull ==>
                && timer.cancelled == old(timer.cancelled)
                && Between(old(timer.hw.count), k, timer.hw.count)
                && (r == Success ==> !timer.hw.imsk && alarm == t && alarmMask == mask && armReads == k && !served
                                     && timer.arms == old(timer.arms) + 1)
                && (r != Success ==> alarm == old(alarm) && alarmMask == old(alarmMask) && served == old(served)
                                     && timer.hw == old(timer.hw).(count := timer.hw.count)
                                     && timer.arms == old(timer.arms))
      ensures alarmsSet == old(alarmsSet) + if mask != 0 && !isNull && r == Success then 1 else 0
    {
      ghost var c := timer.hw.count;
      k := Reads(c, c, c, c);
      if mask == 0 || isNull {
        timer.CancelAlarm();
        alarm, alarmMask := Instant(0, 0), 0;
        served := false;
        return Success, k;
      }
      if id > 0 {
        return EINVAL, k;
      }
      if !valid {
        return EINVAL, k;
      }
      r, k := ArmNew(mask, t);
    }

    /** Arms a new alarm and stores it if that succeeds. */
    method ArmNew(mask: nat, t: Instant) returns (r: Code, ghost k: Reads)
      requires Valid() && Normal(t) && mask != 0
      modifies this`alarm, this`alarmMask, this`armReads, this`served, this`alarmsSet
      modifies timer`hw, timer`hasCallback, timer`ticks, timer`arms
      ensures Valid() && Between(old(timer.hw.count), k, timer.hw.count)
      ensures r == if !AtOrBefore(base, t) then EINVAL
                   else if old(timer.hw.imsk) && Taken(base, t, timer.freq, k) then Success else EIO
      ensures r == Success ==> !timer.hw.imsk && alarm == t && alarmMask == mask && armReads == k && !served
                               && timer.arms == old(timer.arms) + 1 && alarmsSet == old(alarmsSet) + 1
      ensures r != Success ==> alarm == old(alarm) && alarmMask == old(alarmMask) && served == old(served)
                               && timer.hw == old(timer.hw).(count := timer.hw.count) && timer.arms == old(timer.arms)
                               && alarmsSet == old(alarmsSet)
    {
      r, k := AlarmSetTimeShared(t);
      if r == Success {
        armReads, served := k, false;
        alarm, alarmMask := t, mask;
        alarmsSet := alarmsSet + 1;
      }
    }

    /** The timer interrupt with the RTC's callback: either the user's callback runs or the alarm is
        flagged as pending. */
    method Interrupt() returns (ran: bool)
      requires Valid() && Line(timer.hw)
      modifies this`alarmPending, this`called, this`flagged, this`served, timer`hw, timer`ticks, timer`fired
      ensures Valid() && timer.hw == old(timer.hw).(imsk := true)
      ensures ran == hasCallback && alarmPending == (old(alarmPending) || !ran)
      ensures timer.fired == old(timer.fired) + 1 && served
    {
      var cb, reported := timer.Isr();
      served := true;
      if !hasCallback {
        alarmPending := true;
        flagged := flagged + 1;
        return false;
      }
      called := called + 1;
      ran := true;
    }

    /** Reports and clears the pending flag. */
    method AlarmIsPending() returns (pending: bool)
      requires Valid()
      modifies this`alarmPending
      ensures Valid() && pending == old(alarmPending) && !alarmPending
    {
      pending := alarmPending;
      alarmPending := false;
    }

    method AlarmSetCallback(present: bool)
      requires Valid()
      modifies this`hasCallback
      ensures Valid() && hasCallback == present
    {
      hasCallback := present;
    }

    /** Reads the clock: the base plus the time since the stored count. */
    method GetTime() returns (r: Code, t: Instant, ghost c1: nat)
      requires Valid()
      modifies timer`hw
      ensures Valid() && timer.hw == old(timer.hw).(count := timer.hw.count)
      ensures r == if !timeSet then ENODATA else if timer.freq == 0 then EIO else Success
      ensures old(timer.hw.count) <= c1 <= timer.hw.count
      ensures r == Success ==> t == Reading(base, Low64(TwoWordRead(c1, timer.hw.count) - setCount), timer.freq)
    {
      t, c1 := Instant(0, 0), timer.hw.count;
      if !timeSet {
        return ENODATA, t, c1;
      }
      var now;
      now, c1 := timer.GetValue64();
      if timer.freq == 0 {
        return EIO, t, c1;
      }
      t := TimeAt(now);
      r := Success;
    }

    /** The time when the counter shows `now`. */
    method TimeAt(now: nat) returns (t: Instant)
      requires Normal(base) && 0 < timer.freq < 0x1_0000_0000
      ensures t == Reading(base, Low64(now - setCount), timer.freq)
    {
      t := Convert(base, Low64(now - setCount), timer.freq);
    }
  }

  /** The clock at the armed compare count of a device, when its count and its time are of one call,
      the counter readings behind setting the time and arming did not roll over and the count fits in
      64 bits.  The counter moved by
      m ticks in between, so the alarm is m ticks late: the clock one tick after the compare count is
      at or after the alarm, and at the compare count it still shows at or before it exactly when the
      ticks there, as nanoseconds, stay within the alarm's. */
  lemma {:induction false} ArmedDevice(rtc: RtcDevice)
    requires rtc.Valid() && !rtc.timer.hw.imsk && Matched(rtc.events) && rtc.timer.freq > 0
    requires rtc.setC2 < rtc.setC1 + 0x1_0000_0000 && !RolledOver(rtc.setC1, rtc.setC2)
    requires rtc.armReads.c2 < rtc.armReads.c1 + 0x1_0000_0000 && !RolledOver(rtc.armReads.c1, rtc.armReads.c2)
    requires First(rtc.armReads) + AlarmTicks(rtc.base, rtc.alarm, rtc.timer.freq) < 0x1_0000_0000_0000_0000
    ensures var m, t := rtc.armReads.c1 - rtc.setC1, Cval(rtc.timer.hw) - rtc.setCount;
            m >= 0 && t >= 0 && LateBy(rtc.base, rtc.alarm, rtc.timer.freq, m, t)
  {
    TwoWordReadIff(rtc.setC1, rtc.setC2);
    TwoWordReadIff(rtc.armReads.c1, rtc.armReads.c2);
    DueCountIff(rtc.base, rtc.alarm, rtc.timer.freq, First(rtc.armReads));
    CodeTicks(rtc.base, rtc.alarm, rtc.timer.freq);
    Late(rtc.base, rtc.alarm, rtc.timer.freq, rtc.armReads.c1 - rtc.setC1);
  }

  /** What the clock shows at tick t when the alarm is due there, m ticks late. */
  predicate LateBy(base: Instant, alarm: Instant, freq: nat, m: nat, t: nat)
    requires freq > 0
  {
    && t == AlarmTicks(base, alarm, freq) + m
    && AtOrBefore(alarm, Reading(base, t + 1, freq))
    && (AtOrBefore(Reading(base, t, freq), alarm)
        <==> t * 1_000_000_000 < (Total(alarm) - Total(base) + 1) * freq)
    && (m == 0 ==> AtOrBefore(Reading(base, t, freq), alarm))
  }

  lemma {:induction false} Late(base: Instant, alarm: Instant, freq: nat, m: nat)
    requires Normal(base) && Normal(alarm) && AtOrBefore(base, alarm) && 0 < freq < 0x1_0000_0000
    ensures AlarmTicks(base, alarm, freq) >= 0
    ensures LateBy(base, alarm, freq, m, AlarmTicks(base, alarm, freq) + m)
  {
    CodeTicks(base, alarm, freq);
    LateAlarmIff(base, alarm, freq, m);
    AlarmAdjoint(base, alarm, freq);
    var ticks := AlarmTicks(base, alarm, freq);
    ReadingMonotone(base, ticks + 1, ticks + m + 1, freq);
    OrderTrans(alarm, Reading(base, ticks + 1, freq), Reading(base, ticks + m + 1, freq));
  }

  lemma {:induction false} OrderTrans(a: Instant, b: Instant, c: Instant)
    requires AtOrBefore(a, b) && AtOrBefore(b, c)
    ensures AtOrBefore(a, c)
  {
  }
}
