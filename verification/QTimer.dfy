/** The qtimer frame: a free-running counter that advances between any two register accesses, a
    compare register written in two halves, and the driver over it. */
module QTimer {
  import opened Arith
  import opened Codes

  const MAX: nat := 0xFF_FFFF_FFFF_FFFF

  // ----- the two-word counter read

  /** The low word of a count. */
  function Low32(c: nat): (r: nat)
    ensures r < 0x1_0000_0000
  {
    Low(c, 0x1_0000_0000)
  }

  /** Low word read at count c1, high word at count c2. */
  function TwoWordRead(c1: nat, c2: nat): int { c2 - Low32(c2) + Low32(c1) }

  predicate RolledOver(c1: nat, c2: nat) { c1 / 0x1_0000_0000 != c2 / 0x1_0000_0000 }

  /** When less than 2^32 ticks pass between the two accesses, the value read lies between the counts
      at them exactly when the low word did not roll over; otherwise it is 2^32 too large. */
  lemma {:induction false} TwoWordReadIff(c1: nat, c2: nat)
    requires c1 <= c2 < c1 + 0x1_0000_0000
    ensures c1 <= TwoWordRead(c1, c2) <= c2 <==> !RolledOver(c1, c2)
    ensures TwoWordRead(c1, c2) == if RolledOver(c1, c2) then c1 + 0x1_0000_0000 else c1
  {
    LowIs(c1, 0x1_0000_0000);
    LowIs(c2, 0x1_0000_0000);
    var h1, h2 := c1 / 0x1_0000_0000, c2 / 0x1_0000_0000;
    assert h1 <= h2 <= h1 + 1;
  }

  /** Put together from the words as the code reads them. */
  lemma {:induction false} FromWords(c1: nat, c2: nat)
    ensures TwoWordRead(c1, c2) == c2 / 0x1_0000_0000 * 0x1_0000_0000 + c1 % 0x1_0000_0000
    ensures TwoWordRead(c1, c2) >= 0
  {
    LowIs(c1, 0x1_0000_0000);
    LowIs(c2, 0x1_0000_0000);
  }

  // ----- arming, register access by register access

  datatype Hw = Hw(count: nat, en: bool, imsk: bool, cvalLo: nat, cvalHi: nat)

  function Cval(h: Hw): nat { h.cvalHi * 0x1_0000_0000 + h.cvalLo }

  /** The interrupt line. */
  predicate Line(h: Hw) { h.en && !h.imsk && h.count >= Cval(h) }

  datatype Pc = WriteLo | WriteHi | Unmask | Armed

  /** The driver's next access, or time passing. */
  datatype Access = Pass(d: nat) | Act

  function Step(h: Hw, pc: Pc, value: nat, a: Access): (Hw, Pc) {
    match a
    case Pass(d) => (h.(count := h.count + d), pc)
    case Act =>
      match pc
      case WriteLo => (h.(cvalLo := value % 0x1_0000_0000), WriteHi)
      case WriteHi => (h.(cvalHi := value / 0x1_0000_0000), Unmask)
      case Unmask => (h.(imsk := false), Armed)
      case Armed => (h, Armed)
  }

  function Exec(h: Hw, pc: Pc, value: nat, run: seq<Access>): (Hw, Pc)
    decreases |run|
  {
    if run == [] then (h, pc)
    else var (h', pc') := Step(h, pc, value, run[0]); Exec(h', pc', value, run[1..])
  }

  /** What holds between two accesses. */
  predicate Arming(h: Hw, pc: Pc, value: nat) {
    && (pc != Armed ==> h.imsk)
    && (pc == WriteHi ==> h.cvalLo == value % 0x1_0000_0000)
    && (pc == Unmask || pc == Armed ==> Cval(h) == value)
    && (pc == Armed ==> !h.imsk)
  }

  lemma {:induction false} ArmingKept(h: Hw, pc: Pc, value: nat, run: seq<Access>)
    requires Arming(h, pc, value)
    ensures var e := Exec(h, pc, value, run); Arming(e.0, e.1, value) && e.0.count >= h.count && e.0.en == h.en
    decreases |run|
  {
    if run != [] {
      var s := Step(h, pc, value, run[0]);
      ArmingKept(s.0, s.1, value, run[1..]);
    }
  }

  /** However the counter advances between the register writes, the line stays low until the alarm
      is armed, so no half-written compare value raises it; from then on it is high exactly from the
      requested count on, even if the count was passed while the registers were being written. */
  lemma {:induction false} NoSpuriousAlarm(h: Hw, value: nat, run: seq<Access>)
    requires h.imsk
    ensures var e := Exec(h, WriteLo, value, run);
            && (e.1 != Armed ==> !Line(e.0))
            && (e.1 == Armed ==> (Line(e.0) <==> h.en && e.0.count >= value))
  {
    ArmingKept(h, WriteLo, value, run);
  }

  lemma {:induction false} ExecSnoc(h: Hw, pc: Pc, value: nat, run: seq<Access>, a: Access)
    ensures var e := Exec(h, pc, value, run); Exec(h, pc, value, run + [a]) == Step(e.0, e.1, value, a)
    decreases |run|
  {
    if run == [] {
      assert [] + [a] == [a];
    } else {
      var s := Step(h, pc, value, run[0]);
      ExecSnoc(s.0, s.1, value, run[1..], a);
      assert (run + [a])[1..] == run[1..] + [a];
    }
  }

  /** h1 is h0 after a complete arming at `value`, however the counter advanced in between. */
  ghost predicate ArmedFrom(h0: Hw, value: nat, h1: Hw) {
    exists run :: Exec(h0, WriteLo, value, run) == (h1, Armed)
  }

  /** Unmasking before the compare register is complete would not do: the old high half with the new
      low half can lie in the past. */
  lemma {:induction false} HalfWrittenIsUnsafe(h: Hw, value: nat)
    requires h.en && h.cvalHi == 0 && value % 0x1_0000_0000 <= h.count < value
    ensures var half := Step(h, WriteLo, value, Act).0; Line(half.(imsk := false)) && half.count < value
  {
  }

  // ----- the driver

  class Timer {
    const freq: nat
    var hw: Hw
    var hasCallback: bool
    var ticks: nat
    // bookkeeping for whole runs: alarms armed, served and dropped
    ghost var arms: nat
    ghost var fired: nat
    ghost var cancelled: nat

    ghost predicate Valid()
      reads this
    {
      && freq < 0x1_0000_0000
      && (!hw.imsk ==> hasCallback && Cval(hw) <= MAX)
      && arms == fired + cancelled + if hw.imsk then 0 else 1
    }

    constructor (freq: nat, count: nat)
      requires freq < 0x1_0000_0000
      ensures Valid() && this.freq == freq && hw == Hw(count, false, true, 0, 0)
      ensures arms == 0 && fired == 0 && cancelled == 0 && !hasCallback
    {
      this.freq := freq;
      hw := Hw(count, false, true, 0, 0);
      hasCallback, ticks := false, 0;
      arms, fired, cancelled := 0, 0, 0;
    }

    /** Time passes. */
    method Tick()
      requires Valid()
      modifies this`hw
      ensures Valid() && hw.count >= old(hw.count) && hw == old(hw).(count := hw.count)
    {
      var d: int := *;
      hw := hw.(count := hw.count + if d > 0 then d else 0);
    }

    /** Masks the interrupt; an alarm that was armed is dropped. */
    method Mask(en: bool)
      requires Valid()
      modifies this`hw, this`cancelled
      ensures Valid() && hw == old(hw).(en := en, imsk := true)
      ensures cancelled == old(cancelled) + if old(hw.imsk) then 0 else 1
    {
      if !hw.imsk {
        cancelled := cancelled + 1;
      }
      hw := hw.(en := en, imsk := true);
    }

    method Start()
      requires Valid()
      modifies this`hw, this`cancelled
      ensures Valid() && hw == old(hw).(en := true, imsk := true)
      ensures cancelled == old(cancelled) + if old(hw.imsk) then 0 else 1
    {
      Mask(true);
    }

    method Stop()
      requires Valid()
      modifies this`hw, this`cancelled
      ensures Valid() && hw == old(hw).(en := false, imsk := true)
      ensures cancelled == old(cancelled) + if old(hw.imsk) then 0 else 1
    {
      Mask(false);
    }

    method CancelAlarm()
      requires Valid()
      modifies this`hw, this`cancelled
      ensures Valid() && hw == old(hw).(imsk := true)
      ensures cancelled == old(cancelled) + if old(hw.imsk) then 0 else 1
    {
      Mask(hw.en);
    }

    /** Low word, then high word, with time passing before each access. */
    method GetValue64() returns (value: nat, ghost c1: nat)
      requires Valid()
      modifies this`hw
      ensures Valid() && hw == old(hw).(count := hw.count)
      ensures old(hw.count) <= c1 <= hw.count && value == TwoWordRead(c1, hw.count)
    {
      Tick();
      c1 := hw.count;
      var lo := hw.count % 0x1_0000_0000;
      Tick();
      var hi := hw.count / 0x1_0000_0000;
      value := hi * 0x1_0000_0000 + lo;
      FromWords(c1, hw.count);
    }

    /** Time passes, then the driver makes its next access of an arming that began in state h0. */
    method Accessed(ghost h0: Hw, pc: Pc, value: nat, ghost run: seq<Access>) returns (pc': Pc, ghost run': seq<Access>)
      requires Exec(h0, WriteLo, value, run) == (hw, pc)
      modifies this`hw
      ensures Exec(h0, WriteLo, value, run') == (hw, pc')
      ensures hw.count >= old(hw.count) && (hw, pc') == Step(old(hw).(count := hw.count), pc, value, Act)
    {
      var x: int := *;
      var d: nat := if x > 0 then x else 0;
      ExecSnoc(h0, WriteLo, value, run, Pass(d));
      ExecSnoc(h0, WriteLo, value, run + [Pass(d)], Act);
      run' := run + [Pass(d)] + [Act];
      var (h, p) := Step(hw.(count := hw.count + d), pc, value, Act);
      hw, pc' := h, p;
    }

    /** Writes the compare register in two halves. */
    method SetCval(value: nat) returns (ghost run: seq<Access>)
      requires Valid() && hw.imsk
      modifies this`hw
      ensures Valid() && Exec(old(hw), WriteLo, value, run) == (hw, Unmask)
      ensures hw.count >= old(hw.count) && Cval(hw) == value && hw.en == old(hw.en) && hw.imsk
    {
      var pc;
      pc, run := Accessed(hw, WriteLo, value, []);
      pc, run := Accessed(old(hw), pc, value, run);
    }

    /** Arms the timer at a count: both halves, the callback, and only then the interrupt. */
    method Arm(value: nat, reported: nat) returns (ghost run: seq<Access>)
      requires Valid() && hw.imsk && value <= MAX
      modifies this`hw, this`hasCallback, this`ticks, this`arms
      ensures Valid() && Exec(old(hw), WriteLo, value, run) == (hw, Armed)
      ensures hw.count >= old(hw.count) && Cval(hw) == value && hw.en == old(hw.en) && !hw.imsk
      ensures hasCallback && ticks == reported
      ensures arms == old(arms) + 1
    {
      run := SetCval(value);
      hasCallback, ticks := true, reported;
      var pc;
      pc, run := Accessed(old(hw), Unmask, value, run);
      arms := arms + 1;
    }

    /** Arms a one-shot alarm at an absolute count.  Refused while one is armed, beyond 56 bits, for
        a relative request, and for a count that has passed: the counter was read at c1 and c2. */
    method SetAlarmAbsolute(absolute: bool, value: nat) returns (r: Code, ghost c1: nat, ghost c2: nat)
      requires Valid()
      modifies this`hw, this`hasCallback, this`ticks, this`arms
      ensures Valid() && hw.en == old(hw.en)
      ensures old(hw.count) <= c1 <= c2 <= hw.count
      ensures r == if !old(hw.imsk) then EBUSY
                   else if value >= 0x100_0000_0000_0000 || !absolute || value < TwoWordRead(c1, c2) then EINVAL
                   else Success
      ensures !old(hw.imsk) || value >= 0x100_0000_0000_0000 || !absolute ==> hw == old(hw)
      ensures r == Success ==> !hw.imsk && ticks == value == Cval(hw) && hasCallback && arms == old(arms) + 1
                               && ArmedFrom(old(hw).(count := c2), value, hw)
      ensures r != Success ==> hw == old(hw).(count := hw.count) && ticks == old(ticks)
                               && hasCallback == old(hasCallback) && arms == old(arms)
    {
      c1, c2 := hw.count, hw.count;
      if !hw.imsk {
        return EBUSY, c1, c2;
      }
      if value > MAX {
        return EINVAL, c1, c2;
      }
      if !absolute {
        return EINVAL, c1, c2;
      }
      var now;
      now, c1 := GetValue64();
      c2 := hw.count;
      if value < now {
        return EINVAL, c1, c2;
      }
      ghost var run := Arm(value, value);
      r := Success;
    }

    /** Arms a one-shot alarm `count` ticks from now.  The range is checked before the kind. */
    method SetAlarm(absolute: bool, count: nat) returns (r: Code, ghost c1: nat, ghost c2: nat)
      requires Valid() && count < 0x1_0000_0000
      modifies this`hw, this`hasCallback, this`ticks, this`arms
      ensures Valid() && hw.en == old(hw.en)
      ensures old(hw.count) <= c1 <= c2 <= hw.count
      ensures r == if !old(hw.imsk) then EBUSY
                   else if TwoWordRead(c1, c2) + count >= 0x100_0000_0000_0000 then EINVAL
                   else if absolute then ENOTSUP else Success
      ensures !old(hw.imsk) ==> hw == old(hw)
      ensures r == Success ==>
                && !hw.imsk && Cval(hw) == TwoWordRead(c1, c2) + count && ticks == count && hasCallback
                && arms == old(arms) + 1
                && ArmedFrom(old(hw).(count := c2), TwoWordRead(c1, c2) + count, hw)
      ensures r != Success ==> hw == old(hw).(count := hw.count) && ticks == old(ticks)
                               && hasCallback == old(hasCallback) && arms == old(arms)
    {
      c1, c2 := hw.count, hw.count;
      if !hw.imsk {
        return EBUSY, c1, c2;
      }
      var now;
      now, c1 := GetValue64();
      c2 := hw.count;
      if now + count > MAX {
        return EINVAL, c1, c2;
      }
      if absolute {
        return ENOTSUP, c1, c2;
      }
      // only the callback sees `count`: here it is relative, for absolute alarms absolute
      ghost var run := Arm(now + count, count);
      r := Success;
    }

    /** The interrupt handler, run when the line is high: masks first, then reports the tick value
        cut to 32 bits. */
    method Isr() returns (callback: bool, reported: nat)
      requires Valid() && Line(hw)
      modifies this`hw, this`ticks, this`fired
      ensures Valid() && hw == old(hw).(imsk := true)
      ensures callback && reported == (if old(ticks) > 0xFFFF_FFFF then 0xFFFF_FFFF else old(ticks))
      ensures ticks == reported
      ensures fired == old(fired) + 1
    {
      hw := hw.(imsk := true);
      fired := fired + 1;
      callback, reported := false, 0;
      if hasCallback {
        if ticks > 0xFFFF_FFFF {
          ticks := 0xFFFF_FFFF;
        }
        callback, reported := true, ticks;
      }
    }
  }
}
