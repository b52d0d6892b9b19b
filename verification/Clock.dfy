/** The arithmetic of the software clock: ticks to time, time to ticks, and how the two fit. */
module Clock {
  import opened Arith

  /** A point in time; the drivers keep 0 <= ns < 10^9. */
  datatype Instant = Instant(sec: int, ns: int)

  predicate Normal(t: Instant) { 0 <= t.ns < 1_000_000_000 }

  function Total(t: Instant): int { t.sec * 1_000_000_000 + t.ns }

  /** The reading `ticks` counts after `base`, computed with seconds, remainder and carry. */
  function Reading(base: Instant, ticks: nat, freq: nat): Instant
    requires freq > 0
  {
    var elapsedSec := ticks / freq;
    var remTicks := ticks - elapsedSec * freq;
    var fracNs := remTicks * 1_000_000_000 / freq;
    var nowNs := base.ns + fracNs;
    var carry := nowNs / 1_000_000_000;
    Instant(base.sec + elapsedSec + carry, nowNs - carry * 1_000_000_000)
  }

  /** floor(ticks * 10^9 / freq), the nanoseconds that so many ticks take. */
  function Elapsed(ticks: nat, freq: nat): nat
    requires freq > 0
  {
    DivNonNegative(ticks * 1_000_000_000, freq);
    ticks * 1_000_000_000 / freq
  }

  lemma {:induction false} DivNonNegative(a: int, p: int)
    requires p > 0 && a >= 0
    ensures a / p >= 0
  {
    DivMod(a, p);
    MulSign(a / p, p);
  }

  /** (q * p + a) / p == q + a / p. */
  lemma {:induction false} DivPlus(q: int, a: int, p: int)
    requires p > 0
    ensures (q * p + a) / p == q + a / p
  {
    DivMod(a, p);
    assert q * p + a == (q + a / p) * p + a % p;
    DivModUnique(q * p + a, p, q + a / p, a % p);
  }

  /** Splitting off whole seconds loses nothing. */
  lemma {:induction false} ElapsedSplit(ticks: nat, freq: nat)
    requires freq > 0
    ensures Elapsed(ticks, freq) ==
            ticks / freq * 1_000_000_000 + (ticks - ticks / freq * freq) * 1_000_000_000 / freq
    ensures 0 <= ticks - ticks / freq * freq < freq
  {
    var s := ticks / freq;
    var rem := ticks - s * freq;
    DivMod(ticks, freq);
    assert ticks * 1_000_000_000 == (s * 1_000_000_000) * freq + rem * 1_000_000_000;
    DivPlus(s * 1_000_000_000, rem * 1_000_000_000, freq);
  }

  /** Clock exactness: the reading is set time plus floor(ticks * 10^9 / freq), it is normal, and
      with a 32-bit frequency no 64-bit product or sum on the way overflows. */
  lemma {:induction false} ReadingExact(base: Instant, ticks: nat, freq: nat)
    requires Normal(base) && 0 < freq < 0x1_0000_0000
    ensures Total(Reading(base, ticks, freq)) == Total(base) + Elapsed(ticks, freq)
    ensures Normal(Reading(base, ticks, freq))
    ensures var rem := ticks - ticks / freq * freq;
            && 0 <= rem * 1_000_000_000 < 0x1_0000_0000_0000_0000
            && 0 <= base.ns + rem * 1_000_000_000 / freq < 2_000_000_000
  {
    ElapsedSplit(ticks, freq);
    var rem := ticks - ticks / freq * freq;
    FractionSmall(rem, freq);
    var nowNs := base.ns + rem * 1_000_000_000 / freq;
    assert nowNs == nowNs / 1_000_000_000 * 1_000_000_000 + nowNs % 1_000_000_000;
  }

  lemma {:induction false} FractionSmall(rem: int, freq: int)
    requires 0 <= rem < freq
    ensures 0 <= rem * 1_000_000_000 / freq < 1_000_000_000
  {
    var a := rem * 1_000_000_000;
    DivNonNegative(a, freq);
    DivMod(a, freq);
    MulSign(a / freq - 999_999_999, freq);
    assert (a / freq) * freq == (a / freq - 999_999_999) * freq + 999_999_999 * freq;
  }

  lemma {:induction false} DivMonotone(a: int, b: int, p: int)
    requires p > 0 && a <= b
    ensures a / p <= b / p
  {
    DivMod(a, p);
    DivMod(b, p);
    MulSign(a / p - b / p, p);
    assert (a / p - b / p) * p == a / p * p - b / p * p;
  }

  /** Instants are ordered like their totals when they are normal. */
  predicate AtOrBefore(s: Instant, t: Instant) { s.sec < t.sec || (s.sec == t.sec && s.ns <= t.ns) }

  lemma {:induction false} OrderIsTotal(s: Instant, t: Instant)
    requires Normal(s) && Normal(t)
    ensures AtOrBefore(s, t) <==> Total(s) <= Total(t)
  {
  }

  /** Readings never go backwards while the counter goes forward. */
  lemma {:induction false} ReadingMonotone(base: Instant, t1: nat, t2: nat, freq: nat)
    requires Normal(base) && 0 < freq < 0x1_0000_0000 && t1 <= t2
    ensures AtOrBefore(Reading(base, t1, freq), Reading(base, t2, freq))
  {
    ReadingExact(base, t1, freq);
    ReadingExact(base, t2, freq);
    DivMonotone(t1 * 1_000_000_000, t2 * 1_000_000_000, freq);
    OrderIsTotal(Reading(base, t1, freq), Reading(base, t2, freq));
  }

  // ----- alarms

  /** Seconds and nanoseconds from one normal instant to a later one, with the borrow. */
  function Diff(from: Instant, to: Instant): Instant {
    var sec, ns := to.sec - from.sec, to.ns - from.ns;
    if ns < 0 then Instant(sec - 1, ns + 1_000_000_000) else Instant(sec, ns)
  }

  lemma {:induction false} DiffTotal(from: Instant, to: Instant)
    requires Normal(from) && Normal(to)
    ensures Normal(Diff(from, to)) && Total(Diff(from, to)) == Total(to) - Total(from)
    ensures AtOrBefore(from, to) <==> Diff(from, to).sec >= 0
  {
  }

  /** Ticks for a difference, computed from seconds and nanoseconds apart. */
  function TicksOf(d: Instant, freq: nat): int { d.sec * freq + d.ns * freq / 1_000_000_000 }

  /** The split computation is floor(D * freq / 10^9), D the difference in nanoseconds. */
  lemma {:induction false} TicksExact(d: Instant, freq: nat)
    ensures TicksOf(d, freq) == Total(d) * freq / 1_000_000_000
  {
    assert Total(d) * freq == (d.sec * freq) * 1_000_000_000 + d.ns * freq;
    DivPlus(d.sec * freq, d.ns * freq, 1_000_000_000);
  }

  function AlarmTicks(base: Instant, alarm: Instant, freq: nat): int { TicksOf(Diff(base, alarm), freq) }

  lemma {:induction false} AlarmTicksExact(base: Instant, alarm: Instant, freq: nat)
    requires Normal(base) && Normal(alarm) && AtOrBefore(base, alarm)
    ensures AlarmTicks(base, alarm, freq) == (Total(alarm) - Total(base)) * freq / 1_000_000_000
    ensures AlarmTicks(base, alarm, freq) >= 0
  {
    DiffTotal(base, alarm);
    OrderIsTotal(base, alarm);
    TicksExact(Diff(base, alarm), freq);
    MulNonNegative(Total(alarm) - Total(base), freq);
    DivNonNegative((Total(alarm) - Total(base)) * freq, 1_000_000_000);
  }

  lemma {:induction false} MulNonNegative(a: int, b: int)
    requires a >= 0 && b >= 0
    ensures a * b >= 0
  {
  }

  /** The alarm and the clock are adjoint to within one tick: with the counter where it was when the
      time was set, the clock at the compare count shows at or before the alarm, and one tick later
      at or after it. */
  lemma {:induction false} AlarmAdjoint(base: Instant, alarm: Instant, freq: nat)
    requires Normal(base) && Normal(alarm) && AtOrBefore(base, alarm) && 0 < freq < 0x1_0000_0000
    ensures var t := AlarmTicks(base, alarm, freq);
            && t >= 0
            && AtOrBefore(Reading(base, t, freq), alarm)
            && AtOrBefore(alarm, Reading(base, t + 1, freq))
  {
    AlarmTicksExact(base, alarm, freq);
    var t := AlarmTicks(base, alarm, freq);
    var d := Total(alarm) - Total(base);
    OrderIsTotal(base, alarm);
    FloorAdjoint(d, freq, t);
    ReadingExact(base, t, freq);
    ReadingExact(base, t + 1, freq);
    OrderIsTotal(Reading(base, t, freq), alarm);
    OrderIsTotal(alarm, Reading(base, t + 1, freq));
  }

  lemma {:induction false} FloorAdjoint(d: nat, freq: nat, t: nat)
    requires freq > 0 && t == d * freq / 1_000_000_000
    ensures Elapsed(t, freq) <= d <= Elapsed(t + 1, freq)
  {
    DivMod(d * freq, 1_000_000_000);
    MultipleMod(d, freq);
    DivMonotone(t * 1_000_000_000, d * freq, freq);
    DivMonotone(d * freq, (t + 1) * 1_000_000_000, freq);
  }

  /** When the counter moved by m ticks between setting the time and the alarm, the compare count
      is m ticks late; the clock there still shows at or before the alarm exactly when the delay
      stays within the nanosecond that the alarm names. */
  lemma {:induction false} LateAlarmIff(base: Instant, alarm: Instant, freq: nat, m: nat)
    requires Normal(base) && Normal(alarm) && AtOrBefore(base, alarm) && 0 < freq < 0x1_0000_0000
    ensures var t := AlarmTicks(base, alarm, freq);
            && t >= 0
            && (AtOrBefore(Reading(base, t + m, freq), alarm)
                <==> (t + m) * 1_000_000_000 < (Total(alarm) - Total(base) + 1) * freq)
  {
    AlarmTicksExact(base, alarm, freq);
    var t := AlarmTicks(base, alarm, freq);
    var d := Total(alarm) - Total(base);
    ReadingExact(base, t + m, freq);
    OrderIsTotal(Reading(base, t + m, freq), alarm);
    FloorBelow((t + m) * 1_000_000_000, freq, d);
  }

  lemma {:induction false} FloorBelow(a: int, p: int, d: int)
    requires p > 0
    ensures a / p <= d <==> a < (d + 1) * p
  {
    DivMod(a, p);
    if a / p <= d {
      assert (d - a / p + 1) * p == (d + 1) * p - a / p * p;
      MulAtLeast(d - a / p + 1, p);
    } else {
      assert (a / p - d) * p == a / p * p - d * p;
      MulAtLeast(a / p - d, p);
      assert (d + 1) * p == d * p + p;
    }
  }

  /** With a frequency of at most 1 GHz, two ticks of movement already make every alarm late. */
  lemma {:induction false} MovedAlarmIsLate(base: Instant, alarm: Instant, freq: nat, m: nat)
    requires Normal(base) && Normal(alarm) && AtOrBefore(base, alarm) && 0 < freq <= 1_000_000_000
    requires m >= 2
    ensures var t := AlarmTicks(base, alarm, freq);
            t >= 0 && !AtOrBefore(Reading(base, t + m, freq), alarm)
  {
    LateAlarmIff(base, alarm, freq, m);
    AlarmTicksExact(base, alarm, freq);
    var d := Total(alarm) - Total(base);
    DivMod(d * freq, 1_000_000_000);
    assert (d + 1) * freq == d * freq + freq;
  }
}
