/** The bounded status polling of the flash driver: one specification for both loops, and exactly
    when the 32-bit countdown of the thread-context loop reaches zero. */
module Polling {
  import opened NorChip
  import opened Arith

  predicate GoodTiming(timeout: nat, period: nat) { 0 < period <= timeout }

  function CeilDiv(a: nat, b: nat): nat
    requires b > 0
  {
    (a + b - 1) / b
  }

  predicate Hit(status: Bits, mask: Bits, value: Bits) { status * mask == value }

  ghost predicate NoHit(polls: seq<Bits>, mask: Bits, value: Bits) {
    forall k | 0 <= k < |polls| :: !Hit(polls[k], mask, value)
  }

  lemma {:induction false} NoHitSnoc(polls: seq<Bits>, b: Bits, mask: Bits, value: Bits)
    requires NoHit(polls, mask, value) && !Hit(b, mask, value)
    ensures NoHit(polls + [b], mask, value)
  {
  }

  /** What a wait may do: poll up to `bound` times, stop at the first match, and give up only after
      `bound` polls without one. */
  ghost predicate Waited(polls: seq<Bits>, bound: nat, mask: Bits, value: Bits, matched: bool) {
    && |polls| <= bound
    && (if matched then
          |polls| > 0 && Hit(polls[|polls| - 1], mask, value) && NoHit(polls[..|polls| - 1], mask, value)
        else |polls| == bound && NoHit(polls, mask, value))
  }

  lemma {:induction false} WaitedHit(polls: seq<Bits>, b: Bits, bound: nat, mask: Bits, value: Bits)
    requires NoHit(polls, mask, value) && Hit(b, mask, value) && |polls| < bound
    ensures Waited(polls + [b], bound, mask, value, true)
  {
    assert (polls + [b])[..|polls|] == polls;
  }

  /** In full: no poll but the last shows the value, and the last one shows it or is the last allowed. */
  lemma {:induction false} WaitedSays(polls: seq<Bits>, bound: nat, mask: Bits, value: Bits)
    requires bound > 0
    ensures Waited(polls, bound, mask, value, polls != [] && polls[|polls| - 1] * mask == value) <==>
            && polls != [] && (forall k | 0 <= k < |polls| - 1 :: polls[k] * mask != value)
            && if polls[|polls| - 1] * mask == value then |polls| <= bound else |polls| == bound
  {
    if polls != [] {
      var init := polls[..|polls| - 1];
      if forall k | 0 <= k < |polls| - 1 :: polls[k] * mask != value {
        assert NoHit(init, mask, value);
      } else {
        var k :| 0 <= k < |polls| - 1 && polls[k] * mask == value;
        assert Hit(init[k], mask, value) && Hit(polls[k], mask, value);
      }
    }
  }

  lemma {:induction false} WaitedOn(polls: seq<Bits>, stream: seq<Bits>, bound: nat, mask: Bits, value: Bits,
                                    matched: bool)
    requires polls <= stream && Waited(polls, bound, mask, value, matched)
    ensures forall k | 0 <= k < |polls| - 1 :: !Hit(stream[k], mask, value)
    ensures matched ==> |polls| > 0 && Hit(stream[|polls| - 1], mask, value)
    ensures !matched && |polls| > 0 ==> !Hit(stream[|polls| - 1], mask, value)
  {
    forall k | 0 <= k < |polls| - 1
      ensures !Hit(stream[k], mask, value)
    {
      assert polls[..|polls| - 1][k] == stream[k];
    }
  }

  /** The specification determines the verdict: on the same status stream two waits with the same
      bound make the same polls and agree. */
  lemma {:induction false} WaitedUnique(a: seq<Bits>, b: seq<Bits>, stream: seq<Bits>, bound: nat,
                                        mask: Bits, value: Bits, am: bool, bm: bool)
    requires a <= stream && b <= stream
    requires Waited(a, bound, mask, value, am) && Waited(b, bound, mask, value, bm)
    ensures a == b && am == bm
  {
    WaitedOn(a, stream, bound, mask, value, am);
    WaitedOn(b, stream, bound, mask, value, bm);
    assert |a| == |b|;
  }

  // ----- the thread loop's countdown: timeout -= period in 32 bits

  function Countdown(timeout: nat, period: nat, n: nat): int {
    if n == 0 then timeout else (Countdown(timeout, period, n - 1) - period) % 0x1_0000_0000
  }

  lemma {:induction false} CountdownClosed(timeout: nat, period: nat, n: nat)
    requires timeout < 0x1_0000_0000
    ensures Countdown(timeout, period, n) == (timeout - n * period) % 0x1_0000_0000
  {
    if n > 0 {
      CountdownClosed(timeout, period, n - 1);
      assert n * period == (n - 1) * period + period;
      ModSub(timeout - (n - 1) * period, period);
    }
  }

  lemma {:induction false} ModSub(a: int, p: nat)
    ensures (a - p) % 0x1_0000_0000 == (a % 0x1_0000_0000 - p) % 0x1_0000_0000
  {
    var q := a / 0x1_0000_0000;
    assert a - p == q * 0x1_0000_0000 + (a % 0x1_0000_0000 - p);
  }

  /** When the period divides the timeout, the countdown first reaches zero after exactly
      timeout / period polls. */
  lemma {:induction false} CountdownDivides(timeout: nat, period: nat, n: nat)
    requires 0 < period <= timeout && timeout < 0x1_0000_0000 && timeout % period == 0
    ensures n <= timeout / period ==> (Countdown(timeout, period, n) == 0 <==> n == timeout / period)
  {
    var q := timeout / period;
    DivMod(timeout, period);
    CountdownClosed(timeout, period, n);
    Distribute(q, n, period);
    if n < q {
      MulAtLeast(q - n, period);
    }
    if n <= q {
      LeftBounds(n, period);
    }
  }

  lemma {:induction false} LeftBounds(n: nat, p: nat)
    ensures n * p >= 0
  {
  }

  lemma {:induction false} Distribute(q: int, n: int, p: int)
    ensures (q - n) * p == q * p - n * p
  {
  }

  /** Otherwise it misses zero and wraps: no poll up to a whole wrap-around later times out. */
  lemma {:induction false} CountdownWraps(timeout: nat, period: nat, n: nat)
    requires 0 < period <= timeout && timeout < 0x1_0000_0000 && timeout % period != 0
    requires n * period < timeout + 0x1_0000_0000
    ensures Countdown(timeout, period, n) != 0
  {
    CountdownClosed(timeout, period, n);
    var left := timeout - n * period;
    if left % 0x1_0000_0000 == 0 {
      assert left == 0;
      MultipleMod(n, period);
    }
  }

  /** The largest power of two that divides p. */
  function TwoPart(p: nat): (g: nat)
    requires p > 0
    ensures 0 < g <= p
  {
    if p % 2 == 1 then 1 else 2 * TwoPart(p / 2)
  }

  function Pow2(k: nat): (r: nat)
    ensures r > 0
  {
    if k == 0 then 1 else 2 * Pow2(k - 1)
  }

  lemma {:induction false} TwoPartSplit(p: nat) returns (k: nat, q: nat)
    requires p > 0
    ensures TwoPart(p) == Pow2(k) && p == Pow2(k) * q && q % 2 == 1
  {
    if p % 2 == 1 {
      k, q := 0, p;
    } else {
      var k' ;
      k', q := TwoPartSplit(p / 2);
      k := k' + 1;
      assert p == 2 * (p / 2);
      assert 2 * (Pow2(k') * q) == Pow2(k) * q;
    }
  }

  /** An odd number has an inverse modulo every power of two. */
  lemma {:induction false} OddInverse(q: nat, k: nat) returns (x: nat, m: nat)
    requires q % 2 == 1
    ensures q * x == 1 + m * Pow2(k)
    decreases k
  {
    if k == 0 {
      x, m := 1, q - 1;
    } else {
      var y, n := OddInverse(q, k - 1);
      var h := Pow2(k - 1);
      if n % 2 == 0 {
        x, m := y, n / 2;
      } else {
        x, m := y + h, (n + q) / 2;
      }
      LiftInverse(q, y, n, h);
    }
  }

  lemma {:induction false} LiftInverse(q: nat, y: nat, n: nat, h: nat)
    requires q % 2 == 1 && q * y == 1 + n * h
    ensures n % 2 == 0 ==> q * y == 1 + n / 2 * (2 * h)
    ensures n % 2 == 1 ==> q * (y + h) == 1 + (n + q) / 2 * (2 * h)
  {
    if n % 2 == 0 {
      Halve(n, h);
    } else {
      Halve(n + q, h);
      assert q * (y + h) == q * y + q * h;
      assert (n + q) * h == n * h + q * h;
    }
  }

  lemma {:induction false} Halve(n: nat, h: nat)
    requires n % 2 == 0
    ensures n * h == n / 2 * (2 * h)
  {
    var m := n / 2;
    assert n == 2 * m;
  }

  lemma {:induction false} Twice(a: nat, b: nat)
    ensures a * (2 * b) == 2 * (a * b)
  {
  }

  lemma {:induction false} Pow2Product(j: nat, k: nat)
    ensures Pow2(j + k) == Pow2(j) * Pow2(k)
    decreases k
  {
    if k > 0 {
      Pow2Product(j, k - 1);
      Twice(Pow2(j), Pow2(k - 1));
    }
  }

  lemma {:induction false} WordIsPow2()
    ensures Pow2(32) == 0x1_0000_0000
  {
    assert Pow2(8) == 256;
    Pow2Product(8, 8);
    Pow2Product(16, 16);
  }

  lemma {:induction false} Pow2Below(j: nat, k: nat)
    ensures j <= k ==> Pow2(j) <= Pow2(k)
    decreases k
  {
    if j < k {
      Pow2Below(j, k - 1);
    }
  }

  /** The power-of-two part of a 32-bit number divides 2^32. */
  lemma {:induction false} TwoPartDividesWord(j: nat) returns (c: nat)
    requires Pow2(j) < 0x1_0000_0000
    ensures 0x1_0000_0000 == Pow2(j) * c
  {
    WordIsPow2();
    if j > 32 {
      Pow2Below(32, j);
    }
    c := Pow2(32 - j);
    Pow2Product(j, 32 - j);
  }

  /** Exactly when a thread-context wait that never sees a match returns at all: the power of two
      in the period must divide the timeout.  (Then it may still poll past the timeout; it keeps to
      the timeout exactly when the period divides it.) */
  lemma {:induction false} CountdownReachesZeroIff(timeout: nat, period: nat)
    requires 0 < period <= timeout && timeout < 0x1_0000_0000
    ensures (exists n: nat :: Countdown(timeout, period, n) == 0) <==> timeout % TwoPart(period) == 0
  {
    var j, q := TwoPartSplit(period);
    if timeout % Pow2(j) == 0 {
      var n := ZeroPoll(timeout, period, j, q);
      assert Countdown(timeout, period, n) == 0;
    }
    if exists n: nat :: Countdown(timeout, period, n) == 0 {
      var n: nat :| Countdown(timeout, period, n) == 0;
      ZeroNeedsDivisor(timeout, period, j, q, n);
    }
  }

  /** The loop returns whatever it reads. */
  predicate Returns(timeout: nat, period: nat) {
    timeout < 0x1_0000_0000 && (GoodTiming(timeout, period) ==> timeout % TwoPart(period) == 0)
  }

  ghost predicate FirstZero(timeout: nat, period: nat, n: nat) {
    Countdown(timeout, period, n) == 0 && forall m | 0 <= m < n :: Countdown(timeout, period, m) != 0
  }

  /** How many polls the thread loop makes without a match. */
  ghost function PollBound(timeout: nat, period: nat): (n: nat)
    requires 0 < period <= timeout && Returns(timeout, period)
    ensures FirstZero(timeout, period, n)
  {
    FirstZeroExists(timeout, period);
    var n: nat :| FirstZero(timeout, period, n);
    n
  }

  lemma {:induction false} FirstZeroExists(timeout: nat, period: nat)
    requires 0 < period <= timeout && Returns(timeout, period)
    ensures exists n: nat :: FirstZero(timeout, period, n)
  {
    CountdownReachesZeroIff(timeout, period);
    var n: nat :| Countdown(timeout, period, n) == 0;
    var m := LeastZero(timeout, period, n);
  }

  lemma {:induction false} LeastZero(timeout: nat, period: nat, n: nat) returns (m: nat)
    requires Countdown(timeout, period, n) == 0
    ensures FirstZero(timeout, period, m)
    decreases n
  {
    if k: nat :| k < n && Countdown(timeout, period, k) == 0 {
      m := LeastZero(timeout, period, k);
    } else {
      m := n;
    }
  }

  /** Timings whose period divides the timeout: both loops make the same number of polls. */
  lemma {:induction false} DividingBound(timeout: nat, period: nat)
    requires 0 < period <= timeout && timeout < 0x1_0000_0000 && timeout % period == 0
    ensures Returns(timeout, period)
    ensures PollBound(timeout, period) == timeout / period == CeilDiv(timeout, period)
  {
    var q := timeout / period;
    DivMod(timeout, period);
    CountdownDivides(timeout, period, q);
    assert Countdown(timeout, period, q) == 0;
    CountdownReachesZeroIff(timeout, period);
    var n := PollBound(timeout, period);
    CountdownDivides(timeout, period, n);
    DivModUnique(timeout + period - 1, period, q, period - 1);
  }

  /** Otherwise the thread loop polls for a whole wrap-around of the counter beyond the timeout. */
  lemma {:induction false} OtherBound(timeout: nat, period: nat)
    requires 0 < period <= timeout && Returns(timeout, period) && timeout % period != 0
    ensures PollBound(timeout, period) * period >= timeout + 0x1_0000_0000
  {
    var n := PollBound(timeout, period);
    if n * period < timeout + 0x1_0000_0000 {
      CountdownWraps(timeout, period, n);
    }
  }

  /** When the period divides the timeout, the thread loop and the interrupt loop make the same polls
      on the same status stream and agree on the verdict. */
  lemma {:induction false} LoopsAgree(a: seq<Bits>, b: seq<Bits>, stream: seq<Bits>, timeout: nat, period: nat,
                                      mask: Bits, value: Bits, am: bool, bm: bool)
    requires 0 < period <= timeout && Returns(timeout, period) && timeout % period == 0
    requires a <= stream && b <= stream
    requires Waited(a, PollBound(timeout, period), mask, value, am)
    requires Waited(b, CeilDiv(timeout, period), mask, value, bm)
    ensures a == b && am == bm
  {
    DividingBound(timeout, period);
    WaitedUnique(a, b, stream, timeout / period, mask, value, am, bm);
  }

  lemma {:induction false} ZeroPoll(timeout: nat, period: nat, j: nat, q: nat) returns (n: nat)
    requires period == Pow2(j) * q && q % 2 == 1 && timeout % Pow2(j) == 0 && timeout < 0x1_0000_0000
    ensures Countdown(timeout, period, n) == 0
  {
    var g := Pow2(j);
    var s := timeout / g;
    DivMod(timeout, g);
    var x, m := OddInverse(q, 32);
    WordIsPow2();
    n := s * x;
    CountdownClosed(timeout, period, n);
    Regroup(s, x, g, q);
    OneMore(timeout, m);
    MultipleMod(-(timeout * m), 0x1_0000_0000);
  }

  lemma {:induction false} OneMore(t: nat, m: nat)
    ensures t * (1 + m * 0x1_0000_0000) == t + t * m * 0x1_0000_0000
  {
  }

  lemma {:induction false} Regroup(s: nat, x: nat, g: nat, q: nat)
    ensures (s * x) * (g * q) == (s * g) * (q * x)
  {
    calc {
      (s * x) * (g * q);
      s * (x * (g * q));
      { assert x * (g * q) == g * (q * x); }
      s * (g * (q * x));
      (s * g) * (q * x);
    }
  }

  lemma {:induction false} ZeroNeedsDivisor(timeout: nat, period: nat, j: nat, q: nat, n: nat)
    requires period == Pow2(j) * q && 0 < period < 0x1_0000_0000 && q > 0 && timeout < 0x1_0000_0000
    requires Countdown(timeout, period, n) == 0
    ensures timeout % Pow2(j) == 0
  {
    var g := Pow2(j);
    MulAtLeast(q, g);
    var c := TwoPartDividesWord(j);
    CountdownClosed(timeout, period, n);
    var e := (timeout - n * period) / 0x1_0000_0000;
    assert timeout == n * period + e * 0x1_0000_0000;
    Factor(n, q, e, c, g);
    MultipleMod(n * q + e * c, g);
  }

  lemma {:induction false} Factor(n: int, q: int, e: int, c: int, g: int)
    ensures n * (g * q) + e * (g * c) == (n * q + e * c) * g
  {
    assert n * (g * q) == (n * q) * g;
    assert e * (g * c) == (e * c) * g;
  }
}
