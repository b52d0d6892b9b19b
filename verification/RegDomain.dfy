/** Expansion of regulatory rules into a bounded channel table. */
module RegDomain {
  import opened Arith

  datatype Rule = Rule(start: nat, end: nat, power: nat, passiveFlag: bool, dfsFlag: bool)

  datatype Chan = Chan(freq: nat, power: nat, supported: bool, passive: bool, dfs: bool)

  /** The fields are 16 bits wide in the rule table. */
  predicate Fits(r: Rule) { r.start < 65536 && r.end < 65536 }

  function StepOf(r: Rule): nat { if r.start >= 5000 then 20 else 5 }

  /** The band filter of the loop body: what is skipped. */
  predicate Skipped(step: nat, freq: nat) {
    (step == 5 && (freq < 2412 || (freq > 2484 && freq < 5000))) || (step == 20 && (freq < 5180 || freq > 5895))
    || (step == 5 && freq > 2472 && freq != 2484)
  }

  /** The same as bands: channels 1 to 13 and 14 of 2.4 GHz, and the 5 GHz band of a 20 MHz rule. */
  predicate InBand(r: Rule, freq: nat) {
    if StepOf(r) == 5 then 2412 <= freq <= 2472 || freq == 2484 else 5180 <= freq <= 5895
  }

  lemma {:induction false} BandsExactly(r: Rule, freq: nat)
    ensures !Skipped(StepOf(r), freq) <==> InBand(r, freq)
  {
  }

  /** The table entry of a frequency. */
  function Entry(r: Rule, freq: nat): Chan {
    Chan(freq, r.power, true, r.passiveFlag, StepOf(r) == 20 && r.dfsFlag)
  }

  /** On the rule's grid, 10 MHz inside both edges, in band. */
  predicate Wanted(r: Rule, freq: nat) {
    r.start + 10 <= freq && freq + 10 <= r.end && (freq - r.start - 10) % StepOf(r) == 0 && InBand(r, freq)
  }

  /** All wanted frequencies of a rule below f, ascending. */
  function Freqs(r: Rule, f: nat): seq<nat> {
    if f == 0 then [] else Freqs(r, f - 1) + if Wanted(r, f - 1) then [f - 1] else []
  }

  /** The frequencies of a rule: on its grid, 10 MHz inside its edges, in band, ascending. */
  lemma {:induction false} FreqsExactly(r: Rule, f: nat)
    ensures forall x: nat :: x in Freqs(r, f) <==>
                               && x < f && r.start + 10 <= x && x + 10 <= r.end
                               && if r.start >= 5000 then (x - r.start - 10) % 20 == 0 && 5180 <= x <= 5895
                                  else (x - r.start - 10) % 5 == 0 && (2412 <= x <= 2472 || x == 2484)
    ensures forall i, j | 0 <= i < j < |Freqs(r, f)| :: Freqs(r, f)[i] < Freqs(r, f)[j]
  {
    FreqsWanted(r, f);
  }

  lemma {:induction false} FreqsWanted(r: Rule, f: nat)
    ensures forall x: nat :: x in Freqs(r, f) <==> x < f && Wanted(r, x)
    ensures forall i, j | 0 <= i < j < |Freqs(r, f)| :: Freqs(r, f)[i] < Freqs(r, f)[j]
    decreases f
  {
    if f > 0 {
      FreqsWanted(r, f - 1);
      var fs := Freqs(r, f - 1);
      forall i | 0 <= i < |fs|
        ensures fs[i] < f - 1
      {
        assert fs[i] in fs;
      }
    }
  }

  function Entries(r: Rule, fs: seq<nat>): (s: seq<Chan>)
    ensures |s| == |fs|
  {
    seq(|fs|, i requires 0 <= i < |fs| => Entry(r, fs[i]))
  }

  /** The full table of the first n rules, in rule order, each rule ascending. */
  function Table(rules: seq<Rule>, n: nat): seq<Chan>
    requires n <= |rules|
  {
    if n == 0 then [] else Table(rules, n - 1) + Entries(rules[n - 1], Freqs(rules[n - 1], 65536))
  }

  function Cut(s: seq<Chan>, n: nat): seq<Chan> { if |s| <= n then s else s[..n] }

  // ----- the 16-bit loop

  /** The loop variable never wraps: the first step past the end still fits in 16 bits. */
  predicate NoWrap(r: Rule) { r.start <= 65525 && (r.end < 10 || r.start > r.end - 20 || NextAfter(r) < 65536) }

  /** The first grid frequency beyond the upper edge. */
  function NextAfter(r: Rule): nat
    requires r.end >= 20 && r.start <= r.end - 20
  {
    r.start + 10 + ((r.end - r.start - 20) / StepOf(r) + 1) * StepOf(r)
  }

  /** Rules up to 65525 MHz never make it wrap. */
  lemma {:induction false} SmallRulesNoWrap(r: Rule)
    requires r.start <= 65525 && r.end <= 65525
    ensures NoWrap(r)
  {
  }

  lemma {:induction false} NextBelow(r: Rule, k: nat)
    requires r.end >= 20 && r.start <= r.end - 20
    ensures r.start + 10 + k * StepOf(r) + 10 <= r.end <==> k <= (r.end - r.start - 20) / StepOf(r)
  {
  }

  /** Exactly when the 16-bit loop leaves without wrapping: k steps reach a value beyond the upper
      edge and none of the values on the way has been cut to 16 bits. */
  lemma {:induction false} WrapIff(r: Rule)
    requires Fits(r) && r.end >= 10
    ensures (exists k: nat :: r.start + 10 + k * StepOf(r) < 65536 && r.start + 10 + k * StepOf(r) > r.end - 10)
            <==> NoWrap(r)
  {
    var step := StepOf(r);
    if r.end < 20 || r.start > r.end - 20 {
      if r.start <= 65525 {
        assert r.start + 10 + 0 * step < 65536 && r.start + 10 + 0 * step > r.end - 10;
      }
    } else {
      var n := (r.end - r.start - 20) / step + 1;
      NextBelow(r, n);
      assert NextAfter(r) == r.start + 10 + n * step;
      if exists k: nat :: r.start + 10 + k * step < 65536 && r.start + 10 + k * step > r.end - 10 {
        var k: nat :| r.start + 10 + k * step < 65536 && r.start + 10 + k * step > r.end - 10;
        NextBelow(r, k);
        assert k >= n;
      }
    }
  }

  lemma {:induction false} FreqsNone(r: Rule, lo: nat, hi: nat)
    requires lo <= hi && forall x | lo <= x < hi :: !Wanted(r, x)
    ensures Freqs(r, hi) == Freqs(r, lo)
    decreases hi - lo
  {
    if lo < hi {
      FreqsNone(r, lo, hi - 1);
    }
  }

  lemma {:induction false} GridGap(a: int, step: nat, d: nat)
    requires (step == 5 || step == 20) && a % step == 0 && 0 < d <= step
    ensures (a + d) % step == 0 <==> d == step
  {
    DivMod(a, step);
    DivModUnique(a + d, step, a / step + if d == step then 1 else 0, if d == step then 0 else d);
  }

  /** Between two grid points nothing is wanted, and the next grid point decides by the filter. */
  lemma {:induction false} FreqsNext(r: Rule, freq: nat)
    requires freq >= r.start + 10 && (freq - r.start - 10) % StepOf(r) == 0 && freq + 10 <= r.end
    ensures Freqs(r, freq + StepOf(r)) == Freqs(r, freq) + if Skipped(StepOf(r), freq) then [] else [freq]
    ensures (freq + StepOf(r) - r.start - 10) % StepOf(r) == 0
  {
    BandsExactly(r, freq);
    var a := freq - r.start - 10;
    GridGap(a, StepOf(r), StepOf(r));
    forall x | freq + 1 <= x < freq + StepOf(r)
      ensures !Wanted(r, x)
    {
      GridGap(a, StepOf(r), x - freq);
      assert x - r.start - 10 == a + (x - freq);
    }
    assert freq + StepOf(r) - r.start - 10 == a + StepOf(r);
    FreqsNone(r, freq + 1, freq + StepOf(r));
  }

  lemma {:induction false} EntriesSnoc(r: Rule, fs: seq<nat>, f: nat)
    ensures Entries(r, fs + [f]) == Entries(r, fs) + [Entry(r, f)]
  {
  }

  // ----- the loop of any rule

  /** The loop variable after k steps. */
  function At(r: Rule, k: nat): (f: nat)
    ensures f < 65536
  {
    (r.start + 10 + k * StepOf(r)) % 65536
  }

  predicate Stops(r: Rule, k: nat) { At(r, k) + 10 > r.end }

  /** However the variable wraps, it passes the upper edge sooner or later: it comes to one of the
      last four values, which no upper edge reaches. */
  lemma {:induction false} StopExists(r: Rule) returns (k: nat)
    requires Fits(r)
    ensures Stops(r, k)
  {
    var a := (r.start + 10) % 65536;
    var m: nat := if StepOf(r) == 5 then 65535 - a else (65532 + a % 4 - a) / 4;
    k := 52429 * m;
    Reaches(r, a, m, k);
  }

  lemma {:induction false} Reaches(r: Rule, a: nat, m: nat, k: nat)
    requires Fits(r) && a == (r.start + 10) % 65536 && k == 52429 * m
    requires m == if StepOf(r) == 5 then 65535 - a else (65532 + a % 4 - a) / 4
    ensures At(r, k) >= 65532
  {
    var q := (r.start + 10) / 65536;
    var target := if StepOf(r) == 5 then 65535 else 65532 + a % 4;
    var turns := if StepOf(r) == 5 then 4 * m else 16 * m;
    assert r.start + 10 == q * 65536 + a;
    assert k * StepOf(r) == turns * 65536 + (target - a);
    DivModUnique(r.start + 10 + k * StepOf(r), 65536, q + turns, target);
  }

  ghost predicate FirstStop(r: Rule, k: nat) {
    Stops(r, k) && forall m | 0 <= m < k :: !Stops(r, m)
  }

  /** How many steps the loop makes while the table has room. */
  ghost function Last(r: Rule): (k: nat)
    requires Fits(r)
    ensures FirstStop(r, k)
  {
    FirstStopExists(r);
    var k: nat :| FirstStop(r, k);
    k
  }

  lemma {:induction false} FirstStopExists(r: Rule)
    requires Fits(r)
    ensures exists k: nat :: FirstStop(r, k)
  {
    var k := StopExists(r);
    var m := LeastStop(r, k);
  }

  lemma {:induction false} LeastStop(r: Rule, k: nat) returns (m: nat)
    requires Stops(r, k)
    ensures FirstStop(r, m)
    decreases k
  {
    if j: nat :| j < k && Stops(r, j) {
      m := LeastStop(r, j);
    } else {
      m := k;
    }
  }

  /** What the loop lets through in its first k rounds. */
  function Visits(r: Rule, k: nat): seq<nat> {
    if k == 0 then [] else Visits(r, k - 1) + if Skipped(StepOf(r), At(r, k - 1)) then [] else [At(r, k - 1)]
  }

  lemma {:induction false} VisitsPrefix(r: Rule, j: nat, k: nat)
    requires j <= k
    ensures Visits(r, j) <= Visits(r, k)
    decreases k
  {
    if j < k {
      VisitsPrefix(r, j, k - 1);
    }
  }

  /** Without a wrap these are the wanted frequencies. */
  lemma {:induction false} VisitsAreFreqs(r: Rule)
    requires Fits(r) && NoWrap(r)
    ensures Visits(r, Last(r)) == Freqs(r, 65536)
  {
    var k := Last(r);
    VisitsBelow(r, k);
    FreqsPrefix(r, At(r, k), 65536);
    FreqsNone(r, At(r, k), 65536);
  }

  /** No step up to the first stop wraps. */
  lemma {:induction false} VisitsBelow(r: Rule, k: nat)
    requires Fits(r) && NoWrap(r) && forall m | 0 <= m < k :: !Stops(r, m)
    ensures At(r, k) == r.start + 10 + k * StepOf(r)
    ensures Visits(r, k) == Freqs(r, At(r, k))
    decreases k
  {
    if k == 0 {
      FreqsNone(r, 0, r.start + 10);
    } else {
      VisitsBelow(r, k - 1);
      OneVisit(r, k - 1, At(r, k - 1));
    }
  }

  lemma {:induction false} OneVisit(r: Rule, k: nat, f: nat)
    requires Fits(r) && NoWrap(r) && !Stops(r, k) && f == At(r, k) == r.start + 10 + k * StepOf(r)
    requires Visits(r, k) == Freqs(r, f)
    ensures At(r, k + 1) == f + StepOf(r) == r.start + 10 + (k + 1) * StepOf(r)
    ensures Visits(r, k + 1) == Freqs(r, f + StepOf(r))
  {
    OnGrid(r, k);
    FreqsNext(r, f);
    StaysSmall(r, f);
    NextAt(r.start + 10, k, StepOf(r));
  }

  lemma {:induction false} OnGrid(r: Rule, k: nat)
    ensures (r.start + 10 + k * StepOf(r) - r.start - 10) % StepOf(r) == 0
  {
    MultipleMod(k, StepOf(r));
  }

  /** A rule that makes it wrap: after 65525 the variable goes on at 9, and the table gets frequencies
      far below the rule, such as 5189. */
  lemma {:induction false} WrappedRule(power: nat, passiveFlag: bool, dfsFlag: bool)
    ensures var r := Rule(65515, 65535, power, passiveFlag, dfsFlag);
            !NoWrap(r) && 5189 < r.start && 5189 in Visits(r, Last(r))
  {
    var r := Rule(65515, 65535, power, passiveFlag, dfsFlag);
    forall m | 0 <= m <= 260
      ensures At(r, m) == if m == 0 then 65525 else 20 * m - 11
      ensures !Stops(r, m)
    {
    }
    assert Last(r) > 260;
    VisitsPrefix(r, 261, Last(r));
    assert At(r, 260) == 5189;
    assert Visits(r, 261) == Visits(r, 260) + [5189];
    assert 5189 == Visits(r, 261)[|Visits(r, 260)|];
  }

  /** The full table of the loops of the first n rules. */
  ghost function LoopTable(rules: seq<Rule>, n: nat): seq<Chan>
    requires n <= |rules| && forall r | r in rules :: Fits(r)
  {
    if n == 0 then [] else
      assert rules[n - 1] in rules;
      LoopTable(rules, n - 1) + Entries(rules[n - 1], Visits(rules[n - 1], Last(rules[n - 1])))
  }

  /** Without a wrap it is the specified table. */
  lemma {:induction false} LoopTableIsTable(rules: seq<Rule>, n: nat)
    requires n <= |rules| && forall r | r in rules :: Fits(r) && NoWrap(r)
    ensures LoopTable(rules, n) == Table(rules, n)
    decreases n
  {
    if n > 0 {
      assert rules[n - 1] in rules;
      LoopTableIsTable(rules, n - 1);
      VisitsAreFreqs(rules[n - 1]);
    }
  }

  lemma {:induction false} EntriesPrefix(r: Rule, fs: seq<nat>, gs: seq<nat>)
    requires fs <= gs
    ensures Entries(r, fs) <= Entries(r, gs)
  {
  }

  /** What the inner loop has done after k steps. */
  ghost predicate Filled(r: Rule, k: nat, out: seq<Chan>, head: seq<Chan>) {
    out == head + Entries(r, Visits(r, k))
  }

  lemma {:induction false} FilledStep(r: Rule, k: nat, out: seq<Chan>, head: seq<Chan>)
    requires Filled(r, k, out, head)
    ensures At(r, k + 1) == (At(r, k) + StepOf(r)) % 65536
    ensures Filled(r, k + 1, if Skipped(StepOf(r), At(r, k)) then out else out + [Entry(r, At(r, k))], head)
  {
    NextAt(r.start + 10, k, StepOf(r));
    EntriesSnoc(r, Visits(r, k), At(r, k));
  }

  lemma {:induction false} NextAt(a: nat, k: nat, step: nat)
    ensures (a + (k + 1) * step) % 65536 == ((a + k * step) % 65536 + step) % 65536
  {
    assert (k + 1) * step == k * step + step;
  }

  lemma {:induction false} FilledEnd(r: Rule, k: nat, out: seq<Chan>, head: seq<Chan>, maxOut: nat)
    requires Fits(r) && Filled(r, k, out, head) && k <= Last(r) && |out| <= maxOut
    requires |out| == maxOut || k == Last(r)
    ensures out == Cut(head + Entries(r, Visits(r, Last(r))), maxOut)
  {
    VisitsPrefix(r, k, Last(r));
    EntriesPrefix(r, Visits(r, k), Visits(r, Last(r)));
  }

  /** Fills in one table entry. */
  method Put(info: array<Chan>, idx: nat, c: Chan)
    requires idx < info.Length
    modifies info
    ensures info[..idx + 1] == old(info[..idx]) + [c]
    ensures forall j | idx < j < info.Length :: info[j] == old(info[j])
  {
    info[idx] := c;
  }

  /** The inner loop: one rule, from entry idx on.  Whether the 16-bit variable wraps or not, it ends,
      and fills in the entries of what it visits until the table is full. */
  method ExpandRule(r: Rule, info: array<Chan>, start: nat, maxOut: nat) returns (idx: nat)
    requires Fits(r) && start <= maxOut <= info.Length
    modifies info
    ensures start <= idx <= maxOut
    ensures info[..idx] == Cut(old(info[..start]) + Entries(r, Visits(r, Last(r))), maxOut)
    ensures forall j | idx <= j < info.Length :: info[j] == old(info[j])
  {
    idx := start;
    ghost var head, k: nat := info[..start], 0;
    var step := StepOf(r);
    var freq := (r.start + 10) % 65536;
    assert Entries(r, []) == [];
    while freq <= r.end - 10 && idx < maxOut
      invariant start <= idx <= maxOut && k <= Last(r) && freq == At(r, k)
      invariant Filled(r, k, info[..idx], head)
      invariant forall j | idx <= j < info.Length :: info[j] == old(info[j])
      decreases Last(r) - k
    {
      FilledStep(r, k, info[..idx], head);
      if !Skipped(step, freq) {
        Put(info, idx, Entry(r, freq));
        idx := idx + 1;
      }
      freq := (freq + step) % 65536;
      k := k + 1;
    }
    assert idx < maxOut ==> Stops(r, k);
    FilledEnd(r, k, info[..idx], head, maxOut);
  }

  lemma {:induction false} CutAppend(t: seq<Chan>, more: seq<Chan>, n: nat)
    ensures |Cut(t, n)| < n ==> Cut(Cut(t, n) + more, n) == Cut(t + more, n)
    ensures |Cut(t, n)| >= n ==> Cut(t + more, n) == Cut(t, n)
  {
  }

  lemma {:induction false} TablePrefix(rules: seq<Rule>, i: nat, n: nat)
    requires i <= n <= |rules| && forall r | r in rules :: Fits(r)
    ensures LoopTable(rules, i) <= LoopTable(rules, n)
    decreases n - i
  {
    if i < n {
      TablePrefix(rules, i, n - 1);
    }
  }

  lemma {:induction false} CutPrefix(s: seq<Chan>, t: seq<Chan>, n: nat)
    requires s <= t && |Cut(s, n)| >= n
    ensures Cut(t, n) == Cut(s, n)
  {
  }

  /** The channel table: the first maxOut entries of the full table, and their number.  When no rule
      makes the loop variable wrap, that is the specified table. */
  method Expand(rules: seq<Rule>, info: array<Chan>, maxOut: nat) returns (numChannels: nat)
    requires forall r | r in rules :: Fits(r)
    requires maxOut <= info.Length
    modifies info
    ensures numChannels == if |LoopTable(rules, |rules|)| <= maxOut then |LoopTable(rules, |rules|)| else maxOut
    ensures info[..numChannels] == LoopTable(rules, |rules|)[..numChannels]
    ensures (forall r | r in rules :: NoWrap(r)) ==> LoopTable(rules, |rules|) == Table(rules, |rules|)
    ensures forall j | numChannels <= j < info.Length :: info[j] == old(info[j])
  {
    var idx := 0;
    var i := 0;
    while i < |rules| && idx < maxOut
      invariant 0 <= i <= |rules| && 0 <= idx <= maxOut
      invariant info[..idx] == Cut(LoopTable(rules, i), maxOut)
      invariant forall j | idx <= j < info.Length :: info[j] == old(info[j])
    {
      assert rules[i] in rules;
      CutAppend(LoopTable(rules, i), Entries(rules[i], Visits(rules[i], Last(rules[i]))), maxOut);
      idx := ExpandRule(rules[i], info, idx, maxOut);
      i := i + 1;
    }
    if i < |rules| {
      TablePrefix(rules, i, |rules|);
      CutPrefix(LoopTable(rules, i), LoopTable(rules, |rules|), maxOut);
    }
    if forall r | r in rules :: NoWrap(r) {
      LoopTableIsTable(rules, |rules|);
    }
    numChannels := idx;
  }

  /** A rule asks for this very table entry. */
  predicate Allows(r: Rule, c: Chan) {
    && r.start + 10 <= c.freq && c.freq + 10 <= r.end && c.freq < 65536
    && (if r.start >= 5000 then (c.freq - r.start - 10) % 20 == 0 && 5180 <= c.freq <= 5895
        else (c.freq - r.start - 10) % 5 == 0 && (2412 <= c.freq <= 2472 || c.freq == 2484))
    && c.power == r.power && c.supported && c.passive == r.passiveFlag
    && c.dfs == (r.start >= 5000 && r.dfsFlag)
  }

  /** What the full table holds: exactly the wanted frequencies of each rule, with the rule's power
      and flags; DFS only for 20 MHz rules. */
  lemma {:induction false} TableExactly(rules: seq<Rule>, n: nat, c: Chan)
    requires n <= |rules|
    ensures c in Table(rules, n) <==>
            exists i :: 0 <= i < n && Allows(rules[i], c)
    decreases n
  {
    if n > 0 {
      TableExactly(rules, n - 1, c);
      RuleEntries(rules[n - 1], c);
    }
  }

  lemma {:induction false} RuleEntries(r: Rule, c: Chan)
    ensures c in Entries(r, Freqs(r, 65536)) <==>
            Allows(r, c)
  {
    FreqsWanted(r, 65536);
    var fs := Freqs(r, 65536);
    if Allows(r, c) {
      assert Wanted(r, c.freq) && c == Entry(r, c.freq);
      var i :| 0 <= i < |fs| && fs[i] == c.freq;
      assert Entries(r, fs)[i] == c;
    }
    if c in Entries(r, fs) {
      var i :| 0 <= i < |fs| && Entries(r, fs)[i] == c;
      assert fs[i] in fs && Wanted(r, c.freq) && c == Entry(r, c.freq);
    }
  }

  lemma {:induction false} StaysSmall(r: Rule, freq: nat)
    requires Fits(r) && NoWrap(r) && freq >= r.start + 10
    requires (freq - r.start - 10) % StepOf(r) == 0 && freq + 10 <= r.end
    ensures freq + StepOf(r) < 65536
  {
    var k := (freq - r.start - 10) / StepOf(r);
    NextBelow(r, k);
  }

  lemma {:induction false} FreqsPrefix(r: Rule, f: nat, g: nat)
    requires f <= g
    ensures Freqs(r, f) <= Freqs(r, g)
    decreases g - f
  {
    if f < g {
      FreqsPrefix(r, f, g - 1);
    }
  }
}
