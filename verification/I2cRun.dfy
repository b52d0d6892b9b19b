/** What the driver does to the controller, as runs of the thread system: from the states before and after
    to the steps in between. */
module I2cRun {
  import opened I2cStream
  import opened I2cThreads

  /** The controller: address register, words accepted, what became of those that left the FIFO, bytes
      handed over and bytes waiting to be. */
  datatype Snapshot = Snapshot(tar: nat, log: seq<Word>, fates: seq<Fate>, got: seq<byte>, rx: seq<byte>)

  /** Between two moments every word that was decided was executed under `tar`. */
  ghost predicate Ran(f0: seq<Fate>, f1: seq<Fate>, tar: nat) {
    f0 <= f1 && forall i | |f0| <= i < |f1| :: f1[i] == Done(tar)
  }

  /** The fates of all words, those in the FIFO included. */
  function AllFates(a: Snapshot): (r: seq<Fate>) {
    if |a.fates| <= |a.log| then a.fates + seq(|a.log| - |a.fates|, _ => Queued) else a.fates
  }

  function Positions(lo: nat, hi: nat): (r: seq<nat>)
    ensures |r| == if lo <= hi then hi - lo else 0
  {
    if lo <= hi then seq(hi - lo, i requires 0 <= i < hi - lo => lo + i) else []
  }

  /** The thread system shows the same controller. */
  ghost predicate Mirrors(p: Part, a: Snapshot, s: Sys) {
    && s.part == p && s.cache.tar == a.tar && |a.fates| <= |a.log|
    && (forall i | 0 <= i < |a.fates| :: !a.fates[i].Queued?)
    && s.log == a.log && s.fates == AllFates(a) && s.fifo == Positions(|a.fates|, |a.log|)
  }

  /** The holder is about to send ws. */
  predicate CanSend(s: Sys, ws: seq<Word>) {
    && s.holder.Sending? && Busy(s) && s.sel != [] && !s.timedOut
    && s.holder.k + |ws| <= |Current(s).words| && Current(s).words[s.holder.k..s.holder.k + |ws|] == ws
  }

  /** The holder has sent n more words; nothing else but the controller has changed. */
  predicate Moved(s: Sys, s': Sys, n: nat) {
    && s.holder.Sending? && s'.holder == Sending(s.holder.tid, s.holder.k + n)
    && s'.todo == s.todo && s'.sel == s.sel && s'.cache == s.cache && |s'.acquired| == |s.acquired| && !s'.timedOut
  }

  ghost predicate SomeRun(p: Part, b: Snapshot, n: nat, s: Sys) {
    exists steps, s' :: IsRun(s, steps, s') && Mirrors(p, b, s') && Moved(s, s', n)
  }

  /** Whatever threads there are: sending ws from a to b is a run of the holder's steps. */
  ghost predicate SendsRun(p: Part, a: Snapshot, b: Snapshot, ws: seq<Word>) {
    forall s | Mirrors(p, a, s) && CanSend(s, ws) :: SomeRun(p, b, |ws|, s)
  }

  // ----- the controller executes words

  lemma {:induction false} OneDrain(p: Part, a: Snapshot, s: Sys) returns (s': Sys)
    requires Mirrors(p, a, s) && |a.fates| < |a.log|
    ensures Enabled(s, Drain) && s' == Next(s, Drain) && Mirrors(p, a.(fates := a.fates + [Done(a.tar)]), s')
    ensures s' == s.(fates := s'.fates, fifo := s'.fifo)
  {
    s' := Next(s, Drain);
    var b := a.(fates := a.fates + [Done(a.tar)]);
    assert AllFates(a)[|a.fates| := Done(a.tar)] == AllFates(b);
    assert Positions(|a.fates|, |a.log|)[1..] == Positions(|b.fates|, |b.log|);
  }

  lemma {:induction false} Drains(p: Part, a: Snapshot, b: Snapshot, s: Sys) returns (steps: seq<Step>, s': Sys)
    requires Mirrors(p, a, s) && Ran(a.fates, b.fates, a.tar) && |b.fates| <= |b.log| && b.log == a.log
             && b.tar == a.tar
    ensures IsRun(s, steps, s') && Mirrors(p, b, s') && s' == s.(fates := s'.fates, fifo := s'.fifo)
    decreases |b.fates| - |a.fates|
  {
    if |a.fates| == |b.fates| {
      assert a.fates == b.fates;
      steps, s' := [], s;
    } else {
      var s1 := OneDrain(p, a, s);
      assert b.fates[|a.fates|] == Done(a.tar);
      assert a.fates + [Done(a.tar)] <= b.fates;
      var more;
      more, s' := Drains(p, a.(fates := a.fates + [Done(a.tar)]), b, s1);
      steps := [Drain] + more;
      assert steps[1..] == more;
    }
  }

  lemma {:induction false} ExecutingRun(p: Part, a: Snapshot, b: Snapshot)
    requires Ran(a.fates, b.fates, a.tar) && |b.fates| <= |b.log| && b.log == a.log && b.tar == a.tar
    ensures SendsRun(p, a, b, [])
  {
    forall s | Mirrors(p, a, s) && CanSend(s, [])
      ensures SomeRun(p, b, 0, s)
    {
      var steps, s' := Drains(p, a, b, s);
      assert Moved(s, s', 0);
    }
  }

  // ----- one word

  /** A word was accepted and the driver's wait is over. */
  ghost predicate WordSent(p: Part, a: Snapshot, b: Snapshot, w: Word) {
    && |a.fates| <= |a.log| < p.depth + |a.fates| && b.log == a.log + [w] && b.tar == a.tar
    && Ran(a.fates, b.fates, a.tar) && |b.fates| <= |b.log|
    && if w.read then |b.fates| == |b.log| else |b.log| < p.depth + |b.fates|
  }

  lemma {:induction false} AfterSend(p: Part, a: Snapshot, w: Word, s: Sys)
    requires Mirrors(p, a, s) && CanSend(s, [w]) && |a.log| < p.depth + |a.fates|
    ensures Enabled(s, Send) && Mirrors(p, a.(log := a.log + [w]), Next(s, Send))
    ensures var s' := Next(s, Send);
            && s'.holder == Waiting(s.holder.tid, s.holder.k + 1)
            && s'.todo == s.todo && s'.sel == s.sel && s'.cache == s.cache && |s'.acquired| == |s.acquired|
            && !s'.timedOut
  {
    var b := a.(log := a.log + [w]);
    assert Current(s).words[s.holder.k] == w;
    assert AllFates(a) + [Queued] == AllFates(b);
    assert Positions(|a.fates|, |a.log|) + [|a.log|] == Positions(|b.fates|, |b.log|);
  }

  lemma {:induction false} WordRun(p: Part, a: Snapshot, b: Snapshot, w: Word, s: Sys)
    requires WordSent(p, a, b, w) && Mirrors(p, a, s) && CanSend(s, [w])
    ensures SomeRun(p, b, 1, s)
  {
    AfterSend(p, a, w, s);
    var s1 := Next(s, Send);
    var steps, s2 := Drains(p, a.(log := a.log + [w]), b, s1);
    assert s2.log[|s2.log| - 1] == w;
    RunSnoc(s1, steps, s2, Arrive);
    var all := [Send] + (steps + [Arrive]);
    assert all[1..] == steps + [Arrive];
    assert IsRun(s, all, Next(s2, Arrive)) && Moved(s, Next(s2, Arrive), 1);
  }

  lemma {:induction false} WordSentRun(p: Part, a: Snapshot, b: Snapshot, w: Word)
    requires WordSent(p, a, b, w)
    ensures SendsRun(p, a, b, [w])
  {
    forall s | Mirrors(p, a, s) && CanSend(s, [w])
      ensures SomeRun(p, b, 1, s)
    {
      WordRun(p, a, b, w, s);
    }
  }

  // ----- one after the other

  lemma {:induction false} SendSplit(s: Sys, ws: seq<Word>, vs: seq<Word>)
    requires CanSend(s, ws + vs)
    ensures CanSend(s, ws)
    ensures forall s' | Moved(s, s', |ws|) :: CanSend(s', vs)
  {
    var x, k := Current(s), s.holder.k;
    assert x.words[k..k + |ws|] == x.words[k..k + |ws + vs|][..|ws|] == ws;
    assert x.words[k + |ws|..k + |ws| + |vs|] == x.words[k..k + |ws + vs|][|ws|..] == vs;
  }

  lemma {:induction false} RunsThen(p: Part, a: Snapshot, b: Snapshot, c: Snapshot, ws: seq<Word>, vs: seq<Word>)
    requires SendsRun(p, a, b, ws) && SendsRun(p, b, c, vs)
    ensures SendsRun(p, a, c, ws + vs)
  {
    forall s | Mirrors(p, a, s) && CanSend(s, ws + vs)
      ensures SomeRun(p, c, |ws + vs|, s)
    {
      SendSplit(s, ws, vs);
      assert SomeRun(p, b, |ws|, s);
      var steps, s1 :| IsRun(s, steps, s1) && Mirrors(p, b, s1) && Moved(s, s1, |ws|);
      assert SomeRun(p, c, |vs|, s1);
      var more, s2 :| IsRun(s1, more, s2) && Mirrors(p, c, s2) && Moved(s1, s2, |vs|);
      RunOn(s, steps, s1, more, s2);
      assert Moved(s, s2, |ws + vs|);
    }
  }

  // ----- the end of a transfer that times out

  ghost predicate SomeRunOut(p: Part, b: Snapshot, s: Sys) {
    exists steps, s' :: IsRun(s, steps, s') && Mirrors(p, b, s') && RanOut(s, s')
  }

  /** The holder gave up. */
  predicate RanOut(s: Sys, s': Sys) {
    && s.holder.Sending? && s'.holder == Ending(s.holder.tid) && s'.timedOut
    && s'.todo == s.todo && s'.sel == s.sel && s'.cache == s.cache && |s'.acquired| == |s.acquired|
  }

  /** Sending some of ws from a to b and giving up is a run. */
  ghost predicate RunsOut(p: Part, a: Snapshot, b: Snapshot, ws: seq<Word>) {
    forall s | Mirrors(p, a, s) && CanSend(s, ws) :: SomeRunOut(p, b, s)
  }

  /** A read word was accepted and no byte came. */
  lemma {:induction false} ReadRunsOut(p: Part, a: Snapshot, b: Snapshot, w: Word)
    requires w.read && |a.fates| <= |a.log| < p.depth + |a.fates| && b.log == a.log + [w] && b.tar == a.tar
    requires Ran(a.fates, b.fates, a.tar) && |b.fates| <= |b.log|
    ensures RunsOut(p, a, b, [w])
  {
    forall s | Mirrors(p, a, s) && CanSend(s, [w])
      ensures SomeRunOut(p, b, s)
    {
      AfterSend(p, a, w, s);
      var s1 := Next(s, Send);
      var steps, s2 := Drains(p, a.(log := a.log + [w]), b, s1);
      assert s2.log[|s2.log| - 1] == w;
      RunSnoc(s1, steps, s2, TimeOut);
      var all := [Send] + (steps + [TimeOut]);
      assert all[1..] == steps + [TimeOut];
      assert IsRun(s, all, Next(s2, TimeOut)) && RanOut(s, Next(s2, TimeOut));
    }
  }

  lemma {:induction false} RunsThenOut(p: Part, a: Snapshot, b: Snapshot, c: Snapshot, ws: seq<Word>, vs: seq<Word>)
    requires SendsRun(p, a, b, ws) && RunsOut(p, b, c, vs)
    ensures RunsOut(p, a, c, ws + vs)
  {
    forall s | Mirrors(p, a, s) && CanSend(s, ws + vs)
      ensures SomeRunOut(p, c, s)
    {
      SendSplit(s, ws, vs);
      assert SomeRun(p, b, |ws|, s);
      var steps, s1 :| IsRun(s, steps, s1) && Mirrors(p, b, s1) && Moved(s, s1, |ws|);
      assert SomeRunOut(p, c, s1);
      var more, s2 :| IsRun(s1, more, s2) && Mirrors(p, c, s2) && RanOut(s1, s2);
      RunOn(s, steps, s1, more, s2);
      assert RanOut(s, s2);
    }
  }

  lemma {:induction false} OutOfMore(p: Part, a: Snapshot, b: Snapshot, ws: seq<Word>, vs: seq<Word>)
    requires RunsOut(p, a, b, ws)
    ensures RunsOut(p, a, b, ws + vs)
  {
    forall s | Mirrors(p, a, s) && CanSend(s, ws + vs)
      ensures SomeRunOut(p, b, s)
    {
      SendSplit(s, ws, vs);
    }
  }

  // ----- what is put into the controller, and how

  /** Exactly ws was put into the controller, by a run. */
  ghost predicate Gave(p: Part, a: Snapshot, b: Snapshot, ws: seq<Word>) {
    b.log == a.log + ws && SendsRun(p, a, b, ws)
  }

  /** Some of ws was put in, by a run: up to a read word for which no byte came. */
  ghost predicate GaveUp(p: Part, a: Snapshot, b: Snapshot, ws: seq<Word>) {
    b.rx == [] && RunsOut(p, a, b, ws) && exists k: nat :: StopsAt(a, b, ws, k)
  }

  predicate StopsAt(a: Snapshot, b: Snapshot, ws: seq<Word>, k: nat) {
    0 < k <= |ws| && ws[k - 1].read && b.log == a.log + ws[..k]
  }

  lemma {:induction false} GaveThen(p: Part, a: Snapshot, b: Snapshot, c: Snapshot, ws: seq<Word>, vs: seq<Word>)
    requires Gave(p, a, b, ws) && Gave(p, b, c, vs)
    ensures Gave(p, a, c, ws + vs)
  {
    RunsThen(p, a, b, c, ws, vs);
    assert a.log + ws + vs == a.log + (ws + vs);
  }

  lemma {:induction false} GaveThenUp(p: Part, a: Snapshot, b: Snapshot, c: Snapshot, ws: seq<Word>, vs: seq<Word>)
    requires Gave(p, a, b, ws) && GaveUp(p, b, c, vs)
    ensures GaveUp(p, a, c, ws + vs)
  {
    RunsThenOut(p, a, b, c, ws, vs);
    var k: nat :| StopsAt(b, c, vs, k);
    assert a.log + ws + vs[..k] == a.log + (ws + vs)[..|ws| + k];
    assert StopsAt(a, c, ws + vs, |ws| + k);
  }

  lemma {:induction false} UpOfMore(p: Part, a: Snapshot, b: Snapshot, ws: seq<Word>, vs: seq<Word>)
    requires GaveUp(p, a, b, ws)
    ensures GaveUp(p, a, b, ws + vs)
  {
    OutOfMore(p, a, b, ws, vs);
    var k: nat :| StopsAt(a, b, ws, k);
    assert (ws + vs)[..k] == ws[..k];
    assert StopsAt(a, b, ws + vs, k);
  }

  /** A word was accepted and waited for. */
  lemma {:induction false} GaveWord(p: Part, a: Snapshot, b: Snapshot, w: Word)
    requires WordSent(p, a, b, w)
    ensures Gave(p, a, b, [w])
  {
    WordSentRun(p, a, b, w);
  }

  /** A read word was accepted and no byte came. */
  lemma {:induction false} GaveUpRead(p: Part, a: Snapshot, b: Snapshot, w: Word)
    requires w.read && |a.fates| <= |a.log| < p.depth + |a.fates| && b.log == a.log + [w] && b.tar == a.tar
    requires Ran(a.fates, b.fates, a.tar) && |b.fates| <= |b.log| && b.rx == []
    ensures GaveUp(p, a, b, [w])
  {
    ReadRunsOut(p, a, b, w);
    assert [w][..1] == [w];
    assert StopsAt(a, b, [w], 1);
  }

  // ----- whole transfers

  /** The address was selected: unless it is the remembered one, the words waiting were executed up to k,
      and the rest dropped or kept. */
  ghost predicate Chosen(p: Part, a: Snapshot, b: Snapshot, k: nat, addr: nat, switched: bool) {
    && |a.fates| <= |a.log| && b.log == a.log && b.tar == (if switched then addr else a.tar)
    && if !switched then b.fates == a.fates
       else && |a.fates| <= k <= |a.log| && |b.fates| == (if p.flushes then |a.log| else k)
            && Ran(a.fates, b.fates[..k], a.tar) && forall i | k <= i < |b.fates| :: b.fates[i] == Dropped
  }

  ghost predicate SomeTransfer(p: Part, b: Snapshot, s: Sys, t: nat, addr: nat, late: bool)
    requires t < |s.todo| && s.todo[t] != []
  {
    exists steps, s' ::
      && IsRun(s, steps, s') && Mirrors(p, b, s') && s'.holder.Free? && s'.todo == s.todo[t := s.todo[t][1..]]
      && s'.cache.last == addr && s'.timedOut == late && |s'.acquired| == |s.acquired| + 1
  }

  /** Whatever threads there are: when one of them has transfer x to do, going from a to b is a run of its
      steps from taking the lock to giving it back. */
  ghost predicate TransferRuns(p: Part, last: nat, a: Snapshot, b: Snapshot, x: Xfer, late: bool) {
    forall s, t | CanStart(p, last, a, x, s, t) :: SomeTransfer(p, b, s, t, x.addr, late)
  }

  ghost predicate CanStart(p: Part, last: nat, a: Snapshot, x: Xfer, s: Sys, t: nat) {
    && Mirrors(p, a, s) && s.holder.Free? && s.cache.last == last && !s.timedOut
    && t < |s.todo| && s.todo[t] != [] && s.todo[t][0] == x
  }

  lemma {:induction false} AllFlushed(a: Snapshot, mid: Snapshot, b: Snapshot, k: nat)
    requires |a.fates| <= k <= |a.log| == |b.fates| == |b.log| && mid == a.(fates := b.fates[..k])
    requires Ran(a.fates, b.fates[..k], a.tar) && forall i | k <= i < |b.fates| :: b.fates[i] == Dropped
    requires forall i | 0 <= i < |a.fates| :: !a.fates[i].Queued?
    ensures Flushed(AllFates(mid)) == AllFates(b)
  {
    forall i | 0 <= i < |b.fates|
      ensures Flushed(AllFates(mid))[i] == b.fates[i]
    {
      assert i < k ==> b.fates[..k][i] == b.fates[i];
    }
  }

  /** Taking the lock and selecting the address. */
  lemma {:induction false} Choosing(p: Part, last: nat, a: Snapshot, b: Snapshot, k: nat, x: Xfer, s: Sys, t: nat)
    returns (steps: seq<Step>, s': Sys)
    requires CanStart(p, last, a, x, s, t) && Chosen(p, a, b, k, x.addr, x.addr != last)
    ensures IsRun(s, steps, s') && Mirrors(p, b, s') && s'.holder == Sending(t, 0) && s'.todo == s.todo && s'.sel != []
    ensures s'.cache.last == x.addr && !s'.timedOut && |s'.acquired| == |s.acquired| + 1
  {
    var s1 := Next(s, Acquire(t));
    var mid := if x.addr != last then a.(fates := b.fates[..k]) else a;
    var more, s2 := Drains(p, a, mid, s1);
    s' := Next(s2, Select);
    RunSnoc(s1, more, s2, Select);
    steps := [Acquire(t)] + (more + [Select]);
    assert steps[1..] == more + [Select];
    if x.addr != last && p.flushes {
      AllFlushed(a, mid, b, k);
    }
  }

  lemma {:induction false} WholeRun(p: Part, last: nat, a: Snapshot, m: Snapshot, b: Snapshot, k: nat, x: Xfer)
    requires Chosen(p, a, m, k, x.addr, x.addr != last) && SendsRun(p, m, b, x.words)
    ensures TransferRuns(p, last, a, b, x, false)
  {
    forall s, t | CanStart(p, last, a, x, s, t)
      ensures SomeTransfer(p, b, s, t, x.addr, false)
    {
      var steps, s1 := Choosing(p, last, a, m, k, x, s, t);
      assert CanSend(s1, x.words);
      assert SomeRun(p, b, |x.words|, s1);
      var more, s2 :| IsRun(s1, more, s2) && Mirrors(p, b, s2) && Moved(s1, s2, |x.words|);
      RunOn(s, steps, s1, more, s2);
      var s3 := Next(s2, Finish);
      RunSnoc(s, steps + more, s2, Finish);
      RunSnoc(s, steps + more + [Finish], s3, Release);
      assert IsRun(s, steps + more + [Finish] + [Release], Next(s3, Release));
    }
  }

  lemma {:induction false} WholeRunOut(p: Part, last: nat, a: Snapshot, m: Snapshot, b: Snapshot, k: nat, x: Xfer)
    requires Chosen(p, a, m, k, x.addr, x.addr != last) && RunsOut(p, m, b, x.words)
    ensures TransferRuns(p, last, a, b, x, true)
  {
    forall s, t | CanStart(p, last, a, x, s, t)
      ensures SomeTransfer(p, b, s, t, x.addr, true)
    {
      var steps, s1 := Choosing(p, last, a, m, k, x, s, t);
      assert CanSend(s1, x.words);
      assert SomeRunOut(p, b, s1);
      var more, s2 :| IsRun(s1, more, s2) && Mirrors(p, b, s2) && RanOut(s1, s2);
      RunOn(s, steps, s1, more, s2);
      RunSnoc(s, steps + more, s2, Release);
      assert IsRun(s, steps + more + [Release], Next(s2, Release));
    }
  }
}
