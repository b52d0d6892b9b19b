/** Threads with a program counter each and a counting lock: their runs are runs of the system in which
    one thread at a time transfers. */
module I2cLock {
  import opened I2cStream
  import opened I2cThreads
  import opened I2cSafe
  import opened Mutex

  /** Where a thread is in its transfer, which is the at-th to take the lock. */
  datatype Pc =
    | Out
    | Taken(at: nat)
    | Sends(at: nat, k: nat)
    | Waits(at: nat, k: nat)
    | Ends(at: nat)

  datatype Threads = Threads(
    part: Part, cache: Cache, log: seq<Word>, owner: seq<nat>, fates: seq<Fate>, fifo: seq<nat>, sel: seq<Sel>,
    todo: seq<seq<Xfer>>, acquired: seq<Entry>, timedOut: bool, sem: nat, pcs: seq<Pc>)

  datatype Act = Take | Choose | Write | Awaited | Late | Complete | Give

  /** A thread's next access, by its own program counter; or the controller executes a word. */
  datatype TStep = By(tid: nat, act: Act) | Execute

  predicate IsFull(s: Threads) { |s.fifo| >= s.part.depth }

  function Mine(s: Threads, t: nat): Xfer
    requires t < |s.todo| && s.todo[t] != []
  {
    s.todo[t][0]
  }

  predicate CanAct(s: Threads, t: nat, a: Act)
    requires t < |s.todo| == |s.pcs| && s.todo[t] != []
  {
    var pc, x := s.pcs[t], Mine(s, t);
    match a
    case Take => pc.Out? && s.sem > 0
    case Choose => pc.Taken?
    case Write => pc.Sends? && pc.k < |x.words| && pc.at < |s.acquired| && (x.words[pc.k].read || !IsFull(s))
    case Awaited =>
      pc.Waits? && 0 < pc.k <= |x.words| && if x.words[pc.k - 1].read then s.fifo == [] || s.timedOut else !IsFull(s)
    case Late =>
      || (pc.Sends? && pc.k < |x.words| && IsFull(s))
      || (pc.Waits? && 0 < pc.k <= |x.words| && x.words[pc.k - 1].read)
    case Complete => pc.Sends? && pc.k == |x.words|
    case Give => pc.Ends?
  }

  predicate Can(s: Threads, step: TStep) {
    match step
    case By(t, a) => t < |s.todo| == |s.pcs| && s.todo[t] != [] && CanAct(s, t, a)
    case Execute => s.fifo != [] && s.fifo[0] < |s.fates|
  }

  function Step1(s: Threads, step: TStep): Threads
    requires Can(s, step)
  {
    match step
    case Execute => s.(fates := s.fates[s.fifo[0] := Done(s.cache.tar)], fifo := s.fifo[1..])
    case By(t, a) =>
      var pc, x := s.pcs[t], Mine(s, t);
      match a
      case Take =>
        s.(sem := s.sem - 1, acquired := s.acquired + [Entry(t, x, 0)], pcs := s.pcs[t := Taken(|s.acquired|)])
      case Choose =>
        var flush := x.addr != s.cache.last && s.part.flushes;
        s.(cache := Use(s.cache, x.addr), sel := s.sel + [Sel(x.addr, s.fifo)], pcs := s.pcs[t := Sends(pc.at, 0)],
           fates := if flush then Flushed(s.fates) else s.fates, fifo := if flush then [] else s.fifo)
      case Write =>
        s.(log := s.log + [x.words[pc.k]], owner := s.owner + [pc.at],
           fates := s.fates + [if IsFull(s) then Dropped else Queued],
           fifo := if IsFull(s) then s.fifo else s.fifo + [|s.log|],
           acquired := s.acquired[pc.at := s.acquired[pc.at].(sent := pc.k + 1)],
           pcs := s.pcs[t := Waits(pc.at, pc.k + 1)])
      case Awaited => s.(pcs := s.pcs[t := Sends(pc.at, pc.k)])
      case Late => s.(timedOut := true, pcs := s.pcs[t := Ends(pc.at)])
      case Complete => s.(pcs := s.pcs[t := Ends(pc.at)])
      case Give => s.(sem := s.sem + 1, todo := s.todo[t := s.todo[t][1..]], pcs := s.pcs[t := Out])
  }

  ghost predicate Runs(s: Threads, steps: seq<TStep>, s': Threads)
    decreases |steps|
  {
    if steps == [] then s == s' else Can(s, steps[0]) && Runs(Step1(s, steps[0]), steps[1..], s')
  }

  /** No transfer yet: the lock is free, the driver remembers address 0. */
  predicate AtRest(s: Threads) {
    && s.part.depth > 0 && s.acquired == [] && s.sel == [] && s.cache.last == 0 && !s.timedOut
    && s.log == [] && s.owner == [] && s.fates == [] && s.fifo == []
    && s.sem == 1 && |s.pcs| == |s.todo| && forall t | 0 <= t < |s.pcs| :: s.pcs[t].Out?
  }

  // ----- mutual exclusion, from the lock

  function Flags(pcs: seq<Pc>): (r: seq<bool>)
    ensures |r| == |pcs|
  {
    seq(|pcs|, t requires 0 <= t < |pcs| => !pcs[t].Out?)
  }

  predicate Exclusive(s: Threads) { s.sem + Count(Flags(s.pcs)) == 1 && |s.pcs| == |s.todo| }

  lemma {:induction false} ExclusiveKept(s: Threads, step: TStep)
    requires Exclusive(s) && Can(s, step)
    ensures Exclusive(Step1(s, step))
  {
    if step.By? {
      var s' := Step1(s, step);
      assert Flags(s'.pcs) == Flags(s.pcs)[step.tid := !s'.pcs[step.tid].Out?];
      CountUpdate(Flags(s.pcs), step.tid, !s'.pcs[step.tid].Out?);
    }
  }

  lemma {:induction false} AloneInside(s: Threads, t: nat, u: nat)
    requires Exclusive(s) && t < |s.pcs| && u < |s.pcs| && !s.pcs[t].Out?
    ensures s.sem == 0 && (!s.pcs[u].Out? ==> u == t)
  {
    CountsInside(Flags(s.pcs), t);
    if !s.pcs[u].Out? {
      OnlyOne(Flags(s.pcs), t, u);
    }
  }

  // ----- what the threads share, seen with one holder

  function View(s: Threads, h: Holder): Sys {
    Sys(s.part, s.cache, s.log, s.owner, s.fates, s.fifo, s.sel, h, s.todo, s.acquired, s.timedOut)
  }

  function HolderAs(t: nat, pc: Pc): Holder {
    match pc
    case Out => Free
    case Taken(_) => Locked(t)
    case Sends(_, k) => Sending(t, k)
    case Waits(_, k) => Waiting(t, k)
    case Ends(_) => Ending(t)
  }

  /** c is what the threads share with the thread inside as holder, and that thread's transfer is the
      latest to take the lock. */
  ghost predicate Shows(s: Threads, c: Sys) {
    && Exclusive(s) && c == View(s, c.holder)
    && if s.sem > 0 then c.holder.Free?
       else && !c.holder.Free? && c.holder.tid < |s.pcs| && !s.pcs[c.holder.tid].Out?
            && c.holder == HolderAs(c.holder.tid, s.pcs[c.holder.tid])
            && s.pcs[c.holder.tid].at == |s.acquired| - 1
  }

  function StepAs(step: TStep): Step {
    match step
    case Execute => Drain
    case By(t, a) =>
      match a
      case Take => Acquire(t)
      case Choose => Select
      case Write => Send
      case Awaited => Arrive
      case Late => TimeOut
      case Complete => Finish
      case Give => Release
  }

  /** While a thread waits, the last word of the log is the one it has just sent. */
  lemma {:induction false} LastIsMine(c: Sys)
    requires Serial(c) && c.holder.Waiting?
    ensures c.log != [] && 0 < c.holder.k <= |Current(c).words|
    ensures c.log[|c.log| - 1] == Current(c).words[c.holder.k - 1]
  {
    var e := c.acquired[|c.acquired| - 1];
    assert Sent(e) == e.x.words[..c.holder.k];
  }

  lemma {:induction false} HolderIs(s: Threads, c: Sys, t: nat)
    requires Shows(s, c) && t < |s.pcs| && !s.pcs[t].Out?
    ensures s.sem == 0 && c.holder == HolderAs(t, s.pcs[t]) && c.holder.tid == t && s.pcs[t].at == |s.acquired| - 1
  {
    AloneInside(s, t, t);
    AloneInside(s, t, c.holder.tid);
  }

  /** Every step of a thread is a step of the system with one holder. */
  lemma {:induction false} StepShows(s: Threads, c: Sys, step: TStep) returns (c': Sys)
    requires Shows(s, c) && Serial(c) && Can(s, step)
    ensures Enabled(c, StepAs(step)) && c' == Next(c, StepAs(step)) && Shows(Step1(s, step), c')
  {
    ExclusiveKept(s, step);
    match step
    case Execute => c' := Next(c, Drain);
    case By(t, a) =>
      if a.Take? {
        c' := Next(c, Acquire(t));
      } else {
        HolderIs(s, c, t);
        c' := InsideShows(s, c, t, a);
      }
  }

  lemma {:induction false} InsideShows(s: Threads, c: Sys, t: nat, a: Act) returns (c': Sys)
    requires Shows(s, c) && Serial(c) && Can(s, By(t, a)) && !a.Take? && Exclusive(Step1(s, By(t, a)))
    requires c.holder == HolderAs(t, s.pcs[t]) && !c.holder.Free? && c.holder.tid == t
             && s.pcs[t].at == |s.acquired| - 1
    ensures Enabled(c, StepAs(By(t, a))) && c' == Next(c, StepAs(By(t, a))) && Shows(Step1(s, By(t, a)), c')
  {
    if c.holder.Waiting? {
      LastIsMine(c);
    }
    assert Current(c) == Mine(s, t) && Busy(c);
    c' := Next(c, StepAs(By(t, a)));
  }

  lemma {:induction false} RunShows(s: Threads, c: Sys, steps: seq<TStep>, s': Threads)
    returns (csteps: seq<Step>, c': Sys)
    requires Shows(s, c) && Serial(c) && Runs(s, steps, s')
    ensures IsRun(c, csteps, c') && Shows(s', c')
    decreases |steps|
  {
    if steps == [] {
      csteps, c' := [], c;
    } else {
      var c1 := StepShows(s, c, steps[0]);
      SerialKept(c, StepAs(steps[0]));
      var more;
      more, c' := RunShows(Step1(s, steps[0]), c1, steps[1..], s');
      csteps := [StepAs(steps[0])] + more;
      assert csteps[1..] == more;
    }
  }

  lemma {:induction false} RestShows(s: Threads)
    requires AtRest(s)
    ensures Shows(s, View(s, Free)) && Initial(View(s, Free))
  {
    NoneInside(Flags(s.pcs));
    assert Count(Flags(s.pcs)) == 0;
  }

  // ----- the theorems, for threads

  /** At any moment the lock's count and the threads inside add up to one. */
  lemma {:induction false} MutualExclusion(s0: Threads, steps: seq<TStep>, s: Threads, t: nat, u: nat)
    requires AtRest(s0) && Runs(s0, steps, s) && t < |s.pcs| && u < |s.pcs|
    ensures s.sem + Count(Flags(s.pcs)) == 1
    ensures !s.pcs[t].Out? && !s.pcs[u].Out? ==> t == u
  {
    RestShows(s0);
    var csteps, c := RunShows(s0, View(s0, Free), steps, s);
    if !s.pcs[t].Out? {
      AloneInside(s, t, u);
    }
  }

  /** With no transfer open, the words written are the transfers' words one after another in the order in
      which they took the lock, and the addresses were selected in that order. */
  lemma {:induction false} ThreadsNeverInterleave(s0: Threads, steps: seq<TStep>, s: Threads)
    requires AtRest(s0) && Runs(s0, steps, s) && s.sem > 0
    ensures s.log == SerialLog(s.acquired) && |s.sel| == |s.acquired|
    ensures forall i | 0 <= i < |s.sel| :: s.sel[i].addr == s.acquired[i].x.addr
  {
    RestShows(s0);
    var csteps, c := RunShows(s0, View(s0, Free), steps, s);
    NeverInterleaved(View(s0, Free), csteps, c);
  }

  /** Under which register a word of transfer i is executed: see ExecutedUnderOwn. */
  lemma {:induction false} ThreadsExecute(s0: Threads, steps: seq<TStep>, s: Threads, p: nat)
    requires AtRest(s0) && Runs(s0, steps, s) && p < |s.log|
    ensures p < |s.owner| && p < |s.fates| && s.owner[p] < |s.sel|
    ensures var i, crossed := s.owner[p], Crossed(s.sel, s0.cache, s.owner[p], p);
            && (!crossed && s.fates[p].Done? ==> s.fates[p] == Done(Reg(s.sel, s0.cache, i)))
            && (crossed && s.part.flushes ==> s.fates[p] == Dropped)
            && (!s.timedOut && s.fates[p] == Dropped ==> crossed && s.part.flushes)
  {
    RestShows(s0);
    var csteps, c := RunShows(s0, View(s0, Free), steps, s);
    ExecutedUnderOwn(View(s0, Free), csteps, c, p);
  }

  // ----- safe transfers, for threads

  /** Some threads, none of them timed out, whose transfers took the lock in the order of xs, have come to
      state s, where position p of the log is a word of transfer i. */
  ghost predicate ThreadsReach(part: Part, xs: seq<Xfer>, c: Cache, i: nat, s: Threads, p: nat) {
    && (exists s0, steps :: Runs(s0, steps, s) && AtRest(s0) && s0.part == part && s0.cache == c)
    && !s.timedOut && Xs(s.acquired) <= xs && p < |s.log| && p < |s.owner| && s.owner[p] == i
  }

  lemma {:induction false} SafeForThreads(part: Part, xs: seq<Xfer>, c: Cache, i: nat, s: Threads, p: nat)
    requires i < |xs| && Safe(xs, part.depth, i) && ThreadsReach(part, xs, c, i, s, p)
    ensures !Crossed(s.sel, c, i, p)
  {
    var s0, steps :| Runs(s0, steps, s) && AtRest(s0) && s0.part == part && s0.cache == c;
    RestShows(s0);
    var csteps, v := RunShows(s0, View(s0, Free), steps, s);
    InvInitial(View(s0, Free));
    Kept(View(s0, Free), csteps, v, c);
    SafeNeverCrosses(View(s0, Free), csteps, v, p);
    SafePrefix(Xs(s.acquired), xs, part.depth, i);
  }

  /** With one thread every step of the system with one holder is a step of that thread. */
  lemma {:induction false} StepOfOne(s: Threads, c: Sys, step: Step) returns (tstep: TStep)
    requires Shows(s, c) && Serial(c) && |s.pcs| == 1 && Enabled(c, step)
    ensures Can(s, tstep) && StepAs(tstep) == step
  {
    NoneInside(Flags(s.pcs));
    if c.holder.Waiting? {
      LastIsMine(c);
    }
    tstep := match step
      case Acquire(t) => By(0, Take)
      case Select => By(0, Choose)
      case Send => By(0, Write)
      case Arrive => By(0, Awaited)
      case Drain => Execute
      case TimeOut => By(0, Late)
      case Finish => By(0, Complete)
      case Release => By(0, Give);
  }

  lemma {:induction false} RunOfOne(s: Threads, c: Sys, steps: seq<Step>, c': Sys)
    returns (tsteps: seq<TStep>, s': Threads)
    requires Shows(s, c) && Serial(c) && |s.pcs| == 1 && IsRun(c, steps, c')
    ensures Runs(s, tsteps, s') && Shows(s', c')
    decreases |steps|
  {
    if steps == [] {
      tsteps, s' := [], s;
    } else {
      var tstep := StepOfOne(s, c, steps[0]);
      var c1 := StepShows(s, c, tstep);
      SerialKept(c, steps[0]);
      var more;
      more, s' := RunOfOne(Step1(s, tstep), c1, steps[1..], c');
      tsteps := [tstep] + more;
      assert tsteps[1..] == more;
    }
  }

  lemma {:induction false} UnsafeForThreads(part: Part, xs: seq<Xfer>, c: Cache, i: nat) returns (s: Threads, p: nat)
    requires part.depth > 0 && c.last == 0 && i < |xs| && !Safe(xs, part.depth, i)
    ensures ThreadsReach(part, xs, c, i, s, p) && Crossed(s.sel, c, i, p)
            && (part.flushes ==> p < |s.fates| && s.fates[p] == Dropped)
  {
    var csteps, v;
    csteps, v, p := UnsafeCrosses(part, xs, c, i);
    var s0 := Threads(part, c, [], [], [], [], [], [xs], [], false, 1, [Out]);
    RestShows(s0);
    assert View(s0, Free) == Start(part, xs, c);
    InOrder(Start(part, xs, c), csteps, v, xs);
    var steps;
    steps, s := RunOfOne(s0, Start(part, xs, c), csteps, v);
    assert Runs(s0, steps, s) && AtRest(s0);
  }

  /** Exactly when no run of any threads can harm transfer i of xs: no word of it is ever still waiting
      when the register is changed, if and only if enough follows it or it ends in a read (Safe). */
  lemma {:induction false} ThreadsSafeIff(part: Part, xs: seq<Xfer>, c: Cache, i: nat)
    requires part.depth > 0 && c.last == 0 && i < |xs|
    ensures Safe(xs, part.depth, i) <==> forall s, p | ThreadsReach(part, xs, c, i, s, p) :: !Crossed(s.sel, c, i, p)
  {
    if Safe(xs, part.depth, i) {
      forall s, p | ThreadsReach(part, xs, c, i, s, p)
        ensures !Crossed(s.sel, c, i, p)
      {
        SafeForThreads(part, xs, c, i, s, p);
      }
    } else {
      var s, p := UnsafeForThreads(part, xs, c, i);
    }
  }
}
