/** Any number of threads in the flash driver, access by access, with a counting semaphore. */
module FlashSerial {
  import opened Codes
  import opened NorChip
  import opened FlashPlan
  import opened FlashSolo
  import opened Mutex
  import FlashDriver

  datatype Call =
    | EraseCall(offset: nat, size: nat)
    | WriteCall(offset: nat, data: seq<byte>)
    | ReadCall(offset: nat, len: nat)

  datatype Result = Rejected | Completed | Failed | Got(data: seq<byte>)

  /** The argument checks, made before the semaphore is taken. */
  predicate Passed(c: Call, n: nat) {
    match c
    case EraseCall(o, s) => s > 0 && o + s <= n
    case WriteCall(o, d) => d != [] && o + |d| <= n
    case ReadCall(o, l) => l > 0 && o + l <= n
  }

  function PlanOf(c: Call, n: nat): seq<Cmd> {
    match c
    case EraseCall(o, s) => ErasePlan(o, s, n)
    case WriteCall(o, d) => WritePlan(o, d)
    case ReadCall(_, _) => []
  }

  // ----- whole calls, one at a time

  /** A call that took the semaphore: what it did from `before` to `after`. */
  datatype Entry = Entry(tid: nat, call: Call, before: State, moves: seq<Move>, after: State, result: Result)

  /** A fetch shows the array, unless the chip is busy. */
  predicate Shows(c: Call, st: State, data: seq<byte>) {
    c.ReadCall? && |data| == c.len
    && (st.op.None? && c.offset + c.len <= |st.mem| ==> data == st.mem[c.offset..c.offset + c.len])
  }

  /** The call ran alone. */
  ghost predicate RanAlone(p: Part, n: nat, e: Entry) {
    var plan := PlanOf(e.call, n);
    match e.result
    case Completed =>
      !e.call.ReadCall? && exists lost :: SoloRun(p, plan, e.before, e.moves, e.after, Pos(|plan|, Start, lost))
    case Failed =>
      !e.call.ReadCall? && exists at :: SoloRun(p, plan, e.before, e.moves, e.after, at) && CanFail(plan, at)
    case Got(data) => Shows(e.call, e.after, data) && SoloRun(p, plan, e.before, e.moves, e.after, Pos(0, Start, 0))
    case Rejected => false
  }

  /** A wait may give up. */
  predicate CanFail(plan: seq<Cmd>, at: Pos) { at.k < |plan| && (at.phase == Enabling || at.phase == Waiting) }

  /** The calls of h, one after another, take the chip from a to b; it may finish an operation between
      them. */
  ghost predicate SerialRun(p: Part, n: nat, h: seq<Entry>, a: State, b: State) {
    if h == [] then Settles(p, a, b)
    else
      var e := h[|h| - 1];
      SerialRun(p, n, h[..|h| - 1], a, e.before) && RanAlone(p, n, e) && Settles(p, e.after, b)
  }

  datatype Finished = Finished(call: Call, result: Result)

  /** What thread t gets from the calls of h. */
  function ResultsOf(h: seq<Entry>, t: nat): seq<Finished> {
    if h == [] then []
    else
      var e := h[|h| - 1];
      ResultsOf(h[..|h| - 1], t) + if e.tid == t then [Finished(e.call, e.result)] else []
  }

  function TidsOf(h: seq<Entry>): (r: seq<nat>)
    ensures |r| == |h|
  {
    seq(|h|, i requires 0 <= i < |h| => h[i].tid)
  }

  // ----- the threads

  /** Outside; waiting for the semaphore; at a position of its plan; done, before giving the semaphore;
      returned from a failed read, which keeps it. */
  datatype Pc = Out | Want | Inside(at: Pos) | Ready(result: Result) | Stuck

  datatype Thread = Thread(todo: seq<Call>, done: seq<Finished>, pc: Pc)

  /** `taken` lists who took the semaphore, in order. */
  datatype Sys = Sys(part: Part, chip: State, sem: nat, threads: seq<Thread>, taken: seq<nat>)

  datatype Act = Check | TakeSem | Access(m: Move) | GiveUp | Fetch(data: seq<byte>) | FetchFails | Complete | GiveSem

  /** A thread's next access, by its own program counter; or the chip finishes its operation. */
  datatype Step = By(tid: nat, act: Act) | Time(to: State)

  function PlanAt(s: Sys, t: nat): seq<Cmd>
    requires t < |s.threads| && s.threads[t].todo != []
  {
    PlanOf(s.threads[t].todo[0], |s.chip.mem|)
  }

  ghost predicate CanAct(s: Sys, t: nat, a: Act)
    requires t < |s.threads| && s.threads[t].todo != []
  {
    var th, plan := s.threads[t], PlanAt(s, t);
    match a
    case Check => th.pc.Out?
    case TakeSem => th.pc.Want? && s.sem > 0
    case Access(m) => th.pc.Inside? && !m.Settle? && Can(s.part, plan, s.chip, th.pc.at, m)
    case GiveUp => th.pc.Inside? && CanFail(plan, th.pc.at)
    case Fetch(data) => th.pc.Inside? && Shows(th.todo[0], s.chip, data)
    case FetchFails => th.pc.Inside? && th.todo[0].ReadCall?
    case Complete => th.pc.Inside? && !th.todo[0].ReadCall? && th.pc.at.k == |plan| && th.pc.at.phase == Start
    case GiveSem => th.pc.Ready?
  }

  ghost predicate Enabled(s: Sys, step: Step) {
    match step
    case By(t, a) => t < |s.threads| && s.threads[t].todo != [] && CanAct(s, t, a)
    case Time(to) => Finishes(s.part, s.chip, to)
  }

  function WithPc(s: Sys, t: nat, pc: Pc): Sys
    requires t < |s.threads|
  {
    s.(threads := s.threads[t := s.threads[t].(pc := pc)])
  }

  /** The thread returns from its call. */
  function Returned(th: Thread, r: Result): Thread
    requires th.todo != []
  {
    Thread(th.todo[1..], th.done + [Finished(th.todo[0], r)], Out)
  }

  ghost function Next(s: Sys, step: Step): Sys
    requires Enabled(s, step)
  {
    match step
    case Time(to) => s.(chip := to)
    case By(t, a) =>
      var th := s.threads[t];
      match a
      case Check =>
        if Passed(th.todo[0], |s.chip.mem|) then WithPc(s, t, Want)
        else s.(threads := s.threads[t := Returned(th, Rejected)])
      case TakeSem => WithPc(s.(sem := s.sem - 1, taken := s.taken + [t]), t, Inside(Pos(0, Start, 0)))
      case Access(m) =>
        var n := FlashSolo.Next(PlanAt(s, t), s.chip, th.pc.at, m);
        WithPc(s.(chip := n.0), t, Inside(n.1))
      case GiveUp => WithPc(s, t, Ready(Failed))
      case Fetch(data) => WithPc(s, t, Ready(Got(data)))
      case FetchFails => WithPc(s, t, Stuck)
      case Complete => WithPc(s, t, Ready(Completed))
      case GiveSem => s.(sem := s.sem + 1, threads := s.threads[t := Returned(th, th.pc.result)])
  }

  ghost predicate IsRun(s: Sys, steps: seq<Step>, s': Sys)
    decreases |steps|
  {
    if steps == [] then s == s'
    else Enabled(s, steps[0]) && IsRun(Next(s, steps[0]), steps[1..], s')
  }

  ghost predicate Initial(s: Sys) {
    && s.sem == 1 && s.taken == []
    && forall t | 0 <= t < |s.threads| :: s.threads[t].pc.Out? && s.threads[t].done == []
  }

  // ----- mutual exclusion, from the semaphore

  predicate Holding(pc: Pc) { pc.Inside? || pc.Ready? || pc.Stuck? }

  function Flags(ths: seq<Thread>): (r: seq<bool>)
    ensures |r| == |ths|
  {
    seq(|ths|, t requires 0 <= t < |ths| => Holding(ths[t].pc))
  }

  ghost predicate Exclusive(s: Sys) { s.sem + Count(Flags(s.threads)) == 1 }

  lemma {:induction false} FlagsUpdate(ths: seq<Thread>, t: nat, th: Thread)
    requires t < |ths|
    ensures Count(Flags(ths[t := th]))
            == Count(Flags(ths)) - (if Holding(ths[t].pc) then 1 else 0) + (if Holding(th.pc) then 1 else 0)
  {
    assert Flags(ths[t := th]) == Flags(ths)[t := Holding(th.pc)];
    CountUpdate(Flags(ths), t, Holding(th.pc));
  }

  lemma {:induction false} ExclusiveKept(s: Sys, step: Step)
    requires Exclusive(s) && Enabled(s, step)
    ensures Exclusive(Next(s, step))
  {
    if step.By? {
      FlagsUpdate(s.threads, step.tid, Next(s, step).threads[step.tid]);
    }
  }

  lemma {:induction false} OneInside(s: Sys, t: nat, u: nat)
    requires Exclusive(s) && t < |s.threads| && u < |s.threads|
    requires Holding(s.threads[t].pc)
    ensures s.sem == 0
    ensures Holding(s.threads[u].pc) ==> u == t
  {
    CountsInside(Flags(s.threads), t);
    if Holding(s.threads[u].pc) {
      OnlyOne(Flags(s.threads), t, u);
    }
  }

  // ----- the invariant: a history of calls that ran alone, and at most one that is running

  function Accepted(done: seq<Finished>): seq<Finished> {
    if done == [] then []
    else Accepted(done[..|done| - 1]) + if done[|done| - 1].result.Rejected? then [] else [done[|done| - 1]]
  }

  function CallsOf(done: seq<Finished>): (r: seq<Call>)
    ensures |r| == |done|
  {
    seq(|done|, i requires 0 <= i < |done| => done[i].call)
  }

  /** A thread has its results from the history, in its own program order, and was refused exactly the
      calls that do not pass the argument checks. */
  ghost predicate ThreadOk(th: Thread, todo0: seq<Call>, n: nat, h: seq<Entry>, t: nat) {
    && Accepted(th.done) == ResultsOf(h, t)
    && CallsOf(th.done) + th.todo == todo0
    && (forall f | f in th.done :: f.result.Rejected? <==> !Passed(f.call, n))
    && (!th.pc.Out? ==> th.todo != [] && Passed(th.todo[0], n))
  }

  ghost predicate ThreadsOk(s: Sys, s0: Sys, h: seq<Entry>) {
    && |s.threads| == |s0.threads|
    && forall t | 0 <= t < |s.threads| :: ThreadOk(s.threads[t], s0.threads[t].todo, |s.chip.mem|, h, t)
  }

  /** The call that holds the semaphore, in entry e. */
  ghost predicate Open(s: Sys, e: Entry) {
    && e.tid < |s.threads| && s.threads[e.tid].todo != [] && e.call == s.threads[e.tid].todo[0]
    && match s.threads[e.tid].pc
       case Inside(at) => SoloRun(s.part, PlanOf(e.call, |s.chip.mem|), e.before, e.moves, s.chip, at)
       case Ready(r) => e.result == r && RanAlone(s.part, |s.chip.mem|, e) && Settles(s.part, e.after, s.chip)
       case Stuck => e.call.ReadCall?
       case _ => false
  }

  ghost predicate Explains(s: Sys, s0: Sys, h: seq<Entry>) {
    if s.sem > 0 then
      SerialRun(s.part, |s.chip.mem|, h, s0.chip, s.chip) && ThreadsOk(s, s0, h)
    else
      && h != [] && Open(s, h[|h| - 1])
      && SerialRun(s.part, |s.chip.mem|, h[..|h| - 1], s0.chip, h[|h| - 1].before) && ThreadsOk(s, s0, h[..|h| - 1])
  }

  ghost predicate Inv(s: Sys, s0: Sys, h: seq<Entry>) {
    && Exclusive(s) && s.part == s0.part && |s.chip.mem| == |s0.chip.mem| && TidsOf(h) == s.taken
    && Explains(s, s0, h)
  }

  lemma {:induction false} InvInitial(s: Sys)
    requires Initial(s)
    ensures Inv(s, s, [])
  {
    NoneInside(Flags(s.threads));
  }

  lemma {:induction false} SettleOn(p: Part, a: State, b: State, c: State)
    requires Settles(p, a, b) && Finishes(p, b, c)
    ensures Settles(p, a, c)
  {
  }

  lemma {:induction false} MemLength(p: Part, a: State, b: State)
    requires Finishes(p, a, b)
    ensures |b.mem| == |a.mem|
  {
  }

  /** The chip finishes its operation. */
  lemma {:induction false} TimeKeeps(s: Sys, s0: Sys, h: seq<Entry>, to: State) returns (h': seq<Entry>)
    requires Inv(s, s0, h) && Enabled(s, Time(to))
    ensures Inv(Next(s, Time(to)), s0, h')
  {
    MemLength(s.part, s.chip, to);
    h' := h;
    if s.sem > 0 {
      SettleOn(s.part, if h == [] then s0.chip else h[|h| - 1].after, s.chip, to);
    } else {
      var n := |h| - 1;
      var e := h[n];
      var pc := s.threads[e.tid].pc;
      if pc.Inside? {
        RunMove(s.part, PlanOf(e.call, |s.chip.mem|), e.before, e.moves, s.chip, pc.at, Settle(to));
        h' := h[..n] + [e.(moves := e.moves + [Settle(to)])];
        SameTids(h, h');
      } else if pc.Ready? {
        SettleOn(s.part, e.after, s.chip, to);
      }
    }
  }

  lemma {:induction false} SameTids(h: seq<Entry>, h': seq<Entry>)
    requires h != [] && |h'| == |h| && h'[..|h| - 1] == h[..|h| - 1] && h'[|h| - 1].tid == h[|h| - 1].tid
    ensures TidsOf(h') == TidsOf(h)
  {
    forall i | 0 <= i < |h|
      ensures h'[i].tid == h[i].tid
    {
      assert i < |h| - 1 ==> h'[..|h| - 1][i] == h[..|h| - 1][i];
    }
  }

  /** The argument checks. */
  lemma {:induction false} CheckKeeps(s: Sys, s0: Sys, h: seq<Entry>, t: nat)
    requires Inv(s, s0, h) && Enabled(s, By(t, Check))
    ensures Inv(Next(s, By(t, Check)), s0, h)
  {
    var s', th := Next(s, By(t, Check)), s.threads[t];
    var closed := if s.sem > 0 then h else h[..|h| - 1];
    ExclusiveKept(s, By(t, Check));
    assert ThreadOk(th, s0.threads[t].todo, |s.chip.mem|, closed, t);
    if !Passed(th.todo[0], |s.chip.mem|) {
      ReturnKeeps(th, Rejected);
    }
    if s.sem == 0 {
      assert h[|h| - 1].tid != t;
    }
  }

  /** Returning moves the call from the head of `todo` to the end of `done`. */
  lemma {:induction false} ReturnKeeps(th: Thread, r: Result)
    requires th.todo != []
    ensures var th' := Returned(th, r);
            && CallsOf(th'.done) + th'.todo == CallsOf(th.done) + th.todo
            && Accepted(th'.done) == Accepted(th.done) + (if r.Rejected? then [] else [Finished(th.todo[0], r)])
            && forall f :: f in th'.done <==> f in th.done || f == Finished(th.todo[0], r)
  {
    var f := Finished(th.todo[0], r);
    assert (th.done + [f])[..|th.done|] == th.done;
    assert CallsOf(th.done + [f]) == CallsOf(th.done) + [th.todo[0]];
    assert th.todo == [th.todo[0]] + th.todo[1..];
  }

  lemma {:induction false} TakeKeeps(s: Sys, s0: Sys, h: seq<Entry>, t: nat) returns (h': seq<Entry>)
    requires Inv(s, s0, h) && Enabled(s, By(t, TakeSem))
    ensures Inv(Next(s, By(t, TakeSem)), s0, h')
  {
    ExclusiveKept(s, By(t, TakeSem));
    var e := Entry(t, s.threads[t].todo[0], s.chip, [], s.chip, Failed);
    h' := h + [e];
    assert h'[..|h|] == h;
    assert TidsOf(h') == TidsOf(h) + [t];
  }

  lemma {:induction false} GiveKeeps(s: Sys, s0: Sys, h: seq<Entry>, t: nat)
    requires Inv(s, s0, h) && Enabled(s, By(t, GiveSem))
    ensures Inv(Next(s, By(t, GiveSem)), s0, h)
  {
    ExclusiveKept(s, By(t, GiveSem));
    var n := |h| - 1;
    OneInside(s, t, h[n].tid);
    var s', th := Next(s, By(t, GiveSem)), s.threads[t];
    ReturnKeeps(th, th.pc.result);
    forall u | 0 <= u < |s.threads|
      ensures ThreadOk(s'.threads[u], s0.threads[u].todo, |s.chip.mem|, h, u)
    {
      assert ThreadOk(s.threads[u], s0.threads[u].todo, |s.chip.mem|, h[..n], u);
    }
  }

  /** A step inside the driver, seen as a change of the last entry. */
  lemma {:induction false} InsideKeeps(s: Sys, s0: Sys, h: seq<Entry>, t: nat, s': Sys, e': Entry)
    returns (h': seq<Entry>)
    requires Inv(s, s0, h) && t < |s.threads| && s.threads[t].pc.Inside? && h != []
    requires Exclusive(s') && s'.part == s.part && s'.sem == s.sem && s'.taken == s.taken
             && |s'.chip.mem| == |s.chip.mem|
    requires |s'.threads| == |s.threads| && !s'.threads[t].pc.Out?
    requires s'.threads == s.threads[t := s.threads[t].(pc := s'.threads[t].pc)]
    requires e'.tid == t && e'.before == h[|h| - 1].before && Open(s', e')
    ensures Inv(s', s0, h')
  {
    var n := |h| - 1;
    HolderIsLast(s, s0, h, t);
    h' := h[..n] + [e'];
    assert h'[..n] == h[..n];
    SameTids(h, h');
  }

  lemma {:induction false} HolderIsLast(s: Sys, s0: Sys, h: seq<Entry>, t: nat)
    requires Inv(s, s0, h) && t < |s.threads| && Holding(s.threads[t].pc)
    ensures s.sem == 0 && h != [] && h[|h| - 1].tid == t
  {
    OneInside(s, t, t);
    OneInside(s, t, h[|h| - 1].tid);
  }

  lemma {:induction false} NextMemLength(plan: seq<Cmd>, st: State, at: Pos, m: Move)
    requires !m.Settle?
    ensures |FlashSolo.Next(plan, st, at, m).0.mem| == |st.mem|
  {
  }

  lemma {:induction false} AccessKeeps(s: Sys, s0: Sys, h: seq<Entry>, t: nat, m: Move) returns (h': seq<Entry>)
    requires Inv(s, s0, h) && Enabled(s, By(t, Access(m)))
    ensures Inv(Next(s, By(t, Access(m))), s0, h')
  {
    ExclusiveKept(s, By(t, Access(m)));
    HolderIsLast(s, s0, h, t);
    var e, at := h[|h| - 1], s.threads[t].pc.at;
    var plan := PlanAt(s, t);
    NextMemLength(plan, s.chip, at, m);
    RunMove(s.part, plan, e.before, e.moves, s.chip, at, m);
    h' := InsideKeeps(s, s0, h, t, Next(s, By(t, Access(m))), e.(moves := e.moves + [m]));
  }

  /** The end of a call, before it gives the semaphore. */
  lemma {:induction false} EndKeeps(s: Sys, s0: Sys, h: seq<Entry>, t: nat, a: Act) returns (h': seq<Entry>)
    requires Inv(s, s0, h) && Enabled(s, By(t, a)) && (a.GiveUp? || a.Fetch? || a.FetchFails? || a.Complete?)
    ensures Inv(Next(s, By(t, a)), s0, h')
  {
    ExclusiveKept(s, By(t, a));
    HolderIsLast(s, s0, h, t);
    var e, at, s' := h[|h| - 1], s.threads[t].pc.at, Next(s, By(t, a));
    var r := if s'.threads[t].pc.Ready? then s'.threads[t].pc.result else Failed;
    var e' := e.(after := s.chip, result := r);
    assert SoloRun(s.part, PlanOf(e.call, |s.chip.mem|), e.before, e'.moves, e'.after, at);
    if a.Fetch? {
      FetchAtStart(s.part, e.before, e.moves, s.chip, at);
    }
    h' := InsideKeeps(s, s0, h, t, s', e');
  }

  /** A read has no commands: it is still at the start. */
  lemma {:induction false} FetchAtStart(p: Part, a: State, moves: seq<Move>, b: State, at: Pos)
    requires SoloRun(p, [], a, moves, b, at)
    ensures at == Pos(0, Start, 0)
    decreases |moves|
  {
    if moves != [] {
      var s := After([], a, moves[..|moves| - 1]);
      FetchAtStart(p, a, moves[..|moves| - 1], s.0, s.1);
    }
  }

  lemma {:induction false} StepKeeps(s: Sys, s0: Sys, h: seq<Entry>, step: Step) returns (h': seq<Entry>)
    requires Inv(s, s0, h) && Enabled(s, step)
    ensures Inv(Next(s, step), s0, h')
  {
    match step
    case Time(to) => h' := TimeKeeps(s, s0, h, to);
    case By(t, a) =>
      match a
      case Check => CheckKeeps(s, s0, h, t); h' := h;
      case TakeSem => h' := TakeKeeps(s, s0, h, t);
      case Access(m) => h' := AccessKeeps(s, s0, h, t, m);
      case GiveSem => GiveKeeps(s, s0, h, t); h' := h;
      case _ => h' := EndKeeps(s, s0, h, t, a);
  }

  lemma {:induction false} RunKeeps(s: Sys, steps: seq<Step>, s': Sys, s0: Sys, h: seq<Entry>) returns (h': seq<Entry>)
    requires Inv(s, s0, h) && IsRun(s, steps, s')
    ensures Inv(s', s0, h')
    decreases |steps|
  {
    h' := h;
    if steps != [] {
      h' := StepKeeps(s, s0, h, steps[0]);
      h' := RunKeeps(Next(s, steps[0]), steps[1..], s', s0, h');
    }
  }

  // ----- the theorems

  /** At any moment the semaphore's count and the threads inside the driver add up to one, so two threads
      are never inside. */
  lemma {:induction false} MutualExclusion(s0: Sys, steps: seq<Step>, s: Sys, t: nat, u: nat)
    requires Initial(s0) && IsRun(s0, steps, s) && t < |s.threads| && u < |s.threads|
    ensures s.sem + Count(Flags(s.threads)) == 1
    ensures Holding(s.threads[t].pc) && Holding(s.threads[u].pc) ==> t == u
  {
    InvInitial(s0);
    var h := RunKeeps(s0, steps, s, s0, []);
    if Holding(s.threads[t].pc) {
      OneInside(s, t, u);
    }
  }

  /** Flash calls are serialisable: after any run of any threads, with no thread inside, there is a
      history of calls that ran alone, one after another in the order in which they took the semaphore,
      that explains the chip and every thread's results; each thread's calls come in its program order.
      Calls may have failed, and left the chip busy for the next one. */
  lemma {:induction false} Serialisable(s0: Sys, steps: seq<Step>, s: Sys) returns (h: seq<Entry>)
    requires Initial(s0) && IsRun(s0, steps, s) && s.sem > 0
    ensures TidsOf(h) == s.taken
    ensures SerialRun(s.part, |s.chip.mem|, h, s0.chip, s.chip)
    ensures |s.threads| == |s0.threads|
    ensures forall t | 0 <= t < |s.threads| ::
              && Accepted(s.threads[t].done) == ResultsOf(h, t)
              && CallsOf(s.threads[t].done) + s.threads[t].todo == s0.threads[t].todo
              && (forall f | f in s.threads[t].done :: f.result.Rejected? <==> !Passed(f.call, |s.chip.mem|))
  {
    InvInitial(s0);
    h := RunKeeps(s0, steps, s, s0, []);
    forall t | 0 <= t < |s.threads|
      ensures ThreadOk(s.threads[t], s0.threads[t].todo, |s.chip.mem|, h, t)
    {
    }
  }

  /** The array after calls that all succeed. */
  function SerialMem(h: seq<Entry>, mem: seq<byte>): (r: seq<byte>)
    ensures |r| == |mem|
  {
    if h == [] then mem else Run(PlanOf(h[|h| - 1].call, |mem|), SerialMem(h[..|h| - 1], mem))
  }

  /** A read got what was there. */
  predicate ReadsRight(e: Entry, mem: seq<byte>)
    requires e.result.Got?
  {
    var c := e.call;
    c.ReadCall? && c.offset + c.len <= |mem| && e.result.data == mem[c.offset..c.offset + c.len]
  }

  ghost predicate NoneFailed(h: seq<Entry>, n: nat) {
    forall i | 0 <= i < |h| :: h[i].result != Failed && Passed(h[i].call, n)
  }

  /** When no call fails, calls that ran alone on an idle chip leave it idle, with the array that their
      plans give one after another ... */
  lemma {:induction false} SuccessfulCalls(p: Part, n: nat, h: seq<Entry>, a: State, b: State)
    requires SerialRun(p, n, h, a, b) && a.op.None? && |a.mem| == n && NoneFailed(h, n)
    ensures b.op.None? && b.mem == SerialMem(h, a.mem)
    decreases |h|
  {
    if h != [] {
      var m := |h| - 1;
      SuccessfulCalls(p, n, h[..m], a, h[m].before);
      OneSuccess(p, n, h[m]);
    }
  }

  /** ... and every read got what was there. */
  lemma {:induction false} SuccessfulReads(p: Part, n: nat, h: seq<Entry>, a: State, b: State, i: nat)
    requires SerialRun(p, n, h, a, b) && a.op.None? && |a.mem| == n && NoneFailed(h, n)
    requires i < |h| && h[i].result.Got?
    ensures ReadsRight(h[i], SerialMem(h[..i], a.mem))
    decreases |h|
  {
    var m := |h| - 1;
    if i == m {
      SuccessfulCalls(p, n, h[..m], a, h[m].before);
      OneSuccess(p, n, h[m]);
    } else {
      SuccessfulReads(p, n, h[..m], a, h[m].before, i);
      assert h[..m][..i] == h[..i];
    }
  }

  lemma {:induction false} OneSuccess(p: Part, n: nat, e: Entry)
    requires RanAlone(p, n, e) && e.before.op.None? && |e.before.mem| == n && e.result != Failed && Passed(e.call, n)
    ensures e.after.op.None? && e.after.mem == Run(PlanOf(e.call, n), e.before.mem)
    ensures e.result.Got? ==> ReadsRight(e, e.before.mem)
  {
    var plan := PlanOf(e.call, n);
    if e.result.Completed? {
      var lost :| SoloRun(p, plan, e.before, e.moves, e.after, Pos(|plan|, Start, lost));
      SoloFromIdle(p, plan, e.before, e.moves, e.after, Pos(|plan|, Start, lost));
    } else {
      SoloFromIdle(p, plan, e.before, e.moves, e.after, Pos(0, Start, 0));
    }
  }

  /** The erase and write calls of the driver are such calls: what Flash.Erase and Flash.Write ensure of
      the chip between taking and giving the semaphore is that the call ran alone. */
  lemma {:induction false} DriverRunsAlone(flash: FlashDriver.Flash, c: Call, n: nat, k: nat, started: bool,
                                           s0: FlashDriver.Snapshot, s1: FlashDriver.Snapshot, tid: nat)
    returns (e: Entry)
    requires !c.ReadCall? && flash.Ended(PlanOf(c, n), k, started, s0, s1)
    ensures RanAlone(flash.chip.part, n, e) && e.tid == tid && e.call == c && e.before == s0.st && e.after == s1.st
    ensures e.result == if k == |PlanOf(c, n)| then Completed else Failed
  {
    var plan := PlanOf(c, n);
    var lost, moves :| flash.EndedAt(plan, k, started, lost, moves, s0, s1);
    var at := FlashDriver.Flash.EndPos(plan, k, started, lost);
    assert k < |plan| ==> CanFail(plan, at);
    e := Entry(tid, c, s0.st, moves, s1.st, if k == |plan| then Completed else Failed);
    assert SoloRun(flash.chip.part, plan, e.before, e.moves, e.after, at);
  }

  /** The driver's erase call: refused without an access exactly when the argument checks of this system
      refuse it, and otherwise a call that ran alone. */
  method EraseRuns(flash: FlashDriver.Flash, offset: nat, size: nat, ghost tid: nat)
    returns (r: Code, ghost e: Entry)
    requires flash.Valid() && flash.sem == 1
    modifies flash`sem, flash.chip
    ensures flash.Valid() && flash.sem == 1
    ensures var c := EraseCall(offset, size);
            && (r == EINVAL <==> !Passed(c, flash.chip.size))
            && (r == EINVAL ==> flash.chip.bus == old(flash.chip.bus) && flash.chip.Now() == old(flash.chip.Now()))
            && (r != EINVAL ==>
                  && RanAlone(flash.chip.part, flash.chip.size, e) && e.call == c && e.tid == tid
                  && e.before == old(flash.chip.Now()) && e.after == flash.chip.Now()
                  && e.result == if r == Success then Completed else Failed)
  {
    ghost var s0 := flash.Taken();
    ghost var k;
    e := Entry(tid, EraseCall(offset, size), s0.st, [], s0.st, Rejected);
    r, k := flash.Erase(offset, size);
    if r != EINVAL {
      e := DriverRunsAlone(flash, EraseCall(offset, size), flash.chip.size, k, r == ECOMM, s0, flash.Given(), tid);
    }
  }

  /** The same of its write call, where a null buffer is refused as well. */
  method WriteRuns(flash: FlashDriver.Flash, offset: nat, buff: array<byte>, len: nat, ghost tid: nat)
    returns (r: Code, ghost e: Entry)
    requires flash.Valid() && flash.sem == 1 && len <= buff.Length
    modifies flash`sem, flash.chip
    ensures flash.Valid() && flash.sem == 1
    ensures var c := WriteCall(offset, buff[..len]);
            && (flash.chip.bus == old(flash.chip.bus) <==> !Passed(c, flash.chip.size))
            && (!Passed(c, flash.chip.size) ==> r == EINVAL && flash.chip.Now() == old(flash.chip.Now()))
            && (Passed(c, flash.chip.size) ==>
                  && RanAlone(flash.chip.part, flash.chip.size, e) && e.call == c && e.tid == tid
                  && e.before == old(flash.chip.Now()) && e.after == flash.chip.Now()
                  && e.result == if r == Success then Completed else Failed)
  {
    ghost var c, s0 := WriteCall(offset, buff[..len]), flash.Taken();
    ghost var k, started;
    e := Entry(tid, c, s0.st, [], s0.st, Rejected);
    r, k, started := flash.Write(offset, buff, len);
    if Passed(c, flash.chip.size) {
      e := DriverRunsAlone(flash, c, flash.chip.size, k, started, s0, flash.Given(), tid);
    }
  }

  /** And of its read call: a length of 0 succeeds without an access; any other is refused exactly when the
      checks refuse it, and otherwise gets what the chip shows. */
  method ReadRuns(flash: FlashDriver.Flash, offset: nat, buff: array<byte>, len: nat, busFails: bool) returns (r: Code)
    requires flash.Valid() && flash.sem == 1 && len <= buff.Length
    modifies flash`sem, flash.chip`bus, buff
    ensures var c := ReadCall(offset, len);
            && (flash.chip.bus == old(flash.chip.bus) <==> !Passed(c, flash.chip.size))
            && (!Passed(c, flash.chip.size) ==> r == (if len == 0 then Success else EINVAL) && flash.sem == 1)
            && (Passed(c, flash.chip.size) ==> r == if busFails then ECOMM else Success)
            && (Passed(c, flash.chip.size) && r == Success ==>
                  Shows(c, flash.chip.Now(), buff[..len]) && flash.sem == 1)
  {
    r := flash.Read(offset, buff, len, busFails);
  }

  /** The order of acquisition only grows. */
  lemma {:induction false} OrderIsStable(s: Sys, steps: seq<Step>, s': Sys)
    requires IsRun(s, steps, s')
    ensures s.taken <= s'.taken
    decreases |steps|
  {
    if steps != [] {
      OrderIsStable(Next(s, steps[0]), steps[1..], s');
    }
  }

  /** A read whose bus command fails returns without giving the semaphore: from then on nobody takes it. */
  lemma {:induction false} FailedReadBlocksForever(s: Sys, s0: Sys, h: seq<Entry>, t: nat, steps: seq<Step>, s': Sys)
    requires Inv(s, s0, h) && t < |s.threads| && s.threads[t].pc.Stuck? && IsRun(s, steps, s')
    ensures s'.sem == 0 && s'.taken == s.taken && t < |s'.threads| && s'.threads[t].pc.Stuck?
    decreases |steps|
  {
    HolderIsLast(s, s0, h, t);
    if steps != [] {
      var h' := StepKeeps(s, s0, h, steps[0]);
      if steps[0].By? && steps[0].tid != t && Holding(s.threads[steps[0].tid].pc) {
        OneInside(s, t, steps[0].tid);
      }
      FailedReadBlocksForever(Next(s, steps[0]), s0, h', t, steps[1..], s');
    }
  }

  /** Progress otherwise: a thread that is inside and not stuck has a step. */
  lemma {:induction false} HolderCanMove(s: Sys, s0: Sys, h: seq<Entry>, t: nat)
    requires Inv(s, s0, h) && t < |s.threads| && (s.threads[t].pc.Inside? || s.threads[t].pc.Ready?)
    ensures exists a :: Enabled(s, By(t, a))
  {
    HolderIsLast(s, s0, h, t);
    var th, e := s.threads[t], h[|h| - 1];
    var plan := PlanAt(s, t);
    if th.pc.Ready? {
      assert Enabled(s, By(t, GiveSem));
    } else if th.todo[0].ReadCall? {
      assert Enabled(s, By(t, FetchFails));
    } else {
      SoloOutcome(s.part, plan, e.before, e.moves);
      var at := th.pc.at;
      if at.phase == Start {
        AtMost(s.part, plan, e.before, e.moves, s.chip, at);
        assert Enabled(s, By(t, if at.k < |plan| then Access(Enable(false)) else Complete));
      } else {
        assert Enabled(s, By(t, if at.phase == Phase.Enabled then Access(Command) else GiveUp));
      }
    }
  }

  lemma {:induction false} AtMost(p: Part, plan: seq<Cmd>, a: State, moves: seq<Move>, b: State, at: Pos)
    requires SoloRun(p, plan, a, moves, b, at)
    ensures at.k <= |plan|
  {
    SoloOutcome(p, plan, a, moves);
  }
}
