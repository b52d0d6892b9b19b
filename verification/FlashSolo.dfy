/** One call of the driver on the chip, access by access, while the chip may finish an operation at any
    moment: what the class methods do, and what each thread does. */
module FlashSolo {
  import opened Codes
  import opened NorChip
  import opened FlashPlan

  datatype Phase = Start | Enabling | Enabled | Waiting

  /** Where a call stands: at command k of its plan, with `lost` commands ignored so far. */
  datatype Pos = Pos(k: nat, phase: Phase, lost: nat)

  /** The chip finishes its operation; or the call sends the write enable, sees the latch in a poll, sends
      its command, sees in a poll that the chip is idle (and no error is reported). */
  datatype Move = Settle(to: State) | Enable(latched: bool) | Confirm | Command | Finish

  ghost predicate Can(p: Part, plan: seq<Cmd>, st: State, at: Pos, m: Move) {
    match m
    case Settle(to) => Finishes(p, st, to)
    case Enable(_) => at.phase == Start && at.k < |plan|
    case Confirm => at.phase == Enabling && st.wel
    case Command => at.phase == Enabled && at.k < |plan|
    case Finish => at.phase == Waiting && at.k < |plan| && st.op.None? && st.fault != Some(KindOf(plan[at.k]))
  }

  function Next(plan: seq<Cmd>, st: State, at: Pos, m: Move): (State, Pos) {
    match m
    case Settle(to) => (to, at)
    case Enable(latched) =>
      (if st.op.None? then st.(wel := st.wel || latched) else st, at.(phase := Enabling))
    case Confirm => (st, at.(phase := Enabled))
    case Command =>
      if at.k < |plan| && st.wel && st.op.None? then (st.(op := Some(ArrayOp(plan[at.k]))), at.(phase := Waiting))
      else (st, Pos(at.k, Waiting, at.lost + 1))
    case Finish => (st, Pos(at.k + 1, Start, at.lost))
  }

  /** The state and position after some moves from the start of the plan. */
  function After(plan: seq<Cmd>, a: State, moves: seq<Move>): (State, Pos) {
    if moves == [] then (a, Pos(0, Start, 0))
    else var s := After(plan, a, moves[..|moves| - 1]); Next(plan, s.0, s.1, moves[|moves| - 1])
  }

  ghost predicate Legal(p: Part, plan: seq<Cmd>, a: State, moves: seq<Move>) {
    moves == [] ||
    var s := After(plan, a, moves[..|moves| - 1]);
    Legal(p, plan, a, moves[..|moves| - 1]) && Can(p, plan, s.0, s.1, moves[|moves| - 1])
  }

  /** The moves lead from the start of the plan in state a to position `at` in state b. */
  ghost predicate SoloRun(p: Part, plan: seq<Cmd>, a: State, moves: seq<Move>, b: State, at: Pos) {
    Legal(p, plan, a, moves) && After(plan, a, moves) == (b, at)
  }

  lemma {:induction false} RunMove(p: Part, plan: seq<Cmd>, a: State, moves: seq<Move>, b: State, at: Pos, m: Move)
    requires SoloRun(p, plan, a, moves, b, at) && Can(p, plan, b, at, m)
    ensures var n := Next(plan, b, at, m); SoloRun(p, plan, a, moves + [m], n.0, n.1)
  {
    assert (moves + [m])[..|moves|] == moves;
  }

  /** Time passing between two accesses is a move or nothing. */
  lemma {:induction false} RunSettles(p: Part, plan: seq<Cmd>, a: State, moves: seq<Move>, b: State, at: Pos, c: State)
    returns (more: seq<Move>)
    requires SoloRun(p, plan, a, moves, b, at) && Settles(p, b, c)
    ensures SoloRun(p, plan, a, more, c, at) && moves <= more
  {
    if b == c {
      more := moves;
    } else {
      RunMove(p, plan, a, moves, b, at, Settle(c));
      more := moves + [Settle(c)];
    }
  }

  // ----- what a call does to the chip

  /** The operation that the call found in progress is still in progress; if the first command was sent,
      it was ignored. */
  predicate Untouched(a: State, b: State, at: Pos) {
    a.op.Some? && b == a && at.k == 0 && at.lost == if at.phase == Waiting then 1 else 0
  }

  /** The array after the commands that were accepted before command k. */
  function MemAt(plan: seq<Cmd>, base: State, at: Pos): seq<byte>
    requires at.lost <= at.k <= |plan|
  {
    Run(plan[at.lost..at.k], base.mem)
  }

  /** Command k was accepted and is in progress, or done, or failed. */
  ghost predicate Underway(plan: seq<Cmd>, base: State, b: State, at: Pos)
    requires at.lost <= at.k < |plan|
  {
    var m := MemAt(plan, base, at);
    || (b.op == Some(ArrayOp(plan[at.k])) && b.mem == m)
    || (b.op.None? && b.fault.None? && b.mem == Effect(plan[at.k], m))
    || (b.op.None? && b.fault == Some(KindOf(plan[at.k])) && AgreeOutside(plan[at.k], m, b.mem))
  }

  /** The chip is in the state that the call has brought about from an idle state `base`. */
  ghost predicate Worked(plan: seq<Cmd>, a: State, base: State, b: State, at: Pos) {
    && b.regs == base.regs && at.lost <= 1 && (at.lost == 1 ==> a.op.Some?)
    && at.k <= |plan| && (at.phase != Start ==> at.k < |plan|)
    && (at.lost > at.k ==> at.k == 0 && at.phase == Waiting)
    && if at.lost > at.k then b.op.None? && b.mem == base.mem
       else if at.phase == Waiting then Underway(plan, base, b, at)
       else && b.op.None? && b.mem == MemAt(plan, base, at)
            && (at.phase == Enabled && !b.wel ==> a.op.Some? && at.k == 0 && at.lost == 0)
  }

  ghost predicate FromBase(p: Part, a: State, base: State) { base.op.None? && Settles(p, a, base) }

  ghost predicate Outcome(p: Part, plan: seq<Cmd>, a: State, b: State, at: Pos) {
    Untouched(a, b, at) || exists base :: FromBase(p, a, base) && Worked(plan, a, base, b, at)
  }

  lemma {:induction false} PlanStep(plan: seq<Cmd>, l: nat, k: nat, mem: seq<byte>)
    requires l <= k < |plan|
    ensures plan[l..k + 1] == plan[l..k] + [plan[k]]
    ensures Run(plan[l..k + 1], mem) == Effect(plan[k], Run(plan[l..k], mem))
  {
    assert plan[l..k + 1] == plan[l..k] + [plan[k]];
    RunSnoc(plan[l..k], plan[k], mem);
  }

  lemma {:induction false} WorkedOn(p: Part, plan: seq<Cmd>, a: State, base: State, b: State, at: Pos, m: Move)
    requires FromBase(p, a, base) && Worked(plan, a, base, b, at) && Can(p, plan, b, at, m)
    ensures var n := Next(plan, b, at, m); Worked(plan, a, base, n.0, n.1)
  {
    if m.Finish? && at.lost <= at.k {
      PlanStep(plan, at.lost, at.k, base.mem);
    }
  }

  lemma {:induction false} UntouchedOn(p: Part, plan: seq<Cmd>, a: State, b: State, at: Pos, m: Move)
    requires Untouched(a, b, at) && Can(p, plan, b, at, m) && at.k <= |plan| && (at.phase != Start ==> plan != [])
    ensures var n := Next(plan, b, at, m); Outcome(p, plan, a, n.0, n.1)
  {
    var n := Next(plan, b, at, m);
    if m.Settle? {
      assert plan[0..0] == [];
      assert FromBase(p, a, n.0) && Worked(plan, a, n.0, n.0, n.1);
    }
  }

  /** However the chip takes its time: a call on an idle chip has run the commands before k, with
      command k untried, in progress, done or failed; a call that found an operation in progress has done
      that from the state in which the operation finished, and then its first command may have been ignored;
      or the operation is still in progress. */
  lemma {:induction false} SoloOutcome(p: Part, plan: seq<Cmd>, a: State, moves: seq<Move>)
    requires Legal(p, plan, a, moves)
    ensures var s := After(plan, a, moves); Outcome(p, plan, a, s.0, s.1) && (s.1.phase != Start ==> s.1.k < |plan|)
    decreases |moves|
  {
    if moves == [] {
      assert plan[0..0] == [];
      assert a.op.None? ==> FromBase(p, a, a) && Worked(plan, a, a, a, Pos(0, Start, 0));
    } else {
      var n := |moves| - 1;
      SoloOutcome(p, plan, a, moves[..n]);
      var s := After(plan, a, moves[..n]);
      if Untouched(a, s.0, s.1) {
        UntouchedOn(p, plan, a, s.0, s.1, moves[n]);
      } else {
        var base :| FromBase(p, a, base) && Worked(plan, a, base, s.0, s.1);
        WorkedOn(p, plan, a, base, s.0, s.1, moves[n]);
      }
    }
  }

  /** Only the first command can be ignored. */
  lemma {:induction false} LostFixed(p: Part, plan: seq<Cmd>, a: State, moves: seq<Move>, n: nat)
    requires Legal(p, plan, a, moves) && n <= |moves| && After(plan, a, moves[..n]).1.k > 0
    ensures After(plan, a, moves).1.lost == After(plan, a, moves[..n]).1.lost
    ensures After(plan, a, moves).1.k > 0
    decreases |moves|
  {
    var m := |moves| - 1;
    if n == |moves| {
      assert moves[..n] == moves;
    } else {
      assert moves[..m][..n] == moves[..n];
      LostFixed(p, plan, a, moves[..m], n);
      SoloOutcome(p, plan, a, moves[..m]);
    }
  }

  /** From an idle chip no command is lost, and what holds is what the plan says. */
  lemma {:induction false} SoloFromIdle(p: Part, plan: seq<Cmd>, a: State, moves: seq<Move>, b: State, at: Pos)
    requires SoloRun(p, plan, a, moves, b, at) && a.op.None?
    ensures at.lost == 0 && at.k <= |plan| && b.regs == a.regs
    ensures at.phase == Start && at.k == |plan| ==> b.op.None? && b.mem == Run(plan, a.mem)
    ensures at.k < |plan| ==> PartialRun(plan, at.k, a.mem, b.mem)
    ensures at.phase != Waiting ==> b.op.None? && b.mem == Run(plan[..at.k], a.mem)
    ensures b.op.Some? ==> at.phase == Waiting && at.k < |plan| && b.op == Some(ArrayOp(plan[at.k]))
  {
    SoloOutcome(p, plan, a, moves);
    assert plan[0..at.k] == plan[..at.k] && plan[..|plan|] == plan;
  }
}
