/** The flash driver's calls on a chip: status polling, write enable, erase, write and read. */
module FlashDriver {
  import opened Codes
  import opened NorChip
  import opened FlashPlan
  import opened FlashSolo
  import opened Polling

  datatype Timing = Timing(timeout: nat, period: nat)

  /** The entry of the device table, and the timing constants of the header. */
  datatype Config = Config(
    eraseErr: ErrorReport, writeErr: ErrorReport,
    regTiming: Timing, eraseTiming: Timing, chipEraseTiming: Timing, writeTiming: Timing)

  /** The thread-context loop ends even if nothing matches (see Polling). */
  predicate Usable(t: Timing) { Returns(t.timeout, t.period) }

  /** What a wait in thread context returns for the statuses it read. */
  ghost predicate Verdict(t: Timing, ps: seq<Bits>, mask: Bits, value: Bits, r: Code, onHit: Code)
    requires Usable(t)
  {
    if t.period == 0 || t.period > t.timeout then r == EINVAL && ps == []
    else
      var matched := ps != [] && Hit(ps[|ps| - 1], mask, value);
      && Waited(ps, PollBound(t.timeout, t.period), mask, value, matched)
      && r == if matched then onHit else ENODEV
  }

  /** In full: a refused timing is not polled at all; otherwise no poll but the last shows the value, and
      the last one shows it or is the last of the countdown. */
  lemma {:induction false} VerdictSays(t: Timing, ps: seq<Bits>, mask: Bits, value: Bits, r: Code, onHit: Code)
    requires Usable(t) && onHit != ENODEV
    ensures Verdict(t, ps, mask, value, r, onHit) <==>
            if t.period == 0 || t.period > t.timeout then r == EINVAL && ps == []
            else
              && ps != [] && (forall k | 0 <= k < |ps| - 1 :: ps[k] * mask != value)
              && (if ps[|ps| - 1] * mask == value then |ps| <= PollBound(t.timeout, t.period) && r == onHit
                  else |ps| == PollBound(t.timeout, t.period) && r == ENODEV)
  {
    if 0 < t.period <= t.timeout {
      assert Countdown(t.timeout, t.period, 0) != 0;
      WaitedSays(ps, PollBound(t.timeout, t.period), mask, value);
    }
  }

  function Polls(ps: seq<Bits>): (r: seq<Event>)
    ensures |r| == |ps|
  {
    seq(|ps|, k requires 0 <= k < |ps| => Poll(ps[k]))
  }

  lemma {:induction false} PollsSnoc(ps: seq<Bits>, b: Bits)
    ensures Polls(ps + [b]) == Polls(ps) + [Poll(b)]
  {
  }

  /** Since `from`, every operation was started right after a status read that showed the latch set
      and the chip idle, and the chip accepted it. */
  ghost predicate Disciplined(bus: seq<Event>, from: nat) {
    forall k | from <= k < |bus| && bus[k].Issue? ::
      && k > from
      && bus[k - 1].Poll? && bus[k - 1].status * WEL == WEL && bus[k - 1].status * BUSY == {}
      && bus[k].accepted
  }

  /** No operation in this stretch of the bus was accepted. */
  ghost predicate NoneAccepted(bus: seq<Event>, from: nat, to: nat)
    requires to <= |bus|
  {
    forall k | from <= k < to && bus[k].Issue? :: !bus[k].accepted
  }

  /** Since `from` the semaphore was neither taken nor given. */
  ghost predicate NoSem(bus: seq<Event>, from: nat) {
    forall k | from <= k < |bus| :: !bus[k].Take? && !bus[k].Give?
  }

  /** All accesses of a call lie between taking the semaphore and giving it back. */
  ghost predicate Bracketed(bus0: seq<Event>, bus: seq<Event>) {
    && |bus| >= |bus0| + 2 && bus0 + [Take] <= bus && bus[|bus| - 1].Give?
    && NoSem(bus[..|bus| - 1], |bus0| + 1)
  }

  /** The bus ends with `tail`, all of it after position `from`. */
  ghost predicate EndsWith(bus: seq<Event>, from: nat, tail: seq<Event>) {
    from + |tail| <= |bus| && bus[|bus| - |tail|..] == tail
  }

  /** What an error return leaves behind, as byte ranges: final below x, in doubt up to y, untouched
      elsewhere. */
  ghost predicate PrefixDone(plan: seq<Cmd>, k: nat, lo: nat, hi: nat, before: seq<byte>, after: seq<byte>)
    requires k <= |plan|
  {
    var n := |before|;
    var x := Frontier(plan, lo, k, n);
    var y := if k == |plan| then x else x + Span(plan[k], n);
    && |after| == n && |Run(plan, before)| == n && lo <= x <= y <= hi <= n
    && (forall i | lo <= i < x && i < n :: after[i] == Run(plan, before)[i])
    && (forall i | 0 <= i < lo || y <= i < n :: after[i] == before[i])
  }

  /** How far one write-enable / command / wait round came. */
  datatype Round = Done | NotEnabled(why: Code) | NotDone(why: Code)

  /** The chip at the start of a call. */
  datatype Snapshot = Snapshot(st: State, log: seq<Cmd>, bus: seq<Event>)

  ghost predicate SectorsAt(plan: seq<Cmd>, k: nat, count: nat, start: nat) {
    k + count <= |plan| && forall j | 0 <= j < count :: plan[k + j] == SectorErase(start + j * 4096)
  }

  ghost predicate BlocksAt(plan: seq<Cmd>, k: nat, count: nat, start: nat) {
    k + count <= |plan| && forall j | 0 <= j < count :: plan[k + j] == BlockErase(start + j * 65536)
  }

  /** The three counts of a plan as the code computes them, and the commands they stand for. */
  ghost predicate Numbers(plan: seq<Cmd>, offset: nat, size: nat, h: nat, b: nat, t: nat) {
    var a1, r1 := offset + h * 4096, Less(size, h * 4096);
    && |plan| == h + b + t
    && h == (if offset % 65536 == 0 then 0 else (Min(65536 - offset % 65536, size) + 4095) / 4096)
    && b == (if r1 >= 65536 && a1 % 65536 == 0 then r1 / 65536 else 0)
    && b * 65536 <= r1 && t == (r1 - b * 65536 + 4095) / 4096
    && SectorsAt(plan, 0, h, offset) && BlocksAt(plan, h, b, a1) && SectorsAt(plan, h + b, t, a1 + b * 65536)
  }

  lemma {:induction false} PlanNumbers(offset: nat, size: nat, plan: seq<Cmd>) returns (h: nat, b: nat, t: nat)
    requires plan == MixedPlan(offset, size)
    ensures Numbers(plan, offset, size, h, b, t)
  {
    h, b, t := HeadCount(offset, size), MiddleCount(offset, size), TailCount(offset, size);
    MiddleSize(offset + h * 4096, Less(size, h * 4096));
    PhasesAt(offset, h, b, t);
  }

  lemma {:induction false} PhasesAt(offset: nat, h: nat, b: nat, t: nat)
    ensures var plan := Phases(offset, h, b, t);
            && SectorsAt(plan, 0, h, offset) && BlocksAt(plan, h, b, offset + h * 4096)
            && SectorsAt(plan, h + b, t, offset + h * 4096 + b * 65536)
  {
  }

  lemma {:induction false} PlanNotEmpty(offset: nat, size: nat)
    requires size > 0
    ensures MixedPlan(offset, size) != []
  {
    PhaseSizes(offset, size);
  }

  /** The commands that a write loop still has to send. */
  ghost function ToSend(offset: nat, data: seq<byte>): seq<Cmd> { WritePlan(offset, data) }

  /** The first command of what is left of a plan is the next program, the others follow it. */
  lemma {:induction false} NextProgram(plan: seq<Cmd>, k: nat, offset: nat, data: seq<byte>, n: nat)
    requires k <= |plan| && plan[k..] == ToSend(offset, data) && data != [] && n == FirstChunk(offset, data)
    ensures k < |plan| && plan[k] == PageProgram(offset, data[..n])
    ensures plan[k + 1..] == ToSend(offset + n, data[n..])
  {
    assert plan[k] == plan[k..][0];
    assert plan[k + 1..] == plan[k..][1..];
  }

  lemma {:induction false} AllPrograms(offset: nat, data: seq<byte>, k: nat)
    requires k < |WritePlan(offset, data)|
    ensures WritePlan(offset, data)[k].PageProgram?
    decreases |data|
  {
    if k > 0 {
      AllPrograms(offset + FirstChunk(offset, data), data[FirstChunk(offset, data)..], k - 1);
    }
  }

  class Flash {
    const chip: Chip
    const cfg: Config
    /** The driver's binary semaphore. */
    var sem: nat

    constructor (chip: Chip, cfg: Config)
      requires chip.Valid() && cfg.eraseErr == chip.part.eraseErr && cfg.writeErr == chip.part.progErr
      requires Usable(cfg.regTiming) && Usable(cfg.eraseTiming) && Usable(cfg.chipEraseTiming)
               && Usable(cfg.writeTiming)
      ensures Valid() && sem == 1 && this.chip == chip && this.cfg == cfg
    {
      this.chip, this.cfg, sem := chip, cfg, 1;
    }

    ghost predicate Valid()
      reads this, chip
    {
      Sound() && sem <= 1
    }

    /** Everything but the semaphore. */
    ghost predicate Sound()
      reads chip
    {
      && chip.Valid()
      && cfg.eraseErr == chip.part.eraseErr && cfg.writeErr == chip.part.progErr && GoodTimings()
    }

    predicate GoodTimings() {
      Usable(cfg.regTiming) && Usable(cfg.eraseTiming) && Usable(cfg.chipEraseTiming) && Usable(cfg.writeTiming)
    }

    predicate AreaIsValid(offset: int, size: nat) {
      !(offset < 0 || offset >= chip.size || chip.size - offset < size || size == 0)
    }

    /** The verdict of the error register for the kind of operation, when it shows `fault`. */
    function ErrorCode(kind: OpKind, fault: Option<OpKind>): Code {
      var e := match kind
               case WriteOperation => cfg.writeErr
               case EraseOperation => cfg.eraseErr
               case OtherOperation => ErrorReport(0, {});
      if e.reg == 0 then Success
      else if chip.ReadErrorReg(e.reg, fault) * e.mask != {} then EIO
      else Success
    }

    /** An error exactly when the part reports for this kind and its last operation, if of this kind,
        failed. */
    function CheckError(kind: OpKind): (r: Code)
      requires Sound()
      reads chip
      ensures r == Success || r == EIO
      ensures kind == OtherOperation ==> r == Success
      ensures kind != OtherOperation && (chip.fault == None || chip.fault == Some(kind)) ==>
                (r == EIO <==> ReportOf(chip.part, kind).reg != 0 && chip.fault == Some(kind))
    {
      ErrorCode(kind, chip.fault)
    }

    function TimingOf(c: Cmd): Timing {
      match c
      case ChipErase => cfg.chipEraseTiming
      case PageProgram(_, _) => cfg.writeTiming
      case _ => cfg.eraseTiming
    }

    /** One status read of a wait that began in state s0 with the bus at bus0. */
    method PollOnce(ghost s0: State, ghost bus0: seq<Event>, ghost ps: seq<Bits>) returns (b: Bits)
      requires Sound() && Settles(chip.part, s0, chip.Now()) && chip.bus == bus0 + Polls(ps)
      modifies chip`mem, chip`wel, chip`op, chip`fault, chip`regs, chip`bus
      ensures Sound() && Settles(chip.part, s0, chip.Now()) && chip.bus == bus0 + Polls(ps + [b])
      ensures b == StatusByte(chip.Now())
    {
      b := chip.ReadStatusByte();
      PollsSnoc(ps, b);
    }

    /** The thread-context loop: 32-bit countdown, -ENODEV when it runs out. */
    method WaitDone(t: Timing, kind: OpKind, mask: Bits, value: Bits) returns (r: Code, ghost ps: seq<Bits>)
      requires Sound() && Usable(t)
      modifies chip`mem, chip`wel, chip`op, chip`fault, chip`regs, chip`bus
      ensures Sound()
      ensures Settles(chip.part, old(chip.Now()), chip.Now())
      ensures chip.bus == old(chip.bus) + Polls(ps)
      ensures Verdict(t, ps, mask, value, r, CheckError(kind))
      ensures ps != [] ==> ps[|ps| - 1] == StatusByte(chip.Now())
    {
      ps := [];
      ghost var s0, bus0 := chip.Now(), chip.bus;
      if t.period == 0 || t.period > t.timeout {
        assert chip.bus == old(chip.bus) + Polls(ps);
        return EINVAL, ps;
      }
      var left := t.timeout;
      ghost var bound := PollBound(t.timeout, t.period);
      while left != 0
        invariant Sound()
        invariant Settles(chip.part, s0, chip.Now()) && chip.bus == bus0 + Polls(ps)
        invariant |ps| <= bound && left == Countdown(t.timeout, t.period, |ps|)
        invariant NoHit(ps, mask, value)
        invariant ps != [] ==> ps[|ps| - 1] == StatusByte(chip.Now())
        decreases bound - |ps|
      {
        var result := PollOnce(s0, bus0, ps);
        if Hit(result, mask, value) {
          WaitedHit(ps, result, bound, mask, value);
          ps := ps + [result];
          r := CheckError(kind);
          return;
        }
        NoHitSnoc(ps, result, mask, value);
        ps := ps + [result];
        left := (left - t.period) % 0x1_0000_0000;
      }
      r := ENODEV;
    }

    /** The loop for the interrupt context: saturating countdown, -ETIMEDOUT when it runs out.  It
        needs no divisibility. */
    method WaitDoneInIsr(t: Timing, kind: OpKind, mask: Bits, value: Bits) returns (r: Code, ghost ps: seq<Bits>)
      requires Sound() && t.timeout < 0x1_0000_0000
      modifies chip`mem, chip`wel, chip`op, chip`fault, chip`regs, chip`bus
      ensures Sound()
      ensures Settles(chip.part, old(chip.Now()), chip.Now())
      ensures chip.bus == old(chip.bus) + Polls(ps)
      ensures t.period == 0 || t.period > t.timeout ==> r == EINVAL && ps == []
      ensures 0 < t.period <= t.timeout ==>
                var matched := ps != [] && Hit(ps[|ps| - 1], mask, value);
                && Waited(ps, (t.timeout + t.period - 1) / t.period, mask, value, matched)
                && r == if matched then CheckError(kind) else ETIMEDOUT
      ensures ps != [] ==> ps[|ps| - 1] == StatusByte(chip.Now())
    {
      ps := [];
      ghost var s0, bus0 := chip.Now(), chip.bus;
      if t.period == 0 || t.period > t.timeout {
        assert chip.bus == old(chip.bus) + Polls(ps);
        return EINVAL, ps;
      }
      var remaining := t.timeout;
      ghost var bound := CeilDiv(t.timeout, t.period);
      CeilBounds(t.timeout, t.period);
      while remaining != 0
        invariant Sound()
        invariant Settles(chip.part, s0, chip.Now()) && chip.bus == bus0 + Polls(ps)
        invariant |ps| <= bound && remaining == Less(t.timeout, |ps| * t.period)
        invariant NoHit(ps, mask, value)
        invariant ps != [] ==> ps[|ps| - 1] == StatusByte(chip.Now())
        decreases bound - |ps|
      {
        CeilLess(t.timeout, t.period, |ps|);
        var result := PollOnce(s0, bus0, ps);
        if Hit(result, mask, value) {
          WaitedHit(ps, result, bound, mask, value);
          ps := ps + [result];
          r := CheckError(kind);
          return;
        }
        NoHitSnoc(ps, result, mask, value);
        ps := ps + [result];
        assert |ps| * t.period == (|ps| - 1) * t.period + t.period;
        remaining := if remaining >= t.period then remaining - t.period else 0;
      }
      CeilLess(t.timeout, t.period, |ps|);
      r := ETIMEDOUT;
    }

    /** Sets the latch and confirms it.  `before` is the chip when the instruction arrives: still busy, then
        the latch is set all the same and one poll may confirm it; or idle. */
    method WriteEnable() returns (r: Code, ghost ps: seq<Bits>, ghost before: State, ghost latched: bool)
      requires Sound()
      modifies chip`mem, chip`wel, chip`op, chip`fault, chip`regs, chip`bus
      ensures Sound() && Settles(chip.part, old(chip.Now()), before)
      ensures Settles(chip.part, if before.op.None? then before.(wel := before.wel || latched) else before, chip.Now())
      ensures old(chip.op.None?) ==>
                && chip.op.None? && chip.mem == old(chip.mem) && chip.regs == old(chip.regs)
                && chip.fault == old(chip.fault)
      ensures chip.bus == old(chip.bus) + [WriteEnabled] + Polls(ps)
      ensures Verdict(cfg.regTiming, ps, WEL, WEL, r, Success)
      ensures r == Success ==> chip.wel && ps != [] && ps[|ps| - 1] * WEL == WEL
      ensures r == Success ==> (ps[|ps| - 1] * BUSY == {} <==> chip.op.None?)
    {
      before := chip.WriteEnable();
      latched := chip.wel;
      r, ps := WaitDone(cfg.regTiming, OtherOperation, WEL, WEL);
      StatusBits(chip.Now());
    }

    /** How a failed round shows on the bus: it ends with an enable and a full-length wait that never
        saw the latch, or with the command and a wait that never saw the chip idle or, when it did,
        found an error reported; or a timing was refused without a poll. */
    ghost predicate Reason(c: Cmd, started: bool, why: Code, from: nat, s1: Snapshot)
      requires GoodTimings()
    {
      why != Success && if started then exists ok, w :: NotFinished(c, ok, w, why, from, s1)
                        else exists e :: NotLatched(e, why, from, s1.bus)
    }

    ghost predicate NotLatched(e: seq<Bits>, why: Code, from: nat, bus: seq<Event>)
      requires GoodTimings()
    {
      EndsWith(bus, from, [WriteEnabled] + Polls(e)) && Verdict(cfg.regTiming, e, WEL, WEL, why, Success)
    }

    ghost predicate NotFinished(c: Cmd, ok: bool, w: seq<Bits>, why: Code, from: nat, s1: Snapshot)
      requires GoodTimings()
    {
      && EndsWith(s1.bus, from, [Issue(ArrayOp(c), ok)] + Polls(w))
      && Verdict(TimingOf(c), w, BUSY, {}, why, ErrorCode(KindOf(c), s1.st.fault))
    }

    /** The bus ends with command c and a wait of timing t for it that found the chip busy to the end or
        an error reported. */
    ghost predicate WaitFailed(c: Cmd, kind: OpKind, t: Timing, from: nat, s1: Snapshot) {
      exists ok, w, why :: WaitedInVain(c, kind, t, ok, w, why, from, s1)
    }

    ghost predicate WaitedInVain(c: Cmd, kind: OpKind, t: Timing, ok: bool, w: seq<Bits>, why: Code, from: nat,
                                 s1: Snapshot)
    {
      && Usable(t) && EndsWith(s1.bus, from, [Issue(ArrayOp(c), ok)] + Polls(w)) && why != Success
      && Verdict(t, w, {0}, {}, why, ErrorCode(kind, s1.st.fault))
    }

    /** Each kind of command has its own timing and its own kind of error. */
    lemma {:induction false} BlameSays(c: Cmd, from: nat, s1: Snapshot)
      requires GoodTimings() && Blame(c, true, from, s1)
      ensures c == ChipErase ==> WaitFailed(c, EraseOperation, cfg.chipEraseTiming, from, s1)
      ensures c.SectorErase? || c.BlockErase? ==> WaitFailed(c, EraseOperation, cfg.eraseTiming, from, s1)
      ensures c.PageProgram? ==> WaitFailed(c, WriteOperation, cfg.writeTiming, from, s1)
    {
      var why :| Reason(c, true, why, from, s1);
      var ok, w :| NotFinished(c, ok, w, why, from, s1);
      assert WaitedInVain(c, KindOf(c), TimingOf(c), ok, w, why, from, s1);
    }

    lemma {:induction false} EraseBlame(offset: nat, size: nat, k: nat, from: nat, s1: Snapshot)
      requires 0 < size && k < |ErasePlan(offset, size, chip.size)|
      requires GoodTimings() && Blame(ErasePlan(offset, size, chip.size)[k], true, from, s1)
      ensures WaitFailed(ErasePlan(offset, size, chip.size)[k], EraseOperation,
                         if size == chip.size then cfg.chipEraseTiming else cfg.eraseTiming, from, s1)
    {
      var plan := ErasePlan(offset, size, chip.size);
      BlameSays(plan[k], from, s1);
      if size != chip.size {
        var h, b, t := PlanNumbers(offset, size, plan);
        assert if k < h then plan[0 + k].SectorErase? else if k < h + b then plan[h + (k - h)].BlockErase?
               else plan[h + b + (k - h - b)].SectorErase?;
      }
    }

    lemma {:induction false} ReasonEarlier(c: Cmd, started: bool, why: Code, from: nat, earlier: nat, s1: Snapshot)
      requires GoodTimings() && Reason(c, started, why, from, s1) && earlier <= from
      ensures Reason(c, started, why, earlier, s1)
    {
      if started {
        var ok, w :| NotFinished(c, ok, w, why, from, s1);
        assert NotFinished(c, ok, w, why, earlier, s1);
      } else {
        var e :| NotLatched(e, why, from, s1.bus);
        assert NotLatched(e, why, earlier, s1.bus);
      }
    }

    /** The moves of an enable with its wait. */
    lemma {:induction false} EnableMoves(plan: seq<Cmd>, a: State, moves: seq<Move>, b: State, at: Pos,
                                         before: State, latched: bool, now: State) returns (more: seq<Move>)
      requires SoloRun(chip.part, plan, a, moves, b, at) && at.phase == Start && at.k < |plan|
      requires Settles(chip.part, b, before)
      requires Settles(chip.part, if before.op.None? then before.(wel := before.wel || latched) else before, now)
      ensures SoloRun(chip.part, plan, a, more, now, at.(phase := Enabling)) && moves <= more
    {
      more := RunSettles(chip.part, plan, a, moves, b, at, before);
      RunMove(chip.part, plan, a, more, before, at, Enable(latched));
      var n := FlashSolo.Next(plan, before, at, Enable(latched));
      more := RunSettles(chip.part, plan, a, more + [Enable(latched)], n.0, n.1, now);
    }

    /** The moves of a confirmed command with its wait. */
    lemma {:induction false} IssueMoves(plan: seq<Cmd>, a: State, moves: seq<Move>, b: State, at: Pos,
                                        before: State, now: State) returns (more: seq<Move>)
      requires SoloRun(chip.part, plan, a, moves, b, at) && at.phase == Enabling && at.k < |plan| && b.wel
      requires Settles(chip.part, b, before)
      requires var ok := before.wel && before.op.None?;
               Settles(chip.part, if ok then before.(op := Some(ArrayOp(plan[at.k]))) else before, now)
      ensures var ok := before.wel && before.op.None?;
              && SoloRun(chip.part, plan, a, more, now, Pos(at.k, Waiting, if ok then at.lost else at.lost + 1))
              && moves <= more
    {
      RunMove(chip.part, plan, a, moves, b, at, Confirm);
      var at1 := at.(phase := Enabled);
      more := RunSettles(chip.part, plan, a, moves + [Confirm], b, at1, before);
      RunMove(chip.part, plan, a, more, before, at1, Command);
      var n := FlashSolo.Next(plan, before, at1, Command);
      more := RunSettles(chip.part, plan, a, more + [Command], n.0, n.1, now);
    }

    /** What one round of a call does, at position `at` of its plan. */
    ghost predicate RoundDone(round: Round, c: Cmd, plan: seq<Cmd>, a: State, moves: seq<Move>, at: Pos, to: Pos,
                              s0: Snapshot, s1: Snapshot)
    {
      && SoloRun(chip.part, plan, a, moves, s1.st, to)
      && at.lost <= to.lost <= at.lost + 1
      && (match round
          case Done => to == Pos(at.k + 1, Start, to.lost)
          case NotEnabled(_) => to == Pos(at.k, Enabling, at.lost)
          case NotDone(_) => to == Pos(at.k, Waiting, to.lost))
      && s1.log == s0.log + (if round.NotEnabled? || to.lost > at.lost then [] else [c])
      && s0.bus <= s1.bus && NoSem(s1.bus, |s0.bus|)
      && (if to.lost == at.lost then Disciplined(s1.bus, |s0.bus|) else NoneAccepted(s1.bus, |s0.bus|, |s1.bus|))
    }

    /** The round that every array command goes through, with the semaphore taken: enable, command, wait.
        On the bus an accepted command comes right after a poll that shows the latch set and the chip idle.
        A command is ignored when the chip was still busy as the enable arrived; the round may be done all
        the same. */
    method Perform(c: Cmd, t: Timing, ghost plan: seq<Cmd>, ghost a: State, ghost moves: seq<Move>, ghost at: Pos)
      returns (round: Round, ghost more: seq<Move>, ghost to: Pos)
      requires Sound() && sem == 0 && t == TimingOf(c)
      requires SoloRun(chip.part, plan, a, moves, chip.Now(), at)
      requires at.phase == Start && at.k < |plan| && c == plan[at.k]
      modifies chip
      ensures Sound() && RoundDone(round, c, plan, a, more, at, to, old(TakeSnapshot()), TakeSnapshot())
              && moves <= more
      ensures !round.Done? ==> Reason(c, round.NotDone?, round.why, |old(chip.bus)|, TakeSnapshot())
    {
      ghost var bus0 := chip.bus;
      var r;
      ghost var ps, ps', ok;
      r, ps, more, to := EnableRound(plan, a, moves, at);
      if r != Success {
        QuietRound(bus0, ps);
        assert NotLatched(ps, r, |bus0|, chip.bus);
        return NotEnabled(r), more, to;
      }
      r, ps', ok, more, to := CommandRound(c, t, plan, a, more, to);
      IssueRound(bus0, ps, ArrayOp(c), ok, ps');
      if r != Success {
        assert NotFinished(c, ok, ps', r, |bus0|, TakeSnapshot());
        return NotDone(r), more, to;
      }
      RunMove(chip.part, plan, a, more, chip.Now(), to, Finish);
      more, to := more + [Finish], Pos(at.k + 1, Start, to.lost);
      round := Done;
    }

    /** The enable of a round. */
    method EnableRound(ghost plan: seq<Cmd>, ghost a: State, ghost moves: seq<Move>, ghost at: Pos)
      returns (r: Code, ghost ps: seq<Bits>, ghost more: seq<Move>, ghost to: Pos)
      requires Sound() && SoloRun(chip.part, plan, a, moves, chip.Now(), at) && at.phase == Start && at.k < |plan|
      modifies chip`mem, chip`wel, chip`op, chip`fault, chip`regs, chip`bus
      ensures Sound() && SoloRun(chip.part, plan, a, more, chip.Now(), to) && moves <= more
      ensures to == at.(phase := Enabling)
      ensures chip.bus == old(chip.bus) + [WriteEnabled] + Polls(ps)
      ensures Verdict(cfg.regTiming, ps, WEL, WEL, r, Success)
      ensures r == Success ==> chip.wel && ps != [] && ps[|ps| - 1] * WEL == WEL
      ensures r == Success ==> (ps[|ps| - 1] * BUSY == {} <==> chip.op.None?)
    {
      ghost var s0, before, latched := chip.Now(), chip.Now(), false;
      r, ps, before, latched := WriteEnable();
      more := EnableMoves(plan, a, moves, s0, at, before, latched, chip.Now());
      to := at.(phase := Enabling);
    }

    /** The command of a round, on a chip that showed the latch, and the wait for it. */
    method CommandRound(c: Cmd, t: Timing, ghost plan: seq<Cmd>, ghost a: State, ghost moves: seq<Move>, ghost at: Pos)
      returns (r: Code, ghost ps: seq<Bits>, ghost ok: bool, ghost more: seq<Move>, ghost to: Pos)
      requires Sound() && t == TimingOf(c) && chip.wel
      requires SoloRun(chip.part, plan, a, moves, chip.Now(), at)
      requires at.phase == Enabling && at.k < |plan| && c == plan[at.k]
      modifies chip
      ensures Sound() && SoloRun(chip.part, plan, a, more, chip.Now(), to) && moves <= more
      ensures to == Pos(at.k, Waiting, if ok then at.lost else at.lost + 1)
      ensures ok ==> old(chip.op.None?)
      ensures chip.bus == old(chip.bus) + [Issue(ArrayOp(c), ok)] + Polls(ps)
      ensures chip.log == old(chip.log) + if ok then [c] else []
      ensures Verdict(t, ps, BUSY, {}, r, ErrorCode(KindOf(c), chip.fault))
      ensures r == Success ==> chip.op.None? && chip.fault != Some(KindOf(c))
    {
      ghost var s1, before := chip.Now(), chip.Now();
      before := chip.Start(c);
      ok := before.wel && before.op.None?;
      r, ps := WaitDone(t, KindOf(c), BUSY, {});
      StatusBits(chip.Now());
      more := IssueMoves(plan, a, moves, s1, at, before, chip.Now());
      to := Pos(at.k, Waiting, if ok then at.lost else at.lost + 1);
    }

    // ----- erase

    /** Disciplined, after the ignored command if there was one. */
    static ghost predicate Orderly(bus: seq<Event>, from: nat, lost: nat) {
      if lost == 0 then Disciplined(bus, from)
      else exists n :: from <= n <= |bus| && NoneAccepted(bus, from, n) && Disciplined(bus, n)
    }

    /** A call whose commands before k are done; `lost` of them were ignored. */
    ghost predicate Progressed(plan: seq<Cmd>, k: nat, lost: nat, moves: seq<Move>, s0: Snapshot, s1: Snapshot) {
      && SoloRun(chip.part, plan, s0.st, moves, s1.st, Pos(k, Start, lost))
      && lost <= k <= |plan| && s1.log == s0.log + plan[lost..k]
      && s0.bus <= s1.bus && Orderly(s1.bus, |s0.bus|, lost) && NoSem(s1.bus, |s0.bus|)
      && (k == 0 ==> s1.bus == s0.bus)
    }

    ghost predicate Progress(plan: seq<Cmd>, k: nat, s0: Snapshot)
      reads this, chip
    {
      exists lost, moves :: Progressed(plan, k, lost, moves, s0, TakeSnapshot()) && Sound() && sem == 0
    }

    ghost predicate Blame(c: Cmd, started: bool, from: nat, s1: Snapshot)
      requires GoodTimings()
    {
      exists why :: Reason(c, started, why, from, s1)
    }

    static function EndPos(plan: seq<Cmd>, k: nat, started: bool, lost: nat): Pos {
      Pos(k, if k >= |plan| then Start else if started then Waiting else Enabling, lost)
    }

    ghost predicate EndedAt(plan: seq<Cmd>, k: nat, started: bool, lost: nat, moves: seq<Move>,
                            s0: Snapshot, s1: Snapshot)
    {
      var hi := if started && k < |plan| then k + 1 else k;
      && SoloRun(chip.part, plan, s0.st, moves, s1.st, EndPos(plan, k, started, lost))
      && lost <= hi <= |plan| && s1.log == s0.log + plan[lost..hi]
      && s0.bus <= s1.bus && Orderly(s1.bus, |s0.bus|, lost) && NoSem(s1.bus, |s0.bus|)
    }

    /** How a call ended: with the whole plan done, or with k commands done and the next one not
        enabled (so not started) or not confirmed.  SoloOutcome says what that has done to the chip. */
    ghost predicate Ended(plan: seq<Cmd>, k: nat, started: bool, s0: Snapshot, s1: Snapshot) {
      && k <= |plan| && GoodTimings()
      && (exists lost, moves :: EndedAt(plan, k, started, lost, moves, s0, s1))
      && (k < |plan| ==> Blame(plan[k], started, |s0.bus|, s1))
    }

    lemma {:induction false} OrderlyOn(bus0: seq<Event>, bus: seq<Event>, from: nat, lost: nat)
      requires from <= |bus0| && bus0 <= bus && Orderly(bus0, from, lost) && Disciplined(bus, |bus0|)
      ensures Orderly(bus, from, lost)
    {
      assert bus[..|bus0|] == bus0;
      if lost == 0 {
        DisciplinedJoin(bus, |bus0|, from);
      } else {
        var n :| from <= n <= |bus0| && NoneAccepted(bus0, from, n) && Disciplined(bus0, n);
        DisciplinedJoin(bus, |bus0|, n);
        assert NoneAccepted(bus, from, n);
      }
    }

    lemma {:induction false} Begun(plan: seq<Cmd>, s0: Snapshot)
      requires Sound() && sem == 0 && s0 == TakeSnapshot()
      ensures Progress(plan, 0, s0)
    {
      assert plan[0..0] == [];
      assert Legal(chip.part, plan, s0.st, []);
      assert Progressed(plan, 0, 0, [], s0, s0);
    }

    /** A round that follows Progress keeps the bus in order. */
    lemma {:induction false} BusOn(k: nat, lost: nat, to: nat, s0: Snapshot, bus0: seq<Event>, bus: seq<Event>)
      requires s0.bus <= bus0 <= bus && Orderly(bus0, |s0.bus|, lost) && NoSem(bus0, |s0.bus|)
      requires NoSem(bus, |bus0|) && (k == 0 ==> bus0 == s0.bus) && (to != lost ==> k == 0 && to == 1)
      requires if to == lost then Disciplined(bus, |bus0|) else NoneAccepted(bus, |bus0|, |bus|)
      ensures Orderly(bus, |s0.bus|, to) && NoSem(bus, |s0.bus|)
    {
      if to == lost {
        OrderlyOn(bus0, bus, |s0.bus|, lost);
      } else {
        assert Disciplined(bus, |bus|);
      }
    }

    /** Only the first command of a call can be ignored. */
    lemma {:induction false} LostOnce(plan: seq<Cmd>, k: nat, lost: nat, moves: seq<Move>, more: seq<Move>, to: Pos,
                                      a: State, b: State, c: State)
      requires SoloRun(chip.part, plan, a, moves, b, Pos(k, Start, lost)) && SoloRun(chip.part, plan, a, more, c, to)
      requires moves <= more && lost <= to.lost <= lost + 1
      ensures to.lost != lost ==> k == 0 && to.lost == 1
      ensures to.lost <= if to.phase == Waiting then to.k + 1 else to.k
    {
      SoloOutcome(chip.part, plan, a, more);
      assert more[..|moves|] == moves;
      if k > 0 {
        LostFixed(chip.part, plan, a, more, |moves|);
      }
    }

    /** One round, seen as the next step of a plan. */
    lemma {:induction false} RoundOn(round: Round, c: Cmd, plan: seq<Cmd>, k: nat, lost: nat,
                                     moves: seq<Move>, more: seq<Move>, to: Pos,
                                     s0: Snapshot, s1: Snapshot, s2: Snapshot)
      requires k < |plan| && c == plan[k] && Progressed(plan, k, lost, moves, s0, s1)
      requires RoundDone(round, c, plan, s0.st, more, Pos(k, Start, lost), to, s1, s2) && moves <= more
      ensures round.Done? ==> Progressed(plan, k + 1, to.lost, more, s0, s2)
      ensures !round.Done? ==> EndedAt(plan, k, round.NotDone?, to.lost, more, s0, s2)
    {
      LostOnce(plan, k, lost, moves, more, to, s0.st, s1.st, s2.st);
      BusOn(k, lost, to.lost, s0, s1.bus, s2.bus);
      assert plan[lost..k + 1] == plan[lost..k] + [c];
    }

    method Next(c: Cmd, t: Timing, ghost plan: seq<Cmd>, ghost k: nat, ghost s0: Snapshot) returns (round: Round)
      requires Progress(plan, k, s0) && k < |plan| && c == plan[k] && t == TimingOf(c)
      modifies chip
      ensures Sound()
      ensures round.Done? ==> Progress(plan, k + 1, s0)
      ensures !round.Done? ==> Ended(plan, k, round.NotDone?, s0, TakeSnapshot())
                               && Reason(c, round.NotDone?, round.why, |s0.bus|, TakeSnapshot())
    {
      ghost var s1 := TakeSnapshot();
      ghost var lost, moves :| Progressed(plan, k, lost, moves, s0, s1);
      ghost var more, to;
      round, more, to := Perform(c, t, plan, s0.st, moves, Pos(k, Start, lost));
      RoundOn(round, c, plan, k, lost, moves, more, to, s0, s1, TakeSnapshot());
      if !round.Done? {
        ReasonEarlier(c, round.NotDone?, round.why, |s1.bus|, |s0.bus|, TakeSnapshot());
      }
    }

    /** One erase command of a call, with the code that its round gives. */
    method EraseOne(c: Cmd, t: Timing, ghost plan: seq<Cmd>, ghost k: nat, ghost s0: Snapshot) returns (r: Code)
      requires Progress(plan, k, s0) && k < |plan| && c == plan[k] && t == TimingOf(c)
      modifies chip
      ensures r == Success ==> Progress(plan, k + 1, s0)
      ensures r != Success ==> EraseOver(plan, k, r, s0)
    {
      var round := Next(c, t, plan, k, s0);
      r := if round.Done? then Success else if round.NotEnabled? then ENODEV else ECOMM;
    }

    /** One round of that loop, after `n` others. */
    method SectorRound(address: nat, ghost start: nat, ghost n: nat, ghost count: nat, ghost plan: seq<Cmd>,
                       ghost k0: nat, ghost s0: Snapshot) returns (r: Code, ghost k: nat)
      requires Progress(plan, k0 + n, s0) && SectorsAt(plan, k0, count, start) && n < count
      requires address == start + n * 4096
      modifies chip
      ensures if r == Success then k == k0 + n + 1 && Progress(plan, k, s0) else k < |plan| && EraseOver(plan, k, r, s0)
    {
      assert plan[k0 + n] == SectorErase(address);
      r := EraseOne(SectorErase(address), cfg.eraseTiming, plan, k0 + n, s0);
      k := if r == Success then k0 + n + 1 else k0 + n;
    }

    /** The loop of phases 1 and 3: `count` sectors from `start`. */
    method EraseSectors(start: nat, left: nat, count: nat, ghost plan: seq<Cmd>, ghost k0: nat, ghost s0: Snapshot)
      returns (r: Code, address: nat, remaining: nat, ghost k: nat)
      requires Progress(plan, k0, s0) && SectorsAt(plan, k0, count, start)
      modifies chip
      ensures r == Success ==> k == k0 + count && Progress(plan, k, s0)
                               && address == start + count * 4096 && remaining == Less(left, count * 4096)
      ensures r != Success ==> k < |plan| && EraseOver(plan, k, r, s0)
    {
      r, address, remaining, k := Success, start, left, k0;
      var sectorCount := count;
      while sectorCount > 0
        invariant r == Success && k == k0 + count - sectorCount && Progress(plan, k, s0)
        invariant address == start + (count - sectorCount) * 4096
        invariant remaining == Less(left, (count - sectorCount) * 4096)
      {
        r, k := SectorRound(address, start, count - sectorCount, count, plan, k0, s0);
        if r != Success {
          break;
        }
        address := address + 4096;
        remaining := if remaining >= 4096 then remaining - 4096 else 0;
        sectorCount := sectorCount - 1;
      }
    }

    /** The loop of phase 2: `count` 64 KB blocks from `start`. */
    method EraseBlocks(start: nat, left: nat, count: nat, ghost plan: seq<Cmd>, ghost k0: nat, ghost s0: Snapshot)
      returns (r: Code, address: nat, remaining: nat, ghost k: nat)
      requires Progress(plan, k0, s0) && BlocksAt(plan, k0, count, start) && count * 65536 <= left
      modifies chip
      ensures r == Success ==> k == k0 + count && Progress(plan, k, s0)
                               && address == start + count * 65536 && remaining == left - count * 65536
      ensures r != Success ==> k < |plan| && EraseOver(plan, k, r, s0)
    {
      r, address, remaining, k := Success, start, left, k0;
      var blockCount := count;
      while blockCount > 0
        invariant r == Success && k == k0 + count - blockCount && Progress(plan, k, s0)
        invariant address == start + (count - blockCount) * 65536
        invariant remaining == left - (count - blockCount) * 65536
      {
        r, k := BlockRound(address, start, count - blockCount, count, plan, k0, s0);
        if r != Success {
          break;
        }
        address := address + 65536;
        remaining := remaining - 65536;
        blockCount := blockCount - 1;
      }
    }

    /** One round of that loop, after `n` others. */
    method BlockRound(address: nat, ghost start: nat, ghost n: nat, ghost count: nat, ghost plan: seq<Cmd>,
                      ghost k0: nat, ghost s0: Snapshot) returns (r: Code, ghost k: nat)
      requires Progress(plan, k0 + n, s0) && BlocksAt(plan, k0, count, start) && n < count
      requires address == start + n * 65536
      modifies chip
      ensures if r == Success then k == k0 + n + 1 && Progress(plan, k, s0) else k < |plan| && EraseOver(plan, k, r, s0)
    {
      assert plan[k0 + n] == BlockErase(address);
      r := EraseOne(BlockErase(address), cfg.eraseTiming, plan, k0 + n, s0);
      k := if r == Success then k0 + n + 1 else k0 + n;
    }

    /** An erase is over: with success after the whole plan, else at command k. */
    ghost predicate EraseOver(plan: seq<Cmd>, k: nat, r: Code, s0: Snapshot)
      reads chip
    {
      && Ended(plan, k, r == ECOMM, s0, TakeSnapshot()) && Sound()
      && (r == Success <==> k == |plan|) && (r == Success || r == ENODEV || r == ECOMM)
    }

    /** The body of an erase call, between taking and giving the semaphore. */
    method EraseLocked(offset: nat, size: nat, ghost s0: Snapshot) returns (r: Code, ghost k: nat)
      requires Sound() && sem == 0 && AreaIsValid(offset, size) && s0 == TakeSnapshot()
      modifies chip
      ensures EraseOver(ErasePlan(offset, size, chip.size), k, r, s0)
    {
      ghost var plan := ErasePlan(offset, size, chip.size);
      Begun(plan, s0);
      // whole chip
      if size == chip.size {
        r, k := EraseChip(plan, s0);
      } else {
        ghost var h, b, t := PlanNumbers(offset, size, plan);
        PlanNotEmpty(offset, size);
        r, k := EraseMixed(offset, size, plan, h, b, t, s0);
      }
    }

    method EraseChip(ghost plan: seq<Cmd>, ghost s0: Snapshot) returns (r: Code, ghost k: nat)
      requires Progress(plan, 0, s0) && plan == [ChipErase]
      modifies chip
      ensures EraseOver(plan, k, r, s0)
    {
      k := 0;
      r := EraseOne(ChipErase, cfg.chipEraseTiming, plan, k, s0);
      if r == Success {
        WholePlan(plan, s0);
        k := 1;
      }
    }

    /** Phase 1: sectors up to a 64 KB boundary. */
    method EraseHead(offset: nat, size: nat, ghost plan: seq<Cmd>, ghost h: nat, ghost s0: Snapshot)
      returns (r: Code, address: nat, remaining: nat, ghost k: nat)
      requires Progress(plan, 0, s0) && SectorsAt(plan, 0, h, offset)
      requires h == if offset % 65536 == 0 then 0 else (Min(65536 - offset % 65536, size) + 4095) / 4096
      modifies chip
      ensures r == Success ==> k == h && Progress(plan, k, s0)
                               && address == offset + h * 4096 && remaining == Less(size, h * 4096)
      ensures r != Success ==> k < |plan| && EraseOver(plan, k, r, s0)
    {
      r, address, remaining, k := Success, offset, size, 0;
      if address % 65536 != 0 {
        var alignSize := 65536 - address % 65536;
        if alignSize > remaining {
          alignSize := remaining;
        }
        r, address, remaining, k := EraseSectors(address, remaining, (alignSize + 4095) / 4096, plan, 0, s0);
      }
    }

    /** Phase 2: whole 64 KB blocks. */
    method EraseMiddle(start: nat, left: nat, ghost plan: seq<Cmd>, ghost h: nat, ghost b: nat, ghost s0: Snapshot)
      returns (r: Code, address: nat, remaining: nat, ghost k: nat)
      requires Progress(plan, h, s0) && BlocksAt(plan, h, b, start) && b * 65536 <= left
      requires b == if left >= 65536 && start % 65536 == 0 then left / 65536 else 0
      modifies chip
      ensures r == Success ==> k == h + b && Progress(plan, k, s0)
                               && address == start + b * 65536 && remaining == left - b * 65536
      ensures r != Success ==> k < |plan| && EraseOver(plan, k, r, s0)
    {
      r, address, remaining, k := Success, start, left, h;
      if remaining >= 65536 && address % 65536 == 0 {
        r, address, remaining, k := EraseBlocks(address, remaining, remaining / 65536, plan, h, s0);
      }
    }

    /** Phase 3: the remaining sectors. */
    method EraseTail(start: nat, left: nat, ghost plan: seq<Cmd>, ghost k0: nat, ghost t: nat, ghost s0: Snapshot)
      returns (r: Code, ghost k: nat)
      requires Progress(plan, k0, s0) && SectorsAt(plan, k0, t, start) && k0 + t == |plan| > 0
      requires t == (left + 4095) / 4096
      modifies chip
      ensures EraseOver(plan, k, r, s0)
    {
      r, k := Success, k0;
      if left > 0 {
        var address, remaining;
        r, address, remaining, k := EraseSectors(start, left, (left + 4095) / 4096, plan, k0, s0);
      }
      if r == Success {
        WholePlan(plan, s0);
      }
    }

    /** The three phases of a partial erase. */
    method EraseMixed(offset: nat, size: nat, ghost plan: seq<Cmd>, ghost h: nat, ghost b: nat, ghost t: nat,
                      ghost s0: Snapshot) returns (r: Code, ghost k: nat)
      requires Numbers(plan, offset, size, h, b, t) && Progress(plan, 0, s0) && plan != []
      modifies chip
      ensures EraseOver(plan, k, r, s0)
    {
      var address, remaining;
      r, address, remaining, k := EraseHead(offset, size, plan, h, s0);
      if r == Success {
        r, k := EraseRest(address, remaining, plan, h, b, t, s0);
      }
    }

    /** What is left after phase 1. */
    method EraseRest(start: nat, left: nat, ghost plan: seq<Cmd>, ghost h: nat, ghost b: nat, ghost t: nat,
                     ghost s0: Snapshot)
      returns (r: Code, ghost k: nat)
      requires Progress(plan, h, s0) && plan != [] && h + b + t == |plan|
      requires BlocksAt(plan, h, b, start) && SectorsAt(plan, h + b, t, start + b * 65536)
      requires b == if left >= 65536 && start % 65536 == 0 then left / 65536 else 0
      requires b * 65536 <= left && t == (left - b * 65536 + 4095) / 4096
      modifies chip
      ensures EraseOver(plan, k, r, s0)
    {
      var address, remaining;
      r, address, remaining, k := EraseMiddle(start, left, plan, h, b, s0);
      if r == Success {
        r, k := EraseTail(address, remaining, plan, h + b, t, s0);
      }
    }

    ghost function TakeSnapshot(): Snapshot
      reads chip
    {
      Snapshot(chip.Now(), chip.log, chip.bus)
    }

    lemma {:induction false} WholePlan(plan: seq<Cmd>, s0: Snapshot)
      requires Progress(plan, |plan|, s0)
      ensures Ended(plan, |plan|, false, s0, TakeSnapshot())
    {
      var lost, moves :| Progressed(plan, |plan|, lost, moves, s0, TakeSnapshot());
      assert EndedAt(plan, |plan|, false, lost, moves, s0, TakeSnapshot());
    }

    /** On a chip that was idle nothing was lost. */
    lemma {:induction false} EndedIdle(plan: seq<Cmd>, k: nat, started: bool, s0: Snapshot, s1: Snapshot)
      requires Ended(plan, k, started, s0, s1) && s0.st.op.None?
      ensures s1.st.regs == s0.st.regs && PartialRun(plan, k, s0.st.mem, s1.st.mem)
      ensures Disciplined(s1.bus, |s0.bus|)
      ensures s1.log == s0.log + plan[..if started && k < |plan| then k + 1 else k]
      ensures k == |plan| ==> s1.st.op.None?
      ensures s1.st.op.Some? ==> started && k < |plan| && s1.st.op == Some(ArrayOp(plan[k]))
    {
      var lost, moves :| EndedAt(plan, k, started, lost, moves, s0, s1);
      SoloFromIdle(chip.part, plan, s0.st, moves, s1.st, EndPos(plan, k, started, lost));
      var hi := if started && k < |plan| then k + 1 else k;
      assert plan[0..hi] == plan[..hi];
    }

    /** The semaphore is taken; everything on the bus from here on is this call's. */
    method TakeSem() returns (ghost s0: Snapshot)
      requires Valid() && sem == 1
      modifies this`sem, chip`bus
      ensures Sound() && sem == 0 && chip.bus == old(chip.bus) + [Take] && s0 == TakeSnapshot()
    {
      sem := sem - 1;
      chip.Note(Take);
      s0 := TakeSnapshot();
    }

    method GiveSem()
      requires Sound() && sem == 0
      modifies this`sem, chip`bus
      ensures Valid() && sem == 1 && chip.bus == old(chip.bus) + [Give]
    {
      sem := sem + 1;
      chip.Note(Give);
    }

    /** The snapshot of a call that takes the semaphore now, and of one that has just given it back. */
    ghost function Taken(): Snapshot
      reads chip
    {
      Snapshot(chip.Now(), chip.log, chip.bus + [Take])
    }

    ghost function Given(): Snapshot
      reads chip
    {
      Snapshot(chip.Now(), chip.log, if chip.bus == [] then [] else chip.bus[..|chip.bus| - 1])
    }

    /** Erases the sectors of an area.  On success from an idle chip exactly SectorCount(size) sectors
        from the one that holds the offset are at 0xFF and everything else is as before; on failure a
        prefix of them is, and one more command at most is in doubt.  Ended with SoloOutcome says the same
        for a chip that was busy: the plan is run once that operation has finished, and its first command
        is ignored if the chip was still busy when its enable arrived.  All accesses lie between taking and
        giving the semaphore. */
    method Erase(offset: int, size: nat) returns (r: Code, ghost k: nat)
      requires Valid() && sem == 1
      modifies this`sem, chip
      ensures Valid() && sem == 1 && old(chip.bus) <= chip.bus
      ensures r == EINVAL <==> offset < 0 || size == 0 || offset + size > chip.size
      ensures r == EINVAL ==> chip.Now() == old(chip.Now()) && chip.log == old(chip.log) && chip.bus == old(chip.bus)
      ensures 0 <= offset && 0 < size && offset + size <= chip.size ==>
                var plan := ErasePlan(offset, size, chip.size);
                && (r == Success <==> k == |plan|) && (r == Success || r == ENODEV || r == ECOMM)
                && Bracketed(old(chip.bus), chip.bus)
                && Ended(plan, k, r == ECOMM, old(Taken()), Given())
                && (r == ECOMM ==>
                      WaitFailed(plan[k], EraseOperation,
                                 if size == chip.size then cfg.chipEraseTiming else cfg.eraseTiming,
                                 |old(chip.bus)| + 1, Given()))
      ensures 0 <= offset && 0 < size && offset + size <= chip.size && old(chip.op.None?) ==>
                var plan := ErasePlan(offset, size, chip.size);
                var lo, hi := SectorStart(offset), EraseEnd(offset, size);
                && k <= |plan| && PrefixDone(plan, k, lo, hi, old(chip.mem), chip.mem)
                && chip.regs == old(chip.regs) && Disciplined(Given().bus, |old(chip.bus)| + 1)
                && chip.log == old(chip.log) + plan[..if r == ECOMM then k + 1 else k]
                && (r == Success ==> chip.op.None? && chip.mem == Erased(old(chip.mem), lo, hi))
                && (chip.op.Some? ==> r == ECOMM && chip.op == Some(ArrayOp(plan[k])))
    {
      if !AreaIsValid(offset, size) {
        return EINVAL, 0;
      }
      r, k := EraseValid(offset, size);
    }

    /** An erase of a valid area, with what it leaves. */
    method EraseValid(offset: nat, size: nat) returns (r: Code, ghost k: nat)
      requires Valid() && sem == 1 && AreaIsValid(offset, size)
      modifies this`sem, chip
      ensures Valid() && sem == 1 && Bracketed(old(chip.bus), chip.bus)
      ensures var plan := ErasePlan(offset, size, chip.size);
              && (r == Success <==> k == |plan|) && (r == Success || r == ENODEV || r == ECOMM)
              && Ended(plan, k, r == ECOMM, old(Taken()), Given())
              && (r == ECOMM ==>
                    WaitFailed(plan[k], EraseOperation,
                               if size == chip.size then cfg.chipEraseTiming else cfg.eraseTiming,
                               |old(chip.bus)| + 1, Given()))
      ensures old(chip.op.None?) ==>
                var plan := ErasePlan(offset, size, chip.size);
                var lo, hi := SectorStart(offset), EraseEnd(offset, size);
                && k <= |plan| && PrefixDone(plan, k, lo, hi, old(chip.mem), chip.mem)
                && chip.regs == old(chip.regs) && Disciplined(Given().bus, |old(chip.bus)| + 1)
                && chip.log == old(chip.log) + plan[..if r == ECOMM then k + 1 else k]
                && (r == Success ==> chip.op.None? && chip.mem == Erased(old(chip.mem), lo, hi))
                && (chip.op.Some? ==> r == ECOMM && chip.op == Some(ArrayOp(plan[k])))
    {
      ghost var s0 := Taken();
      r, k := EraseArea(offset, size);
      if r == ECOMM {
        EraseBlame(offset, size, k, |s0.bus|, Given());
      }
      if s0.st.op.None? {
        EndedIdle(ErasePlan(offset, size, chip.size), k, r == ECOMM, s0, Given());
        EraseOutcome(offset, size, k, old(chip.mem), chip.mem);
      }
    }

    /** An erase of a valid area, from taking the semaphore to giving it back. */
    method EraseArea(offset: nat, size: nat) returns (r: Code, ghost k: nat)
      requires Valid() && sem == 1 && AreaIsValid(offset, size)
      modifies this`sem, chip
      ensures Valid() && sem == 1 && Bracketed(old(chip.bus), chip.bus)
      ensures var plan := ErasePlan(offset, size, chip.size);
              && (r == Success <==> k == |plan|) && (r == Success || r == ENODEV || r == ECOMM)
              && Ended(plan, k, r == ECOMM, old(Taken()), Given())
    {
      ghost var s0 := TakeSem();
      r, k := EraseLocked(offset, size, s0);
      ghost var s1 := TakeSnapshot();
      GiveSem();
      assert Given() == s1;
    }

    // ----- write

    /** A write is over: with success after the whole plan, else with the code of the failing wait. */
    ghost predicate WriteOver(plan: seq<Cmd>, k: nat, started: bool, r: Code, s0: Snapshot)
      reads chip
    {
      && Ended(plan, k, started, s0, TakeSnapshot()) && Sound() && (r == Success <==> k == |plan|)
      && (r != Success ==> Reason(plan[k], started, r, |s0.bus|, TakeSnapshot()))
    }

    /** The body of a write call. */
    method WriteLocked(start: nat, data: seq<byte>, ghost plan: seq<Cmd>, ghost s0: Snapshot)
      returns (r: Code, ghost k: nat, ghost started: bool)
      requires Progress(plan, 0, s0) && plan == ToSend(start, data)
      modifies chip
      ensures WriteOver(plan, k, started, r, s0)
    {
      var offset, buffPtr := start, data;
      r, k, started := Success, 0, false;
      while |buffPtr| != 0
        invariant r == Success && Progress(plan, k, s0) && k <= |plan| && plan[k..] == ToSend(offset, buffPtr)
        decreases |buffPtr|
      {
        var next, left, round := WriteChunk(offset, buffPtr, plan, k, s0);
        if !round.Done? {
          r, started := round.why, round.NotDone?;
          break;
        }
        offset, buffPtr, k := next, left, k + 1;
      }
      if r == Success {
        WholeWrite(plan, k, s0, offset);
      }
    }

    lemma {:induction false} WholeWrite(plan: seq<Cmd>, k: nat, s0: Snapshot, offset: nat)
      requires Progress(plan, k, s0) && k <= |plan| && plan[k..] == ToSend(offset, [])
      ensures WriteOver(plan, k, false, Success, s0)
    {
      WholePlan(plan, s0);
    }

    /** One page command of a write, and where the next one starts. */
    method WriteChunk(offset: nat, data: seq<byte>, ghost plan: seq<Cmd>, ghost k: nat, ghost s0: Snapshot)
      returns (next: nat, left: seq<byte>, round: Round)
      requires Progress(plan, k, s0) && data != [] && k <= |plan| && plan[k..] == ToSend(offset, data)
      modifies chip
      ensures next == offset + |data| - |left| && |left| < |data| && k < |plan| && plan[k + 1..] == ToSend(next, left)
      ensures round.Done? ==> Progress(plan, k + 1, s0)
      ensures !round.Done? ==> WriteOver(plan, k, round.NotDone?, round.why, s0)
    {
      var n := TransferSize(offset, |data|);
      NextProgram(plan, k, offset, data, n);
      round := Next(PageProgram(offset, data[..n]), cfg.writeTiming, plan, k, s0);
      next, left := offset + n, data[n..];
    }

    /** The transfer size of one page command: up to the page end, or all that is left. */
    static method TransferSize(offset: nat, len: nat) returns (n: nat)
      ensures n == if len <= 256 - offset % 256 then len else 256 - offset % 256
    {
      var leftover := offset % 256;
      if leftover != 0 {
        n := 256 - leftover;
        if n > len {
          n := len;
        }
      } else {
        n := if len > 256 then 256 else len;
      }
    }

    /** Programs an area.  On success from an idle chip the array is old AND new on the area and as
        before elsewhere; on failure that holds of a prefix, one page command at most is in doubt, and
        the code returned is what the failing wait gave (Reason).  From a busy chip the first page may be
        lost, as in Erase. */
    method Write(offset: int, buff: array?<byte>, len: nat) returns (r: Code, ghost k: nat, ghost started: bool)
      requires Valid() && sem == 1
      requires buff != null ==> len <= buff.Length
      modifies this`sem, chip
      ensures Valid() && sem == 1 && old(chip.bus) <= chip.bus
      ensures offset < 0 || len == 0 || offset + len > chip.size || buff == null ==>
                r == EINVAL && chip.Now() == old(chip.Now()) && chip.log == old(chip.log) && chip.bus == old(chip.bus)
      ensures 0 <= offset && 0 < len && offset + len <= chip.size && buff != null ==>
                var plan := WritePlan(offset, buff[..len]);
                && (r == Success <==> k == |plan|) && Bracketed(old(chip.bus), chip.bus)
                && Ended(plan, k, started, old(Taken()), Given())
                && (r != Success ==> Reason(plan[k], started, r, |old(chip.bus)| + 1, Given()))
                && (r != Success && started ==>
                      WaitFailed(plan[k], WriteOperation, cfg.writeTiming, |old(chip.bus)| + 1, Given()))
      ensures 0 <= offset && 0 < len && offset + len <= chip.size && buff != null && old(chip.op.None?) ==>
                var plan := WritePlan(offset, buff[..len]);
                && k <= |plan| && PrefixDone(plan, k, offset, offset + len, old(chip.mem), chip.mem)
                && Run(plan, old(chip.mem)) == Programmed(old(chip.mem), offset, buff[..len])
                && chip.regs == old(chip.regs) && Disciplined(Given().bus, |old(chip.bus)| + 1)
                && chip.log == old(chip.log) + plan[..if started && k < |plan| then k + 1 else k]
                && (r == Success ==> chip.op.None? && chip.mem == Programmed(old(chip.mem), offset, buff[..len]))
                && (chip.op.Some? ==> started && k < |plan| && chip.op == Some(ArrayOp(plan[k])))
    {
      k, started := 0, false;
      if !AreaIsValid(offset, len) {
        return EINVAL, 0, false;
      }
      if buff == null {
        return EINVAL, 0, false;
      }
      ghost var s0 := Taken();
      r, k, started := WriteArea(offset, buff[..len]);
      if r != Success && started {
        WriteBlame(offset, buff[..len], k, |s0.bus|, Given());
      }
      if s0.st.op.None? {
        EndedIdle(WritePlan(offset, buff[..len]), k, started, s0, Given());
        WriteOutcome(offset, buff[..len], k, old(chip.mem), chip.mem);
      }
    }

    lemma {:induction false} WriteBlame(offset: nat, data: seq<byte>, k: nat, from: nat, s1: Snapshot)
      requires k < |WritePlan(offset, data)| && GoodTimings() && Blame(WritePlan(offset, data)[k], true, from, s1)
      ensures WaitFailed(WritePlan(offset, data)[k], WriteOperation, cfg.writeTiming, from, s1)
    {
      BlameSays(WritePlan(offset, data)[k], from, s1);
      AllPrograms(offset, data, k);
    }

    /** A write of a valid area, from taking the semaphore to giving it back. */
    method WriteArea(offset: nat, data: seq<byte>) returns (r: Code, ghost k: nat, ghost started: bool)
      requires Valid() && sem == 1 && AreaIsValid(offset, |data|)
      modifies this`sem, chip
      ensures Valid() && sem == 1 && Bracketed(old(chip.bus), chip.bus)
      ensures var plan := WritePlan(offset, data);
              && (r == Success <==> k == |plan|) && Ended(plan, k, started, old(Taken()), Given())
              && (r != Success ==> Reason(plan[k], started, r, |old(chip.bus)| + 1, Given()))
    {
      ghost var s0 := TakeSem();
      ghost var plan := WritePlan(offset, data);
      Begun(plan, s0);
      r, k, started := WriteLocked(offset, data, plan, s0);
      ghost var s1 := TakeSnapshot();
      GiveSem();
      assert Given() == s1;
    }

    // ----- read

    /** Reads an area.  `busFails` is the controller's answer.  When the command fails the semaphore
        stays taken.  A chip still busy shows anything, and the call succeeds all the same. */
    method Read(offset: int, buff: array?<byte>, len: nat, busFails: bool) returns (r: Code)
      requires Valid() && sem == 1
      requires buff != null ==> len <= buff.Length
      modifies this`sem, buff, chip`bus
      ensures Valid()
      ensures len == 0 || offset < 0 || offset + len > chip.size || buff == null ==> chip.bus == old(chip.bus)
      ensures 0 < len && 0 <= offset && offset + len <= chip.size && buff != null ==>
                chip.bus == old(chip.bus) + [Take, Fetch] + if busFails then [] else [Give]
      ensures var rejected := len != 0 && (offset < 0 || offset + len > chip.size || buff == null);
              && (len == 0 ==> r == Success)
              && (rejected ==> r == EINVAL)
              && (len != 0 && !rejected ==>
                    && r == (if busFails then ECOMM else Success)
                    && (r == Success ==> buff[len..] == old(buff[len..]))
                    && (r == Success && chip.op.None? ==> buff[..len] == chip.mem[offset..offset + len]))
              && sem == (if r == ECOMM then 0 else 1)
              && (buff != null && (len == 0 || rejected) ==> buff[..] == old(buff[..]))
    {
      if len == 0 {
        return Success;
      }
      if !AreaIsValid(offset, len) {
        return EINVAL;
      }
      if buff == null {
        return EINVAL;
      }
      ghost var s0 := TakeSem();
      var ok := FetchBytes(offset, buff, len, busFails);
      if !ok {
        return ECOMM;
      }
      GiveSem();
      r := Success;
    }

    /** The read command, with the semaphore taken. */
    method FetchBytes(offset: nat, buff: array<byte>, len: nat, busFails: bool) returns (ok: bool)
      requires Sound() && sem == 0 && AreaIsValid(offset, len) && len <= buff.Length
      modifies buff, chip`bus
      ensures Sound() && chip.bus == old(chip.bus) + [Fetch] && ok == !busFails
      ensures ok ==> buff[len..] == old(buff[len..])
      ensures ok && chip.op.None? ==> buff[..len] == chip.mem[offset..offset + len]
    {
      chip.Note(Fetch);
      if busFails {
        return false;
      }
      var shown: seq<byte> := *;
      if chip.op.None? || |shown| != chip.size {
        shown := chip.mem;
      }
      forall i | 0 <= i < len {
        buff[i] := shown[offset + i];
      }
      ok := true;
    }
  }

  /** A command that a busy chip ignores can be reported as done: the latch of the operation in progress
      answers the enable, and the end of that operation answers the wait. */
  lemma {:induction false} IgnoredCommandSucceeds(chip: Chip, s0: State, busyWith: Cmd, enable: Timing, wait: Timing)
    returns (base: State)
    requires s0.op == Some(ArrayOp(busyWith)) && s0.wel
    requires Usable(enable) && GoodTiming(enable.timeout, enable.period)
    requires Usable(wait) && GoodTiming(wait.timeout, wait.period)
    ensures Settles(chip.part, s0, base) && base.op.None? && base.fault.None? && base.mem == Effect(busyWith, s0.mem)
    ensures Verdict(enable, [StatusByte(s0)], WEL, WEL, Success, Success)
    ensures Verdict(wait, [StatusByte(base)], BUSY, {}, Success, Success)
  {
    base := State(Effect(busyWith, s0.mem), false, None, None, s0.regs);
    StatusBits(s0);
    StatusBits(base);
    OneHit(enable, StatusByte(s0), WEL, WEL);
    OneHit(wait, StatusByte(base), BUSY, {});
  }

  lemma {:induction false} OneHit(t: Timing, b: Bits, mask: Bits, value: Bits)
    requires Usable(t) && GoodTiming(t.timeout, t.period) && Hit(b, mask, value)
    ensures Verdict(t, [b], mask, value, Success, Success)
  {
    assert Countdown(t.timeout, t.period, 0) != 0;
    WaitedHit([], b, PollBound(t.timeout, t.period), mask, value);
    assert [] + [b] == [b];
  }

  lemma {:induction false} EraseOutcome(offset: nat, size: nat, k: nat, before: seq<byte>, after: seq<byte>)
    requires 0 < size && offset + size <= |before| && |before| % 4096 == 0
    requires k <= |ErasePlan(offset, size, |before|)|
    requires PartialRun(ErasePlan(offset, size, |before|), k, before, after)
    ensures PrefixDone(ErasePlan(offset, size, |before|), k, SectorStart(offset), EraseEnd(offset, size), before, after)
    ensures k == |ErasePlan(offset, size, |before|)| ==>
              after == Erased(before, SectorStart(offset), EraseEnd(offset, size))
  {
    EraseEndFits(offset, size, |before|);
    ErasePlanTiles(offset, size, |before|);
    ErasePlanRun(offset, size, before);
    PrefixOf(ErasePlan(offset, size, |before|), k, SectorStart(offset), EraseEnd(offset, size), before, after);
  }

  lemma {:induction false} EraseEndFits(offset: nat, size: nat, n: nat)
    requires offset + size <= n && n % 4096 == 0
    ensures EraseEnd(offset, size) <= n
  {
    var o, z, c := offset / 4096, SectorCount(size), n / 4096;
    assert 4096 * z < size + 4096 && SectorStart(offset) == 4096 * o;
    assert 4096 * (o + z) < 4096 * (c + 1);
  }

  lemma {:induction false} PrefixOf(plan: seq<Cmd>, k: nat, lo: nat, hi: nat, before: seq<byte>, after: seq<byte>)
    requires Tiles(plan, lo, hi, |before|) && k <= |plan| && hi <= |before|
    requires PartialRun(plan, k, before, after)
    ensures PrefixDone(plan, k, lo, hi, before, after)
  {
    PartialRunIsPrefix(plan, k, lo, hi, before, after);
  }

  lemma {:induction false} WriteOutcome(offset: nat, data: seq<byte>, k: nat, before: seq<byte>, after: seq<byte>)
    requires offset + |data| <= |before| && k <= |WritePlan(offset, data)|
    requires PartialRun(WritePlan(offset, data), k, before, after)
    ensures PrefixDone(WritePlan(offset, data), k, offset, offset + |data|, before, after)
    ensures Run(WritePlan(offset, data), before) == Programmed(before, offset, data)
  {
    WritePlanTiles(offset, data, |before|);
    WritePlanPrograms(offset, data, before);
    PrefixOf(WritePlan(offset, data), k, offset, offset + |data|, before, after);
  }

  lemma {:induction false} QuietRound(bus0: seq<Event>, ps: seq<Bits>)
    ensures Disciplined(bus0 + [WriteEnabled] + Polls(ps), |bus0|)
    ensures NoSem(bus0 + [WriteEnabled] + Polls(ps), |bus0|)
    ensures EndsWith(bus0 + [WriteEnabled] + Polls(ps), |bus0|, [WriteEnabled] + Polls(ps))
  {
    assert bus0 + [WriteEnabled] + Polls(ps) == bus0 + ([WriteEnabled] + Polls(ps));
  }

  lemma {:induction false} IssueRound(bus0: seq<Event>, ps: seq<Bits>, o: Op, ok: bool, ps': seq<Bits>)
    ensures var bus := bus0 + [WriteEnabled] + Polls(ps) + [Issue(o, ok)] + Polls(ps');
            && EndsWith(bus, |bus0|, [Issue(o, ok)] + Polls(ps')) && NoSem(bus, |bus0|)
            && (!ok ==> NoneAccepted(bus, |bus0|, |bus|))
            && (ok && ps != [] && ps[|ps| - 1] * WEL == WEL && ps[|ps| - 1] * BUSY == {} ==> Disciplined(bus, |bus0|))
  {
    var bus := bus0 + [WriteEnabled] + Polls(ps) + [Issue(o, ok)] + Polls(ps');
    assert bus == (bus0 + [WriteEnabled] + Polls(ps)) + ([Issue(o, ok)] + Polls(ps'));
    if ok && ps != [] && ps[|ps| - 1] * WEL == WEL && ps[|ps| - 1] * BUSY == {} {
      DisciplinedRound(bus0, ps, o, ps');
    }
  }

  lemma {:induction false} DisciplinedRound(bus0: seq<Event>, ps: seq<Bits>, o: Op, ps': seq<Bits>)
    requires ps != [] && ps[|ps| - 1] * WEL == WEL && ps[|ps| - 1] * BUSY == {}
    ensures Disciplined(bus0 + [WriteEnabled] + Polls(ps) + [Issue(o, true)] + Polls(ps'), |bus0|)
  {
    var bus := bus0 + [WriteEnabled] + Polls(ps) + [Issue(o, true)] + Polls(ps');
    var k := |bus0| + 1 + |ps|;
    assert bus[k] == Issue(o, true) && bus[k - 1] == Poll(ps[|ps| - 1]);
  }

  /** Disciplined stretches join. */
  lemma {:induction false} DisciplinedJoin(bus: seq<Event>, mid: nat, from: nat)
    requires from <= mid <= |bus| && Disciplined(bus[..mid], from) && Disciplined(bus, mid)
    ensures Disciplined(bus, from)
  {
    forall k | from <= k < mid && bus[k].Issue?
      ensures k > from && bus[k - 1].Poll? && bus[k - 1].status * WEL == WEL && bus[k - 1].status * BUSY == {}
      ensures bus[k].accepted
    {
      assert bus[..mid][k] == bus[k];
      assert bus[..mid][k - 1] == bus[k - 1];
    }
  }

  lemma {:induction false} CeilBounds(t: nat, p: nat)
    requires p > 0
    ensures (CeilDiv(t, p) - 1) * p < t <= CeilDiv(t, p) * p || t == 0
  {
    var c := CeilDiv(t, p);
    assert t + p - 1 == c * p + (t + p - 1) % p;
    assert (c - 1) * p == c * p - p;
  }

  lemma {:induction false} CeilLess(t: nat, p: nat, n: nat)
    requires p > 0 && t > 0 && n <= CeilDiv(t, p)
    ensures Less(t, n * p) == 0 <==> n == CeilDiv(t, p)
  {
    CeilBounds(t, p);
    var c := CeilDiv(t, p);
    if n < c {
      assert n * p <= (c - 1) * p by { MulMono(n, c - 1, p); }
    }
  }

  lemma {:induction false} MulMono(a: nat, b: nat, p: nat)
    requires a <= b
    ensures a * p <= b * p
  {
  }
}
