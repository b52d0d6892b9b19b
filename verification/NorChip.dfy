/** A NOR flash chip as the driver sees it on the bus: a byte array, a write-enable latch, one
    operation in progress at most, three status registers and an optional error register. */
module NorChip {
  import opened Codes

  type byte = bv8

  /** A register byte, as the set of its one bits. */
  type Bits = set<nat>

  const ERASED: byte := 0xFF

  /** The commands that change the array. */
  datatype Cmd =
    | SectorErase(addr: nat)
    | BlockErase(addr: nat)
    | ChipErase
    | PageProgram(addr: nat, data: seq<byte>)

  /** Does the command reach byte i?  Erases reach the whole aligned unit that holds their
      address; a program wraps around inside its 256-byte page. */
  predicate Touches(c: Cmd, i: nat) {
    match c
    case SectorErase(a) => a / 4096 == i / 4096
    case BlockErase(a) => a / 65536 == i / 65536
    case ChipErase => true
    case PageProgram(a, d) => a / 256 == i / 256 && (i - a) % 256 < |d|
  }

  /** What a completed command leaves in byte i. */
  function ByteAfter(c: Cmd, i: nat, b: byte): byte {
    if !Touches(c, i) then b
    else match c
         case PageProgram(a, d) => b & d[(i - a) % 256]
         case _ => ERASED
  }

  function Effect(c: Cmd, mem: seq<byte>): (r: seq<byte>)
    ensures |r| == |mem|
  {
    seq(|mem|, i requires 0 <= i < |mem| => ByteAfter(c, i, mem[i]))
  }

  /** The array after a sequence of completed commands. */
  function Run(cmds: seq<Cmd>, mem: seq<byte>): (r: seq<byte>)
    ensures |r| == |mem|
  {
    if cmds == [] then mem
    else Effect(cmds[|cmds| - 1], Run(cmds[..|cmds| - 1], mem))
  }

  lemma RunSnoc(cmds: seq<Cmd>, c: Cmd, mem: seq<byte>)
    ensures Run(cmds + [c], mem) == Effect(c, Run(cmds, mem))
  {
    assert (cmds + [c])[..|cmds|] == cmds;
  }

  lemma {:induction false} RunConcat(a: seq<Cmd>, b: seq<Cmd>, mem: seq<byte>)
    ensures Run(a + b, mem) == Run(b, Run(a, mem))
  {
    if b == [] {
      assert a + b == a;
    } else {
      var n := |b| - 1;
      assert a + b == (a + b[..n]) + [b[n]];
      assert b == b[..n] + [b[n]];
      RunSnoc(a + b[..n], b[n], mem);
      RunConcat(a, b[..n], mem);
      RunSnoc(b[..n], b[n], Run(a, mem));
    }
  }

  /** The array after `c` went wrong, with garbage in the bytes that c reaches. */
  function Corrupt(c: Cmd, mem: seq<byte>, garbage: seq<byte>): (r: seq<byte>)
    ensures AgreeOutside(c, mem, r)
  {
    seq(|mem|, i requires 0 <= i < |mem| => if Touches(c, i) && i < |garbage| then garbage[i] else mem[i])
  }

  ghost predicate AgreeOutside(c: Cmd, before: seq<byte>, after: seq<byte>) {
    |after| == |before| && forall i | 0 <= i < |before| && !Touches(c, i) :: after[i] == before[i]
  }

  // ----- status registers

  datatype Regs = Regs(sr1: Bits, sr2: Bits, sr3: Bits)

  datatype RegRead = ReadStatus | ReadCfg1 | ReadStatus2 | WbReadStatus2 | WbReadStatus3

  datatype RegOpcode = WriteStatus | WriteStatus2 | WbWriteStatus2 | WbWriteStatus3

  /** A register write with one data byte, or the two-byte form of WriteStatus. */
  datatype RegWrite = One(op: RegOpcode, b: Bits) | Two(b1: Bits, b2: Bits)

  const WEL: Bits := {1}
  const BUSY: Bits := {0}
  const VOLATILE: Bits := {0, 1}

  /** The registers after a write.  Bits 1 and 0 of register 1 are the latch and the busy flag and
      are not written; on some parts a one-byte status write also clears register 2. */
  function Written(w: RegWrite, clearsSr2: bool, r: Regs): Regs {
    match w
    case Two(b1, b2) => Regs(b1 - VOLATILE, b2, r.sr3)
    case One(WriteStatus, b) => Regs(b - VOLATILE, if clearsSr2 then {} else r.sr2, r.sr3)
    case One(WriteStatus2, b) => Regs(r.sr1, b, r.sr3)
    case One(WbWriteStatus2, b) => Regs(r.sr1, b, r.sr3)
    case One(WbWriteStatus3, b) => Regs(r.sr1, r.sr2, b)
  }

  // ----- the chip

  datatype OpKind = WriteOperation | EraseOperation | OtherOperation

  function KindOf(c: Cmd): OpKind {
    if c.PageProgram? then WriteOperation else EraseOperation
  }

  /** Where a part reports a failed operation; register 0 means that it does not report. */
  datatype ErrorReport = ErrorReport(reg: byte, mask: Bits)

  datatype Op = ArrayOp(cmd: Cmd) | RegOp(next: Regs)

  datatype State = State(mem: seq<byte>, wel: bool, op: Option<Op>, fault: Option<OpKind>, regs: Regs)

  /** What can be seen on the bus; and, between that, when a call takes and gives the semaphore. */
  datatype Event = WriteEnabled | Poll(status: Bits) | Issue(op: Op, accepted: bool) | Fetch | Take | Give

  function StatusByte(s: State): Bits {
    (s.regs.sr1 - VOLATILE) + (if s.wel then WEL else {}) + (if s.op.Some? then BUSY else {})
  }

  lemma StatusBits(s: State)
    ensures StatusByte(s) * WEL == WEL <==> s.wel
    ensures StatusByte(s) * BUSY == {} <==> s.op.None?
    ensures (1 in StatusByte(s) <==> s.wel) && (0 in StatusByte(s) <==> s.op.Some?)
    ensures StatusByte(s) - {0, 1} == s.regs.sr1 - {0, 1}
  {
  }

  /** What a part does: where it reports failed operations, and whether its status registers are
      locked by hardware (writes to them complete without effect). */
  datatype Part = Part(eraseErr: ErrorReport, progErr: ErrorReport, locked: bool)

  function ReportOf(p: Part, kind: OpKind): ErrorReport {
    match kind
    case WriteOperation => p.progErr
    case EraseOperation => p.eraseErr
    case OtherOperation => ErrorReport(0, {})
  }

  /** b is a with its operation finished: the latch has dropped and either the operation took full
      effect or the part reports a fault and only the bytes it reaches are in doubt. */
  ghost predicate Finishes(p: Part, a: State, b: State) {
    a.op.Some? && b.op.None? && !b.wel &&
    match a.op.value
    case RegOp(next) => b.mem == a.mem && b.fault == a.fault && b.regs == if p.locked then a.regs else next
    case ArrayOp(c) =>
      b.regs == a.regs &&
      ((b.fault.None? && b.mem == Effect(c, a.mem)) ||
       (b.fault == Some(KindOf(c)) && AgreeOutside(c, a.mem, b.mem) && ReportOf(p, KindOf(c)).reg != 0))
  }

  /** Nothing happened, or the operation in progress finished. */
  ghost predicate Settles(p: Part, a: State, b: State) { a == b || Finishes(p, a, b) }

  class Chip {
    const size: nat
    const part: Part
    /** The part clears status register 2 on a one-byte status write. */
    const clearsSr2: bool
    var mem: seq<byte>
    var wel: bool
    var op: Option<Op>
    var fault: Option<OpKind>
    var regs: Regs
    ghost var bus: seq<Event>
    /** The array commands that the chip accepted, in order. */
    ghost var log: seq<Cmd>

    ghost predicate Valid()
      reads this
    {
      && size % 4096 == 0 && 0 < size < 0x1_0000_0000
      && |mem| == size
      && regs.sr1 !! VOLATILE
      && (part.eraseErr.reg != 0 ==> part.eraseErr.mask != {})
      && (part.progErr.reg != 0 ==> part.progErr.mask != {})
      && (op.Some? ==> wel)
      && (fault.Some? ==> ReportOf(part, fault.value).reg != 0)
      && match op case Some(RegOp(next)) => next.sr1 !! VOLATILE case _ => true
    }

    function Now(): State
      reads this
    {
      State(mem, wel, op, fault, regs)
    }

    /** Time passes before an access: the operation in progress may finish, well or badly. */
    method Pass()
      requires Valid()
      modifies this`mem, this`wel, this`op, this`fault, this`regs
      ensures Valid() && Settles(part, old(Now()), Now())
    {
      var finished: bool := *;
      if op.Some? && finished {
        match op.value {
          case RegOp(next) =>
            regs := if part.locked then regs else next;
          case ArrayOp(c) =>
            var bad: bool := *;
            if bad && ReportOf(part, KindOf(c)).reg != 0 {
              var garbage: seq<byte> := *;
              mem, fault := Corrupt(c, mem, garbage), Some(KindOf(c));
            } else {
              mem, fault := Effect(c, mem), None;
            }
        }
        op, wel := None, false;
      }
    }

    /** The write-enable instruction.  A busy chip ignores it; an idle one may still fail to latch.
        `before` is the chip when the instruction arrives. */
    method WriteEnable() returns (ghost before: State)
      requires Valid()
      modifies this`mem, this`wel, this`op, this`fault, this`regs, this`bus
      ensures Valid() && Settles(part, old(Now()), before)
      ensures Now() == before.(wel := wel) && (before.op.Some? || before.wel ==> wel == before.wel)
      ensures bus == old(bus) + [WriteEnabled]
    {
      Pass();
      before := Now();
      if op.None? && !wel {
        wel := *;
      }
      bus := bus + [WriteEnabled];
    }

    /** Reads status register 1. */
    method ReadStatusByte() returns (b: Bits)
      requires Valid()
      modifies this`mem, this`wel, this`op, this`fault, this`regs, this`bus
      ensures Valid()
      ensures Settles(part, old(Now()), Now())
      ensures b == StatusByte(Now())
      ensures bus == old(bus) + [Poll(b)]
    {
      Pass();
      b := StatusByte(Now());
      bus := bus + [Poll(b)];
    }

    /** Starts an array command.  The chip ignores it unless the latch is set and it is idle when the
        command arrives. */
    method Start(c: Cmd) returns (ghost before: State)
      requires Valid()
      modifies this`mem, this`wel, this`op, this`fault, this`regs, this`bus, this`log
      ensures Valid() && Settles(part, old(Now()), before)
      ensures var ok := before.wel && before.op.None?;
              && Now() == (if ok then before.(op := Some(ArrayOp(c))) else before)
              && bus == old(bus) + [Issue(ArrayOp(c), ok)]
              && log == old(log) + (if ok then [c] else [])
    {
      Pass();
      before := Now();
      bus := bus + [Issue(ArrayOp(c), wel && op.None?)];
      if wel && op.None? {
        op := Some(ArrayOp(c));
        log := log + [c];
      }
    }

    /** Starts a register write on a chip that is idle, under the same rule. */
    method StartRegWrite(w: RegWrite)
      requires Valid() && op.None?
      modifies this`op, this`bus
      ensures Valid()
      ensures var o := RegOp(Written(w, clearsSr2, regs));
              && op == (if wel then Some(o) else None)
              && bus == old(bus) + [Issue(o, wel)]
    {
      var o := RegOp(Written(w, clearsSr2, regs));
      bus := bus + [Issue(o, wel)];
      if wel {
        op := Some(o);
      }
    }

    /** A call of the driver takes or gives its semaphore, or fetches array bytes. */
    ghost method Note(e: Event)
      requires Valid()
      modifies this`bus
      ensures Valid() && bus == old(bus) + [e]
    {
      bus := bus + [e];
    }

    function ReadReg(r: RegRead): Bits
      reads this
    {
      match r
      case ReadStatus => StatusByte(Now())
      case WbReadStatus3 => regs.sr3
      case _ => regs.sr2
    }

    /** The error register, when the last array operation left `fault`. */
    function ReadErrorReg(reg: byte, fault: Option<OpKind>): Bits {
      if fault == Some(EraseOperation) && reg == part.eraseErr.reg then part.eraseErr.mask
      else if fault == Some(WriteOperation) && reg == part.progErr.reg then part.progErr.mask
      else {}
    }
  }
}
