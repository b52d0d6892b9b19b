/** What initialisation does to the status registers: clearing write protection, then quad enable. */
module FlashInit {
  import opened Codes
  import opened NorChip
  import opened FlashDriver

  /** The families that the protection code tells apart. */
  datatype Vendor = Winbond | Macronix | OtherVendor

  /** The three bytes of the protection mask. */
  datatype Masks = Masks(m1: Bits, m2: Bits, m3: Bits)

  const QE145: nat := 1
  const QE2: nat := 6
  const QE3: nat := 7

  // ----- what the steps do to the registers of an unlocked part

  function Value(r: Regs, rd: RegRead): Bits {
    match rd
    case ReadStatus => r.sr1
    case WbReadStatus3 => r.sr3
    case _ => r.sr2
  }

  datatype ClearOp = ClearOp(rd: RegRead, wr: RegOpcode, mask: Bits)

  /** The instruction that writes what the other one reads. */
  predicate Paired(c: ClearOp) {
    match c.rd
    case ReadStatus => c.wr == WriteStatus
    case WbReadStatus2 => c.wr == WbWriteStatus2
    case WbReadStatus3 => c.wr == WbWriteStatus3
    case _ => false
  }

  function ClearOne(c: ClearOp, clearsSr2: bool, r: Regs): Regs {
    if Value(r, c.rd) * c.mask == {} then r else Written(One(c.wr, Value(r, c.rd) - c.mask), clearsSr2, r)
  }

  function ClearList(cs: seq<ClearOp>, clearsSr2: bool, r: Regs): Regs {
    if cs == [] then r else ClearOne(cs[|cs| - 1], clearsSr2, ClearList(cs[..|cs| - 1], clearsSr2, r))
  }

  function ClearOps(v: Vendor, m: Masks): seq<ClearOp> {
    match v
    case Winbond =>
      [ClearOp(ReadStatus, WriteStatus, m.m1), ClearOp(WbReadStatus2, WbWriteStatus2, m.m2),
       ClearOp(WbReadStatus3, WbWriteStatus3, m.m3)]
    case Macronix => [ClearOp(ReadStatus, WriteStatus, m.m1)]
    case OtherVendor => []
  }

  function AfterClear(v: Vendor, m: Masks, clearsSr2: bool, r: Regs): Regs {
    ClearList(ClearOps(v, m), clearsSr2, r)
  }

  predicate Is145(mode: nat) { mode == 1 || mode == 4 || mode == 5 }

  predicate QuadOn(mode: nat, r: Regs) {
    (Is145(mode) ==> QE145 in r.sr2) && (mode == 2 ==> QE2 in r.sr1) && (mode == 3 ==> QE3 in r.sr2)
  }

  function AfterQuad(mode: nat, clearsSr2: bool, r: Regs): Regs {
    if QuadOn(mode, r) then r
    else if Is145(mode) then Written(Two(r.sr1, r.sr2 + {QE145}), clearsSr2, r)
    else if mode == 2 then Written(One(WriteStatus, r.sr1 + {QE2}), clearsSr2, r)
    else Written(One(WriteStatus2, r.sr2 + {QE3}), clearsSr2, r)
  }

  /** Bits 0 and 1 of register 1 are volatile; a mask for it never names them. */
  predicate GoodMasks(m: Masks) { m.m1 !! VOLATILE }

  /** Where the quad-enable bit of a mode is. */
  function QuadBit(mode: nat): Regs {
    Regs(if mode == 2 then {QE2} else {}, if Is145(mode) then {QE145} else if mode == 3 then {QE3} else {}, {})
  }

  /** The bits that a vendor's clearing covers. */
  function MaskOf(v: Vendor, m: Masks): Regs {
    match v
    case Winbond => Regs(m.m1, m.m2, m.m3)
    case Macronix => Regs(m.m1, {}, {})
    case OtherVendor => Regs({}, {}, {})
  }

  predicate ProtectionClear(v: Vendor, m: Masks, r: Regs) {
    var k := MaskOf(v, m);
    r.sr1 !! k.sr1 && r.sr2 !! k.sr2 && r.sr3 !! k.sr3
  }

  predicate MaskExcludesQuad(v: Vendor, m: Masks, mode: nat) {
    var k, q := MaskOf(v, m), QuadBit(mode);
    k.sr1 !! q.sr1 && k.sr2 !! q.sr2
  }

  /** Masked bits zero, the quad bit one, everything else as it was. */
  function Wanted(v: Vendor, m: Masks, mode: nat, r: Regs): Regs {
    var k, q := MaskOf(v, m), QuadBit(mode);
    Regs((r.sr1 - k.sr1) + q.sr1, (r.sr2 - k.sr2) + q.sr2, r.sr3 - k.sr3)
  }

  // ----- properties of the two steps together

  lemma {:induction false} ClearOneUnlocked(c: ClearOp, r: Regs)
    requires r.sr1 !! VOLATILE
    requires Paired(c)
    ensures ClearOne(c, false, r) ==
            match c.rd
            case ReadStatus => r.(sr1 := r.sr1 - c.mask)
            case WbReadStatus3 => r.(sr3 := r.sr3 - c.mask)
            case _ => r.(sr2 := r.sr2 - c.mask)
  {
    var x := Value(r, c.rd);
    NothingToClear(x, c.mask);
    assert (r.sr1 - c.mask) - VOLATILE == r.sr1 - c.mask;
  }

  lemma {:induction false} NothingToClear(x: Bits, mask: Bits)
    ensures x * mask == {} ==> x - mask == x && x !! mask
  {
    if x * mask == {} {
      forall b | b in x
        ensures b !in mask
      {
        assert b in mask ==> b in x * mask;
      }
    }
  }

  lemma {:induction false} ListOfThree(a: ClearOp, b: ClearOp, c: ClearOp, clearsSr2: bool, r: Regs)
    ensures ClearList([a, b, c], clearsSr2, r)
            == ClearOne(c, clearsSr2, ClearOne(b, clearsSr2, ClearOne(a, clearsSr2, r)))
    ensures ClearList([a], clearsSr2, r) == ClearOne(a, clearsSr2, r)
  {
    assert [a, b, c][..2] == [a, b] && [a, b][..1] == [a] && [a][..0] == [];
    assert ClearList([a], clearsSr2, r) == ClearOne(a, clearsSr2, r);
    assert ClearList([a, b], clearsSr2, r) == ClearOne(b, clearsSr2, ClearOne(a, clearsSr2, r));
  }

  lemma {:induction false} ClearAll(v: Vendor, m: Masks, r: Regs)
    requires r.sr1 !! VOLATILE
    ensures AfterClear(v, m, false, r) ==
            var k := MaskOf(v, m); Regs(r.sr1 - k.sr1, r.sr2 - k.sr2, r.sr3 - k.sr3)
  {
    var a := ClearOp(ReadStatus, WriteStatus, m.m1);
    var b := ClearOp(WbReadStatus2, WbWriteStatus2, m.m2);
    var c := ClearOp(WbReadStatus3, WbWriteStatus3, m.m3);
    ListOfThree(a, b, c, false, r);
    ClearOneUnlocked(a, r);
    if v.Winbond? {
      ClearOneUnlocked(b, ClearOne(a, false, r));
      ClearOneUnlocked(c, ClearOne(b, false, ClearOne(a, false, r)));
    }
  }

  /** Initialisation of a part whose one-byte status writes leave register 2 alone ends in exactly
      the wanted registers. */
  lemma {:induction false} InitReachesWanted(v: Vendor, m: Masks, mode: nat, r: Regs)
    requires r.sr1 !! VOLATILE
    ensures AfterQuad(mode, false, AfterClear(v, m, false, r)) == Wanted(v, m, mode, r)
  {
    ClearAll(v, m, r);
    var c := AfterClear(v, m, false, r);
    QuadSets(mode, c);
  }

  lemma {:induction false} QuadSets(mode: nat, r: Regs)
    requires r.sr1 !! VOLATILE
    ensures AfterQuad(mode, false, r) == Regs(r.sr1 + QuadBit(mode).sr1, r.sr2 + QuadBit(mode).sr2, r.sr3)
  {
    assert r.sr1 - VOLATILE == r.sr1;
    assert (r.sr1 + {QE2}) - VOLATILE == r.sr1 + {QE2};
    assert QE145 in r.sr2 ==> r.sr2 + {QE145} == r.sr2;
    assert QE3 in r.sr2 ==> r.sr2 + {QE3} == r.sr2;
    assert QE2 in r.sr1 ==> r.sr1 + {QE2} == r.sr1;
  }

  /** Quad enable, bit by bit: modes 1, 4 and 5 set bit 1 of register 2, mode 3 its bit 7, mode 2 bit 6 of
      register 1; nothing else changes, except where a one-byte status write clears register 2. */
  predicate QuadSet(mode: nat, clearsSr2: bool, before: Regs, after: Regs) {
    match mode
    case 0 => after == before
    case 1 => after == before.(sr2 := before.sr2 + {1})
    case 4 => after == before.(sr2 := before.sr2 + {1})
    case 5 => after == before.(sr2 := before.sr2 + {1})
    case 2 => after == Regs(before.sr1 + {6}, if clearsSr2 && 6 !in before.sr1 then {} else before.sr2, before.sr3)
    case 3 => after == before.(sr2 := before.sr2 + {7})
    case _ => false
  }

  lemma {:induction false} QuadSays(mode: nat, clearsSr2: bool, r: Regs)
    requires r.sr1 !! VOLATILE
    ensures mode <= 5 ==> QuadSet(mode, clearsSr2, r, AfterQuad(mode, clearsSr2, r))
    ensures QuadOn(mode, r) <==>
            && (mode == 1 || mode == 4 || mode == 5 ==> 1 in r.sr2)
            && (mode == 2 ==> 6 in r.sr1) && (mode == 3 ==> 7 in r.sr2)
  {
    assert r.sr1 - VOLATILE == r.sr1;
    assert (r.sr1 + {6}) - VOLATILE == r.sr1 + {6};
    assert 1 in r.sr2 ==> r.sr2 + {1} == r.sr2;
    assert 7 in r.sr2 ==> r.sr2 + {7} == r.sr2;
    assert 6 in r.sr1 ==> r.sr1 + {6} == r.sr1;
  }

  /** Both guarantees hold at the end exactly when the protection mask leaves the quad bit alone;
      the quad bit is set in any case.  Then a second initialisation changes nothing. */
  lemma {:induction false} InitKeepsBothIff(v: Vendor, m: Masks, mode: nat, r: Regs)
    requires r.sr1 !! VOLATILE
    ensures var e := AfterQuad(mode, false, AfterClear(v, m, false, r));
            && QuadOn(mode, e)
            && (ProtectionClear(v, m, e) <==> MaskExcludesQuad(v, m, mode))
            && (MaskExcludesQuad(v, m, mode) ==> AfterQuad(mode, false, AfterClear(v, m, false, e)) == e)
  {
    InitReachesWanted(v, m, mode, r);
    var w := Wanted(v, m, mode, r);
    assert w.sr1 !! VOLATILE;
    InitReachesWanted(v, m, mode, w);
    var k, q := MaskOf(v, m), QuadBit(mode);
    assert w.sr1 * k.sr1 == q.sr1 * k.sr1 && w.sr2 * k.sr2 == q.sr2 * k.sr2 && w.sr3 !! k.sr3;
    assert k.sr1 !! q.sr1 ==> (w.sr1 - k.sr1) + q.sr1 == w.sr1;
    assert k.sr2 !! q.sr2 ==> (w.sr2 - k.sr2) + q.sr2 == w.sr2;
    assert w.sr3 - k.sr3 == w.sr3;
  }

  /** On a part whose one-byte status write also clears register 2 (quad mode 1), the rest of that
      register survives initialisation exactly when no protection bit of register 1 was set or
      register 2 held nothing but protection and quad bits. */
  lemma {:induction false} ClearingPartKeepsSr2Iff(m: Masks, r: Regs)
    requires r.sr1 !! VOLATILE && GoodMasks(m)
    ensures AfterQuad(1, true, AfterClear(Winbond, m, true, r)).sr2 == Wanted(Winbond, m, 1, r).sr2
            <==> r.sr1 !! m.m1 || r.sr2 <= m.m2 + {QE145}
  {
    var a := ClearOp(ReadStatus, WriteStatus, m.m1);
    var b := ClearOp(WbReadStatus2, WbWriteStatus2, m.m2);
    var c := ClearOp(WbReadStatus3, WbWriteStatus3, m.m3);
    ListOfThree(a, b, c, true, r);
    var r1 := ClearOne(a, true, r);
    var r2 := ClearOne(b, true, r1);
    assert r1.sr2 == if r.sr1 !! m.m1 then r.sr2 else {};
    NothingToClear(r1.sr2, m.m2);
    assert r2.sr2 == r1.sr2 - m.m2;
    var e := AfterQuad(1, true, AfterClear(Winbond, m, true, r));
    assert e.sr2 == (r1.sr2 - m.m2) + {QE145};
    if !(r.sr1 !! m.m1) {
      assert e.sr2 == {QE145};
      if !(r.sr2 <= m.m2 + {QE145}) {
        var x :| x in r.sr2 && x !in m.m2 + {QE145};
        assert x in Wanted(Winbond, m, 1, r).sr2;
      } else {
        assert Wanted(Winbond, m, 1, r).sr2 == {QE145};
      }
    }
  }

  // ----- the driver's methods

  /** What every register call keeps. */
  ghost predicate Framed(flash: Flash, s0: Snapshot)
    reads flash, flash.chip
  {
    && flash.Valid() && flash.chip.mem == s0.st.mem && flash.chip.log == s0.log
    && s0.bus <= flash.chip.bus && Disciplined(flash.chip.bus, |s0.bus|)
  }

  lemma {:induction false} FramedJoin(flash: Flash, s0: Snapshot, s1: Snapshot)
    requires Framed(flash, s1) && s1.st.mem == s0.st.mem && s1.log == s0.log
    requires s0.bus <= s1.bus && Disciplined(s1.bus, |s0.bus|)
    ensures Framed(flash, s0)
  {
    assert flash.chip.bus[..|s1.bus|] == s1.bus;
    DisciplinedJoin(flash.chip.bus, |s1.bus|, |s0.bus|);
  }

  /** How a failed register write shows on the bus, after position `from`: it ends with an enable and a
      full-length wait that never saw the latch, or with a register write and a full-length wait that
      never saw the chip idle; or the timing was refused without a poll. */
  ghost predicate RegBlame(flash: Flash, r: Code, from: nat, bus: seq<Event>)
    requires flash.GoodTimings()
  {
    r != Success && ((exists e :: flash.NotLatched(e, r, from, bus))
                     || exists o, w :: RegEnded(flash, o, w, r, from, bus))
  }

  /** A register write was accepted, and the wait for it gave r. */
  ghost predicate RegEnded(flash: Flash, o: Op, w: seq<Bits>, r: Code, from: nat, bus: seq<Event>)
    requires flash.GoodTimings()
  {
    EndsWith(bus, from, [Issue(o, true)] + Polls(w)) && Verdict(flash.cfg.regTiming, w, BUSY, {}, r, Success)
  }

  ghost predicate RegDone(flash: Flash, from: nat, bus: seq<Event>)
    requires flash.GoodTimings()
  {
    exists o, w :: RegEnded(flash, o, w, Success, from, bus)
  }

  lemma {:induction false} RegDoneEarlier(flash: Flash, from: nat, earlier: nat, bus: seq<Event>)
    requires flash.GoodTimings() && RegDone(flash, from, bus) && earlier <= from
    ensures RegDone(flash, earlier, bus)
  {
    var o, w :| RegEnded(flash, o, w, Success, from, bus);
    assert RegEnded(flash, o, w, Success, earlier, bus);
  }

  lemma {:induction false} RegBlameEarlier(flash: Flash, r: Code, from: nat, earlier: nat, bus: seq<Event>)
    requires flash.GoodTimings() && RegBlame(flash, r, from, bus) && earlier <= from
    ensures RegBlame(flash, r, earlier, bus)
  {
    if e :| flash.NotLatched(e, r, from, bus) {
      assert flash.NotLatched(e, r, earlier, bus);
    } else {
      var o, w :| RegEnded(flash, o, w, r, from, bus);
      assert RegEnded(flash, o, w, r, earlier, bus);
    }
  }

  /** Why clearing a register failed: its write did, or the write ended well on a part with locked
      registers and the masked bits were read back set. */
  ghost predicate ClearFailed(flash: Flash, c: ClearOp, r: Code, from: nat, s1: Snapshot)
    requires flash.GoodTimings()
  {
    if r == EIO then
      && flash.chip.part.locked && RegDone(flash, from, s1.bus)
      && s1.st.op.None? && !(Value(s1.st.regs, c.rd) !! c.mask)
    else RegBlame(flash, r, from, s1.bus)
  }

  ghost predicate SomeClearFailed(flash: Flash, cs: seq<ClearOp>, r: Code, from: nat, s1: Snapshot)
    requires flash.GoodTimings()
  {
    exists c | c in cs :: ClearFailed(flash, c, r, from, s1)
  }

  lemma {:induction false} OneClearFailed(flash: Flash, cs: seq<ClearOp>, i: nat, r: Code, from: nat, earlier: nat,
                                          s1: Snapshot)
    requires flash.GoodTimings() && i < |cs| && ClearFailed(flash, cs[i], r, from, s1) && earlier <= from
    ensures SomeClearFailed(flash, cs, r, earlier, s1)
  {
    if r == EIO {
      RegDoneEarlier(flash, from, earlier, s1.bus);
    } else {
      RegBlameEarlier(flash, r, from, earlier, s1.bus);
    }
    assert ClearFailed(flash, cs[i], r, earlier, s1);
  }

  /** Enable, write, wait for idle: the registers hold the written value, unless they are locked. */
  method WriteReg(flash: Flash, w: RegWrite) returns (r: Code)
    requires flash.Valid() && flash.chip.op.None?
    modifies flash.chip
    ensures Framed(flash, old(flash.TakeSnapshot()))
    ensures r != EIO && (r != Success ==> RegBlame(flash, r, |old(flash.chip.bus)|, flash.chip.bus))
    ensures r == Success ==>
              && flash.chip.op.None? && RegDone(flash, |old(flash.chip.bus)|, flash.chip.bus)
              && flash.chip.regs == if flash.chip.part.locked then old(flash.chip.regs)
                                    else Written(w, flash.chip.clearsSr2, old(flash.chip.regs))
  {
    ghost var bus0 := flash.chip.bus;
    ghost var ps, before, latched;
    r, ps, before, latched := flash.WriteEnable();
    if r != Success {
      QuietRound(bus0, ps);
      assert flash.NotLatched(ps, r, |bus0|, flash.chip.bus);
      return;
    }
    ghost var o := RegOp(Written(w, flash.chip.clearsSr2, flash.chip.regs));
    flash.chip.StartRegWrite(w);
    ghost var ps';
    r, ps' := flash.WaitDone(flash.cfg.regTiming, OtherOperation, BUSY, {});
    StatusBits(flash.chip.Now());
    DisciplinedRound(bus0, ps, o, ps');
    IssueRound(bus0, ps, o, true, ps');
    assert RegEnded(flash, o, ps', r, |bus0|, flash.chip.bus);
  }

  /** Clears the masked bits of one register if any is set, and checks that they are gone. */
  method ClearSpiBits(flash: Flash, c: ClearOp) returns (r: Code)
    requires flash.Valid() && flash.chip.op.None?
    requires Paired(c) && (c.rd == ReadStatus ==> c.mask !! VOLATILE)
    modifies flash.chip
    ensures Framed(flash, old(flash.TakeSnapshot()))
    ensures r == Success ==>
              && flash.chip.op.None? && Value(flash.chip.regs, c.rd) !! c.mask
              && flash.chip.regs == if flash.chip.part.locked then old(flash.chip.regs)
                                    else ClearOne(c, flash.chip.clearsSr2, old(flash.chip.regs))
    ensures Value(old(flash.chip.regs), c.rd) !! c.mask ==>
              r == Success && flash.chip.bus == old(flash.chip.bus) && flash.chip.regs == old(flash.chip.regs)
    ensures r != Success ==> ClearFailed(flash, c, r, |old(flash.chip.bus)|, flash.TakeSnapshot())
  {
    if c.mask == {} {
      return Success;
    }
    var value := flash.chip.ReadReg(c.rd);
    NothingToClear(Value(flash.chip.regs, c.rd), c.mask);
    assert value * c.mask == Value(flash.chip.regs, c.rd) * c.mask;
    if value * c.mask == {} {
      return Success;
    }
    SameWrite(c, flash.chip.Now(), value, flash.chip.clearsSr2);
    WriteClears(c, value, flash.chip.clearsSr2, flash.chip.regs);
    r := WriteReg(flash, One(c.wr, value - c.mask));
    if r != Success {
      return;
    }
    var readBack := flash.chip.ReadReg(c.rd);
    NothingToClear(Value(flash.chip.regs, c.rd), c.mask);
    assert readBack * c.mask == Value(flash.chip.regs, c.rd) * c.mask;
    if readBack * c.mask != {} {
      return EIO;
    }
  }

  lemma {:induction false} WriteClears(c: ClearOp, value: Bits, clearsSr2: bool, r: Regs)
    requires Paired(c)
    ensures Value(Written(One(c.wr, value - c.mask), clearsSr2, r), c.rd) !! c.mask
  {
  }

  /** Bits 0 and 1 of what was read back do not reach the register. */
  lemma {:induction false} SameWrite(c: ClearOp, s: State, value: Bits, clearsSr2: bool)
    requires s.regs.sr1 !! VOLATILE
    requires value == if c.rd == ReadStatus then StatusByte(s) else Value(s.regs, c.rd)
    requires c.rd == ReadStatus ==> c.wr == WriteStatus
    ensures Written(One(c.wr, value - c.mask), clearsSr2, s.regs)
            == Written(One(c.wr, Value(s.regs, c.rd) - c.mask), clearsSr2, s.regs)
  {
    if c.rd == ReadStatus {
      assert (value - c.mask) - VOLATILE == (s.regs.sr1 - c.mask) - VOLATILE;
    }
  }

  /** The loop over a list of registers; the first failure ends it. */
  method ClearSpiBitsList(flash: Flash, cs: seq<ClearOp>) returns (r: Code)
    requires flash.Valid() && flash.chip.op.None?
    requires forall c | c in cs :: Paired(c) && (c.rd == ReadStatus ==> c.mask !! VOLATILE)
    modifies flash.chip
    ensures Framed(flash, old(flash.TakeSnapshot()))
    ensures r == Success ==>
              && flash.chip.op.None?
              && flash.chip.regs == if flash.chip.part.locked then old(flash.chip.regs)
                                    else ClearList(cs, flash.chip.clearsSr2, old(flash.chip.regs))
    ensures (forall c | c in cs :: Value(old(flash.chip.regs), c.rd) !! c.mask) ==>
              r == Success && flash.chip.bus == old(flash.chip.bus) && flash.chip.regs == old(flash.chip.regs)
    ensures r != Success ==> SomeClearFailed(flash, cs, r, |old(flash.chip.bus)|, flash.TakeSnapshot())
  {
    ghost var s0 := flash.TakeSnapshot();
    r := Success;
    var i := 0;
    assert cs[..0] == [];
    while i < |cs|
      invariant 0 <= i <= |cs| && r == Success
      invariant Framed(flash, s0) && flash.chip.op.None?
      invariant flash.chip.regs ==
                if flash.chip.part.locked then s0.st.regs
                else ClearList(cs[..i], flash.chip.clearsSr2, s0.st.regs)
      invariant (forall c | c in cs :: Value(s0.st.regs, c.rd) !! c.mask)
                ==> flash.chip.bus == s0.bus && flash.chip.regs == s0.st.regs
    {
      ghost var s1 := flash.TakeSnapshot();
      assert cs[i] in cs;
      r := ClearSpiBits(flash, cs[i]);
      FramedJoin(flash, s0, s1);
      if r != Success {
        OneClearFailed(flash, cs, i, r, |s1.bus|, |s0.bus|, flash.TakeSnapshot());
        return;
      }
      assert cs[..i + 1][..i] == cs[..i];
      i := i + 1;
    }
    assert cs[..i] == cs;
  }

  /** Clears the protection bits of the vendor's registers. */
  method ClearWriteProtection(flash: Flash, v: Vendor, m: Masks) returns (r: Code)
    requires flash.Valid() && flash.chip.op.None? && GoodMasks(m)
    modifies flash.chip
    ensures Framed(flash, old(flash.TakeSnapshot()))
    ensures r == Success ==>
              && flash.chip.op.None?
              && flash.chip.regs == if flash.chip.part.locked then old(flash.chip.regs)
                                    else AfterClear(v, m, flash.chip.clearsSr2, old(flash.chip.regs))
    ensures r == Success && !flash.chip.part.locked && !flash.chip.clearsSr2 ==>
              var before := old(flash.chip.regs);
              flash.chip.regs ==
              match v
              case Winbond => Regs(before.sr1 - m.m1, before.sr2 - m.m2, before.sr3 - m.m3)
              case Macronix => before.(sr1 := before.sr1 - m.m1)
              case OtherVendor => before
    ensures ProtectionClear(v, m, old(flash.chip.regs)) ==>
              r == Success && flash.chip.bus == old(flash.chip.bus) && flash.chip.regs == old(flash.chip.regs)
    ensures r != Success ==> SomeClearFailed(flash, ClearOps(v, m), r, |old(flash.chip.bus)|, flash.TakeSnapshot())
  {
    ClearAll(v, m, flash.chip.regs);
    r := ClearSpiBitsList(flash, ClearOps(v, m));
  }

  /** Sets the quad bit of the mode, unless it is set. */
  method EnableQuadMode(flash: Flash, mode: nat) returns (r: Code)
    requires flash.Valid() && flash.chip.op.None?
    modifies flash.chip
    ensures Framed(flash, old(flash.TakeSnapshot()))
    ensures mode > 5 ==> r == EINVAL
    ensures mode <= 5 && r != Success ==> RegBlame(flash, r, |old(flash.chip.bus)|, flash.chip.bus)
    ensures r == Success ==>
              && flash.chip.op.None?
              && flash.chip.regs == if flash.chip.part.locked then old(flash.chip.regs)
                                    else AfterQuad(mode, flash.chip.clearsSr2, old(flash.chip.regs))
    ensures r == Success && !flash.chip.part.locked ==>
              QuadSet(mode, flash.chip.clearsSr2, old(flash.chip.regs), flash.chip.regs)
    ensures QuadOn(mode, old(flash.chip.regs)) && mode <= 5 ==>
              r == Success && flash.chip.bus == old(flash.chip.bus) && flash.chip.regs == old(flash.chip.regs)
  {
    QuadSays(mode, flash.chip.clearsSr2, flash.chip.regs);
    match mode
    case 0 => r := Success;
    case 1 => r := EnableQuad145(flash, mode);
    case 4 => r := EnableQuad145(flash, mode);
    case 5 => r := EnableQuad145(flash, mode);
    case 2 =>
      var status := flash.chip.ReadReg(ReadStatus);
      if QE2 in status {
        return Success;
      }
      assert status + {QE2} - VOLATILE == flash.chip.regs.sr1 + {QE2} - VOLATILE;
      r := WriteReg(flash, One(WriteStatus, status + {QE2}));
    case 3 =>
      var status2 := flash.chip.ReadReg(ReadStatus2);
      if QE3 in status2 {
        return Success;
      }
      r := WriteReg(flash, One(WriteStatus2, status2 + {QE3}));
    case _ => r := EINVAL;
  }

  method EnableQuad145(flash: Flash, mode: nat) returns (r: Code)
    requires flash.Valid() && flash.chip.op.None? && Is145(mode)
    modifies flash.chip
    ensures Framed(flash, old(flash.TakeSnapshot()))
    ensures r == Success ==>
              && flash.chip.op.None?
              && flash.chip.regs == if flash.chip.part.locked then old(flash.chip.regs)
                                    else AfterQuad(mode, flash.chip.clearsSr2, old(flash.chip.regs))
    ensures r != Success ==> RegBlame(flash, r, |old(flash.chip.bus)|, flash.chip.bus)
    ensures QuadOn(mode, old(flash.chip.regs)) ==>
              r == Success && flash.chip.bus == old(flash.chip.bus) && flash.chip.regs == old(flash.chip.regs)
  {
    var status1 := flash.chip.ReadReg(ReadStatus);
    var status2 := flash.chip.ReadReg(ReadCfg1);
    if QE145 in status2 {
      return Success;
    }
    assert status1 - VOLATILE == flash.chip.regs.sr1 - VOLATILE;
    r := WriteReg(flash, Two(status1, status2 + {QE145}));
  }

  /** The register part of initialisation.  On an unlocked part, success means the registers that
      the two steps compute, with the protection bits read back as zero; a part that is already set
      up is not written to. */
  method Initialise(flash: Flash, v: Vendor, m: Masks, quad: bool, mode: nat) returns (r: Code)
    requires flash.Valid() && flash.chip.op.None? && GoodMasks(m)
    modifies flash.chip
    ensures Framed(flash, old(flash.TakeSnapshot()))
    ensures (r == Success || r == ENODEV || r == EOPNOTSUPP) && (quad && mode > 5 ==> r != Success)
    ensures r == ENODEV ==>
              exists why ::
                why != Success
                && SomeClearFailed(flash, ClearOps(v, m), why, |old(flash.chip.bus)|, flash.TakeSnapshot())
    ensures r == EOPNOTSUPP ==>
              quad && (mode > 5 || exists why :: RegBlame(flash, why, |old(flash.chip.bus)|, flash.chip.bus))
    ensures r == Success && !flash.chip.part.locked ==>
              var c := AfterClear(v, m, flash.chip.clearsSr2, old(flash.chip.regs));
              && flash.chip.op.None?
              && flash.chip.regs == if quad then AfterQuad(mode, flash.chip.clearsSr2, c) else c
    ensures r == Success && !flash.chip.part.locked && quad && !flash.chip.clearsSr2 && MaskExcludesQuad(v, m, mode) ==>
              && ProtectionClear(v, m, flash.chip.regs) && QuadOn(mode, flash.chip.regs)
              && flash.chip.regs == Wanted(v, m, mode, old(flash.chip.regs))
    ensures ProtectionClear(v, m, old(flash.chip.regs)) && quad && QuadOn(mode, old(flash.chip.regs)) && mode <= 5 ==>
              r == Success && flash.chip.bus == old(flash.chip.bus) && flash.chip.regs == old(flash.chip.regs)
  {
    ghost var s0 := flash.TakeSnapshot();
    r := ClearWriteProtection(flash, v, m);
    if r != Success {
      return ENODEV;
    }
    if quad {
      ghost var s1 := flash.TakeSnapshot();
      r := EnableQuadMode(flash, mode);
      FramedJoin(flash, s0, s1);
      if r != Success {
        if mode <= 5 {
          RegBlameEarlier(flash, r, |s1.bus|, |s0.bus|, flash.chip.bus);
        }
        return EOPNOTSUPP;
      }
    }
    InitReachesWanted(v, m, mode, s0.st.regs);
    InitKeepsBothIff(v, m, mode, s0.st.regs);
  }
}
