/** Erase, then any writes, then read. */
module FlashRoundTrip {
  import opened Codes
  import opened NorChip
  import opened FlashPlan
  import opened FlashDriver

  datatype WriteReq = WriteReq(offset: nat, data: seq<byte>)

  predicate Holds(w: WriteReq, i: nat) { w.offset <= i < w.offset + |w.data| }

  predicate Disjoint(v: WriteReq, w: WriteReq) {
    v.offset + |v.data| <= w.offset || w.offset + |w.data| <= v.offset
  }

  ghost predicate AllDisjoint(ws: seq<WriteReq>) {
    forall j, k | 0 <= j < k < |ws| :: Disjoint(ws[j], ws[k])
  }

  /** The array after successful writes, one after another. */
  function RunWrites(ws: seq<WriteReq>, mem: seq<byte>): (r: seq<byte>)
    ensures |r| == |mem|
  {
    if ws == [] then mem
    else
      var w := ws[|ws| - 1];
      Run(WritePlan(w.offset, w.data), RunWrites(ws[..|ws| - 1], mem))
  }

  /** A byte ANDed with everything that is written to its address. */
  function AndAll(ws: seq<WriteReq>, i: nat, b: byte): byte {
    if ws == [] then b
    else
      var w := ws[|ws| - 1];
      var c := AndAll(ws[..|ws| - 1], i, b);
      if Holds(w, i) then c & w.data[i - w.offset] else c
  }

  lemma {:induction false} OneWrite(w: WriteReq, m: seq<byte>, i: nat)
    requires i < |m|
    ensures Run(WritePlan(w.offset, w.data), m)[i] == if Holds(w, i) then m[i] & w.data[i - w.offset] else m[i]
  {
    WritePlanPrograms(w.offset, w.data, m);
  }

  /** Any writes, overlapping or not: every byte is the AND of the old byte and all data for it. */
  lemma {:induction false} WritesAnd(ws: seq<WriteReq>, mem: seq<byte>, i: nat)
    requires i < |mem|
    ensures RunWrites(ws, mem)[i] == AndAll(ws, i, mem[i])
    decreases |ws|
  {
    if ws != [] {
      WritesAnd(ws[..|ws| - 1], mem, i);
      OneWrite(ws[|ws| - 1], RunWrites(ws[..|ws| - 1], mem), i);
    }
  }

  lemma {:induction false} AndMiss(ws: seq<WriteReq>, i: nat, b: byte)
    requires forall w | w in ws :: !Holds(w, i)
    ensures AndAll(ws, i, b) == b
    decreases |ws|
  {
    if ws != [] {
      assert ws[|ws| - 1] in ws;
      AndMiss(ws[..|ws| - 1], i, b);
    }
  }

  lemma {:induction false} AndHit(ws: seq<WriteReq>, k: nat, i: nat, b: byte)
    requires k < |ws| && Holds(ws[k], i) && AllDisjoint(ws)
    ensures AndAll(ws, i, b) == b & ws[k].data[i - ws[k].offset]
    decreases |ws|
  {
    var last := |ws| - 1;
    if k == last {
      OthersMiss(ws, last, i);
      AndMiss(ws[..last], i, b);
    } else {
      assert Disjoint(ws[k], ws[last]);
      DisjointPrefix(ws, last);
      AndHit(ws[..last], k, i, b);
    }
  }

  lemma {:induction false} DisjointPrefix(ws: seq<WriteReq>, n: nat)
    requires AllDisjoint(ws) && n <= |ws|
    ensures AllDisjoint(ws[..n])
  {
  }

  lemma {:induction false} OthersMiss(ws: seq<WriteReq>, k: nat, i: nat)
    requires AllDisjoint(ws) && k < |ws| && Holds(ws[k], i)
    ensures forall w | w in ws[..k] :: !Holds(w, i)
  {
    forall w | w in ws[..k]
      ensures !Holds(w, i)
    {
      var j :| 0 <= j < k && ws[j] == w;
      assert Disjoint(ws[j], ws[k]);
    }
  }

  lemma {:induction false} OnErased(x: byte)
    ensures ERASED & x == x
  {
  }

  /** What byte i must read after erasing an area and writing the pieces. */
  ghost predicate ReadsBack(b: byte, i: nat, offset: nat, size: nat, ws: seq<WriteReq>, mem: seq<byte>)
    requires i < |mem|
  {
    && (forall k | 0 <= k < |ws| && Holds(ws[k], i) :: b == ws[k].data[i - ws[k].offset])
    && ((forall w | w in ws :: !Holds(w, i)) ==>
          b == if SectorStart(offset) <= i < EraseEnd(offset, size) then ERASED else mem[i])
  }

  /** Erase an area, write disjoint pieces inside the erased sectors, read: the written bytes come
      back where they were written, 0xFF in the rest of the erased sectors, and what was there
      before in the rest of the chip. */
  lemma {:induction false} EraseWriteRead(offset: nat, size: nat, ws: seq<WriteReq>, mem: seq<byte>, i: nat)
    requires 0 < size && offset + size <= |mem| && |mem| % 4096 == 0 && i < |mem|
    requires AllDisjoint(ws)
    requires forall w | w in ws :: SectorStart(offset) <= w.offset && w.offset + |w.data| <= EraseEnd(offset, size)
    ensures ReadsBack(RunWrites(ws, Run(ErasePlan(offset, size, |mem|), mem))[i], i, offset, size, ws, mem)
  {
    var e := Run(ErasePlan(offset, size, |mem|), mem);
    ErasePlanRun(offset, size, mem);
    WritesAnd(ws, e, i);
    if forall w | w in ws :: !Holds(w, i) {
      AndMiss(ws, i, e[i]);
    }
    forall k | 0 <= k < |ws| && Holds(ws[k], i)
      ensures RunWrites(ws, e)[i] == ws[k].data[i - ws[k].offset]
    {
      AndHit(ws, k, i, e[i]);
      assert ws[k] in ws;
      OnErased(ws[k].data[i - ws[k].offset]);
    }
  }

  // ----- the same through the driver's calls

  /** The write calls, one after another, up to the first that fails. */
  method WriteAll(flash: Flash, ws: seq<WriteReq>) returns (ok: bool)
    requires flash.Valid() && flash.chip.op.None? && flash.sem == 1
    requires forall w | w in ws :: w.data != [] && w.offset + |w.data| <= flash.chip.size
    modifies flash`sem, flash.chip
    ensures flash.Valid() && flash.sem == 1
    ensures ok ==> flash.chip.op.None? && flash.chip.mem == RunWrites(ws, old(flash.chip.mem))
  {
    var j := 0;
    ok := true;
    while j < |ws|
      invariant ok && 0 <= j <= |ws| && flash.Valid() && flash.sem == 1 && flash.chip.op.None?
      invariant flash.chip.mem == RunWrites(ws[..j], old(flash.chip.mem))
    {
      ok := WriteNext(flash, ws, j, old(flash.chip.mem));
      if !ok {
        break;
      }
      j := j + 1;
    }
    assert ws[..|ws|] == ws;
  }

  /** Write call j. */
  method WriteNext(flash: Flash, ws: seq<WriteReq>, j: nat, ghost mem: seq<byte>) returns (ok: bool)
    requires flash.Valid() && flash.chip.op.None? && flash.sem == 1 && j < |ws|
    requires ws[j].data != [] && ws[j].offset + |ws[j].data| <= flash.chip.size
    requires flash.chip.mem == RunWrites(ws[..j], mem)
    modifies flash`sem, flash.chip
    ensures flash.Valid() && flash.sem == 1
    ensures ok ==> flash.chip.op.None? && flash.chip.mem == RunWrites(ws[..j + 1], mem)
  {
    var w := ws[j];
    var buff := new byte[|w.data|](i requires 0 <= i < |w.data| => w.data[i]);
    assert buff[..|w.data|] == w.data;
    ghost var k, started;
    var r;
    r, k, started := flash.Write(w.offset, buff, |w.data|);
    ok := r == Success;
    assert ws[..j + 1][..j] == ws[..j];
  }

  lemma {:induction false} ErasedIsRun(offset: nat, size: nat, mem: seq<byte>)
    requires 0 < size && offset + size <= |mem| && |mem| % 4096 == 0
    ensures Erased(mem, SectorStart(offset), EraseEnd(offset, size)) == Run(ErasePlan(offset, size, |mem|), mem)
  {
    ErasePlanRun(offset, size, mem);
  }

  /** An erase and the writes into it. */
  method EraseAndWrite(flash: Flash, offset: nat, size: nat, ws: seq<WriteReq>) returns (ok: bool)
    requires flash.Valid() && flash.chip.op.None? && flash.sem == 1
    requires 0 < size && offset + size <= flash.chip.size
    requires forall w | w in ws :: w.data != [] && w.offset + |w.data| <= flash.chip.size
    modifies flash`sem, flash.chip
    ensures flash.Valid() && flash.sem == 1
    ensures ok ==> flash.chip.op.None?
                   && flash.chip.mem ==
                      RunWrites(ws, Run(ErasePlan(offset, size, flash.chip.size), old(flash.chip.mem)))
  {
    ghost var k;
    var r;
    ErasedIsRun(offset, size, flash.chip.mem);
    r, k := flash.Erase(offset, size);
    ok := r == Success;
    if ok {
      ok := WriteAll(flash, ws);
    }
  }

  /** The three calls in a row: when all of them succeed, the buffer holds what was written, 0xFF in the
      rest of the erased sectors, and the old bytes elsewhere. */
  method EraseWriteAndRead(flash: Flash, offset: nat, size: nat, ws: seq<WriteReq>, from: nat, out: array<byte>,
                           busFails: bool)
    returns (ok: bool)
    requires flash.Valid() && flash.chip.op.None? && flash.sem == 1 && AllDisjoint(ws)
    requires 0 < size && offset + size <= flash.chip.size
    requires forall w | w in ws ::
               w.data != [] && SectorStart(offset) <= w.offset && w.offset + |w.data| <= EraseEnd(offset, size)
    requires 0 < out.Length && from + out.Length <= flash.chip.size
    modifies flash`sem, flash.chip, out
    ensures flash.Valid()
    ensures ok ==> forall j | 0 <= j < out.Length :: ReadsBack(out[j], from + j, offset, size, ws, old(flash.chip.mem))
  {
    ghost var mem := flash.chip.mem;
    EraseEndFits(offset, size, flash.chip.size);
    ok := EraseAndWrite(flash, offset, size, ws);
    if ok {
      var r := flash.Read(from, out, out.Length, busFails);
      ok := r == Success;
    }
    if ok {
      assert out[..] == out[..out.Length];
      Shown(offset, size, ws, mem, flash.chip.mem, from, out[..]);
      assert forall j | 0 <= j < out.Length :: out[..][j] == out[j];
    }
  }

  lemma {:induction false} Shown(offset: nat, size: nat, ws: seq<WriteReq>, mem: seq<byte>, m: seq<byte>, from: nat,
                                 shown: seq<byte>)
    requires 0 < size && offset + size <= |mem| && |mem| % 4096 == 0 && AllDisjoint(ws)
    requires forall w | w in ws :: SectorStart(offset) <= w.offset && w.offset + |w.data| <= EraseEnd(offset, size)
    requires m == RunWrites(ws, Run(ErasePlan(offset, size, |mem|), mem))
    requires from + |shown| <= |m| == |mem| && shown == m[from..from + |shown|]
    ensures forall j | 0 <= j < |shown| :: ReadsBack(shown[j], from + j, offset, size, ws, mem)
  {
    AllReadBack(offset, size, ws, mem);
  }

  lemma {:induction false} AllReadBack(offset: nat, size: nat, ws: seq<WriteReq>, mem: seq<byte>)
    requires 0 < size && offset + size <= |mem| && |mem| % 4096 == 0 && AllDisjoint(ws)
    requires forall w | w in ws :: SectorStart(offset) <= w.offset && w.offset + |w.data| <= EraseEnd(offset, size)
    ensures var m := RunWrites(ws, Run(ErasePlan(offset, size, |mem|), mem));
            |m| == |mem| && forall i | 0 <= i < |mem| :: ReadsBack(m[i], i, offset, size, ws, mem)
  {
    forall i | 0 <= i < |mem|
      ensures ReadsBack(RunWrites(ws, Run(ErasePlan(offset, size, |mem|), mem))[i], i, offset, size, ws, mem)
    {
      EraseWriteRead(offset, size, ws, mem, i);
    }
  }
}
