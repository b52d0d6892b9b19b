/** The command sequences that an erase or a write call stands for, and what they do to the array. */
module FlashPlan {
  import opened NorChip

  function Min(a: nat, b: nat): nat { if a < b then a else b }

  /** The first byte of the sector that holds a. */
  function SectorStart(a: nat): nat { a - a % 4096 }

  /** The number of sectors needed for size bytes. */
  function SectorCount(size: nat): nat { (size + 4096 - 1) / 4096 }

  // ----- what the calls are meant to do, byte by byte

  function Erased(mem: seq<byte>, lo: nat, hi: nat): (r: seq<byte>) {
    seq(|mem|, i requires 0 <= i < |mem| => if lo <= i < hi then ERASED else mem[i])
  }

  function Programmed(mem: seq<byte>, offset: nat, data: seq<byte>): (r: seq<byte>) {
    seq(|mem|, i requires 0 <= i < |mem| =>
      if offset <= i < offset + |data| then mem[i] & data[i - offset] else mem[i])
  }

  // ----- the plans

  function Sectors(addr: nat, n: nat): (r: seq<Cmd>)
    ensures |r| == n
  {
    seq(n, k requires 0 <= k < n => SectorErase(addr + k * 4096))
  }

  function Blocks(addr: nat, n: nat): (r: seq<Cmd>)
    ensures |r| == n
  {
    seq(n, k requires 0 <= k < n => BlockErase(addr + k * 65536))
  }

  function HeadCount(offset: nat, size: nat): nat {
    if offset % 65536 == 0 then 0 else SectorCount(Min(65536 - offset % 65536, size))
  }

  function Less(size: nat, done: nat): nat { if size >= done then size - done else 0 }

  function BlockCount(addr: nat, size: nat): nat {
    if addr % 65536 == 0 then size / 65536 else 0
  }

  /** What the middle phase of a call finds: 64 KB blocks, if the head has reached a boundary. */
  function MiddleCount(offset: nat, size: nat): nat {
    var h := HeadCount(offset, size);
    BlockCount(offset + h * 4096, Less(size, h * 4096))
  }

  function TailCount(offset: nat, size: nat): nat {
    SectorCount(Less(Less(size, HeadCount(offset, size) * 4096), MiddleCount(offset, size) * 65536))
  }

  /** h sectors, then b blocks, then t sectors. */
  function Phases(offset: nat, h: nat, b: nat, t: nat): (r: seq<Cmd>)
    ensures |r| == h + b + t
  {
    Sectors(offset, h) + Blocks(offset + h * 4096, b) + Sectors(offset + h * 4096 + b * 65536, t)
  }

  function MixedPlan(offset: nat, size: nat): seq<Cmd> {
    Phases(offset, HeadCount(offset, size), MiddleCount(offset, size), TailCount(offset, size))
  }

  function ErasePlan(offset: nat, size: nat, chipSize: nat): seq<Cmd> {
    if size == chipSize then [ChipErase] else MixedPlan(offset, size)
  }

  /** The simple form: one sector erase after another. */
  function NaiveErasePlan(offset: nat, size: nat): seq<Cmd> {
    Sectors(offset, SectorCount(size))
  }

  /** A write never crosses a page end: up to there, or all that is left. */
  function FirstChunk(offset: nat, data: seq<byte>): (n: nat)
    ensures n <= |data| && offset % 256 + n <= 256 && (data != [] ==> n > 0)
  {
    Min(|data|, 256 - offset % 256)
  }

  function WritePlan(offset: nat, data: seq<byte>): seq<Cmd>
    decreases |data|
  {
    if data == [] then []
    else
      var n := FirstChunk(offset, data);
      [PageProgram(offset, data[..n])] + WritePlan(offset + n, data[n..])
  }

  // ----- tilings: each command reaches exactly the next stretch of the array

  function Span(c: Cmd, chipSize: nat): nat {
    match c
    case SectorErase(_) => 4096
    case BlockErase(_) => 65536
    case ChipErase => chipSize
    case PageProgram(_, d) => |d|
  }

  ghost predicate Reaches(c: Cmd, lo: nat, hi: nat, n: nat) {
    forall i: nat | i < n :: Touches(c, i) <==> lo <= i < hi
  }

  ghost predicate Tiles(cmds: seq<Cmd>, lo: nat, hi: nat, n: nat) {
    if cmds == [] then lo == hi
    else Reaches(cmds[0], lo, lo + Span(cmds[0], n), n) && Tiles(cmds[1..], lo + Span(cmds[0], n), hi, n)
  }

  /** Where the first k commands of a tiling end. */
  function Frontier(cmds: seq<Cmd>, lo: nat, k: nat, n: nat): nat
    requires k <= |cmds|
  {
    if k == 0 then lo else Frontier(cmds[1..], lo + Span(cmds[0], n), k - 1, n)
  }

  lemma {:induction false} TilesConcat(a: seq<Cmd>, b: seq<Cmd>, lo: nat, mid: nat, hi: nat, n: nat)
    requires Tiles(a, lo, mid, n) && Tiles(b, mid, hi, n)
    ensures Tiles(a + b, lo, hi, n)
  {
    if a == [] {
      assert a + b == b;
    } else {
      assert (a + b)[1..] == a[1..] + b;
      TilesConcat(a[1..], b, lo + Span(a[0], n), mid, hi, n);
    }
  }

  /** A tiling up to its k-th command ends at the frontier, and that command starts there. */
  lemma {:induction false} TilesSplit(cmds: seq<Cmd>, lo: nat, hi: nat, k: nat, n: nat)
    requires Tiles(cmds, lo, hi, n) && k <= |cmds|
    ensures lo <= Frontier(cmds, lo, k, n) <= hi
    ensures Tiles(cmds[..k], lo, Frontier(cmds, lo, k, n), n)
    ensures k < |cmds| ==>
              var x := Frontier(cmds, lo, k, n);
              Reaches(cmds[k], x, x + Span(cmds[k], n), n) && x + Span(cmds[k], n) <= hi
    ensures k == |cmds| ==> Frontier(cmds, lo, k, n) == hi
    decreases |cmds|
  {
    if cmds != [] {
      var mid := lo + Span(cmds[0], n);
      TilesSplit(cmds[1..], mid, hi, if k == 0 then 0 else k - 1, n);
      if k > 0 {
        assert cmds[..k][1..] == cmds[1..][..k - 1];
      }
    }
  }

  lemma {:induction false} SectorsTile(addr: nat, k: nat, n: nat)
    ensures Tiles(Sectors(addr, k), SectorStart(addr), SectorStart(addr) + k * 4096, n)
    decreases k
  {
    if k > 0 {
      assert Sectors(addr, k)[1..] == Sectors(addr + 4096, k - 1);
      SectorsTile(addr + 4096, k - 1, n);
    }
  }

  lemma {:induction false} BlocksTile(addr: nat, k: nat, n: nat)
    requires addr % 65536 == 0
    ensures Tiles(Blocks(addr, k), addr, addr + k * 65536, n)
    decreases k
  {
    if k > 0 {
      assert Blocks(addr, k)[1..] == Blocks(addr + 65536, k - 1);
      BlocksTile(addr + 65536, k - 1, n);
    }
  }

  /** The sectors that an erase call reaches: SectorCount(size) of them from the one that holds
      the offset. */
  function EraseEnd(offset: nat, size: nat): nat {
    SectorStart(offset) + SectorCount(size) * 4096
  }

  lemma {:induction false} CountMinus(size: nat, n: nat)
    requires n * 4096 <= size
    ensures SectorCount(size - n * 4096) == SectorCount(size) - n
  {
  }

  lemma {:induction false} HeadSize(offset: nat, size: nat)
    ensures var h := HeadCount(offset, size);
            h + SectorCount(Less(size, h * 4096)) == SectorCount(size)
  {
    var h := HeadCount(offset, size);
    if size >= h * 4096 {
      CountMinus(size, h);
    }
  }

  lemma {:induction false} MiddleSize(a: nat, size: nat)
    ensures var b := BlockCount(a, size);
            b * 65536 <= size && 16 * b + SectorCount(size - b * 65536) == SectorCount(size)
  {
    var b := BlockCount(a, size);
    CountMinus(size, 16 * b);
  }

  /** The three phases use as many sectors, in sum, as one phase would; the middle is used only on a
      block boundary. */
  lemma {:induction false} PhaseSizes(offset: nat, size: nat)
    ensures HeadCount(offset, size) + 16 * MiddleCount(offset, size) + TailCount(offset, size) == SectorCount(size)
    ensures MiddleCount(offset, size) > 0 ==> (offset + HeadCount(offset, size) * 4096) % 65536 == 0
  {
    var h := HeadCount(offset, size);
    HeadSize(offset, size);
    MiddleSize(offset + h * 4096, Less(size, h * 4096));
  }

  lemma {:induction false} SectorStartPlus(addr: nat, k: nat)
    ensures SectorStart(addr + k * 4096) == SectorStart(addr) + k * 4096
  {
  }

  lemma {:induction false} MiddleTiles(addr: nat, b: nat, n: nat)
    requires b > 0 ==> addr % 65536 == 0
    ensures Tiles(Blocks(addr, b), SectorStart(addr), SectorStart(addr) + b * 65536, n)
  {
    if b > 0 {
      assert SectorStart(addr) == addr;
      BlocksTile(addr, b, n);
    } else {
      assert Blocks(addr, b) == [];
    }
  }

  lemma {:induction false} PhasesTile(offset: nat, h: nat, b: nat, t: nat, n: nat)
    requires b > 0 ==> (offset + h * 4096) % 65536 == 0
    ensures Tiles(Phases(offset, h, b, t), SectorStart(offset), SectorStart(offset) + (h + 16 * b + t) * 4096, n)
  {
    var a1 := offset + h * 4096;
    var a2 := a1 + b * 65536;
    SectorStartPlus(offset, h);
    SectorStartPlus(a1, 16 * b);
    SectorsTile(offset, h, n);
    MiddleTiles(a1, b, n);
    TilesConcat(Sectors(offset, h), Blocks(a1, b), SectorStart(offset), SectorStart(a1), SectorStart(a2), n);
    SectorsTile(a2, t, n);
    TilesConcat(Sectors(offset, h) + Blocks(a1, b), Sectors(a2, t),
                SectorStart(offset), SectorStart(a2), SectorStart(a2) + t * 4096, n);
  }

  lemma {:induction false} ChipEraseTiles(n: nat)
    ensures Tiles([ChipErase], 0, n, n)
  {
    var p := [ChipErase];
    assert p[1..] == [];
    assert Reaches(p[0], 0, n, n);
  }

  lemma {:induction false} EraseEndWhole(size: nat)
    requires size % 4096 == 0
    ensures EraseEnd(0, size) == size && SectorStart(0) == 0
  {
  }

  lemma {:induction false} ErasePlanTiles(offset: nat, size: nat, chipSize: nat)
    requires size == chipSize ==> offset == 0 && size % 4096 == 0
    ensures Tiles(ErasePlan(offset, size, chipSize), SectorStart(offset), EraseEnd(offset, size), chipSize)
  {
    if size == chipSize {
      ChipEraseTiles(chipSize);
      EraseEndWhole(size);
    } else {
      PhaseSizes(offset, size);
      PhasesTile(offset, HeadCount(offset, size), MiddleCount(offset, size), TailCount(offset, size), chipSize);
    }
  }

  lemma {:induction false} PageReaches(offset: nat, d: seq<byte>, n: nat)
    requires offset % 256 + |d| <= 256
    ensures Reaches(PageProgram(offset, d), offset, offset + |d|, n)
  {
  }

  lemma {:induction false} WritePlanTiles(offset: nat, data: seq<byte>, n: nat)
    ensures Tiles(WritePlan(offset, data), offset, offset + |data|, n)
    decreases |data|
  {
    if data != [] {
      var k := FirstChunk(offset, data);
      var rest := WritePlan(offset + k, data[k..]);
      WritePlanTiles(offset + k, data[k..], n);
      PageReaches(offset, data[..k], n);
      assert ([PageProgram(offset, data[..k])] + rest)[1..] == rest;
    }
  }

  // ----- what tilings do

  predicate IsErase(c: Cmd) { !c.PageProgram? }

  lemma {:induction false} EraseTiling(cmds: seq<Cmd>, lo: nat, hi: nat, mem: seq<byte>)
    requires Tiles(cmds, lo, hi, |mem|)
    requires forall c | c in cmds :: IsErase(c)
    ensures Run(cmds, mem) == Erased(mem, lo, hi)
    decreases |cmds|
  {
    if cmds != [] {
      var k := |cmds| - 1;
      TilesSplit(cmds, lo, hi, k, |mem|);
      TilesSplit(cmds, lo, hi, k + 1, |mem|);
      assert cmds[..k + 1] == cmds;
      var x := Frontier(cmds, lo, k, |mem|);
      EraseTiling(cmds[..k], lo, x, mem);
      FrontierStep(cmds, lo, k, |mem|);
      forall i: nat | i < |mem|
        ensures Run(cmds, mem)[i] == Erased(mem, lo, hi)[i]
      {
        assert cmds[k] in cmds && IsErase(cmds[k]);
        assert Touches(cmds[k], i) <==> x <= i < hi;
      }
    }
  }

  lemma {:induction false} FrontierStep(cmds: seq<Cmd>, lo: nat, k: nat, n: nat)
    requires k < |cmds|
    ensures Frontier(cmds, lo, k + 1, n) == Frontier(cmds, lo, k, n) + Span(cmds[k], n)
    decreases k
  {
    if k > 0 {
      FrontierStep(cmds[1..], lo + Span(cmds[0], n), k - 1, n);
    }
  }

  lemma {:induction false} ErasePlanErases(offset: nat, size: nat, chipSize: nat)
    ensures forall c | c in ErasePlan(offset, size, chipSize) :: IsErase(c)
  {
  }

  lemma {:induction false} ErasePlanRun(offset: nat, size: nat, mem: seq<byte>)
    requires size == |mem| ==> offset == 0 && size % 4096 == 0
    ensures Run(ErasePlan(offset, size, |mem|), mem) == Erased(mem, SectorStart(offset), EraseEnd(offset, size))
  {
    ErasePlanTiles(offset, size, |mem|);
    ErasePlanErases(offset, size, |mem|);
    var plan := ErasePlan(offset, size, |mem|);
    EraseTiling(plan, SectorStart(offset), EraseEnd(offset, size), mem);
  }

  lemma {:induction false} SectorsRun(addr: nat, k: nat, mem: seq<byte>)
    ensures Run(Sectors(addr, k), mem) == Erased(mem, SectorStart(addr), SectorStart(addr) + k * 4096)
  {
    SectorsTile(addr, k, |mem|);
    EraseTiling(Sectors(addr, k), SectorStart(addr), SectorStart(addr) + k * 4096, mem);
  }

  /** Mixed erase refines naive erase: any valid area, aligned or not. */
  lemma {:induction false} MixedEraseRefinesNaive(offset: nat, size: nat, mem: seq<byte>)
    requires 0 < size && offset + size <= |mem| && |mem| % 4096 == 0
    ensures Run(ErasePlan(offset, size, |mem|), mem) == Run(NaiveErasePlan(offset, size), mem)
    ensures Run(ErasePlan(offset, size, |mem|), mem) == Erased(mem, SectorStart(offset), EraseEnd(offset, size))
  {
    ErasePlanRun(offset, size, mem);
    SectorsRun(offset, SectorCount(size), mem);
  }

  lemma {:induction false} BelowCount(size: nat, k: nat)
    requires k < SectorCount(size)
    ensures k * 4096 < size
  {
  }

  /** A block erase is aligned and lies inside the requested range; a sector erase starts in it. */
  predicate InRequest(c: Cmd, offset: nat, size: nat) {
    match c
    case ChipErase => false
    case BlockErase(a) => a % 65536 == 0 && offset <= a && a + 65536 <= offset + size
    case SectorErase(a) => offset <= a < offset + size && a % 4096 == offset % 4096
    case PageProgram(_, _) => false
  }

  lemma {:induction false} SectorsInRequest(offset: nat, size: nat, addr: nat, left: nat)
    requires offset <= addr && left <= size && addr % 4096 == offset % 4096
    requires left > 0 ==> addr + left <= offset + size
    ensures forall c | c in Sectors(addr, SectorCount(left)) :: InRequest(c, offset, size)
  {
    var s := Sectors(addr, SectorCount(left));
    forall c | c in s
      ensures InRequest(c, offset, size)
    {
      var k :| 0 <= k < |s| && s[k] == c;
      BelowCount(left, k);
    }
  }

  lemma {:induction false} BlocksInRequest(offset: nat, size: nat, addr: nat, b: nat)
    requires offset <= addr
    requires b > 0 ==> addr % 65536 == 0 && addr + b * 65536 <= offset + size
    ensures forall c | c in Blocks(addr, b) :: InRequest(c, offset, size)
  {
  }

  lemma {:induction false} ErasePlanInRequest(offset: nat, size: nat, chipSize: nat)
    requires size != chipSize
    ensures forall c | c in ErasePlan(offset, size, chipSize) :: InRequest(c, offset, size)
  {
    var h := HeadCount(offset, size);
    var r1 := Less(size, h * 4096);
    var b := MiddleCount(offset, size);
    MiddleSize(offset + h * 4096, r1);
    PhasesInRequest(offset, size, h, b, r1);
  }

  lemma {:induction false} PhasesInRequest(offset: nat, size: nat, h: nat, b: nat, left: nat)
    requires h > 0 ==> offset % 65536 != 0 && h == SectorCount(Min(65536 - offset % 65536, size))
    requires b > 0 ==> (offset + h * 4096) % 65536 == 0
    requires left == Less(size, h * 4096) && b * 65536 <= left
    ensures forall c | c in Phases(offset, h, b, SectorCount(left - b * 65536)) :: InRequest(c, offset, size)
  {
    var a1 := offset + h * 4096;
    if h > 0 {
      SectorsInRequest(offset, size, offset, Min(65536 - offset % 65536, size));
    }
    BlocksInRequest(offset, size, a1, b);
    SameOffset(offset, h, b);
    SectorsInRequest(offset, size, a1 + b * 65536, left - b * 65536);
  }

  lemma {:induction false} SameOffset(offset: nat, h: nat, b: nat)
    ensures (offset + h * 4096 + b * 65536) % 4096 == offset % 4096
  {
    assert offset + h * 4096 + b * 65536 == offset + (h + 16 * b) * 4096;
  }

  /** The requested range is erased, whatever it held, exactly when the offset's distance into its
      sector plus the size does not run past the sectors counted from the size alone. */
  lemma {:induction false} EraseCoversRequest(offset: nat, size: nat, chipSize: nat)
    requires 0 < size && offset + size <= chipSize && chipSize % 4096 == 0
    ensures offset % 4096 + size <= SectorCount(size) * 4096
            <==> forall m: seq<byte> {:trigger Run(ErasePlan(offset, size, |m|), m)} | |m| == chipSize ::
                   forall i | offset <= i < offset + size ::
                     Run(ErasePlan(offset, size, |m|), m)[i] == ERASED
  {
    var fits := offset % 4096 + size <= SectorCount(size) * 4096;
    if fits {
      forall m: seq<byte> | |m| == chipSize
        ensures forall i | offset <= i < offset + size ::
                  Run(ErasePlan(offset, size, |m|), m)[i] == ERASED
      {
        MixedEraseRefinesNaive(offset, size, m);
      }
    } else {
      var m: seq<byte> := seq(chipSize, _ => 0);
      MixedEraseRefinesNaive(offset, size, m);
      var i := EraseEnd(offset, size);
      assert Run(ErasePlan(offset, size, |m|), m)[i] == 0;
    }
  }

  /** Whatever the array held, an erase call erases exactly the request rounded up to sectors, less
      than a sector beyond it, when the offset is aligned, and only then. */
  lemma {:induction false} EraseExactIffAligned(offset: nat, size: nat, chipSize: nat)
    requires 0 < size && offset + size <= chipSize && chipSize % 4096 == 0
    ensures offset % 4096 == 0 <==>
            forall m: seq<byte> {:trigger Run(ErasePlan(offset, size, |m|), m)} | |m| == chipSize ::
              Run(ErasePlan(offset, size, |m|), m) == Erased(m, offset, offset + SectorCount(size) * 4096)
    ensures size <= SectorCount(size) * 4096 < size + 4096
  {
    if offset % 4096 == 0 {
      forall m: seq<byte> | |m| == chipSize
        ensures Run(ErasePlan(offset, size, |m|), m) == Erased(m, offset, offset + SectorCount(size) * 4096)
      {
        MixedEraseRefinesNaive(offset, size, m);
      }
    } else {
      var m: seq<byte> := seq(chipSize, _ => 0);
      MixedEraseRefinesNaive(offset, size, m);
      assert Run(ErasePlan(offset, size, |m|), m)[SectorStart(offset)] == ERASED;
      assert Erased(m, offset, offset + SectorCount(size) * 4096)[SectorStart(offset)] == 0;
    }
  }

  /** A program command at addr that stays in its page does what Programmed says. */
  lemma {:induction false} ProgramInPage(addr: nat, d: seq<byte>, mem: seq<byte>)
    requires addr % 256 + |d| <= 256
    ensures Effect(PageProgram(addr, d), mem) == Programmed(mem, addr, d)
  {
    var c := PageProgram(addr, d);
    forall i | 0 <= i < |mem|
      ensures Effect(c, mem)[i] == Programmed(mem, addr, d)[i]
    {
      if addr / 256 == i / 256 && i >= addr {
        assert (i - addr) % 256 == i - addr;
      }
    }
  }

  lemma {:induction false} RunCons(c: Cmd, cmds: seq<Cmd>, mem: seq<byte>)
    ensures Run([c] + cmds, mem) == Run(cmds, Effect(c, mem))
  {
    RunConcat([c], cmds, mem);
    RunSnoc([], c, mem);
    assert [] + [c] == [c];
  }

  lemma {:induction false} ProgrammedConcat(mem: seq<byte>, offset: nat, a: seq<byte>, b: seq<byte>)
    ensures Programmed(Programmed(mem, offset, a), offset + |a|, b) == Programmed(mem, offset, a + b)
  {
  }

  lemma {:induction false} ProgramThen(offset: nat, a: seq<byte>, b: seq<byte>, data: seq<byte>, plan: seq<Cmd>,
                                       mem: seq<byte>)
    requires a != [] && offset % 256 + |a| <= 256 && a + b == data
    requires plan == [PageProgram(offset, a)] + WritePlan(offset + |a|, b)
    ensures Run(plan, mem) == Programmed(mem, offset, data)
    decreases |data|, 0
  {
    assert |b| < |data|;
    WritePlanPrograms(offset + |a|, b, Effect(PageProgram(offset, a), mem));
    RunCons(PageProgram(offset, a), WritePlan(offset + |a|, b), mem);
    ProgramInPage(offset, a, mem);
    ProgrammedConcat(mem, offset, a, b);
  }

  lemma {:induction false} Chunked(offset: nat, data: seq<byte>, n: nat)
    requires data != [] && n == FirstChunk(offset, data)
    ensures data[..n] + data[n..] == data && |data[..n]| == n && offset % 256 + n <= 256
    ensures WritePlan(offset, data) == [PageProgram(offset, data[..n])] + WritePlan(offset + |data[..n]|, data[n..])
  {
  }

  /** Splitting at page boundaries means that the chip's wrap-around is never hit: a write is old
      AND new on its range and nothing anywhere else. */
  lemma {:induction false} WritePlanPrograms(offset: nat, data: seq<byte>, mem: seq<byte>)
    ensures Run(WritePlan(offset, data), mem) == Programmed(mem, offset, data)
    decreases |data|, 1
  {
    if data == [] {
      assert Programmed(mem, offset, data) == mem;
    } else {
      var n := FirstChunk(offset, data);
      Chunked(offset, data, n);
      ProgramThen(offset, data[..n], data[n..], data, WritePlan(offset, data), mem);
    }
  }

  /** A program that runs over its page end is corrupted by the chip: without the split the tail
      lands at the start of the page. */
  lemma {:induction false} UnsplitProgramWraps(addr: nat, d: seq<byte>, mem: seq<byte>)
    requires addr % 256 + |d| > 256 && |d| <= 256
    requires addr - addr % 256 + 256 <= |mem|
    ensures var p := addr - addr % 256;
            Effect(PageProgram(addr, d), mem)[p] == mem[p] & d[256 - addr % 256]
  {
    var p := addr - addr % 256;
    assert p / 256 == addr / 256;
    assert (p - addr) % 256 == 256 - addr % 256;
  }

  // ----- partial execution

  /** What an error return leaves: k commands took effect and at most the bytes of the next one are
      in doubt. */
  ghost predicate PartialRun(plan: seq<Cmd>, k: nat, before: seq<byte>, after: seq<byte>)
    requires k <= |plan|
  {
    if k == |plan| then after == Run(plan, before)
    else AgreeOutside(plan[k], Run(plan[..k], before), after)
  }

  lemma {:induction false} RunOutside(cmds: seq<Cmd>, lo: nat, hi: nat, mem: seq<byte>, i: nat)
    requires Tiles(cmds, lo, hi, |mem|) && i < |mem|
    ensures !(lo <= i < hi) ==> Run(cmds, mem)[i] == mem[i]
    decreases |cmds|
  {
    if cmds != [] {
      var k := |cmds| - 1;
      TilesSplit(cmds, lo, hi, k, |mem|);
      RunOutside(cmds[..k], lo, Frontier(cmds, lo, k, |mem|), mem, i);
    }
  }

  lemma {:induction false} RunStable(cmds: seq<Cmd>, lo: nat, hi: nat, mem: seq<byte>, k: nat, i: nat)
    requires Tiles(cmds, lo, hi, |mem|) && i < |mem| && k <= |cmds|
    requires i < Frontier(cmds, lo, k, |mem|)
    ensures Run(cmds[..k], mem)[i] == Run(cmds, mem)[i]
    decreases |cmds| - k
  {
    if k == |cmds| {
      assert cmds[..k] == cmds;
    } else {
      TilesSplit(cmds, lo, hi, k, |mem|);
      FrontierStep(cmds, lo, k, |mem|);
      assert cmds[..k + 1] == cmds[..k] + [cmds[k]];
      RunSnoc(cmds[..k], cmds[k], mem);
      RunStable(cmds, lo, hi, mem, k + 1, i);
    }
  }

  /** An error leaves a prefix: below the frontier the bytes have their final value, from one
      command past it on (and before the range) they are untouched. */
  lemma {:induction false} PartialRunIsPrefix(plan: seq<Cmd>, k: nat, lo: nat, hi: nat, before: seq<byte>,
                                              after: seq<byte>)
    requires Tiles(plan, lo, hi, |before|) && k <= |plan| && hi <= |before|
    requires PartialRun(plan, k, before, after)
    ensures |after| == |before|
    ensures var x := Frontier(plan, lo, k, |before|);
            var y := if k == |plan| then x else x + Span(plan[k], |before|);
            && lo <= x <= y <= hi
            && (forall i | lo <= i < x :: after[i] == Run(plan, before)[i])
            && (forall i | 0 <= i < lo || y <= i < |before| :: after[i] == before[i])
  {
    TilesSplit(plan, lo, hi, k, |before|);
    var x := Frontier(plan, lo, k, |before|);
    if k == |plan| {
      assert plan[..k] == plan;
    }
    forall i | 0 <= i < |before|
      ensures lo <= i < x ==> after[i] == Run(plan, before)[i]
      ensures !(lo <= i < (if k == |plan| then x else x + Span(plan[k], |before|))) ==> after[i] == before[i]
    {
      RunOutside(plan[..k], lo, x, before, i);
      if lo <= i < x {
        RunStable(plan, lo, hi, before, k, i);
      }
    }
  }
}
