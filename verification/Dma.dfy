/** DXE: a linked list of blocks is lowered into an array of descriptors linked by address, which the
    engine walks. */
module Dma {
  import opened Codes

  const MAX_BLOCKS: nat := 16
  const MAX_SIZE: nat := 0x3FFC

  /** The caller's block configuration, a linked structure. */
  class Block {
    const size: nat
    const src: nat
    const dst: nat
    var next: Block?

    constructor (size: nat, src: nat, dst: nat, next: Block?)
      ensures this.size == size && this.src == src && this.dst == dst && this.next == next
    {
      this.size, this.src, this.dst, this.next := size, src, dst, next;
    }
  }

  /** The pointer chain from `head` is exactly `blocks`, and ends. */
  ghost predicate Chain(head: Block?, blocks: seq<Block>)
    reads blocks
  {
    if blocks == [] then head == null
    else head == blocks[0] && Chain(blocks[0].next, blocks[1..])
  }

  lemma {:induction false} ChainDrop(head: Block?, blocks: seq<Block>, i: nat)
    requires Chain(head, blocks) && i < |blocks|
    ensures Chain(blocks[i], blocks[i..]) && Chain(blocks[i].next, blocks[i + 1..])
    ensures blocks[i].next == null <==> i == |blocks| - 1
    ensures i + 1 < |blocks| ==> blocks[i].next == blocks[i + 1]
    decreases i
  {
    assert blocks[0..] == blocks;
    if i > 0 {
      ChainDrop(blocks[0].next, blocks[1..], i - 1);
      assert blocks[1..][i - 1..] == blocks[i..] && blocks[1..][i..] == blocks[i + 1..];
    }
    if i + 1 < |blocks| {
      assert blocks[i + 1..][0] == blocks[i + 1];
    }
  }

  predicate Good(b: Block) {
    0 < b.size <= MAX_SIZE && b.src % 4 == 0 && b.dst % 4 == 0
  }

  /** The number of leading blocks that pass the checks. */
  function GoodPrefix(blocks: seq<Block>): (n: nat)
    ensures n <= |blocks|
    ensures forall i | 0 <= i < n :: Good(blocks[i])
    ensures n < |blocks| ==> !Good(blocks[n])
  {
    if blocks == [] || !Good(blocks[0]) then 0 else 1 + GoodPrefix(blocks[1..])
  }

  lemma {:induction false} GoodAll(blocks: seq<Block>)
    ensures GoodPrefix(blocks) == |blocks| <==>
            forall b | b in blocks :: 1 <= b.size <= 0x3FFC && b.src % 4 == 0 && b.dst % 4 == 0
  {
    if GoodPrefix(blocks) < |blocks| {
      assert blocks[GoodPrefix(blocks)] in blocks;
    }
  }

  // ----- descriptors

  /** The control word: valid, host-to-host, little endian, a 3-bit priority, perhaps an interrupt. */
  datatype Ctrl = Ctrl(valid: bool, prio: nat, littleEndian: bool, intr: bool)

  datatype Desc = Desc(ctrl: Ctrl, size: nat, src: nat, dst: nat, next: nat)

  /** A descriptor takes 20 bytes aligned to 16. */
  function AddressOf(base: nat, i: nat): nat { base + 32 * i }

  /** What the lowering should leave in descriptor i of n. */
  function Lowered(b: Block, i: nat, n: nat, base: nat, prio: nat): Desc {
    Desc(Ctrl(true, prio, true, i == n - 1), b.size, b.src, b.dst,
         if i == n - 1 then AddressOf(base, i) else AddressOf(base, i + 1))
  }

  ghost predicate IsLowered(desc: seq<Desc>, blocks: seq<Block>, base: nat, prio: nat) {
    |blocks| <= |desc| && forall i | 0 <= i < |blocks| :: desc[i] == Lowered(blocks[i], i, |blocks|, base, prio)
  }

  // ----- the engine

  /** Does address a hold a descriptor? */
  predicate IsDesc(desc: seq<Desc>, base: nat, a: nat) {
    a >= base && (a - base) % 32 == 0 && (a - base) / 32 < |desc|
  }

  function At(desc: seq<Desc>, base: nat, a: nat): Desc
    requires IsDesc(desc, base, a)
  {
    desc[(a - base) / 32]
  }

  /** The addresses that the engine visits: from the first descriptor by next address, up to one that
      names itself. */
  ghost predicate IsWalk(desc: seq<Desc>, base: nat, path: seq<nat>) {
    && path != [] && path[0] == base
    && (forall k | 0 <= k < |path| :: IsDesc(desc, base, path[k]))
    && (forall k | 0 <= k < |path| - 1 :: At(desc, base, path[k]).next == path[k + 1] && path[k + 1] != path[k])
    && At(desc, base, path[|path| - 1]).next == path[|path| - 1]
  }

  /** The engine's copies along a path, for any memory and any way to copy one block. */
  ghost function Engine<M>(copy: (M, nat, nat, nat) -> M, desc: seq<Desc>, base: nat, path: seq<nat>, m: M): M
    requires forall k | 0 <= k < |path| :: IsDesc(desc, base, path[k])
  {
    if path == [] then m
    else
      var d := At(desc, base, path[|path| - 1]);
      copy(Engine(copy, desc, base, path[..|path| - 1], m), d.src, d.dst, d.size)
  }

  /** What the caller asked for: the blocks' copies in list order. */
  ghost function Requested<M>(copy: (M, nat, nat, nat) -> M, blocks: seq<Block>, m: M): M {
    if blocks == [] then m
    else
      var b := blocks[|blocks| - 1];
      copy(Requested(copy, blocks[..|blocks| - 1], m), b.src, b.dst, b.size)
  }

  function Addresses(base: nat, n: nat): (r: seq<nat>)
    ensures |r| == n
  {
    seq(n, i requires 0 <= i < n => AddressOf(base, i))
  }

  lemma {:induction false} AddressIndex(desc: seq<Desc>, base: nat, i: nat)
    requires i < |desc|
    ensures IsDesc(desc, base, AddressOf(base, i)) && At(desc, base, AddressOf(base, i)) == desc[i]
  {
    assert AddressOf(base, i) - base == 32 * i;
  }

  /** The walk exists ... */
  lemma {:induction false} WalkExists(desc: seq<Desc>, blocks: seq<Block>, base: nat, prio: nat)
    requires blocks != [] && IsLowered(desc, blocks, base, prio)
    ensures IsWalk(desc, base, Addresses(base, |blocks|))
  {
    var path := Addresses(base, |blocks|);
    forall k | 0 <= k < |path|
      ensures IsDesc(desc, base, path[k]) && At(desc, base, path[k]) == desc[k]
    {
      AddressIndex(desc, base, k);
    }
  }

  /** ... and there is no other. */
  lemma {:induction false} WalkUnique(desc: seq<Desc>, blocks: seq<Block>, base: nat, prio: nat, path: seq<nat>, k: nat)
    requires blocks != [] && IsLowered(desc, blocks, base, prio) && IsWalk(desc, base, path) && k < |path|
    ensures k < |blocks| && path[k] == AddressOf(base, k)
    ensures k == |path| - 1 <==> k == |blocks| - 1
    decreases k
  {
    if k > 0 {
      WalkUnique(desc, blocks, base, prio, path, k - 1);
      AddressIndex(desc, base, k - 1);
      assert At(desc, base, path[k - 1]).next == path[k];
    }
    AddressIndex(desc, base, k);
    assert desc[k] == Lowered(blocks[k], k, |blocks|, base, prio);
    if k < |path| - 1 {
      assert desc[k].next == path[k + 1] != path[k];
    } else {
      assert desc[k].next == path[k];
    }
  }

  lemma {:induction false} EngineIsRequested<M>(copy: (M, nat, nat, nat) -> M, desc: seq<Desc>, blocks: seq<Block>,
                                                 base: nat, prio: nat, n: nat, m: M)
    requires IsLowered(desc, blocks, base, prio) && n <= |blocks|
    ensures forall k | 0 <= k < n :: IsDesc(desc, base, Addresses(base, n)[k])
    ensures Engine(copy, desc, base, Addresses(base, n), m) == Requested(copy, blocks[..n], m)
    decreases n
  {
    forall k | 0 <= k < n
      ensures IsDesc(desc, base, Addresses(base, n)[k])
    {
      AddressIndex(desc, base, k);
    }
    if n > 0 {
      EngineIsRequested(copy, desc, blocks, base, prio, n - 1, m);
      AddressIndex(desc, base, n - 1);
      assert Addresses(base, n)[..n - 1] == Addresses(base, n - 1);
      assert blocks[..n][..n - 1] == blocks[..n - 1];
    }
  }

  /** DMA lowering preserves meaning: whatever copying a block does to memory, the engine visits one
      descriptor per block, in list order, performs exactly the blocks' copies in that order, so also
      where blocks overlap, and stops at the descriptor that alone raises the interrupt. */
  lemma {:induction false} LoweringPreservesMeaning<M>(copy: (M, nat, nat, nat) -> M, desc: seq<Desc>,
                                                       blocks: seq<Block>, base: nat, prio: nat, path: seq<nat>, m: M)
    requires blocks != [] && IsLowered(desc, blocks, base, prio)
    ensures IsWalk(desc, base, path) <==> path == Addresses(base, |blocks|)
    ensures IsWalk(desc, base, path) ==> Engine(copy, desc, base, path, m) == Requested(copy, blocks, m)
    ensures IsWalk(desc, base, path) ==>
              forall k | 0 <= k < |path| :: At(desc, base, path[k]).ctrl.intr <==> k == |path| - 1
  {
    WalkExists(desc, blocks, base, prio);
    if IsWalk(desc, base, path) {
      WalkIsAddresses(desc, blocks, base, prio, path);
      EngineIsRequested(copy, desc, blocks, base, prio, |blocks|, m);
      assert blocks[..|blocks|] == blocks;
    }
  }

  lemma {:induction false} WalkIsAddresses(desc: seq<Desc>, blocks: seq<Block>, base: nat, prio: nat, path: seq<nat>)
    requires blocks != [] && IsLowered(desc, blocks, base, prio) && IsWalk(desc, base, path)
    ensures path == Addresses(base, |blocks|)
    ensures forall k | 0 <= k < |path| :: At(desc, base, path[k]).ctrl.intr <==> k == |path| - 1
  {
    WalkUnique(desc, blocks, base, prio, path, |path| - 1);
    forall k | 0 <= k < |path|
      ensures path[k] == AddressOf(base, k)
      ensures At(desc, base, path[k]).ctrl.intr <==> k == |path| - 1
    {
      WalkUnique(desc, blocks, base, prio, path, k);
      AddressIndex(desc, base, k);
      assert desc[k] == Lowered(blocks[k], k, |blocks|, base, prio);
    }
  }

  // ----- the driver

  datatype Config = Config(blockCount: nat, head: Block?, memToMem: bool, priority: nat, callback: bool)

  class Channel {
    const base: nat
    /** The channel's MAX_BLOCKS descriptors, and the memory that lies behind them. */
    const desc: array<Desc>
    var busy: bool
    var callback: bool
    var prio: nat
    var enabled: bool
    /** The channel's bit in the raw interrupt register. */
    var pending: bool
    /** The descriptor address register. */
    var descl: nat

    constructor (base: nat, behind: nat)
      ensures Valid() && fresh(desc) && desc.Length == 16 + behind && this.base == base
      ensures !busy && !callback && !enabled && !pending
    {
      this.base := base;
      desc := new Desc[MAX_BLOCKS + behind](_ => Desc(Ctrl(false, 0, false, false), 0, 0, 0, 0));
      busy, callback, prio, enabled, pending, descl := false, false, 0, false, false, 0;
    }

    ghost predicate Valid()
      reads this
    {
      desc.Length >= MAX_BLOCKS
    }

    /** Lowers the block list.  The count in the configuration is checked, but the list is walked by
        pointer: as many descriptors are written as blocks pass the checks from the first one on, whatever
        the count says, so the call stays inside the channel's descriptors exactly when these are
        MAX_BLOCKS at most.  A bad block stops the lowering where it is. */
    method Configure(c: Config, ghost blocks: seq<Block>) returns (r: Code, ghost written: nat)
      requires Valid() && Chain(c.head, blocks) && GoodPrefix(blocks) <= desc.Length
      modifies this`callback, this`prio, desc
      ensures Valid()
      ensures r == Success <==>
              && 1 <= c.blockCount <= 16 && c.head != null && c.memToMem && !busy
              && forall b | b in blocks :: 1 <= b.size <= 0x3FFC && b.src % 4 == 0 && b.dst % 4 == 0
      ensures r == EBUSY <==> 1 <= c.blockCount <= 16 && c.head != null && c.memToMem && busy
      ensures r == Success || r == EBUSY || r == EINVAL
      ensures r == EBUSY || c.blockCount == 0 || c.blockCount > 16 || c.head == null || !c.memToMem ==> written == 0
      ensures 1 <= c.blockCount <= 16 && c.head != null && c.memToMem && !busy ==>
                && written <= |blocks| && (written == |blocks| <==> r == Success)
                && (forall j | 0 <= j < written ::
                      1 <= blocks[j].size <= 0x3FFC && blocks[j].src % 4 == 0 && blocks[j].dst % 4 == 0)
                && (written < |blocks| ==>
                      var b := blocks[written]; b.size == 0 || b.size > 0x3FFC || b.src % 4 != 0 || b.dst % 4 != 0)
      ensures forall j | 0 <= j < written ::
                desc[j] == Desc(Ctrl(true, c.priority / 2 % 8, true, j == |blocks| - 1),
                                blocks[j].size, blocks[j].src, blocks[j].dst,
                                base + 32 * if j == |blocks| - 1 then j else j + 1)
      ensures forall j | written <= j < desc.Length :: desc[j] == old(desc[j])
      ensures r == Success ==>
                && IsLowered(desc[..], blocks, base, c.priority / 2 % 8)
                && callback == c.callback && prio == c.priority / 2 % 8
      ensures r != Success ==> callback == old(callback) && prio == old(prio)
    {
      written := 0;
      if c.blockCount == 0 || c.blockCount > MAX_BLOCKS || c.head == null {
        return EINVAL, written;
      }
      if !c.memToMem {
        return EINVAL, written;
      }
      if busy {
        return EBUSY, written;
      }
      var ok;
      ok, written := Lower(c.head, c.priority / 2 % 8, blocks);
      GoodAll(blocks);
      if !ok {
        return EINVAL, written;
      }
      prio := c.priority / 2 % 8;
      callback := c.callback;
      r := Success;
    }

    /** The loop over the list. */
    method Lower(head: Block?, prio3: nat, ghost blocks: seq<Block>) returns (ok: bool, ghost written: nat)
      requires Valid() && Chain(head, blocks) && GoodPrefix(blocks) <= desc.Length
      modifies desc
      ensures written == GoodPrefix(blocks) && (ok <==> written == |blocks|)
      ensures forall j | 0 <= j < written :: desc[j] == Lowered(blocks[j], j, |blocks|, base, prio3)
      ensures forall j | written <= j < desc.Length :: desc[j] == old(desc[j])
    {
      ok, written := true, 0;
      var block, i := head, 0;
      while block != null
        invariant ok && 0 <= i == written <= |blocks| && i <= GoodPrefix(blocks)
        invariant Chain(block, blocks[i..])
        invariant forall j | 0 <= j < i :: desc[j] == Lowered(blocks[j], j, |blocks|, base, prio3)
        invariant forall j | i <= j < desc.Length :: desc[j] == old(desc[j])
        decreases |blocks| - i
      {
        ChainDrop(head, blocks, i);
        ok := LowerOne(block, i, prio3, blocks);
        if !ok {
          break;
        }
        block := block.next;
        i := i + 1;
        written := i;
      }
    }

    /** One round of the loop: the checks, then descriptor i. */
    method LowerOne(block: Block, i: nat, prio3: nat, ghost blocks: seq<Block>) returns (ok: bool)
      requires i < |blocks| && block == blocks[i] && (block.next == null <==> i == |blocks| - 1)
      requires Good(block) ==> i < desc.Length
      modifies desc
      ensures ok <==> Good(block)
      ensures ok ==> desc[i] == Lowered(block, i, |blocks|, base, prio3)
      ensures forall j | 0 <= j < desc.Length && (ok ==> j != i) :: desc[j] == old(desc[j])
    {
      if block.size == 0 || block.size > MAX_SIZE {
        return false;
      }
      if block.src % 4 != 0 || block.dst % 4 != 0 {
        return false;
      }
      Fill(block, i, prio3);
      ok := true;
    }

    /** Fills in descriptor i: linked to the next one, or for the last block to itself with the
        interrupt on. */
    method Fill(block: Block, i: nat, prio3: nat)
      requires i < desc.Length
      modifies desc
      ensures desc[i] == Desc(Ctrl(true, prio3, true, block.next == null), block.size, block.src, block.dst,
                              if block.next == null then AddressOf(base, i) else AddressOf(base, i + 1))
      ensures forall j | 0 <= j < desc.Length && j != i :: desc[j] == old(desc[j])
    {
      if block.next != null {
        desc[i] := Desc(Ctrl(true, prio3, true, false), block.size, block.src, block.dst, AddressOf(base, i + 1));
      } else {
        desc[i] := Desc(Ctrl(true, prio3, true, true), block.size, block.src, block.dst, AddressOf(base, i));
      }
    }

    /** Clears the channel's pending interrupt, points the engine at the first descriptor and enables the
        channel. */
    method Start() returns (r: Code)
      requires Valid()
      modifies this`descl, this`enabled, this`pending
      ensures Valid()
      ensures r == if busy then EBUSY else Success
      ensures r == Success ==> descl == base && enabled && !pending
      ensures r != Success ==> descl == old(descl) && enabled == old(enabled) && pending == old(pending)
    {
      if busy {
        return EBUSY;
      }
      pending := false;
      descl := base;
      enabled := true;
      r := Success;
    }
  }

  // ----- interrupts

  /** User channel ch has bit ch + 7 in the global registers. */
  function BitOf(ch: nat): nat { ch + 7 }

  datatype Call = Call(channel: nat, status: Code)

  /** The callbacks that the pending bits of the channels below n call for, in channel order. */
  function Due(raw: set<nat>, done: set<nat>, hooked: seq<bool>, n: nat): seq<Call>
    requires n <= |hooked|
  {
    if n == 0 then []
    else
      var ch := n - 1;
      Due(raw, done, hooked, ch)
      + if BitOf(ch) in raw && hooked[ch] then [Call(ch, if BitOf(ch) in done then Success else EIO)] else []
  }

  /** The interrupt handler: every pending channel is cleared, its callback is run once with the
      status that the done bit shows, and the bits of other engines are left alone. */
  method Isr(raw: set<nat>, done: set<nat>, hooked: seq<bool>) returns (raw': set<nat>, calls: seq<Call>)
    ensures raw' == set b | b in raw && !(7 <= b < |hooked| + 7)
    ensures calls == Due(raw, done, hooked, |hooked|) && InOrder(calls, done, |hooked|)
    ensures forall ch: nat :: Called(calls, ch) <==> ch < |hooked| && ch + 7 in raw && hooked[ch]
  {
    raw', calls := raw, [];
    var ch := 0;
    while ch < |hooked|
      invariant 0 <= ch <= |hooked|
      invariant raw' == set b | b in raw && !(7 <= b < ch + 7)
      invariant calls == Due(raw, done, hooked, ch)
    {
      var status := EIO;
      assert BitOf(ch) in raw' <==> BitOf(ch) in raw;
      if BitOf(ch) in raw' {
        if BitOf(ch) in done {
          status := Success;
        }
        raw' := raw' - {BitOf(ch)};
        if hooked[ch] {
          calls := calls + [Call(ch, status)];
        }
      }
      ch := ch + 1;
    }
    forall ch: nat
      ensures InOrder(calls, done, |hooked|)
      ensures Called(calls, ch) <==> ch < |hooked| && ch + 7 in raw && hooked[ch]
    {
      DueExactly(raw, done, hooked, |hooked|, ch);
    }
  }

  /** Calls are in channel order, so each channel is called at most once, with its own status. */
  ghost predicate InOrder(calls: seq<Call>, done: set<nat>, n: nat) {
    && (forall i, j | 0 <= i < j < |calls| :: calls[i].channel < calls[j].channel)
    && (forall i | 0 <= i < |calls| ::
          calls[i].channel < n && calls[i].status == if calls[i].channel + 7 in done then Success else EIO)
  }

  ghost predicate Called(calls: seq<Call>, ch: nat) {
    exists i :: 0 <= i < |calls| && calls[i].channel == ch
  }

  lemma {:induction false} OneMoreCall(calls: seq<Call>, done: set<nat>, n: nat, c: Call, ch: nat)
    requires InOrder(calls, done, n) && c.channel == n && c.status == if n + 7 in done then Success else EIO
    ensures InOrder(calls + [c], done, n + 1)
    ensures Called(calls + [c], ch) <==> Called(calls, ch) || ch == n
  {
    var all := calls + [c];
    assert all[|calls|] == c;
    if Called(calls, ch) {
      var i :| 0 <= i < |calls| && calls[i].channel == ch;
      assert all[i].channel == ch;
    }
  }

  /** A channel is called exactly when it is pending and has a callback, once, with the status that
      its done bit shows. */
  lemma {:induction false} DueExactly(raw: set<nat>, done: set<nat>, hooked: seq<bool>, n: nat, ch: nat)
    requires n <= |hooked|
    ensures InOrder(Due(raw, done, hooked, n), done, n)
    ensures Called(Due(raw, done, hooked, n), ch) <==> ch < n && ch + 7 in raw && hooked[ch]
    decreases n
  {
    if n > 0 {
      var last := n - 1;
      DueExactly(raw, done, hooked, last, ch);
      var calls := Due(raw, done, hooked, last);
      if last + 7 in raw && hooked[last] {
        OneMoreCall(calls, done, last, Call(last, if last + 7 in done then Success else EIO), ch);
      } else {
        assert Due(raw, done, hooked, n) == calls;
      }
    }
  }
}
