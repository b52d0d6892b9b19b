/** How many erase commands an erase call issues, against every other way to erase the same range. */
module FlashMinimal {
  import opened NorChip
  import opened FlashPlan
  import opened Arith

  predicate SectorOrBlock(c: Cmd) { c.SectorErase? || c.BlockErase? }

  ghost predicate Plain(cmds: seq<Cmd>) { forall c | c in cmds :: SectorOrBlock(c) }

  /** Sector erases, and block erases of blocks that the array holds whole (or not at all). */
  ghost predicate Usable(cmds: seq<Cmd>, chipSize: nat) { Plain(cmds) && forall c | c in cmds :: Whole(c, chipSize) }

  predicate Whole(c: Cmd, chipSize: nat) {
    c.BlockErase? ==> c.addr / 65536 * 65536 + 65536 <= chipSize || c.addr / 65536 * 65536 >= chipSize
  }

  ghost predicate Reached(cmds: seq<Cmd>, i: nat) { exists c | c in cmds :: Touches(c, i) }

  ghost predicate ErasesExactly(cmds: seq<Cmd>, lo: nat, hi: nat, chipSize: nat) {
    forall m: seq<byte> {:trigger Run(cmds, m)} | |m| == chipSize :: Run(cmds, m) == Erased(m, lo, hi)
  }

  lemma {:induction false} RunErases(cmds: seq<Cmd>, mem: seq<byte>, i: nat)
    requires Plain(cmds)
    requires i < |mem|
    ensures Run(cmds, mem)[i] == if Reached(cmds, i) then ERASED else mem[i]
    decreases |cmds|
  {
    if cmds != [] {
      var k := |cmds| - 1;
      RunErases(cmds[..k], mem, i);
      assert cmds == cmds[..k] + [cmds[k]];
      assert cmds[k] in cmds;
    }
  }

  function Zeros(n: nat): (r: seq<byte>)
    ensures |r| == n && forall i | 0 <= i < n :: r[i] == 0
  {
    seq(n, _ => 0)
  }

  ghost predicate Covers(cmds: seq<Cmd>, lo: nat, hi: nat, chipSize: nat) {
    forall i: nat | i < chipSize :: Reached(cmds, i) <==> lo <= i < hi
  }

  /** A sequence erases exactly a range when it reaches exactly that range. */
  lemma {:induction false} ExactCovers(cmds: seq<Cmd>, lo: nat, hi: nat, chipSize: nat)
    requires Plain(cmds)
    ensures ErasesExactly(cmds, lo, hi, chipSize) <==> Covers(cmds, lo, hi, chipSize)
  {
    if ErasesExactly(cmds, lo, hi, chipSize) {
      var zeros := Zeros(chipSize);
      assert Run(cmds, zeros) == Erased(zeros, lo, hi);
      forall i: nat | i < chipSize
        ensures Reached(cmds, i) <==> lo <= i < hi
      {
        RunErases(cmds, zeros, i);
        assert Erased(zeros, lo, hi)[i] == if lo <= i < hi then ERASED else 0;
      }
    }
    if Covers(cmds, lo, hi, chipSize) {
      forall m: seq<byte> | |m| == chipSize
        ensures Run(cmds, m) == Erased(m, lo, hi)
      {
        forall i: nat | i < chipSize
          ensures Run(cmds, m)[i] == Erased(m, lo, hi)[i]
        {
          RunErases(cmds, m, i);
        }
      }
    }
  }

  ghost predicate Serves(cmds: seq<Cmd>, j: nat, w: seq<nat>) {
    j < |cmds| && exists k: nat | k < |w| :: Touches(cmds[j], w[k])
  }

  ghost predicate AllReached(cmds: seq<Cmd>, w: seq<nat>) {
    forall k | 0 <= k < |w| :: Reached(cmds, w[k])
  }

  ghost predicate Apart(cmds: seq<Cmd>, w: seq<nat>) {
    forall c, j, k | c in cmds && 0 <= j < k < |w| :: !(Touches(c, w[j]) && Touches(c, w[k]))
  }

  /** Marks that no command reaches two of need at least as many commands. */
  lemma {:induction false} Charge(w: seq<nat>, cmds: seq<Cmd>) returns (used: set<nat>)
    requires AllReached(cmds, w) && Apart(cmds, w)
    ensures |used| == |w| && forall j | j in used :: Serves(cmds, j, w)
  {
    if w == [] {
      used := {};
    } else {
      var n := |w| - 1;
      var w' := w[..n];
      assert forall k | 0 <= k < |w'| :: w'[k] == w[k];
      used := Charge(w', cmds);
      var c :| c in cmds && Touches(c, w[n]);
      var j: nat :| j < |cmds| && cmds[j] == c;
      forall m | m in used
        ensures m != j && Serves(cmds, m, w)
      {
        var k: nat :| k < |w'| && Touches(cmds[m], w'[k]);
        assert w[k] == w'[k];
        assert cmds[m] in cmds;
      }
      used := used + {j};
    }
  }

  lemma {:induction false} BoundedSet(s: set<nat>, n: nat)
    requires forall j | j in s :: j < n
    ensures |s| <= n
    decreases n
  {
    if n == 0 {
      assert s == {};
    } else {
      BoundedSet(s - {n - 1}, n - 1);
    }
  }

  function AddrOf(c: Cmd): nat { if c.SectorErase? || c.BlockErase? then c.addr else 0 }

  function Marks(plan: seq<Cmd>): (r: seq<nat>)
    ensures |r| == |plan|
  {
    seq(|plan|, k requires 0 <= k < |plan| => AddrOf(plan[k]))
  }

  /** The numbers of a three-phase plan for a sector-aligned range: the head lies in the block
      before boundary q, middle and tail start on it, and the tail is less than a block. */
  ghost predicate Aligned(offset: nat, h: nat, b: nat, t: nat, q: nat) {
    && offset % 4096 == 0 && t < 16
    && offset + h * 4096 <= q * 65536
    && (h > 0 ==> q * 65536 < offset + 65536)
    && (b > 0 || t > 0 ==> offset + h * 4096 == q * 65536)
  }

  function MarkAt(offset: nat, h: nat, b: nat, k: nat): nat {
    if k < h then offset + k * 4096
    else if k < h + b then offset + h * 4096 + (k - h) * 65536
    else offset + h * 4096 + b * 65536 + (k - h - b) * 4096
  }

  lemma {:induction false} MarkShape(offset: nat, h: nat, b: nat, t: nat, k: nat)
    requires k < h + b + t
    ensures Marks(Phases(offset, h, b, t))[k] == MarkAt(offset, h, b, k)
  {
  }

  /** Addresses of the plan are sector-aligned, lie in the range and strictly increase. */
  lemma {:induction false} MarksIncrease(offset: nat, h: nat, b: nat, t: nat, j: nat, k: nat)
    requires offset % 4096 == 0 && j < k < h + b + t
    ensures MarkAt(offset, h, b, j) + 4096 <= MarkAt(offset, h, b, k)
    ensures MarkAt(offset, h, b, j) % 4096 == 0
  {
    var m := MarkAt(offset, h, b, j);
    assert m == offset + (if j < h then j else if j < h + b then h + 16 * (j - h) else h + 16 * b + (j - h - b)) * 4096;
  }

  lemma {:induction false} MarkInRange(offset: nat, h: nat, b: nat, t: nat, k: nat)
    requires k < h + b + t
    ensures offset <= MarkAt(offset, h, b, k) < offset + (h + 16 * b + t) * 4096
  {
  }

  lemma {:induction false} InUnit(x: nat, q: nat, unit: nat)
    requires unit == 4096 || unit == 65536
    ensures x / unit == q <==> q * unit <= x < q * unit + unit
  {
  }

  /** A 64 KB block that lies inside the range holds one plan address only. */
  lemma {:induction false} OneMarkPerBlock(offset: nat, h: nat, b: nat, t: nat, q: nat, p: nat, j: nat, k: nat)
    requires Aligned(offset, h, b, t, q) && j < k < h + b + t
    requires offset <= p * 65536 && p * 65536 + 65536 <= offset + (h + 16 * b + t) * 4096
    ensures !(p * 65536 <= MarkAt(offset, h, b, j) && MarkAt(offset, h, b, k) < p * 65536 + 65536)
  {
    var x, y := MarkAt(offset, h, b, j), MarkAt(offset, h, b, k);
    if h > 0 {
      HeadBlock(offset, q, p);
    }
    if k < h + b {
      assert h <= j ==> x + 65536 <= y;
    } else {
      TailBlock(q + b, t, p);
      assert (q + b) * 65536 <= y;
    }
  }

  lemma {:induction false} HeadBlock(offset: nat, q: nat, p: nat)
    requires q * 65536 < offset + 65536 && offset <= p * 65536
    ensures q <= p
  {
  }

  lemma {:induction false} TailBlock(e: nat, t: nat, p: nat)
    requires p * 65536 + 65536 <= e * 65536 + t * 4096 && t < 16
    ensures p < e
  {
  }

  lemma {:induction false} NoTwoMarks(offset: nat, h: nat, b: nat, t: nat, q: nat, chipSize: nat, c: Cmd, j: nat,
                                      k: nat)
    requires Aligned(offset, h, b, t, q) && j < k < h + b + t
    requires offset + (h + 16 * b + t) * 4096 <= chipSize && chipSize % 4096 == 0
    requires SectorOrBlock(c) && Whole(c, chipSize)
    requires forall i: nat | i < chipSize && Touches(c, i) :: offset <= i < offset + (h + 16 * b + t) * 4096
    ensures !(Touches(c, MarkAt(offset, h, b, j)) && Touches(c, MarkAt(offset, h, b, k)))
  {
    var x, y := MarkAt(offset, h, b, j), MarkAt(offset, h, b, k);
    MarksIncrease(offset, h, b, t, j, k);
    if c.BlockErase? {
      var p := c.addr / 65536;
      InUnit(x, p, 65536);
      InUnit(y, p, 65536);
      if Touches(c, x) {
        MarkInRange(offset, h, b, t, j);
        InUnit(p * 65536, p, 65536);
        InUnit(p * 65536 + 65536 - 1, p, 65536);
        assert Touches(c, p * 65536) && Touches(c, p * 65536 + 65536 - 1);
        OneMarkPerBlock(offset, h, b, t, q, p, j, k);
      }
    }
  }

  lemma {:induction false} StaysInside(cmds: seq<Cmd>, lo: nat, hi: nat, chipSize: nat, c: Cmd)
    requires Covers(cmds, lo, hi, chipSize) && c in cmds
    ensures forall i: nat | i < chipSize && Touches(c, i) :: lo <= i < hi
  {
    forall i: nat | i < chipSize && Touches(c, i)
      ensures lo <= i < hi
    {
      assert Reached(cmds, i);
    }
  }

  lemma {:induction false} MarksReached(offset: nat, h: nat, b: nat, t: nat, chipSize: nat, alt: seq<Cmd>)
    requires offset + (h + 16 * b + t) * 4096 <= chipSize
    requires Covers(alt, offset, offset + (h + 16 * b + t) * 4096, chipSize)
    ensures AllReached(alt, Marks(Phases(offset, h, b, t)))
  {
    var w := Marks(Phases(offset, h, b, t));
    forall k | 0 <= k < |w|
      ensures Reached(alt, w[k])
    {
      MarkShape(offset, h, b, t, k);
      MarkInRange(offset, h, b, t, k);
    }
  }

  lemma {:induction false} MarksApart(offset: nat, h: nat, b: nat, t: nat, q: nat, chipSize: nat, alt: seq<Cmd>)
    requires Aligned(offset, h, b, t, q)
    requires offset + (h + 16 * b + t) * 4096 <= chipSize && chipSize % 4096 == 0
    requires Usable(alt, chipSize) && Covers(alt, offset, offset + (h + 16 * b + t) * 4096, chipSize)
    ensures Apart(alt, Marks(Phases(offset, h, b, t)))
  {
    var w := Marks(Phases(offset, h, b, t));
    forall c, j, k | c in alt && 0 <= j < k < |w|
      ensures !(Touches(c, w[j]) && Touches(c, w[k]))
    {
      assert SectorOrBlock(c) && Whole(c, chipSize);
      StaysInside(alt, offset, offset + (h + 16 * b + t) * 4096, chipSize, c);
      MarkShape(offset, h, b, t, j);
      MarkShape(offset, h, b, t, k);
      NoTwoMarks(offset, h, b, t, q, chipSize, c, j, k);
    }
  }

  lemma {:induction false} PhasesMinimal(offset: nat, h: nat, b: nat, t: nat, q: nat, chipSize: nat, alt: seq<Cmd>)
    requires Aligned(offset, h, b, t, q)
    requires offset + (h + 16 * b + t) * 4096 <= chipSize && chipSize % 4096 == 0
    requires Usable(alt, chipSize) && Covers(alt, offset, offset + (h + 16 * b + t) * 4096, chipSize)
    ensures h + b + t <= |alt|
  {
    MarksReached(offset, h, b, t, chipSize, alt);
    MarksApart(offset, h, b, t, q, chipSize, alt);
    var used := Charge(Marks(Phases(offset, h, b, t)), alt);
    BoundedSet(used, |alt|);
  }

  lemma {:induction false} HeadAligned(offset: nat, size: nat) returns (q: nat)
    requires offset % 4096 == 0 && size % 4096 == 0
    ensures var h := HeadCount(offset, size);
            && offset + h * 4096 <= q * 65536 && h * 4096 <= size
            && (h > 0 ==> q * 65536 < offset + 65536)
            && (h * 4096 < size ==> offset + h * 4096 == q * 65536)
  {
    var m, e := SplitOffset(offset);
    var z := size / 4096;
    HeadCountAligned(offset, size, m, e, z);
    q := if e == 0 then m else m + 1;
    HeadReaches(m, e, z, if e == 0 then 0 else Min(16 - e, z), q);
  }

  lemma {:induction false} SplitOffset(offset: nat) returns (m: nat, e: nat)
    requires offset % 4096 == 0
    ensures offset == 65536 * m + 4096 * e && e < 16
  {
    var s := offset / 4096;
    m, e := s / 16, s % 16;
  }

  lemma {:induction false} HeadReaches(m: nat, e: nat, z: nat, h: nat, q: nat)
    requires e < 16 && h == (if e == 0 then 0 else Min(16 - e, z)) && q == if e == 0 then m else m + 1
    ensures var o := 65536 * m + 4096 * e;
            && o + h * 4096 <= q * 65536 && h * 4096 <= 4096 * z
            && (h > 0 ==> q * 65536 < o + 65536)
            && (h * 4096 < 4096 * z ==> o + h * 4096 == q * 65536)
  {
  }

  lemma {:induction false} HeadCountAligned(offset: nat, size: nat, m: nat, e: nat, z: nat)
    requires offset == 65536 * m + 4096 * e && e < 16 && size == 4096 * z
    ensures HeadCount(offset, size) == if e == 0 then 0 else Min(16 - e, z)
  {
    assert offset % 65536 == 4096 * e;
    CountExact(Min(16 - e, z));
  }

  lemma {:induction false} CountExact(z: nat)
    ensures SectorCount(4096 * z) == z
  {
  }

  lemma {:induction false} PlanAligned(offset: nat, size: nat) returns (q: nat)
    requires offset % 4096 == 0 && size % 4096 == 0
    ensures Aligned(offset, HeadCount(offset, size), MiddleCount(offset, size), TailCount(offset, size), q)
  {
    q := HeadAligned(offset, size);
    var h := HeadCount(offset, size);
    var left := size - h * 4096;
    if left > 0 {
      TailShort(offset + h * 4096, left, q);
    }
  }

  lemma {:induction false} TailShort(a: nat, left: nat, q: nat)
    requires a == q * 65536 && left % 4096 == 0
    ensures SectorCount(left - BlockCount(a, left) * 65536) < 16
  {
  }

  /** For a sector-aligned range, no sequence of 4 KB and 64 KB erases that erases exactly that
      range, whatever its order and overlaps, is shorter than the three-phase plan. */
  lemma {:induction false} AlignedPlanMinimal(offset: nat, size: nat, chipSize: nat, alt: seq<Cmd>)
    requires offset % 4096 == 0 && size % 4096 == 0
    requires offset + size <= chipSize && chipSize % 4096 == 0
    requires Usable(alt, chipSize) && ErasesExactly(alt, offset, offset + size, chipSize)
    ensures |MixedPlan(offset, size)| <= |alt|
  {
    assert Covers(alt, offset, offset + size, chipSize) by {
      ExactCovers(alt, offset, offset + size, chipSize);
    }
    CoverMinimal(offset, size, chipSize, alt);
  }

  lemma {:induction false} NotEmpty(lo: nat, hi: nat, chipSize: nat, alt: seq<Cmd>)
    requires lo < hi <= chipSize
    requires Plain(alt) && ErasesExactly(alt, lo, hi, chipSize)
    ensures 1 <= |alt|
  {
    ExactCovers(alt, lo, hi, chipSize);
    assert Reached(alt, lo);
  }

  lemma {:induction false} CoverMinimal(offset: nat, size: nat, chipSize: nat, alt: seq<Cmd>)
    requires offset % 4096 == 0 && size % 4096 == 0
    requires offset + size <= chipSize && chipSize % 4096 == 0
    requires Usable(alt, chipSize) && Covers(alt, offset, offset + size, chipSize)
    ensures |MixedPlan(offset, size)| <= |alt|
  {
    var q := PlanAligned(offset, size);
    PhaseSizes(offset, size);
    assert SectorCount(size) * 4096 == size;
    PhasesMinimal(offset, HeadCount(offset, size), MiddleCount(offset, size), TailCount(offset, size), q, chipSize,
                  alt);
  }

  /** The one case where the driver is not minimal: an odd size whose rounding completes a 64 KB
      block inside the range; the code erases that block as sixteen sectors. */
  predicate Wasteful(offset: nat, size: nat) {
    var r := SectorCount(size) * 4096;
    size % 4096 != 0 && (offset + r) % 65536 == 0 && r >= 65536
  }

  function MiddleAndTail(a: nat, size: nat): nat {
    var b := BlockCount(a, size);
    b + SectorCount(Less(size, b * 65536))
  }

  lemma {:induction false} SameHead(offset: nat, size: nat)
    requires offset % 4096 == 0
    ensures HeadCount(offset, SectorCount(size) * 4096) == HeadCount(offset, size)
  {
  }

  lemma {:induction false} PhasesLength(offset: nat, size: nat)
    ensures var h := HeadCount(offset, size);
            |MixedPlan(offset, size)| == h + MiddleAndTail(offset + h * 4096, Less(size, h * 4096))
  {
  }

  lemma {:induction false} RoundedRest(offset: nat, size: nat)
    requires offset % 4096 == 0
    ensures var h := HeadCount(offset, size);
            && HeadCount(offset, SectorCount(size) * 4096) == h
            && Less(SectorCount(size) * 4096, h * 4096) == SectorCount(Less(size, h * 4096)) * 4096
            && (SectorCount(size) <= h ==> Less(size, h * 4096) == 0)
  {
    SameHead(offset, size);
    HeadSize(offset, size);
    if SectorCount(size) > HeadCount(offset, size) {
      MoreThan(size, HeadCount(offset, size));
      CountMinus(size, HeadCount(offset, size));
    }
  }

  lemma {:induction false} RestLength(offset: nat, size: nat, h: nat)
    requires offset % 4096 == 0 && h == HeadCount(offset, size)
    ensures var left := Less(size, h * 4096);
            MiddleAndTail(offset + h * 4096, left) ==
            MiddleAndTail(offset + h * 4096, SectorCount(left) * 4096) + if Wasteful(offset, size) then 15 else 0
  {
    RoundedRest(offset, size);
    var q := HeadAligned(offset, SectorCount(size) * 4096);
    if SectorCount(size) > h {
      WastefulTail(offset, size, h, q);
      CountMinus(size, h);
      MiddleLength(offset + h * 4096, size - h * 4096);
    } else {
      HeadSize(offset, size);
      WastefulNever(offset, size, h, q);
    }
  }

  lemma {:induction false} PlanLength(offset: nat, size: nat)
    requires offset % 4096 == 0
    ensures |MixedPlan(offset, size)| ==
            |MixedPlan(offset, SectorCount(size) * 4096)| + if Wasteful(offset, size) then 15 else 0
  {
    RoundedRest(offset, size);
    PhasesLength(offset, size);
    PhasesLength(offset, SectorCount(size) * 4096);
    RestLength(offset, size, HeadCount(offset, size));
  }

  lemma {:induction false} ModPlus(q: nat, x: nat)
    ensures (q * 65536 + x) % 65536 == x % 65536
    ensures (q * 4096 + x) % 4096 == x % 4096
  {
    DivModUnique(q * 65536 + x, 65536, q + x / 65536, x % 65536);
    DivModUnique(q * 4096 + x, 4096, q + x / 4096, x % 4096);
  }

  lemma {:induction false} MoreThan(size: nat, h: nat)
    requires SectorCount(size) > h
    ensures size >= h * 4096
  {
  }

  lemma {:induction false} FullBlock(z: nat)
    requires z > 0 && z * 4096 % 65536 == 0
    ensures z * 4096 >= 65536
  {
  }

  lemma {:induction false} WastefulTail(offset: nat, size: nat, h: nat, q: nat)
    requires SectorCount(size) > h && offset + h * 4096 == q * 65536
    ensures size >= h * 4096
    ensures var left := size - h * 4096;
            Wasteful(offset, size) <==> left % 4096 != 0 && SectorCount(left) * 4096 % 65536 == 0
  {
    MoreThan(size, h);
    CountMinus(size, h);
    var z := SectorCount(size) - h;
    ModPlus(h, size - h * 4096);
    ModPlus(q, z * 4096);
    assert offset + SectorCount(size) * 4096 == q * 65536 + z * 4096;
    if z * 4096 % 65536 == 0 {
      FullBlock(z);
    }
  }

  lemma {:induction false} WastefulNever(offset: nat, size: nat, h: nat, q: nat)
    requires SectorCount(size) == h && offset + h * 4096 <= q * 65536
    requires h > 0 ==> q * 65536 < offset + 65536
    ensures !Wasteful(offset, size)
  {
  }

  lemma {:induction false} MiddleLength(a: nat, size: nat)
    requires a % 65536 == 0 && size > 0
    ensures var s := SectorCount(size) * 4096;
            MiddleAndTail(a, size) ==
            MiddleAndTail(a, s) + if size % 4096 != 0 && s % 65536 == 0 then 15 else 0
  {
    var z, z' := size / 4096, SectorCount(size);
    CountExact(z');
    MiddleAndTailSize(a, size);
    MiddleAndTailSize(a, z' * 4096);
    BlocksOf(z' * 4096);
    Sixteens(z, z');
  }

  lemma {:induction false} MiddleAndTailSize(a: nat, size: nat)
    requires a % 65536 == 0
    ensures MiddleAndTail(a, size) == SectorCount(size) - 15 * (size / 4096 / 16)
  {
    MiddleSize(a, size);
    BlocksOf(size);
  }

  lemma {:induction false} Sixteens(z: nat, z': nat)
    requires z' == z || z' == z + 1
    ensures z' / 16 == if z' == z + 1 && z' % 16 == 0 then z / 16 + 1 else z / 16
  {
  }

  lemma {:induction false} BlocksOf(size: nat)
    ensures size / 65536 == size / 4096 / 16
    ensures size % 4096 == 0 ==> (size % 65536 == 0 <==> size / 4096 % 16 == 0)
  {
  }

  /** n commands are as few as any sequence of 4 KB and 64 KB erases of exactly this range. */
  ghost predicate Fewest(n: nat, lo: nat, hi: nat, chipSize: nat) {
    forall alt: seq<Cmd> {:trigger ErasesExactly(alt, lo, hi, chipSize)}
      | Usable(alt, chipSize) && ErasesExactly(alt, lo, hi, chipSize) :: n <= |alt|
  }

  /** Exactly when the number of commands is minimal, for every size: no other sequence of 4 KB and
      64 KB erases of the same range is shorter unless the call is Wasteful (and not a chip erase). */
  lemma {:induction false} EraseCountMinimalIff(offset: nat, size: nat, chipSize: nat)
    requires 0 < size && offset + size <= chipSize && chipSize % 4096 == 0
    requires offset % 4096 == 0
    ensures Fewest(|ErasePlan(offset, size, chipSize)|, offset, EraseEnd(offset, size), chipSize)
            <==> size == chipSize || !Wasteful(offset, size)
  {
    var best := BestErase(offset, size, chipSize);
    FewestIff(|ErasePlan(offset, size, chipSize)|, best, size == chipSize, Wasteful(offset, size),
              offset, EraseEnd(offset, size), chipSize);
  }

  lemma {:induction false} BestErase(offset: nat, size: nat, chipSize: nat) returns (best: seq<Cmd>)
    requires 0 < size && offset + size <= chipSize && chipSize % 4096 == 0
    requires offset % 4096 == 0
    ensures Usable(best, chipSize) && ErasesExactly(best, offset, EraseEnd(offset, size), chipSize)
    ensures Fewest(|best|, offset, EraseEnd(offset, size), chipSize)
    ensures Fewest(1, offset, EraseEnd(offset, size), chipSize)
    ensures |ErasePlan(offset, size, chipSize)| ==
            if size == chipSize then 1 else |best| + if Wasteful(offset, size) then 15 else 0
  {
    var r := SectorCount(size) * 4096;
    RoundedFits(offset, size, chipSize, r);
    best := BestPlan(offset, r, chipSize);
    EraseCount(offset, size, chipSize, r, best);
  }

  lemma {:induction false} BestPlan(offset: nat, r: nat, chipSize: nat) returns (best: seq<Cmd>)
    requires 0 < r && offset + r <= chipSize && chipSize % 4096 == 0
    requires offset % 4096 == 0 && r % 4096 == 0
    ensures best == MixedPlan(offset, r)
    ensures Usable(best, chipSize) && ErasesExactly(best, offset, offset + r, chipSize)
    ensures Fewest(|best|, offset, offset + r, chipSize) && Fewest(1, offset, offset + r, chipSize)
  {
    best := MixedPlan(offset, r);
    BestIsFewest(offset, r, chipSize, best);
    BestIsExact(offset, r, chipSize, best);
  }

  lemma {:induction false} EraseCount(offset: nat, size: nat, chipSize: nat, r: nat, best: seq<Cmd>)
    requires offset % 4096 == 0 && r == SectorCount(size) * 4096 && best == MixedPlan(offset, r)
    ensures |ErasePlan(offset, size, chipSize)| ==
            if size == chipSize then 1 else |best| + if Wasteful(offset, size) then 15 else 0
    ensures EraseEnd(offset, size) == offset + r
  {
    PlanLength(offset, size);
  }

  lemma {:induction false} RoundedFits(offset: nat, size: nat, chipSize: nat, r: nat)
    requires 0 < size && r == SectorCount(size) * 4096
    requires offset + size <= chipSize && chipSize % 4096 == 0 && offset % 4096 == 0
    ensures 0 < r && offset + r <= chipSize && r % 4096 == 0
  {
    var k, o, z := chipSize / 4096, offset / 4096, SectorCount(size);
    assert 0 < z && 4096 * z < size + 4096;
    FitsInSectors(4096 * o, size, k, o, z);
  }

  lemma {:induction false} FitsInSectors(offset: nat, size: nat, k: nat, o: nat, z: nat)
    requires offset == 4096 * o && offset + size <= 4096 * k && 4096 * z < size + 4096
    ensures offset + 4096 * z <= 4096 * k
  {
    assert o + z <= k;
  }

  lemma {:induction false} FewestIff(n: nat, best: seq<Cmd>, whole: bool, wasteful: bool, lo: nat, hi: nat,
                                     chipSize: nat)
    requires Usable(best, chipSize) && ErasesExactly(best, lo, hi, chipSize)
    requires Fewest(|best|, lo, hi, chipSize) && Fewest(1, lo, hi, chipSize)
    requires n == if whole then 1 else |best| + if wasteful then 15 else 0
    ensures Fewest(n, lo, hi, chipSize) <==> whole || !wasteful
  {
  }

  lemma {:induction false} BestIsFewest(offset: nat, r: nat, chipSize: nat, best: seq<Cmd>)
    requires 0 < r && offset + r <= chipSize && chipSize % 4096 == 0
    requires offset % 4096 == 0 && r % 4096 == 0
    requires best == MixedPlan(offset, r)
    ensures Fewest(|best|, offset, offset + r, chipSize)
    ensures Fewest(1, offset, offset + r, chipSize)
  {
    forall alt: seq<Cmd> | Usable(alt, chipSize) && ErasesExactly(alt, offset, offset + r, chipSize)
      ensures |MixedPlan(offset, r)| <= |alt| && 1 <= |alt|
    {
      AlignedPlanMinimal(offset, r, chipSize, alt);
      NotEmpty(offset, offset + r, chipSize, alt);
    }
  }

  lemma {:induction false} BestIsExact(offset: nat, r: nat, chipSize: nat, best: seq<Cmd>)
    requires 0 < r && offset + r <= chipSize && offset % 4096 == 0 && r % 4096 == 0
    requires best == MixedPlan(offset, r)
    ensures Usable(best, chipSize)
    ensures ErasesExactly(best, offset, offset + r, chipSize)
  {
    MixedPlain(offset, r);
    MixedWhole(offset, r, chipSize);
    forall m: seq<byte> | |m| == chipSize
      ensures Run(MixedPlan(offset, r), m) == Erased(m, offset, offset + r)
    {
      MixedPlanRun(offset, r, m);
    }
  }

  lemma {:induction false} MixedPlain(offset: nat, r: nat)
    ensures Plain(MixedPlan(offset, r))
  {
  }

  /** The plan's blocks lie in its stretch. */
  lemma {:induction false} MixedWhole(offset: nat, r: nat, chipSize: nat)
    requires offset + r <= chipSize && offset % 4096 == 0 && r % 4096 == 0
    ensures forall c | c in MixedPlan(offset, r) :: Whole(c, chipSize)
  {
    MixedPlain(offset, r);
    MixedTiles(offset, r, chipSize);
    TilesWhole(MixedPlan(offset, r), offset, offset + r, chipSize);
  }

  lemma {:induction false} TilesWhole(plan: seq<Cmd>, lo: nat, hi: nat, chipSize: nat)
    requires Tiles(plan, lo, hi, chipSize) && hi <= chipSize && Plain(plan)
    ensures lo <= hi && forall c | c in plan :: Whole(c, chipSize)
  {
    if plan != [] {
      TilesWhole(plan[1..], lo + Span(plan[0], chipSize), hi, chipSize);
      assert SectorOrBlock(plan[0]);
      FirstWhole(plan[0], lo, chipSize);
      forall c | c in plan
        ensures Whole(c, chipSize)
      {
        assert c == plan[0] || c in plan[1..];
      }
    }
  }

  lemma {:induction false} FirstWhole(c: Cmd, lo: nat, chipSize: nat)
    requires Reaches(c, lo, lo + Span(c, chipSize), chipSize) && lo + Span(c, chipSize) <= chipSize
    ensures Whole(c, chipSize)
  {
    if c.BlockErase? {
      assert Touches(c, lo) && Touches(c, lo + 65535);
      InUnit(lo, c.addr / 65536, 65536);
      InUnit(lo + 65535, c.addr / 65536, 65536);
    }
  }

  lemma {:induction false} MixedPlanRun(offset: nat, r: nat, m: seq<byte>)
    requires offset % 4096 == 0 && r % 4096 == 0
    ensures Run(MixedPlan(offset, r), m) == Erased(m, offset, offset + r)
  {
    MixedTiles(offset, r, |m|);
    MixedPlain(offset, r);
    PlainTiling(MixedPlan(offset, r), offset, offset + r, m);
  }

  lemma {:induction false} PlainTiling(plan: seq<Cmd>, lo: nat, hi: nat, m: seq<byte>)
    requires Tiles(plan, lo, hi, |m|) && Plain(plan)
    ensures Run(plan, m) == Erased(m, lo, hi)
  {
    EraseTiling(plan, lo, hi, m);
  }

  lemma {:induction false} MixedTiles(offset: nat, r: nat, n: nat)
    requires offset % 4096 == 0 && r % 4096 == 0
    ensures Tiles(MixedPlan(offset, r), offset, offset + r, n)
  {
    PhaseSizes(offset, r);
    assert SectorCount(r) * 4096 == r;
    PhasesTile(offset, HeadCount(offset, r), MiddleCount(offset, r), TailCount(offset, r), n);
  }

  // ----- offsets inside a sector

  /** A whole 64 KB block lies in the range. */
  ghost predicate HoldsBlock(lo: nat, hi: nat) {
    exists q: nat :: IsBlock(q, lo, hi)
  }

  predicate IsBlock(q: nat, lo: nat, hi: nat) { lo <= q * 65536 && q * 65536 + 65536 <= hi }

  /** From an offset inside a sector no block erase is ever issued, so the commands are fewest exactly
      when the erased stretch holds no whole 64 KB block. */
  lemma {:induction false} UnalignedMinimalIff(offset: nat, size: nat, chipSize: nat)
    requires 0 < size && offset + size <= chipSize && chipSize % 4096 == 0
    requires offset % 4096 != 0
    ensures Fewest(|ErasePlan(offset, size, chipSize)|, SectorStart(offset), EraseEnd(offset, size), chipSize)
            <==> !HoldsBlock(SectorStart(offset), EraseEnd(offset, size))
  {
    var lo, r := SectorStart(offset), SectorCount(size) * 4096;
    StretchFits(offset, size, chipSize);
    UnalignedCount(offset, size, chipSize, lo, r);
    SectorsMinimalIff(|ErasePlan(offset, size, chipSize)|, lo, r, chipSize);
  }

  lemma {:induction false} SectorsMinimalIff(n: nat, lo: nat, r: nat, chipSize: nat)
    requires 0 < r && lo + r <= chipSize && chipSize % 4096 == 0 && lo % 4096 == 0 && r % 4096 == 0
    requires n == |MixedPlan(lo, r)| + 15 * MiddleCount(lo, r)
    ensures Fewest(n, lo, lo + r, chipSize) <==> !HoldsBlock(lo, lo + r)
  {
    var best := BestPlan(lo, r, chipSize);
    BlocksExactly(lo, r);
    FewestIffNone(n, best, MiddleCount(lo, r), lo, lo + r, chipSize);
  }

  lemma {:induction false} UnalignedCount(offset: nat, size: nat, chipSize: nat, lo: nat, r: nat)
    requires offset % 4096 != 0 && size != chipSize && r == SectorCount(size) * 4096
    ensures |ErasePlan(offset, size, chipSize)| == |MixedPlan(lo, r)| + 15 * MiddleCount(lo, r)
  {
    SectorsOnly(offset, size);
    PhaseSizes(lo, r);
    CountExact(SectorCount(size));
  }

  lemma {:induction false} FewestIffNone(n: nat, best: seq<Cmd>, blocks: nat, lo: nat, hi: nat, chipSize: nat)
    requires Usable(best, chipSize) && ErasesExactly(best, lo, hi, chipSize) && Fewest(|best|, lo, hi, chipSize)
    requires n == |best| + 15 * blocks
    ensures Fewest(n, lo, hi, chipSize) <==> blocks == 0
  {
  }

  lemma {:induction false} SectorsOnly(offset: nat, size: nat)
    requires offset % 4096 != 0
    ensures |MixedPlan(offset, size)| == SectorCount(size)
    ensures MiddleCount(offset, size) == 0
  {
    PhaseSizes(offset, size);
    NeverAligned(offset, HeadCount(offset, size));
  }

  lemma {:induction false} NeverAligned(offset: nat, h: nat)
    requires offset % 4096 != 0
    ensures (offset + h * 4096) % 65536 != 0
  {
  }

  lemma {:induction false} StretchFits(offset: nat, size: nat, chipSize: nat)
    requires 0 < size && offset + size <= chipSize && chipSize % 4096 == 0 && offset % 4096 != 0
    ensures size != chipSize && 0 < SectorCount(size) * 4096
    ensures SectorStart(offset) % 4096 == 0 == SectorCount(size) * 4096 % 4096
    ensures SectorStart(offset) + SectorCount(size) * 4096 <= chipSize
    ensures EraseEnd(offset, size) == SectorStart(offset) + SectorCount(size) * 4096
  {
    var k, o, z := chipSize / 4096, offset / 4096, SectorCount(size);
    assert SectorStart(offset) == 4096 * o && 4096 * z < size + 4096;
    assert o + z <= k;
  }

  lemma {:induction false} BlocksExactly(lo: nat, r: nat)
    requires lo % 4096 == 0 && r % 4096 == 0
    ensures MiddleCount(lo, r) > 0 <==> HoldsBlock(lo, lo + r)
  {
    var h := HeadCount(lo, r);
    var q := HeadAligned(lo, r);
    if h * 4096 < r {
      BlocksAfterHead(lo, r, h, q);
    }
    if IsBlock(q, lo, lo + r) && h * 4096 < r {
      assert HoldsBlock(lo, lo + r);
    }
    var hi := lo + r;
    if HoldsBlock(lo, hi) {
      var q': nat :| IsBlock(q', lo, hi);
      assert q <= q';
    }
  }

  lemma {:induction false} BlocksAfterHead(lo: nat, r: nat, h: nat, q: nat)
    requires h == HeadCount(lo, r) && h * 4096 < r && lo + h * 4096 == q * 65536
    ensures MiddleCount(lo, r) > 0 <==> IsBlock(q, lo, lo + r)
  {
    assert (lo + h * 4096) % 65536 == 0 by { DivModUnique(q * 65536, 65536, q, 0); }
  }
}
