/** Any number of threads transferring over one controller: one lock, one cached target address, and
    a transmit FIFO that outlives the lock. */
module I2cThreads {
  import opened I2cStream

  /** A transfer: its address and the words that its messages are compiled to. */
  datatype Xfer = Xfer(addr: nat, words: seq<Word>)

  function XferOf(addr: nat, msgs: seq<Message>): Xfer { Xfer(addr, Compile(msgs, |msgs|)) }

  /** The controller: the depth of its transmit FIFO, and whether disabling it empties the FIFO. */
  datatype Part = Part(depth: nat, flushes: bool)

  /** A transfer that took the lock, and how many of its words were written. */
  datatype Entry = Entry(tid: nat, x: Xfer, sent: nat)

  /** A selected address, and the positions of the words that were still waiting then. */
  datatype Sel = Sel(addr: nat, left: seq<nat>)

  /** The last address used, and the register. */
  datatype Cache = Cache(last: nat, tar: nat)

  function Use(c: Cache, addr: nat): Cache { if addr == c.last then c else Cache(addr, addr) }

  function CacheAfter(sel: seq<Sel>, c: Cache): Cache {
    if sel == [] then c else Use(CacheAfter(sel[..|sel| - 1], c), sel[|sel| - 1].addr)
  }

  /** The register for the words of transfer i. */
  function Reg(sel: seq<Sel>, c: Cache, i: nat): nat
    requires i < |sel|
  {
    CacheAfter(sel[..i + 1], c).tar
  }

  /** Transfer j had the register changed. */
  predicate Switches(sel: seq<Sel>, c: Cache, j: nat)
    requires j < |sel|
  {
    sel[j].addr != CacheAfter(sel[..j], c).last
  }

  function Sent(e: Entry): seq<Word> { if e.sent <= |e.x.words| then e.x.words[..e.sent] else e.x.words }

  /** What is written when the transfers of h run one at a time. */
  function SerialLog(h: seq<Entry>): seq<Word> {
    if h == [] then [] else SerialLog(h[..|h| - 1]) + Sent(h[|h| - 1])
  }

  // ----- the interleaved system

  datatype Holder = Free | Locked(tid: nat) | Sending(tid: nat, k: nat) | Waiting(tid: nat, k: nat) | Ending(tid: nat)

  /** `log` lists the words in the order in which they were written, `owner` their transfers by place
      in the lock order, `fates` what became of them; `fifo` holds the positions still waiting. */
  datatype Sys = Sys(part: Part, cache: Cache, log: seq<Word>, owner: seq<nat>, fates: seq<Fate>, fifo: seq<nat>,
                     sel: seq<Sel>, holder: Holder, todo: seq<seq<Xfer>>, acquired: seq<Entry>, timedOut: bool)

  datatype Step = Acquire(tid: nat) | Select | Send | Arrive | Drain | TimeOut | Finish | Release

  predicate Holds(s: Sys, t: nat) { t < |s.todo| && s.todo[t] != [] && s.acquired != [] }

  function Current(s: Sys): Xfer
    requires !s.holder.Free? && Holds(s, s.holder.tid)
  {
    s.todo[s.holder.tid][0]
  }

  predicate Busy(s: Sys) { !s.holder.Free? && Holds(s, s.holder.tid) }

  predicate Full(s: Sys) { |s.fifo| >= s.part.depth }

  /** A write is sent when there is room, a read at once.  Then the driver waits: after a read for a
      byte (which only after a time-out can be a stale one), after a write for room. */
  predicate Enabled(s: Sys, step: Step) {
    match step
    case Acquire(t) => s.holder.Free? && t < |s.todo| && s.todo[t] != []
    case Select => s.holder.Locked? && Busy(s)
    case Send =>
      s.holder.Sending? && Busy(s) && s.sel != [] && s.holder.k < |Current(s).words|
      && (Current(s).words[s.holder.k].read || !Full(s))
    case Arrive =>
      s.holder.Waiting? && s.log != [] && if s.log[|s.log| - 1].read then s.fifo == [] || s.timedOut else !Full(s)
    case Drain => s.fifo != [] && s.fifo[0] < |s.fates|
    case TimeOut =>
      Busy(s) && ((s.holder.Sending? && s.holder.k < |Current(s).words| && Full(s))
                  || (s.holder.Waiting? && s.log != [] && s.log[|s.log| - 1].read))
    case Finish => s.holder.Sending? && Busy(s) && s.holder.k == |Current(s).words|
    case Release => s.holder.Ending? && Busy(s)
  }

  /** The latest acquisition has now sent k words. */
  function Mark(h: seq<Entry>, k: nat): seq<Entry>
    requires h != []
  {
    h[|h| - 1 := h[|h| - 1].(sent := k)]
  }

  function Flushed(fates: seq<Fate>): seq<Fate> {
    seq(|fates|, p requires 0 <= p < |fates| => if fates[p].Queued? then Dropped else fates[p])
  }

  function Next(s: Sys, step: Step): Sys
    requires Enabled(s, step)
  {
    match step
    case Acquire(t) => s.(holder := Locked(t), acquired := s.acquired + [Entry(t, s.todo[t][0], 0)])
    case Select =>
      var addr := Current(s).addr;
      var flush := addr != s.cache.last && s.part.flushes;
      s.(cache := Use(s.cache, addr), sel := s.sel + [Sel(addr, s.fifo)], holder := Sending(s.holder.tid, 0),
         fates := if flush then Flushed(s.fates) else s.fates, fifo := if flush then [] else s.fifo)
    case Send =>
      var k := s.holder.k;
      s.(log := s.log + [Current(s).words[k]], owner := s.owner + [|s.sel| - 1],
         fates := s.fates + [if Full(s) then Dropped else Queued],
         fifo := if Full(s) then s.fifo else s.fifo + [|s.log|],
         holder := Waiting(s.holder.tid, k + 1), acquired := Mark(s.acquired, k + 1))
    case Arrive => s.(holder := Sending(s.holder.tid, s.holder.k))
    case Drain => s.(fates := s.fates[s.fifo[0] := Done(s.cache.tar)], fifo := s.fifo[1..])
    case TimeOut => s.(holder := Ending(s.holder.tid), timedOut := true)
    case Finish => s.(holder := Ending(s.holder.tid))
    case Release => s.(holder := Free, todo := s.todo[s.holder.tid := s.todo[s.holder.tid][1..]])
  }

  ghost predicate IsRun(s: Sys, steps: seq<Step>, s': Sys)
    decreases |steps|
  {
    if steps == [] then s == s'
    else Enabled(s, steps[0]) && IsRun(Next(s, steps[0]), steps[1..], s')
  }

  /** No transfer yet: the driver remembers address 0, the register holds whatever it held. */
  predicate Initial(s: Sys) {
    && s.part.depth > 0 && s.holder.Free? && s.acquired == [] && s.sel == [] && s.cache.last == 0 && !s.timedOut
    && s.log == [] && s.owner == [] && s.fates == [] && s.fifo == []
  }

  lemma {:induction false} RunOn(s0: Sys, a: seq<Step>, s1: Sys, b: seq<Step>, s2: Sys)
    requires IsRun(s0, a, s1) && IsRun(s1, b, s2)
    ensures IsRun(s0, a + b, s2)
    decreases |a|
  {
    if a == [] {
      assert a + b == b;
    } else {
      assert (a + b)[0] == a[0] && (a + b)[1..] == a[1..] + b;
      RunOn(Next(s0, a[0]), a[1..], s1, b, s2);
    }
  }

  lemma {:induction false} RunSnoc(s0: Sys, a: seq<Step>, s1: Sys, step: Step)
    requires IsRun(s0, a, s1) && Enabled(s1, step)
    ensures IsRun(s0, a + [step], Next(s1, step))
  {
    assert IsRun(Next(s1, step), [step][1..], Next(s1, step));
    RunOn(s0, a, s1, [step], Next(s1, step));
  }

  // ----- the lock: transfers are written one after another

  /** The call that holds the lock is the latest acquisition. */
  ghost predicate HolderOk(s: Sys) {
    !s.holder.Free? ==>
    && Holds(s, s.holder.tid)
    && var e := s.acquired[|s.acquired| - 1];
    && e.tid == s.holder.tid && e.x == Current(s)
    && (s.holder.Locked? ==> e.sent == 0)
    && (s.holder.Sending? || s.holder.Waiting? ==> e.sent == s.holder.k <= |e.x.words|)
    && (s.holder.Waiting? ==> s.holder.k > 0)
    && (s.holder.Ending? && !s.timedOut ==> e.sent == |e.x.words|)
  }

  /** Addresses are selected in lock order. */
  ghost predicate Selected(s: Sys) {
    && |s.acquired| == |s.sel| + (if s.holder.Locked? then 1 else 0)
    && (forall i | 0 <= i < |s.sel| :: s.sel[i].addr == s.acquired[i].x.addr)
  }

  /** Until a time-out the calls before the open one have sent all their words. */
  ghost predicate Whole(s: Sys) {
    !s.timedOut ==>
    forall i | 0 <= i < |s.acquired| - (if s.holder.Free? then 0 else 1) ::
      s.acquired[i].sent == |s.acquired[i].x.words|
  }

  ghost predicate Serial(s: Sys) {
    s.log == SerialLog(s.acquired) && HolderOk(s) && Selected(s) && Whole(s)
  }

  lemma {:induction false} SerialSnoc(h: seq<Entry>, e: Entry)
    ensures SerialLog(h + [e]) == SerialLog(h) + Sent(e)
  {
    assert (h + [e])[..|h|] == h;
  }

  lemma {:induction false} SerialSend(h: seq<Entry>, k: nat)
    requires h != [] && k < |h[|h| - 1].x.words| && h[|h| - 1].sent == k
    ensures SerialLog(Mark(h, k + 1)) == SerialLog(h) + [h[|h| - 1].x.words[k]]
  {
    var h', n := Mark(h, k + 1), |h| - 1;
    var x := h[n].x;
    assert h'[..n] == h[..n];
    assert x.words[..k + 1] == x.words[..k] + [x.words[k]];
    assert SerialLog(h) == SerialLog(h[..n]) + x.words[..k];
  }

  lemma {:induction false} SerialAcquire(s: Sys, t: nat)
    requires Serial(s) && Enabled(s, Acquire(t))
    ensures Serial(Next(s, Acquire(t)))
  {
    SerialSnoc(s.acquired, Entry(t, s.todo[t][0], 0));
  }

  lemma {:induction false} SerialSelect(s: Sys)
    requires Serial(s) && Enabled(s, Select)
    ensures Serial(Next(s, Select))
  {
  }

  lemma {:induction false} SerialSendKept(s: Sys)
    requires Serial(s) && Enabled(s, Send)
    ensures Serial(Next(s, Send))
  {
    var s' := Next(s, Send);
    SerialSend(s.acquired, s.holder.k);
    assert s'.log == SerialLog(s'.acquired);
    assert HolderOk(s');
  }

  lemma {:induction false} SerialRelease(s: Sys)
    requires Serial(s) && Enabled(s, Release)
    ensures Serial(Next(s, Release))
  {
    var s' := Next(s, Release);
    assert s'.log == s.log && s'.acquired == s.acquired && s'.sel == s.sel;
  }

  lemma {:induction false} SerialOther(s: Sys, step: Step)
    requires Serial(s) && Enabled(s, step) && (step.Arrive? || step.Drain? || step.TimeOut? || step.Finish?)
    ensures Serial(Next(s, step))
  {
  }

  lemma {:induction false} SerialKept(s: Sys, step: Step)
    requires Serial(s) && Enabled(s, step)
    ensures Serial(Next(s, step))
  {
    match step
    case Acquire(t) => SerialAcquire(s, t);
    case Select => SerialSelect(s);
    case Send => SerialSendKept(s);
    case Release => SerialRelease(s);
    case _ => SerialOther(s, step);
  }

  /** Streams are concatenated, never interleaved: after any run, with no transfer open, the words
      written are the transfers' words one after another in the order in which they took the lock, and
      the addresses were selected in that order. */
  lemma {:induction false} NeverInterleaved(s0: Sys, steps: seq<Step>, s: Sys)
    requires Initial(s0) && IsRun(s0, steps, s) && s.holder.Free?
    ensures s.log == SerialLog(s.acquired) && |s.sel| == |s.acquired|
    ensures forall i | 0 <= i < |s.sel| :: s.sel[i].addr == s.acquired[i].x.addr
  {
    SerialRun(s0, steps, s);
  }

  lemma {:induction false} SerialRun(s0: Sys, steps: seq<Step>, s: Sys)
    requires Serial(s0) && IsRun(s0, steps, s)
    ensures Serial(s)
    decreases |steps|
  {
    if steps != [] {
      SerialKept(s0, steps[0]);
      SerialRun(Next(s0, steps[0]), steps[1..], s);
    }
  }

  // ----- the FIFO: under which register a word is executed

  ghost predicate FifoOk(s: Sys) {
    && |s.owner| == |s.log| && |s.fates| == |s.log|
    && (forall m | 0 <= m < |s.fifo| :: s.fifo[m] < |s.fates|)
    && (forall m, n | 0 <= m < n < |s.fifo| :: s.fifo[m] < s.fifo[n])
    && (forall p | 0 <= p < |s.fates| :: s.fates[p].Queued? <==> p in s.fifo)
  }

  lemma {:induction false} FifoDrain(s: Sys)
    requires FifoOk(s) && Enabled(s, Drain)
    ensures FifoOk(Next(s, Drain))
  {
    assert s.fifo == [s.fifo[0]] + s.fifo[1..];
  }

  lemma {:induction false} FifoSelect(s: Sys)
    requires FifoOk(s) && Enabled(s, Select)
    ensures FifoOk(Next(s, Select))
  {
  }

  lemma {:induction false} FifoSend(s: Sys)
    requires FifoOk(s) && Enabled(s, Send)
    ensures FifoOk(Next(s, Send))
  {
    var s', n := Next(s, Send), |s.log|;
    assert s'.fates[..n] == s.fates && |s'.fates| == n + 1;
    assert s'.fifo == if s'.fates[n].Queued? then s.fifo + [n] else s.fifo;
  }

  lemma {:induction false} FifoKept(s: Sys, step: Step)
    requires FifoOk(s) && Enabled(s, step)
    ensures FifoOk(Next(s, step))
  {
    match step
    case Drain => FifoDrain(s);
    case Select => FifoSelect(s);
    case Send => FifoSend(s);
    case _ =>
  }

  /** The word at p, of transfer i, was still waiting when a later transfer had the register changed. */
  ghost predicate Crossed(sel: seq<Sel>, c: Cache, i: nat, p: nat) {
    exists j :: i < j < |sel| && Switches(sel, c, j) && p in sel[j].left
  }

  /** What is known of the word at p. */
  ghost predicate FateOk(s: Sys, c: Cache, p: nat)
    requires p < |s.owner| && p < |s.fates|
  {
    var i := s.owner[p];
    && i < |s.sel|
    && (p in s.fifo ==> forall j | i < j < |s.sel| && Switches(s.sel, c, j) :: p in s.sel[j].left)
    && (s.fates[p].Done? && !Crossed(s.sel, c, i, p) ==> s.fates[p].tar == Reg(s.sel, c, i))
    && (s.part.flushes && Crossed(s.sel, c, i, p) ==> s.fates[p].Dropped?)
    && (s.fates[p].Dropped? && !s.timedOut ==> s.part.flushes && Crossed(s.sel, c, i, p))
  }

  ghost predicate Fates(s: Sys, c: Cache) {
    FifoOk(s) && s.cache == CacheAfter(s.sel, c) && forall p | 0 <= p < |s.log| :: FateOk(s, c, p)
  }

  /** Selecting another address leaves the past as it was. */
  lemma {:induction false} SelSnoc(sel: seq<Sel>, e: Sel, c: Cache)
    ensures CacheAfter(sel + [e], c) == Use(CacheAfter(sel, c), e.addr)
    ensures forall j | 0 <= j < |sel| ::
              Switches(sel + [e], c, j) == Switches(sel, c, j) && Reg(sel + [e], c, j) == Reg(sel, c, j)
    ensures Switches(sel + [e], c, |sel|) <==> e.addr != CacheAfter(sel, c).last
    ensures forall i: nat, p: nat :: Crossed(sel + [e], c, i, p) <==>
              Crossed(sel, c, i, p) || (i < |sel| && e.addr != CacheAfter(sel, c).last && p in e.left)
  {
    var sel' := sel + [e];
    assert sel'[..|sel|] == sel;
    forall j | 0 <= j < |sel|
      ensures Switches(sel', c, j) == Switches(sel, c, j) && Reg(sel', c, j) == Reg(sel, c, j)
    {
      assert sel'[..j] == sel[..j] && sel'[..j + 1] == sel[..j + 1];
    }
    forall i: nat, p: nat
      ensures Crossed(sel', c, i, p) <==>
                Crossed(sel, c, i, p) || (i < |sel| && e.addr != CacheAfter(sel, c).last && p in e.left)
    {
      CrossedSnoc(sel, e, c, i, p);
    }
  }

  lemma {:induction false} CrossedSnoc(sel: seq<Sel>, e: Sel, c: Cache, i: nat, p: nat)
    ensures Crossed(sel + [e], c, i, p) <==>
              Crossed(sel, c, i, p) || (i < |sel| && e.addr != CacheAfter(sel, c).last && p in e.left)
  {
    var sel' := sel + [e];
    assert sel'[..|sel|] == sel;
    if Crossed(sel, c, i, p) {
      var j :| i < j < |sel| && Switches(sel, c, j) && p in sel[j].left;
      assert sel'[..j] == sel[..j] && sel'[j] == sel[j];
      assert Switches(sel', c, j);
    }
    if Crossed(sel', c, i, p) {
      var j :| i < j < |sel'| && Switches(sel', c, j) && p in sel'[j].left;
      if j < |sel| {
        assert sel'[..j] == sel[..j] && sel'[j] == sel[j];
        assert Switches(sel, c, j);
      }
    }
    if i < |sel| && e.addr != CacheAfter(sel, c).last && p in e.left {
      assert Switches(sel', c, |sel|);
    }
  }

  /** Without a change of the register after transfer i it is still the one of transfer i. */
  lemma {:induction false} NoSwitch(sel: seq<Sel>, c: Cache, i: nat)
    requires i < |sel| && forall j | i < j < |sel| :: !Switches(sel, c, j)
    ensures CacheAfter(sel, c).tar == Reg(sel, c, i)
    decreases |sel|
  {
    var n := |sel| - 1;
    assert sel[..n + 1] == sel;
    if i < n {
      forall j | i < j < n
        ensures !Switches(sel[..n], c, j)
      {
        assert sel[..n][..j] == sel[..j] && !Switches(sel, c, j);
      }
      NoSwitch(sel[..n], c, i);
      assert sel[..n][..i + 1] == sel[..i + 1];
      assert !Switches(sel, c, n);
    }
  }

  lemma {:induction false} FateSelect(s: Sys, c: Cache, p: nat)
    requires Fates(s, c) && Enabled(s, Select) && p < |s.log|
    ensures FateOk(Next(s, Select), c, p)
  {
    SelSnoc(s.sel, Sel(Current(s).addr, s.fifo), c);
    assert FateOk(s, c, p);
  }

  lemma {:induction false} FateDrain(s: Sys, c: Cache, p: nat)
    requires Fates(s, c) && Enabled(s, Drain) && p < |s.log|
    ensures FateOk(Next(s, Drain), c, p)
  {
    assert FateOk(s, c, p);
    if p == s.fifo[0] && !Crossed(s.sel, c, s.owner[p], p) {
      NoSwitch(s.sel, c, s.owner[p]);
    }
  }

  lemma {:induction false} FateSend(s: Sys, c: Cache, p: nat)
    requires Fates(s, c) && Enabled(s, Send) && p <= |s.log| && (!s.timedOut ==> !Full(s))
    ensures FateOk(Next(s, Send), c, p)
  {
    assert p < |s.log| ==> FateOk(s, c, p);
  }

  lemma {:induction false} FatesKept(s: Sys, c: Cache, step: Step)
    requires Fates(s, c) && Enabled(s, step) && (step.Send? && !s.timedOut ==> !Full(s))
    ensures Fates(Next(s, step), c)
  {
    FifoKept(s, step);
    var s' := Next(s, step);
    forall p | 0 <= p < |s'.log|
      ensures FateOk(s', c, p)
    {
      match step
      case Select => FateSelect(s, c, p);
      case Drain => FateDrain(s, c, p);
      case Send => FateSend(s, c, p);
      case _ => assert FateOk(s, c, p);
    }
    if step.Select? {
      SelSnoc(s.sel, Sel(Current(s).addr, s.fifo), c);
    }
  }

  // ----- how many words can be waiting

  /** Position p belongs to transfer o of h. */
  ghost predicate Belongs(h: seq<Entry>, o: nat, p: nat)
    requires o < |h|
  {
    |SerialLog(h[..o])| <= p < |SerialLog(h[..o + 1])|
  }

  ghost predicate AllBelong(h: seq<Entry>, owner: seq<nat>) {
    forall p | 0 <= p < |owner| :: owner[p] < |h| && Belongs(h, owner[p], p)
  }

  /** Each word belongs to the transfer during which it was written. */
  ghost predicate Owned(s: Sys) {
    && |s.owner| == |s.log| && |s.sel| <= |s.acquired|
    && (forall p | 0 <= p < |s.owner| :: s.owner[p] < |s.sel|)
    && AllBelong(s.acquired, s.owner)
  }

  lemma {:induction false} SerialPrefix(h: seq<Entry>, e: Entry, i: nat)
    requires i <= |h|
    ensures SerialLog((h + [e])[..i]) == SerialLog(h[..i])
  {
    assert (h + [e])[..i] == h[..i];
  }

  lemma {:induction false} BelongsSend(h: seq<Entry>, k: nat, o: nat, p: nat)
    requires o < |h| && k < |h[|h| - 1].x.words| && h[|h| - 1].sent == k
    requires Belongs(h, o, p) || (o == |h| - 1 && p == |SerialLog(h)|)
    ensures Belongs(Mark(h, k + 1), o, p)
  {
    var h', n := Mark(h, k + 1), |h| - 1;
    SerialSend(h, k);
    assert h'[..o] == h[..o];
    if o < n {
      assert h'[..o + 1] == h[..o + 1];
    } else {
      assert h'[..n + 1] == h' && h[..n + 1] == h;
    }
  }

  lemma {:induction false} AllBelongSend(h: seq<Entry>, k: nat, owner: seq<nat>)
    requires h != [] && k < |h[|h| - 1].x.words| && h[|h| - 1].sent == k && |owner| == |SerialLog(h)|
    requires AllBelong(h, owner)
    ensures AllBelong(Mark(h, k + 1), owner + [|h| - 1])
  {
    var owner' := owner + [|h| - 1];
    forall p | 0 <= p < |owner'|
      ensures owner'[p] < |h| && Belongs(Mark(h, k + 1), owner'[p], p)
    {
      BelongsSend(h, k, owner'[p], p);
    }
  }

  lemma {:induction false} AllBelongAcquire(h: seq<Entry>, e: Entry, owner: seq<nat>)
    requires AllBelong(h, owner)
    ensures AllBelong(h + [e], owner)
  {
    forall p | 0 <= p < |owner|
      ensures owner[p] < |h| && Belongs(h + [e], owner[p], p)
    {
      SerialPrefix(h, e, owner[p]);
      SerialPrefix(h, e, owner[p] + 1);
    }
  }

  lemma {:induction false} OwnedSend(s: Sys)
    requires Owned(s) && HolderOk(s) && Selected(s) && s.log == SerialLog(s.acquired) && Enabled(s, Send)
    ensures Owned(Next(s, Send))
  {
    AllBelongSend(s.acquired, s.holder.k, s.owner);
    var s' := Next(s, Send);
    assert s'.owner == s.owner + [|s.acquired| - 1] && s'.acquired == Mark(s.acquired, s.holder.k + 1);
  }

  lemma {:induction false} OwnedKept(s: Sys, step: Step)
    requires Owned(s) && Serial(s) && Enabled(s, step)
    ensures Owned(Next(s, step))
  {
    match step
    case Send => OwnedSend(s);
    case Acquire(t) => AllBelongAcquire(s.acquired, Entry(t, s.todo[t][0], 0), s.owner);
    case _ =>
  }

  /** The words that transfer j found waiting are the last of those before it, and at most as many as
      Pending counts. */
  ghost predicate LeftOk(h: seq<Entry>, e: Sel, j: nat, depth: nat)
    requires j <= |h|
  {
    forall p | p in e.left :: |SerialLog(h[..j])| <= p + Pending(SerialLog(h[..j]), depth)
  }

  /** The waiting words are the last of the log. */
  ghost predicate Suffix(s: Sys) {
    |s.fifo| <= |s.log| && forall m | 0 <= m < |s.fifo| :: s.fifo[m] == |s.log| - |s.fifo| + m
  }

  /** How many are waiting: while the driver waits for its last word, one more. */
  predicate Few(s: Sys) {
    if s.holder.Waiting? then
      && s.log != [] && |s.fifo| <= s.part.depth
      && |s.fifo| <= Pending(s.log[..|s.log| - 1], s.part.depth) + 1
    else |s.fifo| < s.part.depth && |s.fifo| <= Pending(s.log, s.part.depth)
  }

  ghost predicate Bounded(s: Sys) {
    && s.part.depth > 0 && |s.sel| <= |s.acquired|
    && (!s.timedOut ==>
          && Suffix(s) && Few(s)
          && forall j | 0 <= j < |s.sel| :: LeftOk(s.acquired, s.sel[j], j, s.part.depth))
  }

  lemma {:induction false} BoundedSend(s: Sys)
    requires Bounded(s) && Serial(s) && Enabled(s, Send) && !s.timedOut
    ensures Bounded(Next(s, Send)) && !Full(s)
  {
    var s' := Next(s, Send);
    assert s'.log[..|s.log|] == s.log;
    forall j | 0 <= j < |s.sel|
      ensures LeftOk(s'.acquired, s.sel[j], j, s.part.depth)
    {
      assert LeftOk(s.acquired, s.sel[j], j, s.part.depth);
      assert s'.acquired[..j] == s.acquired[..j];
    }
  }

  lemma {:induction false} LogBefore(s: Sys)
    requires Serial(s) && Enabled(s, Select)
    ensures |s.sel| == |s.acquired| - 1 && SerialLog(s.acquired[..|s.sel|]) == s.log
  {
    var n := |s.acquired| - 1;
    assert Sent(s.acquired[n]) == [];
  }

  lemma {:induction false} LeftNow(h: seq<Entry>, addr: nat, n: nat, fifo: seq<nat>, log: seq<Word>, depth: nat)
    requires n <= |h| && SerialLog(h[..n]) == log && |fifo| <= Pending(log, depth) && |fifo| <= |log|
    requires forall m | 0 <= m < |fifo| :: fifo[m] == |log| - |fifo| + m
    ensures LeftOk(h, Sel(addr, fifo), n, depth)
  {
  }

  lemma {:induction false} AllLeft(h: seq<Entry>, sel: seq<Sel>, e: Sel, depth: nat)
    requires |sel| < |h| && LeftOk(h, e, |sel|, depth)
    requires forall j | 0 <= j < |sel| :: LeftOk(h, sel[j], j, depth)
    ensures forall j | 0 <= j < |sel + [e]| :: LeftOk(h, (sel + [e])[j], j, depth)
  {
  }

  lemma {:induction false} SelectFew(s: Sys)
    requires Enabled(s, Select) && s.part.depth > 0 && Suffix(s) && Few(s)
    ensures Suffix(Next(s, Select)) && Few(Next(s, Select))
  {
  }

  lemma {:induction false} BoundedSelect(s: Sys)
    requires Bounded(s) && Enabled(s, Select) && !s.timedOut
    requires |s.sel| == |s.acquired| - 1 && SerialLog(s.acquired[..|s.sel|]) == s.log
    ensures Bounded(Next(s, Select))
  {
    LeftNow(s.acquired, Current(s).addr, |s.sel|, s.fifo, s.log, s.part.depth);
    AllLeft(s.acquired, s.sel, Sel(Current(s).addr, s.fifo), s.part.depth);
    SelectFew(s);
  }

  lemma {:induction false} BoundedArrive(s: Sys)
    requires Bounded(s) && Enabled(s, Arrive) && !s.timedOut
    ensures Bounded(Next(s, Arrive))
  {
    var n := |s.log| - 1;
    assert s.log == s.log[..n] + [s.log[n]];
    PendingSnoc(s.log[..n], s.log[n], s.part.depth);
  }

  lemma {:induction false} BoundedAcquire(s: Sys, t: nat)
    requires Bounded(s) && Enabled(s, Acquire(t)) && !s.timedOut
    ensures Bounded(Next(s, Acquire(t)))
  {
    var s' := Next(s, Acquire(t));
    forall j | 0 <= j < |s.sel|
      ensures LeftOk(s'.acquired, s.sel[j], j, s.part.depth)
    {
      assert LeftOk(s.acquired, s.sel[j], j, s.part.depth);
      assert s'.acquired[..j] == s.acquired[..j];
    }
  }

  lemma {:induction false} BoundedOther(s: Sys, step: Step)
    requires Bounded(s) && Enabled(s, step)
    requires step.Drain? || step.TimeOut? || step.Finish? || step.Release? || s.timedOut
    requires |Next(s, step).sel| <= |Next(s, step).acquired|
    ensures Bounded(Next(s, step))
  {
  }

  lemma {:induction false} BoundedKept(s: Sys, step: Step)
    requires Bounded(s) && Serial(s) && Enabled(s, step)
    ensures Bounded(Next(s, step))
    ensures step.Send? && !s.timedOut ==> !Full(s)
  {
    if s.timedOut || step.Drain? || step.TimeOut? || step.Finish? || step.Release? {
      SerialKept(s, step);
      BoundedOther(s, step);
    } else {
      match step
      case Send => BoundedSend(s);
      case Select =>
        LogBefore(s);
        BoundedSelect(s);
      case Arrive => BoundedArrive(s);
      case Acquire(t) => BoundedAcquire(s, t);
    }
  }

  // ----- whole runs

  ghost predicate Inv(s: Sys, c: Cache) {
    Serial(s) && Fates(s, c) && Owned(s) && Bounded(s)
  }

  lemma {:induction false} Kept(s0: Sys, steps: seq<Step>, s: Sys, c: Cache)
    requires Inv(s0, c) && IsRun(s0, steps, s)
    ensures Inv(s, c) && s.part == s0.part
    decreases |steps|
  {
    if steps != [] {
      SerialKept(s0, steps[0]);
      BoundedKept(s0, steps[0]);
      FatesKept(s0, c, steps[0]);
      OwnedKept(s0, steps[0]);
      Kept(Next(s0, steps[0]), steps[1..], s, c);
    }
  }

  lemma {:induction false} InvInitial(s: Sys)
    requires Initial(s)
    ensures Inv(s, s.cache)
  {
  }

  /** Under which register a word of transfer i is executed, after any run.  Unless it was still waiting
      when a later transfer had the register changed, it is under the register of its own transfer.  If
      it was, a controller that flushes has lost it; and until a time-out no word is lost otherwise. */
  lemma {:induction false} ExecutedUnderOwn(s0: Sys, steps: seq<Step>, s: Sys, p: nat)
    requires Initial(s0) && IsRun(s0, steps, s) && p < |s.log|
    ensures p < |s.owner| && p < |s.fates| && s.owner[p] < |s.sel|
    ensures var i, crossed := s.owner[p], Crossed(s.sel, s0.cache, s.owner[p], p);
            && (!crossed && s.fates[p].Done? ==> s.fates[p] == Done(Reg(s.sel, s0.cache, i)))
            && (crossed && s.part.flushes ==> s.fates[p] == Dropped)
            && (!s.timedOut && s.fates[p] == Dropped ==> crossed && s.part.flushes)
  {
    InvInitial(s0);
    Kept(s0, steps, s, s0.cache);
    assert FateOk(s, s0.cache, p);
  }

  /** The register for a transfer holds its own address exactly when that address is not 0, or some
      transfer up to it used another one, or the register held 0 from the start. */
  lemma {:induction false} OwnAddressIff(sel: seq<Sel>, c: Cache, i: nat)
    requires c.last == 0 && i < |sel|
    ensures Reg(sel, c, i) == sel[i].addr <==> c.tar == 0 || exists j :: 0 <= j <= i && sel[j].addr != 0
    ensures CacheAfter(sel[..i + 1], c).last == sel[i].addr
    decreases i
  {
    assert sel[..i + 1][..i] == sel[..i];
    assert CacheAfter(sel[..i + 1], c) == Use(CacheAfter(sel[..i], c), sel[i].addr);
    if i > 0 {
      OwnAddressIff(sel, c, i - 1);
      assert sel[..i - 1 + 1] == sel[..i];
    } else {
      assert sel[..0] == [];
      assert (exists j :: 0 <= j <= i && sel[j].addr != 0) <==> sel[0].addr != 0;
    }
  }
}
