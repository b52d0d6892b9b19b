/** The I2C driver in polling mode, over a controller with a transmit and a receive FIFO that works
    through its command words while the driver polls. */
module I2cDriver {
  import opened Codes
  import opened I2cStream
  import opened I2cRun
  import I2cThreads

  /** Read commands in a queue: each of them yields one byte. */
  function Reads(q: seq<Word>): nat {
    if q == [] then 0 else (if q[0].read then 1 else 0) + Reads(q[1..])
  }

  lemma {:induction false} ReadsSnoc(q: seq<Word>, w: Word)
    ensures Reads(q + [w]) == Reads(q) + if w.read then 1 else 0
    decreases |q|
  {
    if q == [] {
      assert q + [w] == [w];
    } else {
      assert (q + [w])[1..] == q[1..] + [w];
      ReadsSnoc(q[1..], w);
    }
  }

  class Controller {
    const depth: nat
    /** Disabling the controller empties its FIFOs. */
    const flushes: bool
    var enabled: bool
    var tar: nat
    var txq: seq<Word>
    var rx: seq<byte>
    /** Words accepted, what became of those that left the FIFO, bytes handed over, whether a word was
        ever pushed into a full FIFO, and the most bytes that were ever on their way. */
    ghost var log: seq<Word>
    ghost var fates: seq<Fate>
    ghost var got: seq<byte>
    ghost var overrun: bool
    ghost var peak: nat

    ghost predicate Valid()
      reads this
    {
      && depth > 0 && |txq| <= depth
      && |fates| + |txq| == |log| && txq == log[|fates|..]
      && Outstanding() <= peak
    }

    /** Bytes that are on their way to the driver. */
    ghost function Outstanding(): nat
      reads this
    {
      |rx| + Reads(txq)
    }

    /** Room for a word, nothing on its way, and no more words waiting than the driver's own waits
        allow. */
    ghost predicate Ready()
      reads this
    {
      |txq| < depth && Outstanding() == 0 && |txq| <= Pending(log, depth)
    }

    /** Never a word lost to a full FIFO, never more than one byte on its way. */
    ghost predicate Kept()
      reads this
    {
      !overrun && peak <= 1
    }

    ghost predicate Clean()
      reads this
    {
      Ready() && Kept()
    }

    ghost function Now(): Snapshot
      reads this
    {
      Snapshot(tar, log, fates, got, rx)
    }

    function Kind(): I2cThreads.Part { I2cThreads.Part(depth, flushes) }

    /** No byte has come, or there is no room for a word. */
    ghost predicate Stalled()
      reads this
    {
      rx == [] || |txq| == depth
    }

    /** Takes one word off the transmit FIFO and executes it. */
    method Execute()
      requires Valid() && txq != []
      modifies this`txq, this`rx, this`fates
      ensures Valid() && txq == old(txq)[1..] && Outstanding() == old(Outstanding())
      ensures fates == old(fates) + [Done(tar)]
    {
      if txq[0].read {
        var b: nat := 0;
        var x: int := *;
        if 0 <= x < 256 {
          b := x;
        }
        rx := rx + [b];
      }
      txq, fates := txq[1..], fates + [Done(tar)];
    }

    /** An enabled controller executes some of the words in the transmit FIFO, in order. */
    method Work()
      requires Valid()
      modifies this`txq, this`rx, this`fates
      ensures Valid() && Outstanding() == old(Outstanding()) && Ran(old(fates), fates, tar)
      ensures |txq| < |old(txq)| || (txq == old(txq) && rx == old(rx))
    {
      var more: bool := *;
      while enabled && more && txq != []
        invariant Valid() && Outstanding() == old(Outstanding()) && Ran(old(fates), fates, tar)
        invariant |txq| < |old(txq)| || (txq == old(txq) && rx == old(rx))
        decreases |txq|
      {
        Execute();
        more := *;
      }
    }

    method TxNotFull() returns (b: bool)
      requires Valid()
      modifies this`txq, this`rx, this`fates
      ensures Valid() && Outstanding() == old(Outstanding()) && Ran(old(fates), fates, tar)
      ensures b == (|txq| < depth)
    {
      Work();
      b := |txq| < depth;
    }

    /** A poll loop without a time limit: an enabled controller takes a word sooner or later. */
    method AwaitSpace()
      requires Valid() && enabled
      modifies this`txq, this`rx, this`fates
      ensures Valid() && Outstanding() == old(Outstanding()) && Ran(old(fates), fates, tar)
      ensures |txq| < depth
    {
      Work();
      if |txq| == depth {
        Execute();
      }
    }

    method RxNotEmpty() returns (b: bool)
      requires Valid()
      modifies this`txq, this`rx, this`fates
      ensures Valid() && Outstanding() == old(Outstanding()) && Ran(old(fates), fates, tar)
      ensures b == (rx != [])
    {
      Work();
      b := rx != [];
    }

    /** Writes the command register.  A full FIFO loses the word. */
    method DataCmdWrite(w: Word)
      requires Valid()
      modifies this`txq, this`log, this`overrun, this`peak
      ensures Valid()
      ensures old(|txq| < depth) ==> txq == old(txq) + [w] && log == old(log) + [w] && overrun == old(overrun)
      ensures old(|txq| < depth) ==> Outstanding() == old(Outstanding()) + if w.read then 1 else 0
      ensures old(|txq| == depth) ==> txq == old(txq) && log == old(log) && overrun
      ensures peak == if Outstanding() > old(peak) then Outstanding() else old(peak)
    {
      if |txq| < depth {
        ReadsSnoc(txq, w);
        txq, log := txq + [w], log + [w];
        if Outstanding() > peak {
          peak := Outstanding();
        }
      } else {
        overrun := true;
      }
    }

    method DataCmdRead() returns (b: byte)
      requires Valid() && rx != []
      modifies this`rx, this`got
      ensures Valid() && b == old(rx)[0] && rx == old(rx)[1..] && got == old(got) + [b]
    {
      b := rx[0];
      rx, got := rx[1..], got + [b];
    }

    /** Disables the controller.  On a part that flushes, what is still in the FIFOs is lost. */
    method Disable() returns (ghost k: nat)
      requires Valid()
      modifies this`enabled, this`txq, this`rx, this`fates
      ensures Valid() && !enabled && Outstanding() <= old(Outstanding())
      ensures Switched(old(fates), fates, |log|, k, tar) && txq == if flushes then [] else log[k..]
    {
      Work();
      k := |fates|;
      if flushes {
        fates := fates + seq(|txq|, _ => Dropped);
        txq, rx := [], [];
      }
      enabled := false;
    }

    /** Up to word k executed under `tar`; from there to n lost, or not decided yet. */
    ghost predicate Switched(f0: seq<Fate>, f1: seq<Fate>, n: nat, k: nat, tar: nat) {
      && |f0| <= k <= n && |f1| == (if flushes then n else k)
      && Ran(f0, f1[..k], tar)
      && forall i | k <= i < |f1| :: f1[i] == Dropped
    }

    method TarWrite(addr: nat)
      requires Valid() && !enabled
      modifies this`tar
      ensures Valid() && tar == addr
    {
      tar := addr;
    }

    method Enable()
      requires Valid()
      modifies this`enabled
      ensures Valid() && enabled
    {
      enabled := true;
    }
  }

  lemma {:induction false} LastRead(q: seq<Word>)
    ensures q != [] && q[|q| - 1].read ==> Reads(q) > 0
    decreases |q|
  {
    if |q| > 1 {
      LastRead(q[1..]);
    }
  }

  lemma {:induction false} BytesSnoc(got0: seq<byte>, data: seq<byte>, pos: nat, b: byte)
    requires pos < |data|
    ensures got0 + data[..pos] + [b] == got0 + data[pos := b][..pos + 1]
  {
    assert data[pos := b][..pos + 1] == data[..pos] + [b];
  }

  class I2cMsg {
    const read: bool
    const stop: bool
    const tenBit: bool
    var restart: bool
    var data: seq<byte>

    constructor (read: bool, stop: bool, tenBit: bool, restart: bool, data: seq<byte>)
      ensures this.read == read && this.stop == stop && this.tenBit == tenBit
      ensures this.restart == restart && this.data == data
    {
      this.read, this.stop, this.tenBit, this.restart, this.data := read, stop, tenBit, restart, data;
    }

    function Value(): Message
      reads this
    {
      Message(read, restart, stop, data)
    }
  }

  ghost function Values(msgs: seq<I2cMsg>): (r: seq<Message>)
    reads msgs
    ensures |r| == |msgs| && forall i | 0 <= i < |msgs| :: r[i] == msgs[i].Value()
  {
    seq(|msgs|, i requires 0 <= i < |msgs| reads msgs => msgs[i].Value())
  }

  /** The contents of the read buffers, in order. */
  function Received(vals: seq<Message>): seq<byte> {
    if vals == [] then []
    else
      var m := vals[|vals| - 1];
      Received(vals[..|vals| - 1]) + if m.read then m.data else []
  }

  lemma {:induction false} ReceivedSnoc(vals: seq<Message>, m: Message)
    ensures Received(vals + [m]) == Received(vals) + if m.read then m.data else []
  {
    assert (vals + [m])[..|vals|] == vals;
  }

  lemma {:induction false} CompilePrefix(vals: seq<Message>, i: nat, n: nat)
    requires i <= n <= |vals|
    ensures Compile(vals, i) <= Compile(vals, n)
    decreases n - i
  {
    if i < n {
      CompilePrefix(vals, i, n - 1);
    }
  }

  /** Stopping inside message i has sent a prefix of the whole. */
  lemma {:induction false} StoppedInside(vals: seq<Message>, i: nat, n: nat, k: nat)
    requires i < n <= |vals| && k <= |vals[i].data|
    ensures |Compile(vals, i)| + k <= |Compile(vals, n)|
    ensures Compile(vals, n)[..|Compile(vals, i)| + k] == Compile(vals, i) + WordsOf(Flagged(vals, i))[..k]
  {
    CompilePrefix(vals, i + 1, n);
    assert Compile(vals, i + 1) == Compile(vals, i) + WordsOf(Flagged(vals, i));
  }

  lemma {:induction false} GotStep(got0: seq<byte>, news: seq<Message>, m: Message)
    ensures got0 + Received(news) + (if m.read then m.data else []) == got0 + Received(news + [m])
  {
    ReceivedSnoc(news, m);
  }

  /** Some of ws were put in. */
  ghost predicate PartOf(ws: seq<Word>, log0: seq<Word>, log1: seq<Word>) {
    exists k :: 0 <= k <= |ws| && log1 == log0 + ws[..k]
  }

  /** What the loop has done to the controller and the read buffers after i messages. */
  ghost predicate SoFar(p: I2cThreads.Part, vals: seq<Message>, i: nat, news: seq<Message>, a: Snapshot, b: Snapshot)
    requires i <= |vals|
  {
    Gave(p, a, b, Compile(vals, i)) && b.got == a.got + Received(news)
  }

  lemma {:induction false} NothingYet(p: I2cThreads.Part, vals: seq<Message>, a: Snapshot)
    requires |a.fates| <= |a.log|
    ensures SoFar(p, vals, 0, [], a, a)
  {
    GaveNothing(p, a, []);
    assert Compile(vals, 0) == [][..0] && a.got + [] == a.got;
  }

  /** What became of the words during one transfer.  Those below n were waiting when it took the lock:
      up to k they were executed under the register tar0 of before; from there on, when the register
      was changed, they were lost (on a part that flushes) or executed under `tar`.  The transfer's own
      words, from n on, were executed under `tar` as far as they were decided. */
  ghost predicate Served(f0: seq<Fate>, f1: seq<Fate>, n: nat, k: nat, tar0: nat, tar: nat, lossy: bool) {
    && f0 <= f1 && |f0| <= k <= n && k <= |f1| && (lossy ==> n <= |f1|)
    && (forall i | |f0| <= i < |f1| ::
          f1[i] == if i < k then Done(tar0) else if i < n && lossy then Dropped else Done(tar))
  }

  /** A served transfer.  Until one has timed out (`clean`), a successful one has put exactly the
      compiled words of the caller's messages into the controller and the received bytes into the read
      buffers; one that times out has put in a prefix of them that ends with a read, for which no byte
      came.  Either way the transfer is a run of the thread system.  `last`: the remembered address. */
  ghost predicate Transferred(r: Code, k: nat, addr: nat, last: nat, part: I2cThreads.Part, clean: bool,
                              vals: seq<Message>, news: seq<Message>, s0: Snapshot, s1: Snapshot) {
    var ws := Compile(vals, |vals|);
    && (r == Success || r == ETIMEDOUT)
    && s1.tar == (if addr != last then addr else s0.tar)
    && Served(s0.fates, s1.fates, |s0.log|, k, s0.tar, s1.tar, addr != last && part.flushes)
    && (clean ==>
          && |s0.log| <= k + Pending(s0.log, part.depth)
          && (if r == Success then s1.log == s0.log + ws && s1.got == s0.got + Received(news)
              else s1.rx == [] && exists n: nat :: StopsAt(s0, s1, ws, n))
          && TransferRuns(part, last, s0, s1, I2cThreads.Xfer(addr, ws), r == ETIMEDOUT))
  }

  /** The address was selected, then words were executed under the register. */
  lemma {:induction false} ServedOn(p: I2cThreads.Part, s0: Snapshot, s1: Snapshot, s2: Snapshot, k: nat, addr: nat,
                                    last: nat)
    requires Chosen(p, s0, s1, k, addr, addr != last) && |s0.fates| <= k <= |s0.log|
    requires (addr == last ==> k == |s0.fates|) && Ran(s1.fates, s2.fates, s1.tar)
    ensures Served(s0.fates, s2.fates, |s0.log|, k, s0.tar, s1.tar, addr != last && p.flushes)
  {
    var f0, f1, f := s0.fates, s1.fates, s2.fates;
    if addr != last {
      assert f1[..k][..|f0|] == f0 == f[..|f0|];
      forall i | |f0| <= i < |f|
        ensures f[i] == if i < k then Done(s0.tar) else if i < |s0.log| && p.flushes then Dropped else Done(s1.tar)
      {
        assert i < |f1| ==> f[i] == f1[i];
        assert i < k ==> f1[..k][i] == f1[i];
      }
    }
  }

  lemma {:induction false} RunOfTransfer(p: I2cThreads.Part, s0: Snapshot, s1: Snapshot, s2: Snapshot, k: nat,
                                         addr: nat, last: nat, ws: seq<Word>, r: Code)
    requires Chosen(p, s0, s1, k, addr, addr != last)
    requires if r == Success then Gave(p, s1, s2, ws) else r == ETIMEDOUT && GaveUp(p, s1, s2, ws)
    ensures TransferRuns(p, last, s0, s2, I2cThreads.Xfer(addr, ws), r == ETIMEDOUT)
    ensures r == ETIMEDOUT ==> exists n: nat :: StopsAt(s0, s2, ws, n)
  {
    if r == Success {
      WholeRun(p, last, s0, s1, s2, k, I2cThreads.Xfer(addr, ws));
    } else {
      WholeRunOut(p, last, s0, s1, s2, k, I2cThreads.Xfer(addr, ws));
      var n: nat :| StopsAt(s1, s2, ws, n);
      assert StopsAt(s0, s2, ws, n);
    }
  }

  /** A transfer that chose its address between s0 and s1 and gave its words between s1 and s2. */
  lemma {:induction false} TransferDone(r: Code, k: nat, addr: nat, last: nat, p: I2cThreads.Part, clean: bool,
                                        vals: seq<Message>, news: seq<Message>,
                                        s0: Snapshot, s1: Snapshot, s2: Snapshot)
    requires r == Success || r == ETIMEDOUT
    requires Chosen(p, s0, s1, k, addr, addr != last) && |s0.fates| <= k <= |s0.log|
    requires (addr == last ==> k == |s0.fates|) && Ran(s1.fates, s2.fates, s1.tar)
    requires s2.tar == s1.tar == if addr == last then s0.tar else addr
    requires s1.got == s0.got
    requires clean ==> |s0.log| <= k + Pending(s0.log, p.depth)
    requires clean && r == Success ==> SoFar(p, vals, |vals|, news, s1, s2)
    requires clean && r != Success ==> s2.rx == [] && GaveUp(p, s1, s2, Compile(vals, |vals|))
    ensures Transferred(r, k, addr, last, p, clean, vals, news, s0, s2)
  {
    ServedOn(p, s0, s1, s2, k, addr, last);
    if clean {
      RunOfTransfer(p, s0, s1, s2, k, addr, last, Compile(vals, |vals|), r);
    }
  }

  ghost predicate Distinct(msgs: seq<I2cMsg>) {
    forall i, j | 0 <= i < j < |msgs| :: msgs[i] != msgs[j]
  }

  /** Buffers keep their length and write buffers their contents. */
  ghost predicate SameShape(msgs: seq<I2cMsg>, vals: seq<Message>)
    reads msgs
  {
    |msgs| == |vals| &&
    forall j | 0 <= j < |msgs| :: |msgs[j].data| == |vals[j].data| && (!msgs[j].read ==> msgs[j].data == vals[j].data)
  }

  /** The same of the messages' values. */
  ghost predicate ShapeKept(vals: seq<Message>, news: seq<Message>) {
    |news| == |vals| &&
    forall j | 0 <= j < |news| ::
      && news[j].read == vals[j].read && |news[j].data| == |vals[j].data|
      && (!vals[j].read ==> news[j].data == vals[j].data)
  }

  lemma {:induction false} ShapeOf(msgs: seq<I2cMsg>, vals: seq<Message>)
    requires SameShape(msgs, vals) && |msgs| == |vals| && forall j | 0 <= j < |msgs| :: msgs[j].read == vals[j].read
    ensures ShapeKept(vals, Values(msgs))
  {
  }

  lemma {:induction false} GaveNothing(p: I2cThreads.Part, a: Snapshot, ws: seq<Word>)
    requires |a.fates| <= |a.log|
    ensures Gave(p, a, a, ws[..0])
  {
    ExecutingRun(p, a, a);
    assert ws[..0] == [] && a.log + [] == a.log;
  }

  /** Word pos of ws, or the failure to read it, after those before. */
  lemma {:induction false} WordGiven(p: I2cThreads.Part, a: Snapshot, b: Snapshot, c: Snapshot, ws: seq<Word>,
                                     pos: nat, ok: bool)
    requires pos < |ws| && Gave(p, a, b, ws[..pos])
    requires if ok then Gave(p, b, c, [ws[pos]]) else GaveUp(p, b, c, [ws[pos]])
    ensures if ok then Gave(p, a, c, ws[..pos + 1]) else GaveUp(p, a, c, ws)
  {
    assert ws[..pos] + [ws[pos]] == ws[..pos + 1];
    MoreGiven(p, a, b, c, ws[..pos], [ws[pos]], ws[..pos + 1], ws, ok);
  }

  /** More words, or the failure to give them, after those before; all of them begin `whole`. */
  lemma {:induction false} MoreGiven(p: I2cThreads.Part, a: Snapshot, b: Snapshot, c: Snapshot, before: seq<Word>,
                                     more: seq<Word>, now: seq<Word>, whole: seq<Word>, ok: bool)
    requires Gave(p, a, b, before) && (if ok then Gave(p, b, c, more) else GaveUp(p, b, c, more))
    requires now == before + more && now <= whole
    ensures if ok then Gave(p, a, c, now) else GaveUp(p, a, c, whole)
  {
    if ok {
      GaveThen(p, a, b, c, before, more);
    } else {
      GaveThenUp(p, a, b, c, before, more);
      assert now + whole[|now|..] == whole;
      UpOfMore(p, a, c, now, whole[|now|..]);
    }
  }

  /** The controller executes words while nothing more is given. */
  lemma {:induction false} GaveStays(p: I2cThreads.Part, a: Snapshot, b: Snapshot, c: Snapshot, ws: seq<Word>)
    requires Gave(p, a, b, ws)
    requires Ran(b.fates, c.fates, b.tar) && |c.fates| <= |c.log| && c.log == b.log && c.tar == b.tar
    ensures Gave(p, a, c, ws)
  {
    ExecutingRun(p, b, c);
    assert b.log + [] == b.log && ws + [] == ws;
    GaveThen(p, a, b, c, ws, []);
  }

  lemma {:induction false} PartGiven(p: I2cThreads.Part, a: Snapshot, b: Snapshot, log: seq<Word>, ws: seq<Word>,
                                     pos: nat)
    requires pos <= |ws| && Gave(p, a, b, ws[..pos]) && log == b.log
    ensures PartOf(ws, a.log, log)
  {
  }

  /** Message i after those before it, in a transfer. */
  lemma {:induction false} MessageGiven(p: I2cThreads.Part, a: Snapshot, b: Snapshot, c: Snapshot, vals: seq<Message>,
                                        i: nat, ok: bool)
    requires i < |vals| && Gave(p, a, b, Compile(vals, i))
    requires if ok then Gave(p, b, c, WordsOf(Flagged(vals, i))) else GaveUp(p, b, c, WordsOf(Flagged(vals, i)))
    ensures if ok then Gave(p, a, c, Compile(vals, i + 1)) else GaveUp(p, a, c, Compile(vals, |vals|))
  {
    CompilePrefix(vals, i + 1, |vals|);
    MoreGiven(p, a, b, c, Compile(vals, i), WordsOf(Flagged(vals, i)), Compile(vals, i + 1), Compile(vals, |vals|), ok);
  }

  class I2c {
    const hw: Controller
    var lastAddr: nat
    var busy: bool
    var setup: bool
    var lock: nat
    /** Some transfer has timed out. */
    ghost var timedOut: bool

    ghost predicate Valid()
      reads this, hw
    {
      && hw.Valid() && lock <= 1
      && (lastAddr != 0 ==> hw.tar == lastAddr)
      && (setup ==> hw.enabled)
      && (!timedOut ==> hw.Clean())
    }

    constructor (hw: Controller)
      requires hw.Valid() && hw.Clean()
      ensures Valid() && this.hw == hw && lock == 1 && lastAddr == 0 && !setup && !busy && !timedOut
    {
      this.hw := hw;
      lastAddr, busy, setup, lock, timedOut := 0, false, false, 1, false;
    }

    /** Polls for a received byte until the time is up. */
    method AwaitByte() returns (ok: bool)
      requires hw.Valid()
      modifies hw`txq, hw`rx, hw`fates
      ensures hw.Valid() && hw.Outstanding() == old(hw.Outstanding()) && ok == (hw.rx != [])
      ensures Ran(old(hw.fates), hw.fates, hw.tar)
    {
      var patience: int := *;
      ok := hw.RxNotEmpty();
      while !ok
        invariant hw.Valid() && hw.Outstanding() == old(hw.Outstanding()) && ok == (hw.rx != [])
        invariant Ran(old(hw.fates), hw.fates, hw.tar)
        decreases patience
      {
        if patience <= 0 {
          return;
        }
        patience := patience - 1;
        ok := hw.RxNotEmpty();
      }
    }

    /** Polls for room in the transmit FIFO until the time is up. */
    method AwaitRoom() returns (ok: bool)
      requires hw.Valid()
      modifies hw`txq, hw`rx, hw`fates
      ensures hw.Valid() && hw.Outstanding() == old(hw.Outstanding()) && ok == (|hw.txq| < hw.depth)
      ensures Ran(old(hw.fates), hw.fates, hw.tar)
    {
      var patience: int := *;
      ok := hw.TxNotFull();
      while !ok
        invariant hw.Valid() && hw.Outstanding() == old(hw.Outstanding()) && ok == (|hw.txq| < hw.depth)
        invariant Ran(old(hw.fates), hw.fates, hw.tar)
        decreases patience
      {
        if patience <= 0 {
          return;
        }
        patience := patience - 1;
        ok := hw.TxNotFull();
      }
    }

    /** One read command and its byte.  From a clean controller the word is the only one left when the
        byte has arrived. */
    method RecvByte(w: Word) returns (ok: bool, b: byte)
      requires hw.Valid() && w.read
      modifies hw`txq, hw`rx, hw`fates, hw`log, hw`got, hw`overrun, hw`peak
      ensures hw.Valid() && Ran(old(hw.fates), hw.fates, hw.tar) && (!ok ==> hw.rx == [])
      ensures old(hw.Clean()) ==>
                && hw.Kept()
                && (ok ==> hw.Ready() && hw.got == old(hw.got) + [b] && Gave(hw.Kind(), old(hw.Now()), hw.Now(), [w]))
                && (!ok ==> GaveUp(hw.Kind(), old(hw.Now()), hw.Now(), [w]))
    {
      b := 0;
      ghost var s0, clean := hw.Now(), hw.Clean();
      PendingSnoc(hw.log, w, hw.depth);
      hw.DataCmdWrite(w);
      ok := AwaitByte();
      if ok {
        LastRead(hw.txq);
        b := hw.DataCmdRead();
        if clean {
          GaveWord(hw.Kind(), s0, hw.Now(), w);
        }
      } else if clean {
        GaveUpRead(hw.Kind(), s0, hw.Now(), w);
      }
    }

    /** Word pos of ws and its byte. */
    method RecvNext(w: Word, ghost ws: seq<Word>, ghost pos: nat, ghost s0: Snapshot, ghost clean: bool)
      returns (ok: bool, b: byte)
      requires hw.Valid() && w.read && pos < |ws| && w == ws[pos]
      requires clean ==> hw.Clean() && Gave(hw.Kind(), s0, hw.Now(), ws[..pos])
      modifies hw`txq, hw`rx, hw`fates, hw`log, hw`got, hw`overrun, hw`peak
      ensures hw.Valid() && Ran(old(hw.fates), hw.fates, hw.tar) && (!ok ==> hw.rx == [])
      ensures clean ==>
                && hw.Kept()
                && (ok ==> hw.Ready() && hw.got == old(hw.got) + [b] && Gave(hw.Kind(), s0, hw.Now(), ws[..pos + 1]))
                && (!ok ==> GaveUp(hw.Kind(), s0, hw.Now(), ws))
    {
      ghost var s1 := hw.Now();
      ok, b := RecvByte(w);
      if clean {
        WordGiven(hw.Kind(), s0, s1, hw.Now(), ws, pos, ok);
      }
    }

    /** Receives into a message, one read command per byte.  From a clean controller, one byte at most
        is on its way at any time and no word is lost.  A time-out means that no byte came. */
    method DataRecv(m: I2cMsg) returns (r: Code)
      requires hw.Valid() && m.read
      modifies m`data, hw`txq, hw`rx, hw`fates, hw`log, hw`got, hw`overrun, hw`peak
      ensures r == Success || (r == ETIMEDOUT && hw.rx == [])
      ensures hw.Valid() && |m.data| == old(|m.data|) && Ran(old(hw.fates), hw.fates, hw.tar)
      ensures old(hw.Clean()) ==>
                && hw.Kept()
                && (r == Success ==> hw.Ready() && hw.got == old(hw.got) + m.data
                                     && Gave(hw.Kind(), old(hw.Now()), hw.Now(), WordsOf(old(m.Value()))))
                && (r != Success ==> GaveUp(hw.Kind(), old(hw.Now()), hw.Now(), WordsOf(old(m.Value()))))
    {
      ghost var m0, s0, clean := m.Value(), hw.Now(), hw.Clean();
      ghost var ws := WordsOf(m0);
      GaveNothing(hw.Kind(), s0, ws);
      var len: nat, pos: nat := |m.data|, 0;
      while len > 0
        invariant hw.Valid() && pos + len == |m.data| == |m0.data| && m.restart == m0.restart
        invariant Ran(old(hw.fates), hw.fates, hw.tar)
        invariant clean ==> hw.Clean() && hw.got == s0.got + m.data[..pos]
        invariant clean ==> Gave(hw.Kind(), s0, hw.Now(), ws[..pos])
      {
        var restart := pos == 0 && m.restart;
        var stop := len == 1 && m.stop;
        var w := Word(true, 0, restart, stop);
        assert w == ws[pos];
        var ok, b := RecvNext(w, ws, pos, s0, clean);
        if !ok {
          return ETIMEDOUT;
        }
        BytesSnoc(s0.got, m.data, pos, b);
        m.data := m.data[pos := b];
        pos, len := pos + 1, len - 1;
      }
      assert ws[..|ws|] == ws && m.data[..pos] == m.data;
      r := Success;
    }

    /** One write command with the wait for room after it. */
    method SendByte(w: Word)
      requires hw.Valid() && hw.enabled && !w.read && |hw.txq| < hw.depth
      modifies hw`txq, hw`rx, hw`fates, hw`log, hw`overrun, hw`peak
      ensures hw.Valid() && |hw.txq| < hw.depth && Ran(old(hw.fates), hw.fates, hw.tar)
      ensures hw.log == old(hw.log) + [w] && hw.overrun == old(hw.overrun) && hw.peak == old(hw.peak)
      ensures hw.Outstanding() == old(hw.Outstanding())
      ensures old(hw.Ready()) ==> hw.Ready()
      ensures Gave(hw.Kind(), old(hw.Now()), hw.Now(), [w])
    {
      ghost var s0 := hw.Now();
      PendingSnoc(hw.log, w, hw.depth);
      hw.DataCmdWrite(w);
      hw.AwaitSpace();
      GaveWord(hw.Kind(), s0, hw.Now(), w);
    }

    /** The wait for room, and word pos of ws if there is any. */
    method SendNext(w: Word, ghost ws: seq<Word>, ghost pos: nat, ghost s0: Snapshot) returns (ok: bool)
      requires hw.Valid() && hw.enabled && !w.read && pos < |ws| && w == ws[pos]
      requires Gave(hw.Kind(), s0, hw.Now(), ws[..pos])
      modifies hw`txq, hw`rx, hw`fates, hw`log, hw`overrun, hw`peak
      ensures hw.Valid() && Ran(old(hw.fates), hw.fates, hw.tar)
      ensures hw.overrun == old(hw.overrun) && hw.peak == old(hw.peak) && hw.Outstanding() == old(hw.Outstanding())
      ensures !ok ==> |hw.txq| == hw.depth
      ensures Gave(hw.Kind(), s0, hw.Now(), ws[..if ok then pos + 1 else pos])
      ensures old(hw.Ready()) ==> ok && hw.Ready()
    {
      ghost var s1 := hw.Now();
      ok := AwaitRoom();
      GaveStays(hw.Kind(), s0, s1, hw.Now(), ws[..pos]);
      if ok {
        ghost var s2 := hw.Now();
        SendByte(w);
        WordGiven(hw.Kind(), s0, s2, hw.Now(), ws, pos, true);
      }
    }

    /** Sends a message, waiting for room before and after each word.  The last words may still be
        waiting in the FIFO when it returns.  A time-out means that there was no room; from a ready
        controller there always is. */
    method DataWrite(m: I2cMsg) returns (r: Code)
      requires hw.Valid() && hw.enabled && !m.read
      modifies hw`txq, hw`rx, hw`fates, hw`log, hw`overrun, hw`peak
      ensures r == Success || (r == ETIMEDOUT && |hw.txq| == hw.depth)
      ensures hw.Valid() && hw.overrun == old(hw.overrun) && hw.peak == old(hw.peak)
      ensures Ran(old(hw.fates), hw.fates, hw.tar) && hw.Outstanding() == old(hw.Outstanding())
      ensures r == Success ==> Gave(hw.Kind(), old(hw.Now()), hw.Now(), WordsOf(m.Value()))
      ensures r != Success ==> PartOf(WordsOf(m.Value()), old(hw.log), hw.log)
      ensures old(hw.Ready()) ==> r == Success && hw.Ready()
    {
      ghost var m0, s0 := m.Value(), hw.Now();
      ghost var pos;
      r, pos := WriteLoop(m, WordsOf(m0));
      assert m.Value() == m0;
      if r != Success {
        PartGiven(hw.Kind(), s0, hw.Now(), hw.log, WordsOf(m0), pos);
      } else {
        assert WordsOf(m0)[..|m0.data|] == WordsOf(m0);
      }
    }

    /** The loop: `sent` words of ws, all of them unless there was no room. */
    method WriteLoop(m: I2cMsg, ghost ws: seq<Word>) returns (r: Code, ghost sent: nat)
      requires hw.Valid() && hw.enabled && !m.read && |ws| == |m.data|
      requires forall p | 0 <= p < |ws| :: ws[p] == Word(false, m.data[p], p == 0 && m.restart, p == |ws| - 1 && m.stop)
      modifies hw`txq, hw`rx, hw`fates, hw`log, hw`overrun, hw`peak
      ensures r == Success || (r == ETIMEDOUT && |hw.txq| == hw.depth)
      ensures hw.Valid() && hw.overrun == old(hw.overrun) && hw.peak == old(hw.peak)
      ensures Ran(old(hw.fates), hw.fates, hw.tar) && hw.Outstanding() == old(hw.Outstanding())
      ensures sent <= |ws| && Gave(hw.Kind(), old(hw.Now()), hw.Now(), ws[..sent]) && (r == Success ==> sent == |ws|)
      ensures old(hw.Ready()) ==> r == Success && hw.Ready()
    {
      ghost var s0 := hw.Now();
      GaveNothing(hw.Kind(), s0, ws);
      var len: nat, pos: nat := |m.data|, 0;
      r := Success;
      while len > 0
        invariant r == Success && hw.Valid() && pos + len == |m.data| && hw.overrun == old(hw.overrun)
                  && hw.peak == old(hw.peak)
        invariant Ran(old(hw.fates), hw.fates, hw.tar) && hw.Outstanding() == old(hw.Outstanding())
        invariant old(hw.Ready()) ==> hw.Ready()
        invariant Gave(hw.Kind(), s0, hw.Now(), ws[..pos])
      {
        var ok := SendAt(m, pos, len, ws, s0);
        if !ok {
          r := ETIMEDOUT;
          break;
        }
        pos, len := pos + 1, len - 1;
      }
      sent := pos;
    }

    /** Byte pos of the message, of which len are left. */
    method SendAt(m: I2cMsg, pos: nat, len: nat, ghost ws: seq<Word>, ghost s0: Snapshot) returns (ok: bool)
      requires hw.Valid() && hw.enabled && !m.read && len > 0 && pos + len == |m.data| == |ws|
      requires forall p | 0 <= p < |ws| :: ws[p] == Word(false, m.data[p], p == 0 && m.restart, p == |ws| - 1 && m.stop)
      requires Gave(hw.Kind(), s0, hw.Now(), ws[..pos])
      modifies hw`txq, hw`rx, hw`fates, hw`log, hw`overrun, hw`peak
      ensures hw.Valid() && Ran(old(hw.fates), hw.fates, hw.tar)
      ensures hw.overrun == old(hw.overrun) && hw.peak == old(hw.peak) && hw.Outstanding() == old(hw.Outstanding())
      ensures !ok ==> |hw.txq| == hw.depth
      ensures Gave(hw.Kind(), s0, hw.Now(), ws[..if ok then pos + 1 else pos])
      ensures old(hw.Ready()) ==> ok && hw.Ready()
    {
      var restart := pos == 0 && m.restart;
      var stop := len == 1 && m.stop;
      ok := SendNext(Word(false, m.data[pos], restart, stop), ws, pos, s0);
    }

    /** Programs the target address, with the controller disabled around it.  The words still waiting
        then were sent to the old address. */
    method ConfigAddr(addr: nat) returns (ghost k: nat)
      requires hw.Valid()
      modifies hw`enabled, hw`tar, hw`txq, hw`rx, hw`fates
      ensures hw.Valid() && hw.enabled && hw.tar == addr && hw.Outstanding() <= old(hw.Outstanding())
      ensures Chosen(hw.Kind(), old(hw.Now()), hw.Now(), k, addr, true)
      ensures hw.txq == if hw.flushes then [] else hw.log[k..]
    {
      k := hw.Disable();
      hw.TarWrite(addr);
      hw.Enable();
    }

    /** One message with the flag that the driver gives it. */
    method OneMessage(m: I2cMsg) returns (r: Code)
      requires hw.Valid() && hw.enabled
      modifies m`data, hw`txq, hw`rx, hw`fates, hw`log, hw`got, hw`overrun, hw`peak
      ensures r == Success || (r == ETIMEDOUT && hw.Stalled())
      ensures hw.Valid() && |m.data| == old(|m.data|) && (!m.read ==> m.data == old(m.data))
      ensures Ran(old(hw.fates), hw.fates, hw.tar)
      ensures old(hw.Clean()) ==>
                && hw.Kept()
                && (r == Success ==> hw.Ready() && hw.got == old(hw.got) + (if m.read then m.data else [])
                                     && Gave(hw.Kind(), old(hw.Now()), hw.Now(), WordsOf(old(m.Value()))))
                && (r != Success ==> GaveUp(hw.Kind(), old(hw.Now()), hw.Now(), WordsOf(old(m.Value()))))
    {
      if m.read {
        r := DataRecv(m);
      } else {
        r := DataWrite(m);
      }
    }

    /** A whole transfer; `configured` is what configuring the controller would return.  The first k
        words of the controller's log were executed before the address register could change; until
        something has timed out, no more words are still waiting than Pending counts. */
    method Transfer(msgs: seq<I2cMsg>, addr: nat, configured: Code) returns (r: Code, ghost k: nat)
      requires Valid() && lock == 1 && Distinct(msgs)
      modifies this`lock, this`setup, this`lastAddr, this`timedOut, hw, msgs
      ensures Valid() && lock == 1 && ShapeKept(old(Values(msgs)), Values(msgs))
      ensures msgs == [] ==> r == Success
      ensures msgs != [] && msgs[0].tenBit ==> r == ENOTSUP
      ensures msgs != [] && !msgs[0].tenBit && busy ==> r == EBUSY
      ensures msgs != [] && !msgs[0].tenBit && !busy && !old(setup) && configured != Success ==> r == configured
      ensures msgs == [] || msgs[0].tenBit || busy || (!old(setup) && configured != Success) ==>
                && hw.Now() == old(hw.Now()) && lastAddr == old(lastAddr) && timedOut == old(timedOut)
                && setup == old(setup) && Values(msgs) == old(Values(msgs))
      ensures msgs != [] && !msgs[0].tenBit && !busy && (old(setup) || configured == Success) ==>
                && setup
                && Transferred(r, k, addr, old(lastAddr), hw.Kind(), !old(timedOut),
                               old(Values(msgs)), Values(msgs), old(hw.Now()), hw.Now())
                && lastAddr == addr && timedOut == (old(timedOut) || r == ETIMEDOUT)
                && (!old(timedOut) ==> hw.Kept()) && (r == ETIMEDOUT ==> hw.Stalled())
    {
      ghost var vals := Values(msgs);
      k := |hw.log|;
      if |msgs| == 0 {
        return Success, k;
      }
      if msgs[0].tenBit {
        return ENOTSUP, k;
      }
      if busy {
        return EBUSY, k;
      }
      ghost var news;
      r, k, news := Locked(msgs, addr, configured, vals);
    }

    /** From taking the lock to giving it back. */
    method Locked(msgs: seq<I2cMsg>, addr: nat, configured: Code, ghost vals: seq<I2cStream.Message>)
      returns (r: Code, ghost k: nat, ghost news: seq<I2cStream.Message>)
      requires Valid() && lock == 1 && msgs != [] && Distinct(msgs) && vals == Values(msgs)
      modifies this`lock, this`setup, this`lastAddr, this`timedOut, hw, msgs
      ensures Valid() && lock == 1 && ShapeKept(vals, news) && news == Values(msgs)
      ensures setup == (old(setup) || configured == Success)
      ensures !old(setup) && configured != Success ==>
                && r == configured && news == vals
                && hw.Now() == old(hw.Now()) && lastAddr == old(lastAddr) && timedOut == old(timedOut)
      ensures old(setup) || configured == Success ==>
                && Transferred(r, k, addr, old(lastAddr), hw.Kind(), !old(timedOut),
                               vals, news, old(hw.Now()), hw.Now())
                && lastAddr == addr && timedOut == (old(timedOut) || r == ETIMEDOUT)
                && (!old(timedOut) ==> hw.Kept()) && (r == ETIMEDOUT ==> hw.Stalled())
    {
      k, news := 0, vals;
      lock := lock - 1;
      r := EnsureSetup(configured);
      assert hw.Now() == old(hw.Now());
      if setup {
        r, k, news := Serve(msgs, addr, vals);
      }
      lock := lock + 1;
    }

    /** Configures the controller before its first transfer. */
    method EnsureSetup(configured: Code) returns (r: Code)
      requires Valid()
      modifies this`setup, hw`enabled
      ensures Valid() && setup == (old(setup) || configured == Success)
      ensures r == if old(setup) then Success else configured
    {
      r := Success;
      if !setup {
        r := configured;
        if r == Success {
          setup := true;
          hw.Enable();
        }
      }
    }

    /** The part of a transfer that runs under the lock: the cached address, then the messages. */
    method Serve(msgs: seq<I2cMsg>, addr: nat, ghost vals: seq<I2cStream.Message>)
      returns (r: Code, ghost k: nat, ghost news: seq<I2cStream.Message>)
      requires Valid() && lock == 0 && setup && msgs != [] && Distinct(msgs) && vals == Values(msgs)
      modifies this`lastAddr, this`timedOut, hw, msgs
      ensures Valid() && ShapeKept(vals, news) && news == Values(msgs)
      ensures Transferred(r, k, addr, old(lastAddr), hw.Kind(), !old(timedOut),
                          vals, news, old(hw.Now()), hw.Now())
      ensures lastAddr == addr && timedOut == (old(timedOut) || r == ETIMEDOUT)
      ensures (!old(timedOut) ==> hw.Kept()) && (r == ETIMEDOUT ==> hw.Stalled())
    {
      ghost var s0 := hw.Now();
      k := SelectAddr(addr);
      ghost var s1 := hw.Now();
      r := Messages(msgs, vals);
      news := Values(msgs);
      ShapeOf(msgs, vals);
      timedOut := timedOut || r == ETIMEDOUT;
      TransferDone(r, k, addr, old(lastAddr), hw.Kind(), !old(timedOut), vals, news, s0, s1, hw.Now());
    }

    /** Updates the target address only if it differs from the remembered one. */
    method SelectAddr(addr: nat) returns (ghost k: nat)
      requires Valid() && setup && lock == 0
      modifies this`lastAddr, hw`enabled, hw`tar, hw`txq, hw`rx, hw`fates
      ensures Valid() && lastAddr == addr && hw.tar == (if addr == old(lastAddr) then old(hw.tar) else addr)
      ensures Chosen(hw.Kind(), old(hw.Now()), hw.Now(), k, addr, addr != old(lastAddr))
              && |old(hw.fates)| <= k <= |hw.log|
      ensures addr == old(lastAddr) ==> k == |old(hw.fates)|
      ensures !timedOut ==> |hw.log| <= k + Pending(hw.log, hw.depth)
    {
      k := |hw.fates|;
      if addr != lastAddr {
        k := ConfigAddr(addr);
        lastAddr := addr;
      }
    }

    /** Message i of a transfer: its flag, then its words. */
    method Message(msgs: seq<I2cMsg>, i: nat, ghost vals: seq<I2cStream.Message>) returns (r: Code)
      requires hw.Valid() && hw.enabled && i < |msgs| == |vals|
      requires forall j | 0 <= j < |msgs| :: msgs[j].read == vals[j].read && msgs[j].stop == vals[j].stop
      requires msgs[i].data == vals[i].data && msgs[i].restart == (i == 0 || vals[i].restart)
      modifies msgs[i], hw`txq, hw`rx, hw`fates, hw`log, hw`got, hw`overrun, hw`peak
      ensures hw.Valid() && Ran(old(hw.fates), hw.fates, hw.tar) && (r == Success || (r == ETIMEDOUT && hw.Stalled()))
      ensures |msgs[i].data| == |vals[i].data| && (!msgs[i].read ==> msgs[i].data == vals[i].data)
      ensures old(hw.Clean()) ==>
                && hw.Kept()
                && (r == Success ==> hw.Ready() && hw.got == old(hw.got) + (if msgs[i].read then msgs[i].data else [])
                                     && Gave(hw.Kind(), old(hw.Now()), hw.Now(), WordsOf(Flagged(vals, i))))
                && (r != Success ==> GaveUp(hw.Kind(), old(hw.Now()), hw.Now(), WordsOf(Flagged(vals, i))))
    {
      if i > 0 {
        if msgs[i - 1].stop || msgs[i - 1].read {
          msgs[i].restart := true;
        }
      }
      assert msgs[i].Value() == Flagged(vals, i);
      r := OneMessage(msgs[i]);
    }

    /** What the loop has done after i messages. */
    ghost predicate Sent(msgs: seq<I2cMsg>, i: nat, vals: seq<I2cStream.Message>, news: seq<I2cStream.Message>)
      reads msgs
    {
      && |msgs| == |vals| && |news| == i <= |msgs|
      && (forall j | 0 <= j < |msgs| :: msgs[j].read == vals[j].read && msgs[j].stop == vals[j].stop)
      && (forall j | 0 <= j < i :: news[j] == msgs[j].Value())
      && (forall j | 0 <= j < i :: |msgs[j].data| == |vals[j].data| && (!msgs[j].read ==> msgs[j].data == vals[j].data))
      && (forall j | i <= j < |msgs| :: msgs[j].data == vals[j].data && msgs[j].restart == (j == 0 || vals[j].restart))
    }

    lemma {:induction false} AllSent(msgs: seq<I2cMsg>, vals: seq<I2cStream.Message>, news: seq<I2cStream.Message>)
      requires Sent(msgs, |msgs|, vals, news)
      ensures news == Values(msgs) && SameShape(msgs, vals)
    {
    }

    /** One round of the message loop, with what it keeps of the other messages. */
    method MessageSent(msgs: seq<I2cMsg>, i: nat, ghost vals: seq<I2cStream.Message>,
                       ghost news: seq<I2cStream.Message>)
      returns (r: Code, ghost m: I2cStream.Message)
      requires hw.Valid() && hw.enabled && i < |msgs| && Distinct(msgs) && Sent(msgs, i, vals, news)
      modifies msgs[i], hw`txq, hw`rx, hw`fates, hw`log, hw`got, hw`overrun, hw`peak
      ensures hw.Valid() && Ran(old(hw.fates), hw.fates, hw.tar) && (r == Success || (r == ETIMEDOUT && hw.Stalled()))
      ensures r == Success ==> Sent(msgs, i + 1, vals, news + [m])
      ensures r != Success ==> SameShape(msgs, vals)
      ensures old(hw.Clean()) ==>
                && hw.Kept()
                && (r == Success ==> hw.Ready() && hw.got == old(hw.got) + (if m.read then m.data else [])
                                     && Gave(hw.Kind(), old(hw.Now()), hw.Now(), WordsOf(Flagged(vals, i))))
                && (r != Success ==> GaveUp(hw.Kind(), old(hw.Now()), hw.Now(), WordsOf(Flagged(vals, i))))
    {
      r := Message(msgs, i, vals);
      m := msgs[i].Value();
    }

    /** The same, seen from the whole transfer, which began at s0. */
    method MessageStep(msgs: seq<I2cMsg>, i: nat, ghost vals: seq<I2cStream.Message>,
                       ghost news: seq<I2cStream.Message>, ghost clean: bool, ghost s0: Snapshot)
      returns (r: Code, ghost news': seq<I2cStream.Message>)
      requires hw.Valid() && hw.enabled && i < |msgs| && Distinct(msgs) && Sent(msgs, i, vals, news)
      requires clean ==> hw.Clean() && SoFar(hw.Kind(), vals, i, news, s0, hw.Now())
      modifies msgs[i], hw`txq, hw`rx, hw`fates, hw`log, hw`got, hw`overrun, hw`peak
      ensures hw.Valid() && Ran(old(hw.fates), hw.fates, hw.tar) && (r == Success || (r == ETIMEDOUT && hw.Stalled()))
      ensures r == Success ==> Sent(msgs, i + 1, vals, news')
      ensures r != Success ==> SameShape(msgs, vals)
      ensures clean ==> hw.Kept()
      ensures clean && r == Success ==> hw.Ready() && SoFar(hw.Kind(), vals, i + 1, news', s0, hw.Now())
      ensures clean && r != Success ==> GaveUp(hw.Kind(), s0, hw.Now(), Compile(vals, |vals|))
    {
      ghost var m;
      ghost var s1 := hw.Now();
      r, m := MessageSent(msgs, i, vals, news);
      news' := news + [m];
      GotStep(s0.got, news, m);
      if clean {
        MessageGiven(hw.Kind(), s0, s1, hw.Now(), vals, i, r == Success);
      }
    }

    /** The first message always starts with a RESTART. */
    method MarkFirst(msgs: seq<I2cMsg>, ghost vals: seq<I2cStream.Message>)
      requires msgs != [] && Distinct(msgs) && vals == Values(msgs)
      modifies msgs[0]
      ensures Sent(msgs, 0, vals, [])
    {
      msgs[0].restart := true;
    }

    /** The message loop of a transfer. */
    method Messages(msgs: seq<I2cMsg>, ghost vals: seq<I2cStream.Message>) returns (r: Code)
      requires hw.Valid() && hw.enabled && msgs != [] && Distinct(msgs) && vals == Values(msgs) && lock == 0
      modifies msgs, hw`txq, hw`rx, hw`fates, hw`log, hw`got, hw`overrun, hw`peak
      ensures hw.Valid() && Ran(old(hw.fates), hw.fates, hw.tar) && (r == Success || (r == ETIMEDOUT && hw.Stalled()))
      ensures SameShape(msgs, vals)
      ensures old(hw.Clean()) ==> hw.Kept() && (r == Success ==> hw.Ready())
      ensures old(hw.Clean()) && r == Success ==>
                SoFar(hw.Kind(), vals, |vals|, Values(msgs), old(hw.Now()), hw.Now())
      ensures old(hw.Clean()) && r != Success ==> GaveUp(hw.Kind(), old(hw.Now()), hw.Now(), Compile(vals, |vals|))
    {
      ghost var s0, clean := hw.Now(), hw.Clean();
      ghost var news: seq<I2cStream.Message> := [];
      NothingYet(hw.Kind(), vals, s0);
      MarkFirst(msgs, vals);
      var i := 0;
      while i < |msgs|
        invariant 0 <= i <= |msgs| && hw.Valid() && Sent(msgs, i, vals, news) && Ran(old(hw.fates), hw.fates, hw.tar)
        invariant clean ==> hw.Clean() && SoFar(hw.Kind(), vals, i, news, s0, hw.Now())
      {
        r, news := MessageStep(msgs, i, vals, news, clean, s0);
        if r != Success {
          return;
        }
        i := i + 1;
      }
      AllSent(msgs, vals, news);
      r := Success;
    }
  }

  /** The first transfer of a fresh device on an idle controller: a list that is not empty and whose first
      message is not in ten-bit mode is served, and everything it asks for goes out unless no byte comes. */
  method FirstTransfer(hw: Controller, msgs: seq<I2cMsg>, addr: nat) returns (r: Code)
    requires hw.Valid() && hw.Clean() && msgs != [] && !msgs[0].tenBit && Distinct(msgs)
    modifies hw, msgs
    ensures r == Success || (r == ETIMEDOUT && hw.rx == [])
    ensures r == Success ==>
              && hw.log == old(hw.log) + Compile(old(Values(msgs)), |msgs|)
              && hw.got == old(hw.got) + Received(Values(msgs))
              && hw.tar == if addr == 0 then old(hw.tar) else addr
    ensures forall j | 0 <= j < |msgs| :: |msgs[j].data| == |old(msgs[j].data)|
  {
    ghost var vals := Values(msgs);
    var dev := new I2c(hw);
    ghost var k;
    assert vals == Values(msgs);
    r, k := dev.Transfer(msgs, addr, Success);
    forall j | 0 <= j < |msgs|
      ensures |msgs[j].data| == |vals[j].data|
    {
      assert Values(msgs)[j] == msgs[j].Value();
    }
  }

  datatype Request = Request(msgs: seq<I2cMsg>, addr: nat, configured: Code)

  /** Any run of transfers, up to the first one that times out: at no moment was a word lost to a full
      FIFO or more than one byte on its way. */
  method AnyTransfers(dev: I2c, reqs: seq<Request>, ghost all: set<I2cMsg>)
    requires dev.Valid() && dev.lock == 1
    requires forall q | q in reqs :: Distinct(q.msgs) && forall m | m in q.msgs :: m in all
    modifies dev, dev.hw, all
    ensures dev.Valid() && dev.lock == 1
    ensures !old(dev.timedOut) ==> !dev.hw.overrun && dev.hw.peak <= 1
  {
    var i, r := 0, Success;
    while i < |reqs| && r != ETIMEDOUT
      invariant 0 <= i <= |reqs| && dev.Valid() && dev.lock == 1
      invariant !old(dev.timedOut) ==> dev.hw.Kept() && (r != ETIMEDOUT ==> !dev.timedOut)
    {
      assert reqs[i] in reqs;
      ghost var k;
      r, k := dev.Transfer(reqs[i].msgs, reqs[i].addr, reqs[i].configured);
      i := i + 1;
    }
  }
}
