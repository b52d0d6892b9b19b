/** When the words of a transfer can meet the address register of another one. */
module I2cSafe {
  import opened I2cStream
  import opened I2cThreads

  function Words(xs: seq<Xfer>): seq<Word> {
    if xs == [] then [] else Words(xs[..|xs| - 1]) + xs[|xs| - 1].words
  }

  /** Transfer j is the first after i with another address. */
  predicate FirstSwitch(xs: seq<Xfer>, i: nat, j: nat) {
    i < j < |xs| && xs[j].addr != xs[i].addr && forall m | i < m < j :: xs[m].addr == xs[i].addr
  }

  /** From the transfers alone: until the address changes, enough words follow transfer i's own, or a
      read that comes last or after them, to drive them all out of the FIFO. */
  predicate Safe(xs: seq<Xfer>, depth: nat, i: nat)
    requires i < |xs|
  {
    xs[i].words == [] ||
    forall j | i < j < |xs| && FirstSwitch(xs, i, j) :: Pending(Words(xs[i..j]), depth) <= |Words(xs[i + 1..j])|
  }

  /** A last read always does. */
  lemma {:induction false} ReadLastIsSafe(xs: seq<Xfer>, depth: nat, i: nat)
    requires i < |xs| && (xs[i].words != [] ==> xs[i].words[|xs[i].words| - 1].read)
    ensures Safe(xs, depth, i)
  {
    if xs[i].words != [] {
      forall j | i < j < |xs| && FirstSwitch(xs, i, j)
        ensures Pending(Words(xs[i..j]), depth) <= |Words(xs[i + 1..j])|
      {
        var ws, more := xs[i].words, Words(xs[i + 1..j]);
        assert xs[i..j] == [xs[i]] + xs[i + 1..j];
        WordsConcat([xs[i]], xs[i + 1..j]);
        assert Words([xs[i]]) == ws;
        assert Pending(ws, depth) == 0;
        PendingGrows(ws, more, depth);
      }
    }
  }

  lemma {:induction false} WordsConcat(a: seq<Xfer>, b: seq<Xfer>)
    ensures Words(a + b) == Words(a) + Words(b)
    decreases |b|
  {
    if b == [] {
      assert a + b == a;
    } else {
      var n := |b| - 1;
      assert (a + b)[..|a + b| - 1] == a + b[..n] && (a + b)[|a + b| - 1] == b[n];
      WordsConcat(a, b[..n]);
      assert Words(a) + Words(b[..n]) + b[n].words == Words(a) + (Words(b[..n]) + b[n].words);
    }
  }

  lemma {:induction false} PendingGrows(a: seq<Word>, b: seq<Word>, depth: nat)
    ensures Pending(a + b, depth) <= Pending(a, depth) + |b|
    decreases |b|
  {
    if b == [] {
      assert a + b == a;
    } else {
      var n := |b| - 1;
      assert (a + b)[..|a + b| - 1] == a + b[..n];
      PendingGrows(a, b[..n], depth);
    }
  }

  /** What came before can only matter while b is shorter than what the FIFO can hold back. */
  lemma {:induction false} PendingSuffix(a: seq<Word>, b: seq<Word>, depth: nat)
    requires depth > 0
    ensures Pending(b, depth) <= Pending(a + b, depth)
    ensures Pending(a + b, depth) == Pending(b, depth) || Pending(b, depth) == (if |b| < depth then |b| else depth - 1)
    decreases |b|
  {
    if b == [] {
      assert a + b == a;
    } else {
      var n := |b| - 1;
      assert (a + b)[..|a + b| - 1] == a + b[..n];
      PendingSuffix(a, b[..n], depth);
    }
  }

  lemma {:induction false} WordsSplit(xs: seq<Xfer>, a: nat, b: nat, c: nat)
    requires a <= b <= c <= |xs|
    ensures Words(xs[a..c]) == Words(xs[a..b]) + Words(xs[b..c])
  {
    assert xs[a..c] == xs[a..b] + xs[b..c];
    WordsConcat(xs[a..b], xs[b..c]);
  }

  lemma {:induction false} WordsSnoc(xs: seq<Xfer>, a: nat, b: nat)
    requires a <= b < |xs|
    ensures Words(xs[a..b + 1]) == Words(xs[a..b]) + xs[b].words
  {
    assert xs[a..b + 1][..b - a] == xs[a..b] && xs[a..b + 1][b - a] == xs[b];
  }

  // ----- safe transfers never meet another register

  function Xs(h: seq<Entry>): (r: seq<Xfer>)
    ensures |r| == |h|
  {
    seq(|h|, i requires 0 <= i < |h| => h[i].x)
  }

  lemma {:induction false} SerialIsWords(h: seq<Entry>, n: nat)
    requires n <= |h| && forall i | 0 <= i < n :: h[i].sent == |h[i].x.words|
    ensures SerialLog(h[..n]) == Words(Xs(h)[..n])
    decreases n
  {
    if n > 0 {
      SerialIsWords(h, n - 1);
      assert h[..n][..n - 1] == h[..n - 1] && Xs(h)[..n][..n - 1] == Xs(h)[..n - 1];
      assert Sent(h[n - 1]) == h[n - 1].x.words;
    }
  }

  lemma {:induction false} FindFirst(xs: seq<Xfer>, i: nat, k: nat) returns (j: nat)
    requires i < k < |xs| && xs[k].addr != xs[i].addr
    ensures FirstSwitch(xs, i, j) && j <= k
    decreases k
  {
    if forall m | i < m < k :: xs[m].addr == xs[i].addr {
      j := k;
    } else {
      var m :| i < m < k && xs[m].addr != xs[i].addr;
      j := FindFirst(xs, i, m);
    }
  }

  lemma {:induction false} LastUsed(sel: seq<Sel>, c: Cache, j: nat)
    requires 0 < j <= |sel|
    ensures CacheAfter(sel[..j], c).last == sel[j - 1].addr
  {
    assert sel[..j][..j - 1] == sel[..j - 1];
  }

  /** At every later change of the register the words of a safe transfer have left the FIFO. */
  lemma {:induction false} DrivenOut(xs: seq<Xfer>, depth: nat, i: nat, j: nat, p: nat)
    requires depth > 0 && i < j < |xs| && xs[j].addr != xs[j - 1].addr
    requires Safe(xs, depth, i) && xs[i].words != [] && p < |Words(xs[..i + 1])|
    ensures p + Pending(Words(xs[..j]), depth) < |Words(xs[..j])|
  {
    var first := FindFirst(xs, i, if xs[j].addr != xs[i].addr then j else j - 1);
    PendingGrows(Words(xs[i..first]), Words(xs[first..j]), depth);
    WordsSplit(xs, i, first, j);
    WordsSplit(xs, i + 1, first, j);
    PendingSuffix(Words(xs[..i]), Words(xs[i..j]), depth);
    WordsSplit(xs, 0, i, j);
    WordsSplit(xs, 0, i + 1, j);
    WordsSplit(xs, i, i + 1, j);
    WordsSnoc(xs, i, i);
    assert xs[0..i] == xs[..i] && xs[0..j] == xs[..j] && xs[0..i + 1] == xs[..i + 1] && xs[i..i] == [];
  }

  /** In every run without a time-out, by any threads, the words of a safe transfer are executed under
      its own register, or still waiting for that. */
  lemma {:induction false} SafeNeverCrosses(s0: Sys, steps: seq<Step>, s: Sys, p: nat)
    requires Initial(s0) && IsRun(s0, steps, s) && !s.timedOut && p < |s.log|
    ensures p < |s.owner| && p < |s.fates| && s.owner[p] < |s.sel| <= |s.acquired|
    ensures Safe(Xs(s.acquired), s.part.depth, s.owner[p]) ==>
              && !Crossed(s.sel, s0.cache, s.owner[p], p)
              && (s.fates[p] == Queued || s.fates[p] == Done(Reg(s.sel, s0.cache, s.owner[p])))
  {
    InvInitial(s0);
    Kept(s0, steps, s, s0.cache);
    ExecutedUnderOwn(s0, steps, s, p);
    var i, h := s.owner[p], s.acquired;
    if Safe(Xs(h), s.part.depth, i) && Crossed(s.sel, s0.cache, i, p) {
      var j :| i < j < |s.sel| && Switches(s.sel, s0.cache, j) && p in s.sel[j].left;
      CannotCross(s, s0.cache, i, j, p);
    }
  }

  lemma {:induction false} SameOwner(s: Sys, i: nat, p: nat)
    requires Whole(s) && Owned(s) && s.holder.Free? && !s.timedOut && p < |s.log| && i < |s.acquired|
    requires |Words(Xs(s.acquired)[..i])| <= p < |Words(Xs(s.acquired)[..i + 1])|
    ensures s.owner[p] == i
  {
    OwnedBy(s, Xs(s.acquired), i, p);
  }

  /** Once the FIFO has run empty, a safe transfer has been executed: its stretch of the log is its
      messages' transactions, and every word of it was executed under its own register. */
  lemma {:induction false} SafeTransferExecuted(s0: Sys, steps: seq<Step>, s: Sys, i: nat, addr: nat,
                                                msgs: seq<Message>)
    requires Initial(s0) && IsRun(s0, steps, s) && s.holder.Free? && !s.timedOut && s.fifo == []
    requires i < |s.acquired| && s.acquired[i].x == XferOf(addr, msgs) && Safe(Xs(s.acquired), s.part.depth, i)
    ensures var lo, hi := |Words(Xs(s.acquired)[..i])|, |Words(Xs(s.acquired)[..i + 1])|;
            && lo <= hi <= |s.log| == |s.fates| && i < |s.sel|
            && Decode(s.log[lo..hi]) == Transactions(msgs, |msgs|)
            && forall p | lo <= p < hi :: s.fates[p] == Done(Reg(s.sel, s0.cache, i))
  {
    InvInitial(s0);
    Kept(s0, steps, s, s0.cache);
    var xs := Xs(s.acquired);
    var lo, hi := |Words(xs[..i])|, |Words(xs[..i + 1])|;
    LogIsWords(s);
    WordsMono(xs, i + 1, |xs|);
    WordsSnoc(xs, 0, i);
    assert xs[..|xs|] == xs && xs[0..i] == xs[..i] && xs[0..i + 1] == xs[..i + 1];
    assert s.log[lo..hi] == xs[i].words;
    RoundTrip(msgs, |msgs|);
    forall p | lo <= p < hi
      ensures s.fates[p] == Done(Reg(s.sel, s0.cache, i))
    {
      SameOwner(s, i, p);
      SafeNeverCrosses(s0, steps, s, p);
    }
  }

  lemma {:induction false} PrefixWords(s: Sys, n: nat)
    requires Whole(s) && !s.timedOut && n < |s.acquired|
    ensures SerialLog(s.acquired[..n]) == Words(Xs(s.acquired)[..n])
  {
    SerialIsWords(s.acquired, n);
  }

  /** A word of transfer i lies among its words, so it has some. */
  lemma {:induction false} HasWords(xs: seq<Xfer>, i: nat, p: nat)
    requires i < |xs| && |Words(xs[..i])| <= p < |Words(xs[..i + 1])|
    ensures xs[i].words != []
  {
    WordsSnoc(xs, 0, i);
    assert xs[0..i] == xs[..i] && xs[0..i + 1] == xs[..i + 1];
  }

  /** Where the word at p lies among the transfers' words. */
  lemma {:induction false} Placed(s: Sys, i: nat, p: nat)
    requires Whole(s) && AllBelong(s.acquired, s.owner) && !s.timedOut && i + 1 < |s.acquired|
    requires p < |s.owner| && s.owner[p] == i
    ensures p < |Words(Xs(s.acquired)[..i + 1])| && s.acquired[i].x.words != []
  {
    assert Belongs(s.acquired, i, p);
    PrefixWords(s, i);
    PrefixWords(s, i + 1);
    HasWords(Xs(s.acquired), i, p);
  }

  lemma {:induction false} CannotCross(s: Sys, c: Cache, i: nat, j: nat, p: nat)
    requires Whole(s) && Selected(s) && Owned(s) && Bounded(s) && !s.timedOut
    requires p < |s.log| && s.owner[p] == i < j < |s.sel| && Safe(Xs(s.acquired), s.part.depth, i)
    requires Switches(s.sel, c, j)
    ensures p !in s.sel[j].left
  {
    var h := s.acquired;
    Placed(s, i, p);
    PrefixWords(s, j);
    LastUsed(s.sel, c, j);
    DrivenOut(Xs(h), s.part.depth, i, j, p);
    assert LeftOk(h, s.sel[j], j, s.part.depth);
  }

  // ----- unsafe transfers do in some run: one in which the controller executes a word only when the
  //       driver waits for it

  /** The positions in the FIFO are positions of the log, and there is room. */
  ghost predicate Sane(s: Sys) {
    && s.part.depth > 0 && !s.timedOut && |s.fates| == |s.log| && |s.fifo| < s.part.depth
    && forall m | 0 <= m < |s.fifo| :: s.fifo[m] < |s.fates|
  }

  lemma {:induction false} DrainAll(s: Sys) returns (steps: seq<Step>, s': Sys)
    requires forall m | 0 <= m < |s.fifo| :: s.fifo[m] < |s.fates|
    ensures IsRun(s, steps, s') && s' == s.(fates := s'.fates, fifo := []) && |s'.fates| == |s.fates|
    decreases |s.fifo|
  {
    if s.fifo == [] {
      steps, s' := [], s;
    } else {
      var s1 := Next(s, Drain);
      var more;
      more, s' := DrainAll(s1);
      steps := [Drain] + more;
      assert steps[1..] == more;
    }
  }

  /** The wait after a word, with no more executed than it takes. */
  lemma {:induction false} LazyWait(s: Sys) returns (steps: seq<Step>, s': Sys)
    requires s.holder.Waiting? && s.log != [] && 0 < |s.fifo| <= s.part.depth
    requires forall m | 0 <= m < |s.fifo| :: s.fifo[m] < |s.fates|
    ensures IsRun(s, steps, s') && |s'.fates| == |s.fates|
    ensures s' == s.(fates := s'.fates, fifo := s'.fifo, holder := Sending(s.holder.tid, s.holder.k))
    ensures s'.fifo == if s.log[|s.log| - 1].read then [] else if Full(s) then s.fifo[1..] else s.fifo
  {
    var s1;
    steps, s1 := [], s;
    if s.log[|s.log| - 1].read {
      steps, s1 := DrainAll(s);
    } else if Full(s) {
      s1 := Next(s, Drain);
      RunSnoc(s, [], s, Drain);
      steps := [Drain];
    }
    s' := Next(s1, Arrive);
    RunSnoc(s, steps, s1, Arrive);
    steps := steps + [Arrive];
  }

  /** One word, executed as late as the driver's wait allows. */
  lemma {:induction false} LazyWord(s: Sys, ws: seq<Word>) returns (steps: seq<Step>, s': Sys)
    requires Sane(s) && s.holder.Sending? && Busy(s) && s.sel != [] && s.holder.k < |Current(s).words|
    requires Pending(ws, s.part.depth) <= |s.fifo|
    ensures IsRun(s, steps, s') && Sane(s')
    ensures s' == s.(log := s'.log, owner := s'.owner, fates := s'.fates, fifo := s'.fifo,
                     holder := Sending(s.holder.tid, s.holder.k + 1), acquired := Mark(s.acquired, s.holder.k + 1))
    ensures Pending(ws + [Current(s).words[s.holder.k]], s.part.depth) <= |s'.fifo|
  {
    PendingSnoc(ws, Current(s).words[s.holder.k], s.part.depth);
    var s1, more := Next(s, Send), [];
    more, s' := LazyWait(s1);
    steps := [Send] + more;
    assert steps[1..] == more;
  }

  lemma {:induction false} LazyWords(s: Sys, ws: seq<Word>) returns (steps: seq<Step>, s': Sys)
    requires Sane(s) && s.holder.Sending? && Busy(s) && s.sel != [] && s.holder.k <= |Current(s).words|
    requires Pending(ws, s.part.depth) <= |s.fifo| && s.acquired[|s.acquired| - 1].x == Current(s)
    ensures IsRun(s, steps, s') && Sane(s') && |s'.acquired| == |s.acquired| && Xs(s'.acquired) == Xs(s.acquired)
    ensures s' == s.(log := s'.log, owner := s'.owner, fates := s'.fates, fifo := s'.fifo,
                     holder := Sending(s.holder.tid, |Current(s).words|), acquired := s'.acquired)
    ensures Pending(ws + Current(s).words[s.holder.k..], s.part.depth) <= |s'.fifo|
    decreases |Current(s).words| - s.holder.k
  {
    var x, k := Current(s), s.holder.k;
    if k == |x.words| {
      steps, s' := [], s;
      assert ws + x.words[k..] == ws;
    } else {
      var first, s1, more;
      first, s1 := LazyWord(s, ws);
      assert Xs(s1.acquired) == Xs(s.acquired);
      more, s' := LazyWords(s1, ws + [x.words[k]]);
      RunOn(s, first, s1, more, s');
      steps := first + more;
      assert ws + [x.words[k]] + x.words[k + 1..] == ws + x.words[k..];
    }
  }

  /** A free system of one thread. */
  ghost predicate Ready(s: Sys) {
    Sane(s) && s.holder.Free? && |s.todo| == 1
  }

  /** The next transfer has taken the lock and selected its address. */
  lemma {:induction false} Begin(s: Sys) returns (s': Sys)
    requires Ready(s) && s.todo[0] != []
    ensures IsRun(s, [Acquire(0), Select], s') && Sane(s')
    ensures var x := s.todo[0][0];
            s' == s.(cache := Use(s.cache, x.addr), sel := s.sel + [Sel(x.addr, s.fifo)], holder := Sending(0, 0),
                     acquired := s.acquired + [Entry(0, x, 0)], fates := s'.fates,
                     fifo := if x.addr != s.cache.last && s.part.flushes then [] else s.fifo)
  {
    var s1 := Next(s, Acquire(0));
    s' := Next(s1, Select);
    assert IsRun(s1, [Acquire(0)][1..], s1);
    RunSnoc(s, [Acquire(0)], s1, Select);
    assert [Acquire(0)] + [Select] == [Acquire(0), Select];
  }

  /** One transfer; ws are words before it under the same address, or none. */
  lemma {:induction false} LazyTransfer(s: Sys, ws: seq<Word>) returns (steps: seq<Step>, s': Sys)
    requires Ready(s) && s.todo[0] != [] && Pending(ws, s.part.depth) <= |s.fifo|
    requires ws == [] || s.todo[0][0].addr == s.cache.last
    ensures IsRun(s, steps, s') && Ready(s') && s'.part == s.part
    ensures s'.todo == [s.todo[0][1..]] && Xs(s'.acquired) == Xs(s.acquired) + [s.todo[0][0]]
    ensures s'.cache == Use(s.cache, s.todo[0][0].addr)
    ensures Pending(ws + s.todo[0][0].words, s.part.depth) <= |s'.fifo|
  {
    var x := s.todo[0][0];
    var s1 := Begin(s);
    var more, s2 := LazyWords(s1, ws);
    RunOn(s, [Acquire(0), Select], s1, more, s2);
    steps := [Acquire(0), Select] + more;
    var s3 := Next(s2, Finish);
    RunSnoc(s, steps, s2, Finish);
    s' := Next(s3, Release);
    RunSnoc(s, steps + [Finish], s3, Release);
    steps := steps + [Finish] + [Release];
    assert x.words[0..] == x.words;
    assert Xs(s1.acquired) == Xs(s.acquired) + [x];
    assert s'.todo == [s.todo[0][1..]];
  }

  /** One thread with all transfers before it. */
  function Start(part: Part, xs: seq<Xfer>, c: Cache): Sys {
    Sys(part, c, [], [], [], [], [], Free, [xs], [], false)
  }

  /** After the first n transfers. */
  ghost predicate After(s: Sys, part: Part, xs: seq<Xfer>, n: nat)
    requires n <= |xs|
  {
    && Ready(s) && s.part == part && s.todo == [xs[n..]] && Xs(s.acquired) == xs[..n]
    && (n > 0 ==> s.cache.last == xs[n - 1].addr)
  }

  lemma {:induction false} LazyNext(s: Sys, part: Part, xs: seq<Xfer>, n: nat, ws: seq<Word>)
    returns (steps: seq<Step>, s': Sys)
    requires n < |xs| && After(s, part, xs, n) && Pending(ws, part.depth) <= |s.fifo|
    requires ws == [] || xs[n].addr == s.cache.last
    ensures IsRun(s, steps, s') && After(s', part, xs, n + 1) && Pending(ws + xs[n].words, part.depth) <= |s'.fifo|
  {
    steps, s' := LazyTransfer(s, ws);
    assert xs[n..][0] == xs[n] && xs[n..][1..] == xs[n + 1..] && xs[..n] + [xs[n]] == xs[..n + 1];
  }

  /** The words of the transfers from i on, before n. */
  function WordsFrom(xs: seq<Xfer>, i: nat, n: nat): seq<Word>
    requires n <= |xs|
  {
    if i < n then Words(xs[i..n]) else []
  }

  lemma {:induction false} FromSnoc(xs: seq<Xfer>, i: nat, n: nat)
    requires n < |xs|
    ensures WordsFrom(xs, i, n + 1) == if i <= n then WordsFrom(xs, i, n) + xs[n].words else []
  {
    if i <= n {
      WordsSnoc(xs, i, n);
      assert xs[n..n] == [];
    }
  }

  /** The address does not change between transfer i and transfer n. */
  ghost predicate SameAddr(xs: seq<Xfer>, i: nat, n: nat)
    requires n <= |xs|
  {
    forall m | i < m < n :: xs[m].addr == xs[m - 1].addr
  }

  lemma {:induction false} NothingRun(part: Part, xs: seq<Xfer>, c: Cache)
    requires part.depth > 0 && c.last == 0
    ensures After(Start(part, xs, c), part, xs, 0)
  {
    assert xs[0..] == xs && Xs([]) == xs[..0];
  }

  /** The first n transfers, and of them those from i on keep as many words waiting as Pending counts,
      when the address does not change after i. */
  lemma {:induction false} LazyRun(part: Part, xs: seq<Xfer>, c: Cache, i: nat, n: nat)
    returns (steps: seq<Step>, s: Sys)
    requires part.depth > 0 && c.last == 0 && n <= |xs| && SameAddr(xs, i, n)
    ensures IsRun(Start(part, xs, c), steps, s) && After(s, part, xs, n)
    ensures Pending(WordsFrom(xs, i, n), part.depth) <= |s.fifo|
    decreases n
  {
    if n == 0 {
      NothingRun(part, xs, c);
      steps, s := [], Start(part, xs, c);
    } else {
      var s1;
      steps, s1 := LazyRun(part, xs, c, i, n - 1);
      steps, s := LazyOneMore(part, xs, c, i, n - 1, steps, s1);
    }
  }

  lemma {:induction false} LazyOneMore(part: Part, xs: seq<Xfer>, c: Cache, i: nat, n: nat, sofar: seq<Step>, s1: Sys)
    returns (steps: seq<Step>, s: Sys)
    requires n < |xs| && IsRun(Start(part, xs, c), sofar, s1) && After(s1, part, xs, n)
    requires Pending(WordsFrom(xs, i, n), part.depth) <= |s1.fifo| && (i < n ==> xs[n].addr == xs[n - 1].addr)
    ensures IsRun(Start(part, xs, c), steps, s) && After(s, part, xs, n + 1)
    ensures Pending(WordsFrom(xs, i, n + 1), part.depth) <= |s.fifo|
  {
    var more;
    more, s := LazyNext(s1, part, xs, n, WordsFrom(xs, i, n));
    RunOn(Start(part, xs, c), sofar, s1, more, s);
    steps := sofar + more;
    FromSnoc(xs, i, n);
  }

  /** The last word of an unsafe transfer is still waiting when the address changes. */
  lemma {:induction false} UnsafeCrosses(part: Part, xs: seq<Xfer>, c: Cache, i: nat)
    returns (steps: seq<Step>, s: Sys, p: nat)
    requires part.depth > 0 && c.last == 0 && i < |xs| && !Safe(xs, part.depth, i)
    ensures IsRun(Start(part, xs, c), steps, s) && !s.timedOut && p < |s.log| == |s.owner| == |s.fates|
    ensures s.owner[p] == i && Crossed(s.sel, c, i, p) && (part.flushes ==> s.fates[p] == Dropped)
  {
    var j :| i < j < |xs| && FirstSwitch(xs, i, j) && Pending(Words(xs[i..j]), part.depth) > |Words(xs[i + 1..j])|;
    var s1;
    assert SameAddr(xs, i, j);
    steps, s1 := LazyRun(part, xs, c, i, j);
    InvInitial(Start(part, xs, c));
    Kept(Start(part, xs, c), steps, s1, c);
    s := Begin(s1);
    RunOn(Start(part, xs, c), steps, s1, [Acquire(0), Select], s);
    steps := steps + [Acquire(0), Select];
    assert xs[..j][i + 1..] == xs[i + 1..j] && |s1.sel| == |Xs(s1.acquired)| == j;
    p := StillWaiting(s1, c, xs[..j], i);
    Crosses(xs, c, i, j, s1, s.sel, p);
    ExecutedUnderOwn(Start(part, xs, c), steps, s, p);
  }

  lemma {:induction false} WordsMono(xs: seq<Xfer>, a: nat, b: nat)
    requires a <= b <= |xs|
    ensures Words(xs[..b]) == Words(xs[..a]) + Words(xs[a..b])
    ensures |Words(xs[..a])| <= |Words(xs[..b])|
  {
    WordsSplit(xs, 0, a, b);
    assert xs[0..a] == xs[..a] && xs[0..b] == xs[..b];
  }

  lemma {:induction false} OwnerIs(xs: seq<Xfer>, o: nat, i: nat, p: nat)
    requires o < |xs| && i < |xs|
    requires |Words(xs[..o])| <= p < |Words(xs[..o + 1])| && |Words(xs[..i])| <= p < |Words(xs[..i + 1])|
    ensures o == i
  {
    if o < i {
      WordsMono(xs, o + 1, i);
    }
    if i < o {
      WordsMono(xs, i + 1, o);
    }
  }

  /** Every position belongs to the transfer whose words it lies among. */
  lemma {:induction false} OwnedBy(s: Sys, xs: seq<Xfer>, i: nat, p: nat)
    requires Whole(s) && Owned(s) && s.holder.Free? && !s.timedOut && p < |s.log|
    requires Xs(s.acquired) == xs && i < |xs| && |Words(xs[..i])| <= p < |Words(xs[..i + 1])|
    ensures s.owner[p] == i
  {
    var h, o := s.acquired, s.owner[p];
    assert Belongs(h, o, p);
    SerialIsWords(h, o);
    SerialIsWords(h, o + 1);
    OwnerIs(xs, o, i, p);
  }

  lemma {:induction false} LogIsWords(s: Sys)
    requires Serial(s) && s.holder.Free? && !s.timedOut
    ensures s.log == Words(Xs(s.acquired))
  {
    var h := s.acquired;
    SerialIsWords(h, |h|);
    assert h[..|h|] == h && Xs(h)[..|h|] == Xs(h);
  }

  lemma {:induction false} LastPosition(xs: seq<Xfer>, i: nat) returns (p: nat)
    requires i < |xs| && xs[i].words != []
    ensures |Words(xs[..i])| <= p == |Words(xs[..i + 1])| - 1
    ensures |Words(xs)| == p + 1 + |Words(xs[i + 1..])|
  {
    WordsSnoc(xs, 0, i);
    assert xs[0..i + 1] == xs[..i + 1] && xs[0..i] == xs[..i];
    p := |Words(xs[..i + 1])| - 1;
    WordsMono(xs, i + 1, |xs|);
    assert xs[..|xs|] == xs && xs[i + 1..|xs|] == xs[i + 1..];
  }

  /** In the state s before the next transfer the last word of transfer i is waiting. */
  lemma {:induction false} StillWaiting(s: Sys, c: Cache, xs: seq<Xfer>, i: nat) returns (p: nat)
    requires Ready(s) && Inv(s, c) && Xs(s.acquired) == xs && i < |xs| && xs[i].words != []
    requires |Words(xs[i + 1..])| < |s.fifo|
    ensures p < |s.log| == |s.owner| && s.owner[p] == i && p in s.fifo
  {
    p := LastPosition(xs, i);
    LogIsWords(s);
    Last(s, p);
    OwnedBy(s, xs, i, p);
  }

  lemma {:induction false} Last(s: Sys, p: nat)
    requires Suffix(s) && |s.log| - |s.fifo| <= p < |s.log|
    ensures p in s.fifo
  {
    assert s.fifo[p - (|s.log| - |s.fifo|)] == p;
  }

  /** Selecting the new address makes it cross. */
  lemma {:induction false} Crosses(xs: seq<Xfer>, c: Cache, i: nat, j: nat, s1: Sys, sel: seq<Sel>, p: nat)
    requires FirstSwitch(xs, i, j) && |s1.sel| == j && p in s1.fifo
    requires s1.cache == CacheAfter(s1.sel, c) && s1.cache.last == xs[j - 1].addr
    requires sel == s1.sel + [Sel(xs[j].addr, s1.fifo)]
    ensures Crossed(sel, c, i, p)
  {
    assert sel[..j] == s1.sel;
    assert Switches(sel, c, j);
  }

  /** Without a time-out one thread with transfers xs can get to state s, where position p of the log
      is a word of transfer i. */
  ghost predicate Reaches(part: Part, xs: seq<Xfer>, c: Cache, i: nat, s: Sys, p: nat) {
    && (exists steps :: IsRun(Start(part, xs, c), steps, s))
    && !s.timedOut && p < |s.log| && p < |s.owner| && s.owner[p] == i
  }

  /** Exactly when every run is safe for transfer i, whatever the controller does: no word of it is
      still waiting when the register is changed, if and only if enough follows it or it ends in a
      read (Safe). */
  lemma {:induction false} SafeIff(part: Part, xs: seq<Xfer>, c: Cache, i: nat)
    requires part.depth > 0 && c.last == 0 && i < |xs|
    ensures Safe(xs, part.depth, i) <==> forall s, p | Reaches(part, xs, c, i, s, p) :: !Crossed(s.sel, c, i, p)
  {
    if Safe(xs, part.depth, i) {
      forall s, p | Reaches(part, xs, c, i, s, p)
        ensures !Crossed(s.sel, c, i, p)
      {
        var steps :| IsRun(Start(part, xs, c), steps, s);
        SafeNeverCrosses(Start(part, xs, c), steps, s, p);
        InOrder(Start(part, xs, c), steps, s, xs);
        SafePrefix(Xs(s.acquired), xs, part.depth, i);
        InvInitial(Start(part, xs, c));
        Kept(Start(part, xs, c), steps, s, c);
      }
    } else {
      var steps, s, p := UnsafeCrosses(part, xs, c, i);
      assert Reaches(part, xs, c, i, s, p);
    }
  }

  lemma {:induction false} SafePrefix(ys: seq<Xfer>, xs: seq<Xfer>, depth: nat, i: nat)
    requires ys <= xs && i < |ys| && Safe(xs, depth, i)
    ensures Safe(ys, depth, i)
  {
    forall j | i < j < |ys| && FirstSwitch(ys, i, j)
      ensures xs[i].words != [] ==> Pending(Words(ys[i..j]), depth) <= |Words(ys[i + 1..j])|
    {
      assert FirstSwitch(xs, i, j);
      assert ys[i..j] == xs[i..j] && ys[i + 1..j] == xs[i + 1..j];
    }
  }

  /** What one thread has acquired and what it has still to do are its transfers. */
  ghost predicate Ordered(s: Sys, xs: seq<Xfer>) {
    && |s.todo| == 1
    && Xs(s.acquired) + (if s.holder.Free? || s.todo[0] == [] then s.todo[0] else s.todo[0][1..]) == xs
    && (!s.holder.Free? ==> s.holder.tid == 0 && s.todo[0] != [])
  }

  lemma {:induction false} OrderedKept(s: Sys, step: Step, xs: seq<Xfer>)
    requires Ordered(s, xs) && Enabled(s, step)
    ensures Ordered(Next(s, step), xs)
  {
    var s' := Next(s, step);
    match step
    case Acquire(t) =>
      assert Xs(s'.acquired) == Xs(s.acquired) + [s.todo[0][0]];
      assert s.todo[0] == [s.todo[0][0]] + s.todo[0][1..];
    case Send => assert Xs(s'.acquired) == Xs(s.acquired);
    case _ =>
  }

  lemma {:induction false} InOrder(s0: Sys, steps: seq<Step>, s: Sys, xs: seq<Xfer>)
    requires Ordered(s0, xs) && IsRun(s0, steps, s)
    ensures Xs(s.acquired) <= xs
    decreases |steps|
  {
    if steps != [] {
      OrderedKept(s0, steps[0], xs);
      InOrder(Next(s0, steps[0]), steps[1..], s, xs);
    }
  }
}
