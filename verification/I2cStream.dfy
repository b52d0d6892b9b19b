/** What an I2C transfer writes to the controller's command register, and what the controller makes
    of it on the bus. */
module I2cStream {
  type byte = b: nat | b < 256

  /** A message of a transfer; a read's data is the buffer to be filled. */
  datatype Message = Message(read: bool, restart: bool, stop: bool, data: seq<byte>)

  /** A command word: direction, the byte to write, and the RESTART and STOP flags. */
  datatype Word = Word(read: bool, data: byte, restart: bool, stop: bool)

  /** A bus transaction: a START or repeated START with the address and direction, bytes, and
      possibly a STOP (section 3.1.4 of NXP UM10204).  A read's bytes are written as zeros. */
  datatype Segment = Segment(read: bool, bytes: seq<byte>, stop: bool)

  /** What became of a word in the controller's transmit FIFO: still waiting, executed with the address
      register at a value, or dropped. */
  datatype Fate = Queued | Done(tar: nat) | Dropped

  // ----- compilation

  function Payload(m: Message): (r: seq<byte>)
    ensures |r| == |m.data|
  {
    if m.read then seq(|m.data|, _ => 0) else m.data
  }

  function WordAt(m: Message, p: nat): Word
    requires p < |m.data|
  {
    Word(m.read, Payload(m)[p], p == 0 && m.restart, p == |m.data| - 1 && m.stop)
  }

  function WordsOf(m: Message): (r: seq<Word>)
    ensures |r| == |m.data|
  {
    seq(|m.data|, p requires 0 <= p < |m.data| => WordAt(m, p))
  }

  /** The RESTART flag that the driver gives message i: the first message, the caller's own, and any
      message after a read or a STOP. */
  function Flag(msgs: seq<Message>, i: nat): bool
    requires i < |msgs|
  {
    i == 0 || msgs[i].restart || msgs[i - 1].read || msgs[i - 1].stop
  }

  function Flagged(msgs: seq<Message>, i: nat): Message
    requires i < |msgs|
  {
    msgs[i].(restart := Flag(msgs, i))
  }

  /** The words of the messages before n. */
  function Compile(msgs: seq<Message>, n: nat): seq<Word>
    requires n <= |msgs|
  {
    if n == 0 then [] else Compile(msgs, n - 1) + WordsOf(Flagged(msgs, n - 1))
  }

  /** The words one by one: byte p of message i is one word, with the RESTART flag on the first byte of the
      first message, of a flagged one, and of one after a read or a STOP, and the STOP flag on the last byte
      of a message that asks for it. */
  lemma {:induction false} CompileSays(msgs: seq<Message>, i: nat, n: nat, p: nat)
    requires i < n <= |msgs| && p < |msgs[i].data|
    ensures |Compile(msgs, i)| + |msgs[i].data| <= |Compile(msgs, n)|
    ensures Compile(msgs, n)[|Compile(msgs, i)| + p] ==
            Word(msgs[i].read, if msgs[i].read then 0 else msgs[i].data[p],
                 p == 0 && (i == 0 || msgs[i].restart || msgs[i - 1].read || msgs[i - 1].stop),
                 p == |msgs[i].data| - 1 && msgs[i].stop)
    decreases n
  {
    var before, last, k := Compile(msgs, n - 1), WordsOf(Flagged(msgs, n - 1)), |Compile(msgs, i)| + p;
    assert Compile(msgs, n) == before + last;
    if i < n - 1 {
      CompileSays(msgs, i, n - 1, p);
      assert (before + last)[k] == before[k];
    } else {
      assert (before + last)[k] == last[p] == WordAt(Flagged(msgs, i), p);
    }
  }

  // ----- what the controller does with the words

  /** A new transaction begins with the first word, after a STOP, on RESTART, and when the direction
      changes; any other word extends the current one. */
  predicate Begins(segs: seq<Segment>, read: bool, restart: bool) {
    segs == [] || segs[|segs| - 1].stop || restart || segs[|segs| - 1].read != read
  }

  function Add(segs: seq<Segment>, read: bool, restart: bool, bytes: seq<byte>, stop: bool): (r: seq<Segment>)
    ensures r != []
  {
    if Begins(segs, read, restart) then segs + [Segment(read, bytes, stop)]
    else
      var last := segs[|segs| - 1];
      segs[..|segs| - 1] + [Segment(read, last.bytes + bytes, stop)]
  }

  function Decode(words: seq<Word>): seq<Segment> {
    if words == [] then []
    else
      var w := words[|words| - 1];
      Add(Decode(words[..|words| - 1]), w.read, w.restart, [w.data], w.stop)
  }

  // ----- the messages as transactions

  /** The transactions of the messages before n under the driver's flags: one per non-empty message,
      merged with the previous one unless the message is flagged, follows a STOP on the bus, or
      changes direction.  Empty messages contribute nothing. */
  function Transactions(msgs: seq<Message>, n: nat): seq<Segment>
    requires n <= |msgs|
  {
    if n == 0 then []
    else if msgs[n - 1].data == [] then Transactions(msgs, n - 1)
    else
      var m := msgs[n - 1];
      Add(Transactions(msgs, n - 1), m.read, Flag(msgs, n - 1), Payload(m), m.stop)
  }

  // ----- the round trip

  lemma {:induction false} DecodeSnoc(words: seq<Word>, w: Word)
    ensures Decode(words + [w]) == Add(Decode(words), w.read, w.restart, [w.data], w.stop)
  {
    assert (words + [w])[..|words|] == words;
  }

  lemma {:induction false} FirstWord(words: seq<Word>, m: Message)
    requires m.data != []
    ensures Decode(words + WordsOf(m)[..1])
            == Add(Decode(words), m.read, m.restart, Payload(m)[..1], 1 == |m.data| && m.stop)
  {
    assert WordsOf(m)[..1] == [WordAt(m, 0)];
    DecodeSnoc(words, WordAt(m, 0));
    assert Payload(m)[..1] == [Payload(m)[0]];
  }

  lemma {:induction false} NextWord(words: seq<Word>, m: Message, k: nat)
    requires 0 < k < |m.data|
    requires Decode(words + WordsOf(m)[..k]) == Add(Decode(words), m.read, m.restart, Payload(m)[..k], false)
    ensures Decode(words + WordsOf(m)[..k + 1])
            == Add(Decode(words), m.read, m.restart, Payload(m)[..k + 1], k + 1 == |m.data| && m.stop)
  {
    var w := WordAt(m, k);
    ExtendDecode(words + WordsOf(m)[..k], w, Decode(words), m.read, m.restart, Payload(m)[..k]);
    Grow(words, WordsOf(m), k);
    Grow([], Payload(m), k);
    assert [] + Payload(m)[..k + 1] == Payload(m)[..k + 1] && [] + Payload(m)[..k] == Payload(m)[..k];
  }

  lemma {:induction false} Grow<T>(pre: seq<T>, s: seq<T>, k: nat)
    requires k < |s|
    ensures pre + s[..k + 1] == (pre + s[..k]) + [s[k]]
  {
  }

  lemma {:induction false} ExtendDecode(ws: seq<Word>, w: Word, segs: seq<Segment>, read: bool, restart: bool,
                                        a: seq<byte>)
    requires Decode(ws) == Add(segs, read, restart, a, false) && w.read == read && !w.restart
    ensures Decode(ws + [w]) == Add(segs, read, restart, a + [w.data], w.stop)
  {
    DecodeSnoc(ws, w);
    AddTwice(segs, read, restart, a, [w.data], w.stop);
  }

  /** The first k words of a message make one transaction or extend one; only the last word can end
      it with a STOP. */
  lemma {:induction false} DecodeMessage(words: seq<Word>, m: Message, k: nat)
    requires 0 < k <= |m.data|
    ensures Decode(words + WordsOf(m)[..k])
            == Add(Decode(words), m.read, m.restart, Payload(m)[..k], k == |m.data| && m.stop)
    decreases k
  {
    if k == 1 {
      FirstWord(words, m);
    } else {
      DecodeMessage(words, m, k - 1);
      NextWord(words, m, k - 1);
    }
  }

  lemma {:induction false} AddTwice(segs: seq<Segment>, read: bool, restart: bool, a: seq<byte>, b: seq<byte>,
                                    stop: bool)
    ensures Add(Add(segs, read, restart, a, false), read, false, b, stop) == Add(segs, read, restart, a + b, stop)
  {
    var s := Add(segs, read, restart, a, false);
    if Begins(segs, read, restart) {
      assert s[..|s| - 1] == segs;
    } else {
      assert s[..|s| - 1] == segs[..|segs| - 1];
      assert (segs[|segs| - 1].bytes + a) + b == segs[|segs| - 1].bytes + (a + b);
    }
  }

  lemma {:induction false} DecodeWhole(words: seq<Word>, m: Message)
    requires m.data != []
    ensures Decode(words + WordsOf(m)) == Add(Decode(words), m.read, m.restart, Payload(m), m.stop)
  {
    var k := |m.data|;
    DecodeMessage(words, m, k);
    assert WordsOf(m)[..k] == WordsOf(m);
    assert Payload(m)[..k] == Payload(m);
  }

  lemma {:induction false} OneMessage(words: seq<Word>, segs: seq<Segment>, m: Message)
    requires Decode(words) == segs
    ensures Decode(words + WordsOf(m)) ==
            if m.data == [] then segs else Add(segs, m.read, m.restart, Payload(m), m.stop)
  {
    if m.data == [] {
      assert words + WordsOf(m) == words;
    } else {
      DecodeWhole(words, m);
    }
  }

  lemma {:induction false} FlaggedPayload(msgs: seq<Message>, i: nat)
    requires i < |msgs|
    ensures Payload(Flagged(msgs, i)) == Payload(msgs[i])
  {
  }

  /** Compile and decode round trip: for every message list the controller performs exactly the
      messages' transactions, in order, with their directions, bytes and STOPs. */
  lemma {:induction false} RoundTrip(msgs: seq<Message>, n: nat)
    requires n <= |msgs|
    ensures Decode(Compile(msgs, n)) == Transactions(msgs, n)
    decreases n
  {
    if n > 0 {
      RoundTrip(msgs, n - 1);
      RoundTripStep(msgs, n);
    }
  }

  lemma {:induction false} RoundTripStep(msgs: seq<Message>, n: nat)
    requires 0 < n <= |msgs|
    requires Decode(Compile(msgs, n - 1)) == Transactions(msgs, n - 1)
    ensures Decode(Compile(msgs, n)) == Transactions(msgs, n)
  {
    var f := Flagged(msgs, n - 1);
    OneMessage(Compile(msgs, n - 1), Transactions(msgs, n - 1), f);
    assert Payload(f) == Payload(msgs[n - 1]) by { FlaggedPayload(msgs, n - 1); }
  }

  function TotalLength(msgs: seq<Message>, n: nat): nat
    requires n <= |msgs|
  {
    if n == 0 then 0 else TotalLength(msgs, n - 1) + |msgs[n - 1].data|
  }

  lemma {:induction false} WordCount(msgs: seq<Message>, n: nat)
    requires n <= |msgs|
    ensures |Compile(msgs, n)| == TotalLength(msgs, n)
    decreases n
  {
    if n > 0 {
      WordCount(msgs, n - 1);
    }
  }

  function SegmentBytes(segs: seq<Segment>): seq<byte> {
    if segs == [] then [] else SegmentBytes(segs[..|segs| - 1]) + segs[|segs| - 1].bytes
  }

  function MessageBytes(msgs: seq<Message>, n: nat): seq<byte>
    requires n <= |msgs|
  {
    if n == 0 then [] else MessageBytes(msgs, n - 1) + Payload(msgs[n - 1])
  }

  lemma {:induction false} AddBytes(segs: seq<Segment>, read: bool, restart: bool, bytes: seq<byte>, stop: bool)
    ensures SegmentBytes(Add(segs, read, restart, bytes, stop)) == SegmentBytes(segs) + bytes
  {
    var s := Add(segs, read, restart, bytes, stop);
    if Begins(segs, read, restart) {
      assert s[..|s| - 1] == segs;
    } else {
      assert s[..|s| - 1] == segs[..|segs| - 1];
      assert SegmentBytes(segs) == SegmentBytes(segs[..|segs| - 1]) + segs[|segs| - 1].bytes;
    }
  }

  lemma {:induction false} TransactionBytes(msgs: seq<Message>, n: nat)
    requires n <= |msgs|
    ensures SegmentBytes(Transactions(msgs, n)) == MessageBytes(msgs, n)
    decreases n
  {
    if n > 0 {
      TransactionBytes(msgs, n - 1);
      TransactionBytesStep(msgs, n);
    }
  }

  lemma {:induction false} TransactionBytesStep(msgs: seq<Message>, n: nat)
    requires 0 < n <= |msgs| && SegmentBytes(Transactions(msgs, n - 1)) == MessageBytes(msgs, n - 1)
    ensures SegmentBytes(Transactions(msgs, n)) == MessageBytes(msgs, n)
  {
    var m := msgs[n - 1];
    if m.data != [] {
      AddBytes(Transactions(msgs, n - 1), m.read, Flag(msgs, n - 1), Payload(m), m.stop);
    }
  }

  /** No byte is lost, repeated or moved: the bus carries the concatenation of the messages. */
  lemma {:induction false} BytesConserved(msgs: seq<Message>, n: nat)
    requires n <= |msgs|
    ensures SegmentBytes(Decode(Compile(msgs, n))) == MessageBytes(msgs, n)
  {
    RoundTrip(msgs, n);
    TransactionBytes(msgs, n);
  }

  /** How many STOPs the bus sees. */
  function Stops(segs: seq<Segment>): nat {
    if segs == [] then 0 else Stops(segs[..|segs| - 1]) + if segs[|segs| - 1].stop then 1 else 0
  }

  function AskedStops(msgs: seq<Message>, n: nat): nat
    requires n <= |msgs|
  {
    if n == 0 then 0 else AskedStops(msgs, n - 1) + if msgs[n - 1].stop then 1 else 0
  }

  /** STOPs of messages without a byte. */
  function LostStops(msgs: seq<Message>, n: nat): nat
    requires n <= |msgs|
  {
    if n == 0 then 0
    else LostStops(msgs, n - 1) + if msgs[n - 1].stop && msgs[n - 1].data == [] then 1 else 0
  }

  lemma {:induction false} AddStops(segs: seq<Segment>, read: bool, restart: bool, bytes: seq<byte>, stop: bool)
    ensures Stops(Add(segs, read, restart, bytes, stop)) == Stops(segs) + if stop then 1 else 0
  {
    var s := Add(segs, read, restart, bytes, stop);
    if Begins(segs, read, restart) {
      assert s[..|s| - 1] == segs;
    } else {
      assert s[..|s| - 1] == segs[..|segs| - 1];
    }
  }

  lemma {:induction false} TransactionStops(msgs: seq<Message>, n: nat)
    requires n <= |msgs|
    ensures Stops(Transactions(msgs, n)) + LostStops(msgs, n) == AskedStops(msgs, n)
    decreases n
  {
    if n > 0 {
      TransactionStops(msgs, n - 1);
      var m := msgs[n - 1];
      if m.data != [] {
        AddStops(Transactions(msgs, n - 1), m.read, Flag(msgs, n - 1), Payload(m), m.stop);
      }
    }
  }

  lemma {:induction false} NoneLost(msgs: seq<Message>, n: nat)
    requires n <= |msgs|
    ensures LostStops(msgs, n) == 0 <==> forall i | 0 <= i < n :: msgs[i].stop ==> msgs[i].data != []
    decreases n
  {
    if n > 0 {
      NoneLost(msgs, n - 1);
    }
  }

  /** Every STOP that a non-empty message asks for reaches the bus, and no other; so all STOPs do
      exactly when no empty message asks for one. */
  lemma {:induction false} StopsReachBusIff(msgs: seq<Message>, n: nat)
    requires n <= |msgs|
    ensures Stops(Decode(Compile(msgs, n))) + LostStops(msgs, n) == AskedStops(msgs, n)
    ensures Stops(Decode(Compile(msgs, n))) == AskedStops(msgs, n)
            <==> forall i | 0 <= i < n :: msgs[i].stop ==> msgs[i].data != []
  {
    RoundTrip(msgs, n);
    TransactionStops(msgs, n);
    NoneLost(msgs, n);
  }

  // ----- what the caller asked for, independently of the driver's flags

  /** Is a break due before message n: has anything since the last non-empty message, or that message
      itself, asked for one?  A break is due after a read, after a STOP, and with a RESTART. */
  function BreakDue(msgs: seq<Message>, n: nat): bool
    requires n <= |msgs|
  {
    n == 0 ||
    var m := msgs[n - 1];
    m.read || m.stop || (m.data == [] && (m.restart || BreakDue(msgs, n - 1)))
  }

  function Asked(msgs: seq<Message>, n: nat): bool
    requires n < |msgs|
  {
    msgs[n].restart || BreakDue(msgs, n)
  }

  /** The caller's transactions: a new one exactly where the caller asked for a break or the direction
      changes. */
  function Wanted(msgs: seq<Message>, n: nat): seq<Segment>
    requires n <= |msgs|
  {
    if n == 0 then []
    else if msgs[n - 1].data == [] then Wanted(msgs, n - 1)
    else
      var m := msgs[n - 1];
      Add(Wanted(msgs, n - 1), m.read, Asked(msgs, n - 1), Payload(m), m.stop)
  }

  /** The last non-empty message before n, or -1. */
  function Prev(msgs: seq<Message>, n: nat): (p: int)
    requires n <= |msgs|
    ensures -1 <= p < n
    ensures p >= 0 ==> msgs[p].data != []
    ensures forall j | p < j < n :: msgs[j].data == []
  {
    if n == 0 then -1 else if msgs[n - 1].data != [] then n - 1 else Prev(msgs, n - 1)
  }

  /** How the segments so far end: as the last non-empty message did. */
  ghost predicate EndsAs(segs: seq<Segment>, msgs: seq<Message>, n: nat)
    requires n <= |msgs|
  {
    var p := Prev(msgs, n);
    if p < 0 then segs == []
    else segs != [] && segs[|segs| - 1].read == msgs[p].read && segs[|segs| - 1].stop == msgs[p].stop
  }

  lemma {:induction false} BothEndAs(msgs: seq<Message>, n: nat)
    requires n <= |msgs|
    ensures EndsAs(Transactions(msgs, n), msgs, n) && EndsAs(Wanted(msgs, n), msgs, n)
    decreases n
  {
    if n > 0 && msgs[n - 1].data == [] {
      BothEndAs(msgs, n - 1);
    }
  }

  /** Exactly where the bus begins a new transaction: at the first non-empty message, at a flagged one,
      after a STOP that reached the bus, and where the direction changes. */
  lemma {:induction false} BreaksExactly(msgs: seq<Message>, n: nat)
    requires n < |msgs| && msgs[n].data != []
    ensures var p := Prev(msgs, n);
            var breaks := p < 0 || msgs[n].restart || msgs[n - 1].read || msgs[n - 1].stop
                          || msgs[p].stop || msgs[p].read != msgs[n].read;
            |Transactions(msgs, n + 1)| == |Transactions(msgs, n)| + if breaks then 1 else 0
  {
    BothEndAs(msgs, n);
  }

  /** The caller asked for a break before message n and the bus makes none. */
  predicate Lost(msgs: seq<Message>, n: nat)
    requires n < |msgs|
  {
    msgs[n].data != [] && Asked(msgs, n) && !Begins(Transactions(msgs, n), msgs[n].read, Flag(msgs, n))
  }

  lemma {:induction false} DueIff(msgs: seq<Message>, n: nat)
    requires n <= |msgs|
    ensures var p := Prev(msgs, n);
            BreakDue(msgs, n) <==>
              || p < 0 || msgs[p].read || msgs[p].stop
              || exists j :: p < j < n && (msgs[j].restart || msgs[j].read || msgs[j].stop)
    decreases n
  {
    if n > 0 && msgs[n - 1].data == [] {
      DueIff(msgs, n - 1);
    }
  }

  /** Exactly when a break is lost: an empty message stands right before n that is neither a read nor
      has a STOP, n and the last non-empty message p go the same way without a RESTART or STOP of
      their own, and p is a read or some empty message in between asked for the break. */
  lemma {:induction false} LostIff(msgs: seq<Message>, n: nat)
    requires n < |msgs| && msgs[n].data != []
    ensures var p := Prev(msgs, n);
            Lost(msgs, n) <==>
              && p >= 0 && !msgs[n].restart && !msgs[n - 1].read && !msgs[n - 1].stop
              && !msgs[p].stop && msgs[p].read == msgs[n].read
              && (msgs[p].read || exists j :: p < j < n && (msgs[j].restart || msgs[j].read || msgs[j].stop))
  {
    BothEndAs(msgs, n);
    DueIff(msgs, n);
  }

  function CountLost(msgs: seq<Message>, n: nat): nat
    requires n <= |msgs|
  {
    if n == 0 then 0 else CountLost(msgs, n - 1) + if Lost(msgs, n - 1) then 1 else 0
  }

  lemma {:induction false} LostShorten(msgs: seq<Message>, n: nat)
    requires n <= |msgs|
    ensures |Wanted(msgs, n)| == |Transactions(msgs, n)| + CountLost(msgs, n)
    ensures CountLost(msgs, n) == 0 ==> Wanted(msgs, n) == Transactions(msgs, n)
    decreases n
  {
    if n > 0 {
      LostShorten(msgs, n - 1);
      BothEndAs(msgs, n - 1);
    }
  }

  lemma {:induction false} NoneLostIff(msgs: seq<Message>, n: nat)
    requires n <= |msgs|
    ensures CountLost(msgs, n) == 0 <==> forall i | 0 <= i < n :: !Lost(msgs, i)
    decreases n
  {
    if n > 0 {
      NoneLostIff(msgs, n - 1);
    }
  }

  /** The bus carries the caller's transactions exactly when no break is lost; every lost break joins
      two of them. */
  lemma {:induction false} CallerRoundTripIff(msgs: seq<Message>, n: nat)
    requires n <= |msgs|
    ensures Decode(Compile(msgs, n)) == Wanted(msgs, n) <==> forall i | 0 <= i < n :: !Lost(msgs, i)
    ensures |Decode(Compile(msgs, n))| + CountLost(msgs, n) == |Wanted(msgs, n)|
  {
    RoundTrip(msgs, n);
    LostShorten(msgs, n);
    NoneLostIff(msgs, n);
  }

  /** Messages that are not empty lose no break. */
  lemma {:induction false} FullMessagesLoseNothing(msgs: seq<Message>, n: nat)
    requires n <= |msgs| && forall i | 0 <= i < n :: msgs[i].data != []
    ensures Decode(Compile(msgs, n)) == Wanted(msgs, n)
  {
    forall i | 0 <= i < n
      ensures !Lost(msgs, i)
    {
      LostIff(msgs, i);
    }
    CallerRoundTripIff(msgs, n);
  }

  /** Three messages of one direction, one byte each in the outer two and none in the middle. */
  function Sandwich(read: bool, restart: bool): seq<Message> {
    [Message(read, false, false, [1]), Message(false, restart, false, []), Message(read, false, false, [2])]
  }

  /** The RESTART of an empty message between two writes is lost, and so is the break after a read
      when an empty write follows it: the bus sees one transaction instead of two. */
  lemma {:induction false} LostBreaks(read: bool, restart: bool)
    requires read || restart
    ensures var msgs := Sandwich(read, restart); |Decode(Compile(msgs, 3))| == 1 && |Wanted(msgs, 3)| == 2
  {
    var msgs := Sandwich(read, restart);
    RoundTrip(msgs, 3);
    assert Prev(msgs, 1) == 0 && Prev(msgs, 2) == 0;
    BreaksExactly(msgs, 0);
    BreaksExactly(msgs, 2);
    BothEndAs(msgs, 2);
    assert Transactions(msgs, 2) == Transactions(msgs, 1) && |Transactions(msgs, 0)| == 0;
    assert Wanted(msgs, 2) == Wanted(msgs, 1) && |Wanted(msgs, 0)| == 0;
    assert BreakDue(msgs, 1) == read && Asked(msgs, 2);
    assert |Wanted(msgs, 3)| == |Wanted(msgs, 2)| + 1;
  }

  // ----- how many words may still be waiting

  /** The most words that can be waiting in the FIFO when the driver has sent ws, word by word: after
      a read it waits for the byte, after a write only for room. */
  function Pending(ws: seq<Word>, depth: nat): (n: nat)
    ensures n <= |ws| && (depth > 0 ==> n < depth)
  {
    if ws == [] || ws[|ws| - 1].read || depth == 0 then 0
    else
      var n := Pending(ws[..|ws| - 1], depth);
      if n + 1 < depth then n + 1 else n
  }

  lemma {:induction false} PendingSnoc(ws: seq<Word>, w: Word, depth: nat)
    requires depth > 0
    ensures Pending(ws + [w], depth) ==
            if w.read then 0 else if Pending(ws, depth) + 1 < depth then Pending(ws, depth) + 1 else depth - 1
  {
    assert (ws + [w])[..|ws|] == ws;
  }
}
