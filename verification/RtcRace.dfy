/** What a reading shows while the clock is being set.  A call of set_time stores its count before it
    takes the lock and its time after, so readings and other calls can come between. */
module RtcRace {
  import opened Arith
  import opened Clock
  import opened Rtc

  /** With a frequency of at most 1 GHz every tick takes a nanosecond or more. */
  lemma {:induction false} ElapsedAscends(a: nat, b: nat, freq: nat)
    requires 0 < freq <= 1_000_000_000
    ensures a <= b <==> Elapsed(a, freq) <= Elapsed(b, freq)
  {
    if a <= b {
      DivMonotone(a * 1_000_000_000, b * 1_000_000_000, freq);
    } else {
      DivPlus(1, b * 1_000_000_000, freq);
      DivMonotone(b * 1_000_000_000 + freq, a * 1_000_000_000, freq);
    }
  }

  lemma {:induction false} ReadingsOrdered(base: Instant, a: nat, b: nat, freq: nat)
    requires Normal(base) && 0 < freq <= 1_000_000_000
    ensures AtOrBefore(Reading(base, a, freq), Reading(base, b, freq)) <==> a <= b
  {
    ReadingExact(base, a, freq);
    ReadingExact(base, b, freq);
    OrderIsTotal(Reading(base, a, freq), Reading(base, b, freq));
    ElapsedAscends(a, b, freq);
  }

  /** The counts were stored in the order in which they were read. */
  predicate Ascending(events: seq<Event>) {
    forall i, j :: 0 <= i < j < |events| && events[i].Store? && events[j].Store? ==> events[i].count <= events[j].count
  }

  /** The last store of a count at or after a given one. */
  lemma {:induction false} LastStore(events: seq<Event>, p: nat) returns (l: nat)
    requires p < |events| && events[p].Store?
    ensures p <= l < |events| && events[l].Store? && CountIn(events) == events[l].count
    ensures forall j :: l < j < |events| ==> events[j].Commit?
  {
    l := |events| - 1;
    if events[l].Commit? {
      l := LastStore(events[..l], p);
    }
  }

  lemma {:induction false} LastCommit(events: seq<Event>, q: nat)
    requires q < |events| && events[q].Commit? && forall j :: q < j < |events| ==> events[j].Store?
    ensures BaseIn(events) == events[q].t
  {
    if q < |events| - 1 {
      LastCommit(events[..|events| - 1], q);
    }
  }

  /** The call that set the clock last stored its count at p and its time at q.  A reading is that
      time plus the time since that count exactly when no other call has stored a later count since:
      neither before this call's time nor after it. */
  lemma {:induction false} ReadingTrueIff(events: seq<Event>, p: nat, q: nat, now: nat, freq: nat)
    requires p < q < |events| && events[p].Store? && events[q].Commit? && events[q].call == events[p].call
    requires forall j :: q < j < |events| ==> events[j].Store?
    requires Ascending(events) && now >= CountIn(events) && Normal(events[q].t) && 0 < freq <= 1_000_000_000
    ensures events[p].count <= now
    ensures Reading(BaseIn(events), now - CountIn(events), freq)
              == Reading(events[q].t, now - events[p].count, freq)
            <==> !exists j :: p < j < |events| && events[j].Store? && events[j].count > events[p].count
  {
    var l := LastStore(events, p);
    LastCommit(events, q);
    ReadingsOrdered(events[q].t, now - events[p].count, now - CountIn(events), freq);
    ReadingsOrdered(events[q].t, now - CountIn(events), now - events[p].count, freq);
    if CountIn(events) > events[p].count {
      assert events[l].count > events[p].count;
    }
  }

  /** Two readings with only stores of counts between them: the later one shows an earlier time exactly
      when the stored count moved on by more than the counter did. */
  lemma {:induction false} GoesBackIff(events: seq<Event>, stores: seq<Event>, c1: nat, c2: nat, freq: nat)
    requires forall e | e in stores :: e.Store?
    requires CountIn(events) <= c1 <= c2 && CountIn(events + stores) <= c2
    requires Normal(BaseIn(events)) && 0 < freq <= 1_000_000_000
    ensures BaseIn(events + stores) == BaseIn(events)
    ensures AtOrBefore(Reading(BaseIn(events), c1 - CountIn(events), freq),
                       Reading(BaseIn(events + stores), c2 - CountIn(events + stores), freq))
            <==> CountIn(events + stores) - CountIn(events) <= c2 - c1
  {
    BaseKept(events, stores);
    ReadingsOrdered(BaseIn(events), c1 - CountIn(events), c2 - CountIn(events + stores), freq);
  }

  lemma {:induction false} BaseKept(events: seq<Event>, stores: seq<Event>)
    requires forall e | e in stores :: e.Store?
    ensures BaseIn(events + stores) == BaseIn(events)
  {
    if stores == [] {
      assert events + stores == events;
    } else {
      var n := |stores| - 1;
      assert (events + stores)[..|events + stores| - 1] == events + stores[..n];
      assert (events + stores)[|events + stores| - 1] == stores[n] && stores[n] in stores;
      BaseKept(events, stores[..n]);
    }
  }

  /** A count stored by a call that has not yet stored its time.  All readings before and after it are
      in order exactly when the counter has not moved since the count before it; otherwise the
      reading at the moment of the store is followed by the base itself. */
  lemma {:induction false} StoreIsHarmlessIff(events: seq<Event>, call: nat, n: nat, freq: nat)
    requires CountIn(events) <= n && Normal(BaseIn(events)) && 0 < freq <= 1_000_000_000
    ensures (forall c1: nat, c2: nat ::
               CountIn(events) <= c1 <= n <= c2 ==> InOrder(events, Store(call, n), c1, c2, freq))
            <==> n == CountIn(events)
  {
    var stores := [Store(call, n)];
    assert (events + stores)[|events + stores| - 1] == Store(call, n);
    forall c1: nat, c2: nat | CountIn(events) <= c1 <= n <= c2
      ensures InOrder(events, Store(call, n), c1, c2, freq) <==> n - CountIn(events) <= c2 - c1
    {
      GoesBackIff(events, stores, c1, c2, freq);
    }
    if n > CountIn(events) {
      assert !InOrder(events, Store(call, n), n, n, freq);
    }
  }

  /** A reading at c1 before the event is at or before a reading at c2 after it. */
  predicate InOrder(events: seq<Event>, e: Event, c1: nat, c2: nat, freq: nat)
    requires freq > 0 && c1 >= CountIn(events)
  {
    var after := events + [e];
    c2 >= CountIn(after)
    && AtOrBefore(Reading(BaseIn(events), c1 - CountIn(events), freq),
                  Reading(BaseIn(after), c2 - CountIn(after), freq))
  }
}
