/** The promises of the batching worker, over whole runs. */
module BatchResults {
  import opened Bytes
  import opened EnvelopeSpool
  import opened BatchWorker
  import opened BatchInvariants

  // ---- Counting one envelope ----

  ghost function Count(bs: seq<Batch>, e: Envelope): nat {
    if bs == [] then 0 else multiset(bs[0].envelopes)[e] + Count(bs[1..], e)
  }

  lemma {:induction false} CountConcat(a: seq<Batch>, b: seq<Batch>, e: Envelope)
    ensures Count(a + b, e) == Count(a, e) + Count(b, e)
    decreases |a|
  {
    if a == [] {
      assert a + b == b;
    } else {
      CountConcat(a[1..], b, e);
      assert (a + b)[1..] == a[1..] + b && (a + b)[0] == a[0];
    }
  }

  lemma CountWithout(l: seq<Batch>, x: Batch, r: seq<Batch>, e: Envelope)
    ensures Count(l + ([x] + r), e) == Count(l + r, e) + multiset(x.envelopes)[e]
  {
    assert Count([x], e) == multiset(x.envelopes)[e];
    hide Count;
    CountConcat(l, [x] + r, e);
    CountConcat([x], r, e);
    CountConcat(l, r, e);
  }

  lemma {:induction false} CountPermute(a: seq<Batch>, b: seq<Batch>, e: Envelope)
    requires multiset(a) == multiset(b)
    ensures Count(a, e) == Count(b, e)
    decreases |a|
  {
    hide Count;
    if a == [] {
      NothingLeft(b);
    } else {
      var j := FirstInOther(a, b);
      CountPermute(a[1..], b[..j] + b[j + 1..], e);
      CountWithout([], a[0], a[1..], e);
      CountWithout(b[..j], b[j], b[j + 1..], e);
      Around(b, j);
      assert [] + ([a[0]] + a[1..]) == a && [] + a[1..] == a[1..];
    }
  }

  /** An offered envelope either enters the partition of its key or is too large. */
  lemma {:induction false} OfferedSplits(es: seq<Envelope>, e: Envelope)
    ensures multiset(es)[e] == multiset(OfKey(es, e.key))[e] + multiset(Oversized(es))[e]
    decreases |es|
  {
    if es != [] {
      var init, last := es[..|es| - 1], es[|es| - 1];
      assert es == init + [last];
      OfferedSplits(init, e);
    }
  }

  lemma {:induction false} FlushedCounts(bs: seq<Batch>, e: Envelope)
    requires BatchesOk(bs)
    ensures multiset(FlushedFor(bs, e.key))[e] == Count(bs, e)
    decreases |bs|
  {
    if bs != [] {
      var init, last := bs[..|bs| - 1], bs[|bs| - 1];
      assert bs == init + [last];
      FlushedCounts(init, e);
      CountConcat(init, [last], e);
      assert Count([last], e) == multiset(last.envelopes)[e];
      assert BatchOk(last);
      assert last.key != e.key ==> e !in last.envelopes;
    }
  }

  // ---- Conservation ----

  /** How often `e` is in each place an envelope can be. */
  ghost function Places(st: State, e: Envelope): seq<nat> {
    [ multiset(Buffered(st.partitions, e.key))[e],
      Count(st.log.uploaded, e),
      Count(Contents(st.files), e),
      Count(st.failed, e),
      multiset(st.log.tooLarge)[e],
      Count(st.log.writeLost, e),
      Count(st.log.capEvicted, e),
      Count(st.log.unreadable, e) ]
  }

  ghost function Sum(ns: seq<nat>): nat {
    if ns == [] then 0 else ns[0] + Sum(ns[1..])
  }

  lemma SettledCounts(st: State, e: Envelope)
    requires multiset(st.log.flushed) == Settled(st)
    ensures Count(st.log.flushed, e)
         == Count(st.log.uploaded, e) + Count(Contents(st.files), e) + Count(st.failed, e)
            + Count(st.log.writeLost, e) + Count(st.log.capEvicted, e) + Count(st.log.unreadable, e)
  {
    hide Count, Contents;
    var u, k, f := st.log.uploaded, Contents(st.files), st.failed;
    var l, c, r := st.log.writeLost, st.log.capEvicted, st.log.unreadable;
    CountPermute(st.log.flushed, u + k + f + l + c + r, e);
    CountConcat(u + k + f + l + c, r, e);
    CountConcat(u + k + f + l, c, e);
    CountConcat(u + k + f, l, e);
    CountConcat(u + k, f, e);
    CountConcat(u, k, e);
  }

  lemma SumEight(ns: seq<nat>)
    requires |ns| == 8
    ensures Sum(ns) == ns[0] + ns[1] + ns[2] + ns[3] + ns[4] + ns[5] + ns[6] + ns[7]
  {
    SumFour(ns);
    SumFour(ns[4..]);
    assert ns[4..][4..] == [];
  }

  lemma SumFour(ns: seq<nat>)
    requires |ns| >= 4
    ensures Sum(ns) == ns[0] + ns[1] + ns[2] + ns[3] + Sum(ns[4..])
  {
    assert ns[1..][1..] == ns[2..] && ns[2..][1..] == ns[3..] && ns[3..][1..] == ns[4..];
    assert Sum(ns) == ns[0] + Sum(ns[1..]);
    assert Sum(ns[1..]) == ns[1] + Sum(ns[2..]);
    assert Sum(ns[2..]) == ns[2] + Sum(ns[3..]);
    assert Sum(ns[3..]) == ns[3] + Sum(ns[4..]);
  }

  /**
   * Conservation. In every reachable state each admitted envelope is accounted for exactly as often
   * as it was admitted: buffered, uploaded, in a spool file, in the failed tree, or lost in one of
   * four named ways.
   */
  lemma Conservation(w: World, cfg: Config, evs: seq<Event>, e: Envelope)
    requires cfg.Valid()
    ensures var st := Run(w, cfg, evs); Sum(Places(st, e)) == multiset(st.log.admitted)[e]
  {
    hide Run, Count, Contents, OfKey, FlushedFor, Oversized, PartitionsOk, ShelvesOk, CountersOk, BatchesOk;
    var st := Run(w, cfg, evs);
    RunKeeps(w, cfg, evs);
    OfferedSplits(st.log.admitted, e);
    assert OfKey(st.log.admitted, e.key) == FlushedFor(st.log.flushed, e.key) + Buffered(st.partitions, e.key);
    FlushedCounts(st.log.flushed, e);
    SettledCounts(st, e);
    SumEight(Places(st, e));
  }

  /** An envelope admitted once is in exactly one place, and there once. */
  lemma ExactlyOnePlace(w: World, cfg: Config, evs: seq<Event>, e: Envelope)
    requires cfg.Valid() && multiset(Run(w, cfg, evs).log.admitted)[e] == 1
    ensures exists i :: 0 <= i < 8 && Places(Run(w, cfg, evs), e) == OneAt(i)
  {
    hide Run, Places;
    var ns := Places(Run(w, cfg, evs), e);
    Conservation(w, cfg, evs, e);
    PlacesEight(Run(w, cfg, evs), e);
    SumEight(ns);
    var i :| 0 <= i < 8 && ns[i] != 0;
    assert ns == OneAt(i);
  }

  ghost function OneAt(i: nat): seq<nat>
    requires i < 8
  {
    [0, 0, 0, 0, 0, 0, 0, 0][i := 1]
  }

  lemma PlacesEight(st: State, e: Envelope)
    ensures |Places(st, e)| == 8
  {}

  // ---- Order ----

  /** The envelopes that arrived, in order. */
  ghost function Arrivals(evs: seq<Event>): seq<Envelope> {
    if evs == [] then []
    else Arrivals(evs[..|evs| - 1]) + (if evs[|evs| - 1].Arrives? then [evs[|evs| - 1].e] else [])
  }

  lemma {:induction false} AdmittedAreArrivals(w: World, cfg: Config, evs: seq<Event>)
    ensures Run(w, cfg, evs).log.admitted == Arrivals(evs)
    decreases |evs|
  {
    if evs != [] {
      var st, ev := Run(w, cfg, evs[..|evs| - 1]), evs[|evs| - 1];
      AdmittedAreArrivals(w, cfg, evs[..|evs| - 1]);
      hide Run, Admit, FlushAged, RetryTick, Drain;
      match ev {
        case Arrives(e, now) => AdmitRecords(w, cfg, st, e, now);
        case AgeTimer(order, now) => FlushAgedAdmitsNone(w, cfg, st, order, now);
        case RetryTimer(listed) => TickAdmitsNone(w, cfg, st, listed);
        case Shutdown(order) => DrainAdmitsNone(w, cfg, st, order);
      }
      RunLast(w, cfg, evs);
    }
  }

  lemma RunLast(w: World, cfg: Config, evs: seq<Event>)
    requires evs != []
    ensures Run(w, cfg, evs) == Step(w, cfg, Run(w, cfg, evs[..|evs| - 1]), evs[|evs| - 1])
  {
    hide Step;
  }

  lemma SpoolAdmitsNone(w: World, cfg: Config, st: State, b: Batch)
    ensures SpoolBatch(w, cfg, st, b).log.admitted == st.log.admitted
  {
    hide EvictToCap, FileSize, Contents;
  }

  lemma FlushAdmitsNone(w: World, cfg: Config, st: State, b: Batch)
    ensures Flush(w, cfg, st, b).log.admitted == st.log.admitted
  {
    hide SpoolBatch, TryUpload;
    var r := TryUpload(w, st.calls, 0, cfg.maxAttempts);
    SpoolAdmitsNone(w, cfg, Flushing(st, b), b);
    SpoolAdmitsNone(w, cfg, Encoded(Flushing(st, b)), b);
    SpoolAdmitsNone(w, cfg, Tried(Encoded(Flushing(st, b)), r), b);
  }

  lemma AdmitRecords(w: World, cfg: Config, st: State, e: Envelope, now: int)
    ensures Admit(w, cfg, st, e, now).log.admitted == st.log.admitted + [e]
  {
    hide Flush, Due;
    if e.size <= U32_MAX {
      var st0 := st.(log := st.log.(admitted := st.log.admitted + [e]));
      var found := PartitionOf(st, e.key, now);
      var st1 := NoteEvicted(cfg, st0, found);
      var p := Push(Guarded(cfg, found), e);
      FlushAdmitsNone(w, cfg, st1.(partitions := st.partitions - {e.key}), Batch(e.key, p.envelopes));
    }
  }

  lemma {:induction false} FlushAgedAdmitsNone(w: World, cfg: Config, st: State, keys: seq<Key>, now: int)
    ensures FlushAged(w, cfg, st, keys, now).log.admitted == st.log.admitted
    decreases |keys|
  {
    hide Flush;
    if keys != [] {
      if keys[0] in st.partitions && now - st.partitions[keys[0]].since >= cfg.maxAge {
        var b, taken := Batch(keys[0], st.partitions[keys[0]].envelopes), st.(partitions := st.partitions - {keys[0]});
        FlushAdmitsNone(w, cfg, taken, b);
        FlushAgedAdmitsNone(w, cfg, Flush(w, cfg, taken, b), keys[1..], now);
      } else {
        FlushAgedAdmitsNone(w, cfg, st, keys[1..], now);
      }
    }
  }

  lemma {:induction false} DrainAdmitsNone(w: World, cfg: Config, st: State, keys: seq<Key>)
    ensures Drain(w, cfg, st, keys).log.admitted == st.log.admitted
    decreases |keys|
  {
    hide SpoolBatch;
    if keys != [] {
      var taken := st.(partitions := st.partitions - {keys[0]});
      if keys[0] in st.partitions && st.partitions[keys[0]].envelopes != [] {
        var b := Batch(keys[0], st.partitions[keys[0]].envelopes);
        SpoolAdmitsNone(w, cfg, Flushing(taken, b), b);
        DrainAdmitsNone(w, cfg, SpoolBatch(w, cfg, Flushing(taken, b), b), keys[1..]);
      } else {
        DrainAdmitsNone(w, cfg, taken, keys[1..]);
      }
    }
  }

  lemma {:induction false} ReshipAllAdmitsNone(w: World, cfg: Config, st: State, todo: SpoolDir)
    ensures ReshipAll(w, cfg, st, todo).log.admitted == st.log.admitted
    decreases |todo|
  {
    hide Legible, TryUpload;
    if todo != [] {
      if Legible(todo[0].content.batch) {
        ReshipAllAdmitsNone(w, cfg, Reship(w, cfg, st, todo[0]), todo[1..]);
      } else {
        ReshipAllAdmitsNone(w, cfg, Dropped(st, todo[0].content.batch), todo[1..]);
      }
    }
  }

  lemma TickAdmitsNone(w: World, cfg: Config, st: State, listed: bool)
    ensures RetryTick(w, cfg, st, listed).log.admitted == st.log.admitted
  {
    hide ReshipAll, OldestFirst;
    ReshipAllAdmitsNone(w, cfg, st.(files := []), OldestFirst(st.files));
  }

  /**
   * Per-partition order. For every key, the batches flushed so far end to end, followed by what is
   * still buffered, are exactly the arrivals of that key that fit a frame, in arrival order; and
   * no batch mixes keys or is empty.
   */
  lemma PartitionOrder(w: World, cfg: Config, evs: seq<Event>, k: Key)
    requires cfg.Valid()
    ensures var st := Run(w, cfg, evs);
            && FlushedFor(st.log.flushed, k) + Buffered(st.partitions, k) == OfKey(Arrivals(evs), k)
            && forall b :: b in st.log.flushed ==> BatchOk(b)
  {
    hide Run, OfKey, FlushedFor, PartitionsOk, ShelvesOk, CountersOk, Settled, BatchOk;
    RunKeeps(w, cfg, evs);
    AdmittedAreArrivals(w, cfg, evs);
  }

  // ---- Bounds, counters, shutdown ----

  /**
   * In every reachable state every buffered partition is below both triggers and its byte count is
   * exact, so the ring guard has never evicted an envelope.
   */
  lemma NeverOverflows(w: World, cfg: Config, evs: seq<Event>, k: Key)
    requires cfg.Valid()
    ensures var st := Run(w, cfg, evs);
            && st.counters.evicted == 0 && st.log.ringEvicted == []
            && (k in st.partitions ==> PartitionOk(cfg, k, st.partitions[k]) && |st.partitions[k].envelopes| < cfg.RingCap())
  {
    hide Run, InOrder, Settled, ShelvesOk, BatchesOk;
    RunKeeps(w, cfg, evs);
    assert k in Run(w, cfg, evs).partitions ==> PartitionOk(cfg, k, Run(w, cfg, evs).partitions[k]);
  }

  /** The exported counters agree with the history. */
  lemma CountersExact(w: World, cfg: Config, evs: seq<Event>)
    requires cfg.Valid()
    ensures var st := Run(w, cfg, evs);
            && st.counters.uploads + st.counters.recovered == |st.log.uploaded|
            && st.counters.escalated == |st.failed|
            && st.counters.tooLarge == |Oversized(Arrivals(evs))|
            && st.counters.spooled == |st.files| + st.counters.recovered + |st.failed| + |st.log.capEvicted| + |st.log.unreadable|
            && st.nextId == st.counters.spooled && st.writes == st.counters.spooled + |st.log.writeLost|
  {
    hide Run, InOrder, Settled, ShelvesOk, BatchesOk, PartitionsOk;
    RunKeeps(w, cfg, evs);
    AdmittedAreArrivals(w, cfg, evs);
  }

  /** At some re-ship so far the partitioner found a key for the batch. */
  ghost predicate GivenKey(w: World, rekeys: nat, b: Batch) {
    b.envelopes != [] && exists n :: 0 <= n < rekeys && w.rekey(n, b.envelopes[0]).Some?
  }

  ghost predicate AllGivenKey(w: World, st: State) {
    forall b :: b in st.log.rekeyed ==> GivenKey(w, st.rekeys, b)
  }

  /** No key is obtained on the way from `st` to `st'`. */
  ghost predicate SameKeys(st: State, st': State) {
    st'.rekeys == st.rekeys && st'.log.rekeyed == st.log.rekeyed
  }

  lemma FlushSameKeys(w: World, cfg: Config, st: State, b: Batch)
    ensures SameKeys(st, Flush(w, cfg, st, b))
  {
    hide TryUpload, EvictToCap, FileSize, Contents;
  }

  lemma AdmitSameKeys(w: World, cfg: Config, st: State, e: Envelope, now: int)
    ensures SameKeys(st, Admit(w, cfg, st, e, now))
  {
    hide Flush, Due;
    if e.size <= U32_MAX {
      var st0 := st.(log := st.log.(admitted := st.log.admitted + [e]));
      var found := PartitionOf(st, e.key, now);
      var st1 := NoteEvicted(cfg, st0, found);
      var p := Push(Guarded(cfg, found), e);
      FlushSameKeys(w, cfg, st1.(partitions := st.partitions - {e.key}), Batch(e.key, p.envelopes));
    }
  }

  lemma {:induction false} FlushAgedSameKeys(w: World, cfg: Config, st: State, keys: seq<Key>, now: int)
    ensures SameKeys(st, FlushAged(w, cfg, st, keys, now))
    decreases |keys|
  {
    hide Flush;
    if keys != [] {
      if keys[0] in st.partitions && now - st.partitions[keys[0]].since >= cfg.maxAge {
        var b, taken := Batch(keys[0], st.partitions[keys[0]].envelopes), st.(partitions := st.partitions - {keys[0]});
        FlushSameKeys(w, cfg, taken, b);
        FlushAgedSameKeys(w, cfg, Flush(w, cfg, taken, b), keys[1..], now);
      } else {
        FlushAgedSameKeys(w, cfg, st, keys[1..], now);
      }
    }
  }

  lemma {:induction false} DrainSameKeys(w: World, cfg: Config, st: State, keys: seq<Key>)
    ensures SameKeys(st, Drain(w, cfg, st, keys))
    decreases |keys|
  {
    hide EvictToCap, FileSize, Contents;
    if keys != [] {
      var taken := st.(partitions := st.partitions - {keys[0]});
      if keys[0] in st.partitions && st.partitions[keys[0]].envelopes != [] {
        var b := Batch(keys[0], st.partitions[keys[0]].envelopes);
        DrainSameKeys(w, cfg, SpoolBatch(w, cfg, Flushing(taken, b), b), keys[1..]);
      } else {
        DrainSameKeys(w, cfg, taken, keys[1..]);
      }
    }
  }

  /** Asking for a key is recorded truly. */
  lemma ReshipKeys(w: World, cfg: Config, st: State, f: Entry<Spooled>)
    requires AllGivenKey(w, st)
    ensures AllGivenKey(w, Reship(w, cfg, st, f))
  {
    hide TryUpload;
    var b, st' := f.content.batch, Reship(w, cfg, st, f);
    if b.envelopes != [] {
      assert st'.rekeys == st.rekeys + 1;
      assert w.rekey(st.rekeys, b.envelopes[0]).Some? ==> GivenKey(w, st.rekeys + 1, b);
      forall x | x in st.log.rekeyed
        ensures GivenKey(w, st.rekeys + 1, x)
      {
        assert GivenKey(w, st.rekeys, x);
      }
    }
  }

  lemma {:induction false} ReshipAllKeys(w: World, cfg: Config, st: State, todo: SpoolDir)
    requires AllGivenKey(w, st)
    ensures AllGivenKey(w, ReshipAll(w, cfg, st, todo))
    decreases |todo|
  {
    hide Reship, Legible, GivenKey;
    if todo != [] {
      if Legible(todo[0].content.batch) {
        ReshipKeys(w, cfg, st, todo[0]);
        ReshipAllKeys(w, cfg, Reship(w, cfg, st, todo[0]), todo[1..]);
      } else {
        ReshipAllKeys(w, cfg, Dropped(st, todo[0].content.batch), todo[1..]);
      }
    }
  }

  lemma {:induction false} RunKeys(w: World, cfg: Config, evs: seq<Event>)
    ensures AllGivenKey(w, Run(w, cfg, evs))
    decreases |evs|
  {
    if evs != [] {
      hide Admit, FlushAged, Drain, ReshipAll, OldestFirst, GivenKey;
      var st, ev := Run(w, cfg, evs[..|evs| - 1]), evs[|evs| - 1];
      RunKeys(w, cfg, evs[..|evs| - 1]);
      match ev {
        case Arrives(e, now) => AdmitSameKeys(w, cfg, st, e, now);
        case AgeTimer(order, now) => FlushAgedSameKeys(w, cfg, st, order, now);
        case RetryTimer(listed) => ReshipAllKeys(w, cfg, st.(files := []), OldestFirst(st.files));
        case Shutdown(order) => DrainSameKeys(w, cfg, st, order);
      }
    }
  }

  /**
   * A batch without a partition key is uploaded or escalated only after a re-ship for which the
   * partitioner found a key. A file dropped as unreadable always held an envelope over the limit.
   */
  lemma ShelvesExact(w: World, cfg: Config, evs: seq<Event>, b: Batch)
    requires cfg.Valid()
    ensures var st := Run(w, cfg, evs);
            && (b in st.log.uploaded || b in st.failed ==> b.key.Some? || GivenKey(w, st.rekeys, b))
            && (b in st.log.unreadable ==> exists e :: e in b.envelopes && e.size > 0x4000_0000)
  {
    hide Run, InOrder, Settled, CountersOk, BatchesOk, PartitionsOk, GivenKey;
    RunKeeps(w, cfg, evs);
    RunKeys(w, cfg, evs);
    assert b in Run(w, cfg, evs).log.unreadable ==> !Legible(b);
  }

  /** While the partitioner finds no key for keyless envelopes, their batches are in the spool or lost from it. */
  lemma KeylessWaits(w: World, cfg: Config, evs: seq<Event>, b: Batch)
    requires cfg.Valid() && forall n: nat, e: Envelope :: e.key.None? ==> w.rekey(n, e).None?
    requires b in Run(w, cfg, evs).log.flushed && b.key.None?
    ensures var st := Run(w, cfg, evs);
            b in Contents(st.files) || b in st.log.writeLost || b in st.log.capEvicted || b in st.log.unreadable
  {
    hide Run, InOrder, CountersOk, ShelvesOk, PartitionsOk, Contents;
    RunKeeps(w, cfg, evs);
    ShelvesExact(w, cfg, evs, b);
    var st := Run(w, cfg, evs);
    assert b in multiset(st.log.flushed);
    assert BatchOk(b) && b.envelopes[0] in b.envelopes;
    assert b in Settled(st);
  }

  /** The retry loop that starts now meets a success after nothing but retries, within its attempts. */
  ghost predicate Ships(w: World, calls: nat, max: nat) {
    exists n :: calls <= n < calls + max && w.upload(n) == Shipped && forall j :: calls <= j < n ==> w.upload(j) == RetryLater
  }

  lemma ShipsIff(w: World, calls: nat, max: nat)
    ensures TryUpload(w, calls, 0, max).shipped <==> Ships(w, calls, max)
  {
    hide TryUpload;
    UploadsBounded(w, calls, 0, max);
    if Ships(w, calls, max) {
      var n :| calls <= n < calls + max && w.upload(n) == Shipped && forall j :: calls <= j < n ==> w.upload(j) == RetryLater;
      NoEarlyEnd(w, calls, 0, max, n);
    }
  }

  lemma {:induction false} NoEarlyEnd(w: World, calls: nat, attempt: nat, max: nat, n: nat)
    requires calls <= n < calls + max - attempt && w.upload(n) == Shipped
    requires forall j :: calls <= j < n ==> w.upload(j) == RetryLater
    ensures TryUpload(w, calls, attempt, max).shipped
    decreases n - calls
  {
    if calls < n {
      NoEarlyEnd(w, calls + 1, attempt + 1, max, n);
    }
  }

  /** Every upload but the first of a loop is a retry. */
  ghost function RetriesIn(before: nat, after: nat): nat {
    if after > before + 1 then after - before - 1 else 0
  }

  /** A listed record is uploaded exactly when a key is found for it, it encodes, and its retry loop ships. */
  lemma ReshipExact(w: World, cfg: Config, st: State, f: Entry<Spooled>)
    requires f.content.batch.envelopes != []
    ensures var b := f.content.batch;
            var out := w.rekey(st.rekeys, b.envelopes[0]).Some? && w.encodes(st.encodings) && Ships(w, st.calls, cfg.maxAttempts);
            var st', keyed := Reship(w, cfg, st, f), w.rekey(st.rekeys, b.envelopes[0]).Some?;
            && st'.log.uploaded == st.log.uploaded + (if out then [b] else [])
            && st'.counters.recovered == st.counters.recovered + (if out then 1 else 0)
            && st'.rekeys == st.rekeys + 1 && st'.encodings == st.encodings + (if keyed then 1 else 0)
            && st'.calls == (if keyed && w.encodes(st.encodings) then TryUpload(w, st.calls, 0, cfg.maxAttempts).calls else st.calls)
            && st'.counters.retries == st.counters.retries + RetriesIn(st.calls, st'.calls)
  {
    hide TryUpload, Ships;
    ShipsIff(w, st.calls, cfg.maxAttempts);
    UploadsBounded(w, st.calls, 0, cfg.maxAttempts);
  }

  /** A shutdown that drains every partition leaves nothing buffered. */
  lemma ShutdownDrains(w: World, cfg: Config, evs: seq<Event>, order: seq<Key>)
    requires cfg.Valid() && forall k :: k in Run(w, cfg, evs).partitions ==> k in order
    ensures Run(w, cfg, evs + [Shutdown(order)]).partitions == map[]
  {
    hide Run, Inv, Drain;
    var all := evs + [Shutdown(order)];
    assert all[..|all| - 1] == evs;
    RunLast(w, cfg, all);
    RunKeeps(w, cfg, evs);
    DrainKeeps(w, cfg, Run(w, cfg, evs), order);
  }

  // ---- When a batch closes, ages out, or is given up ----

  /**
   * An arrival that fits a frame closes its partition exactly when it brings it to `maxEvents`
   * envelopes or `maxBytes` bytes; the batch is everything buffered and the arrival last. Other
   * partitions stay as they are.
   */
  lemma ArrivalExact(w: World, cfg: Config, evs: seq<Event>, e: Envelope, now: int)
    requires cfg.Valid() && e.size <= U32_MAX
    ensures var st, st' := Run(w, cfg, evs), Run(w, cfg, evs + [Arrives(e, now)]);
            var all := Buffered(st.partitions, e.key) + [e];
            var full := |all| >= cfg.maxEvents || SumSizes(all) >= cfg.maxBytes;
            && st'.log.flushed == st.log.flushed + (if full then [Batch(e.key, all)] else [])
            && Buffered(st'.partitions, e.key) == (if full then [] else all)
            && forall k :: k != e.key ==> Buffered(st'.partitions, k) == Buffered(st.partitions, k)
  {
    RunKeeps(w, cfg, evs);
    var longer := evs + [Arrives(e, now)];
    assert longer[..|longer| - 1] == evs;
    RunLast(w, cfg, longer);
    hide Run, HistoryOk;
    AdmitExact(w, cfg, Run(w, cfg, evs), e, now);
  }

  lemma AdmitExact(w: World, cfg: Config, st: State, e: Envelope, now: int)
    requires cfg.Valid() && PartitionsOk(cfg, st.partitions) && e.size <= U32_MAX
    ensures var st' := Admit(w, cfg, st, e, now);
            var all := Buffered(st.partitions, e.key) + [e];
            var full := |all| >= cfg.maxEvents || SumSizes(all) >= cfg.maxBytes;
            && st'.log.flushed == st.log.flushed + (if full then [Batch(e.key, all)] else [])
            && Buffered(st'.partitions, e.key) == (if full then [] else all)
            && forall k :: k != e.key ==> Buffered(st'.partitions, k) == Buffered(st.partitions, k)
  {
    hide Flush, SettlesOne, PartitionsOk, Due;
    var found := PartitionOf(st, e.key, now);
    RingNotFull(cfg, st, e.key, now);
    var p := Push(found, e);
    assert p.envelopes == Buffered(st.partitions, e.key) + [e];
    DueExact(cfg, st.partitions, e, found);
    if Due(cfg, p) {
      var st0 := st.(log := st.log.(admitted := st.log.admitted + [e]), partitions := st.partitions - {e.key});
      FlushRecords(w, cfg, st0, Batch(e.key, p.envelopes));
    }
  }

  lemma DueExact(cfg: Config, partitions: map<Key, Partition>, e: Envelope, found: Partition)
    requires cfg.Valid() && PartitionsOk(cfg, partitions)
    requires if e.key in partitions then found == partitions[e.key] else found.envelopes == [] && found.bytes == 0
    ensures var all := found.envelopes + [e];
            Due(cfg, Push(found, e)) <==> |all| >= cfg.maxEvents || SumSizes(all) >= cfg.maxBytes
  {
    SumSizesSnoc(found.envelopes, e);
    assert e.key in partitions ==> PartitionOk(cfg, e.key, partitions[e.key]);
    assert SumSizes([]) == 0;
  }

  lemma FlushRecords(w: World, cfg: Config, st: State, b: Batch)
    requires b.envelopes != []
    ensures var st' := Flush(w, cfg, st, b);
            st'.partitions == st.partitions && st'.log.flushed == st.log.flushed + [b]
  {
    hide Flush, Settled, CountersOk, ShelvesOk;
    FlushSettles(w, cfg, st, b);
  }

  /** The partitions that flushing the old ones among `keys` leaves. */
  ghost function LeftByAge(cfg: Config, partitions: map<Key, Partition>, keys: seq<Key>, now: int): map<Key, Partition> {
    map k | k in partitions && !(k in keys && now - partitions[k].since >= cfg.maxAge) :: partitions[k]
  }

  /** The age timer closes exactly the listed partitions that are old enough, and touches no other. */
  lemma AgeTimerExact(w: World, cfg: Config, evs: seq<Event>, order: seq<Key>, now: int)
    requires cfg.Valid()
    ensures var st := Run(w, cfg, evs);
            Run(w, cfg, evs + [AgeTimer(order, now)]).partitions == LeftByAge(cfg, st.partitions, order, now)
  {
    var longer := evs + [AgeTimer(order, now)];
    assert longer[..|longer| - 1] == evs;
    RunLast(w, cfg, longer);
    RunKeeps(w, cfg, evs);
    hide Run, HistoryOk;
    FlushAgedExact(w, cfg, Run(w, cfg, evs), order, now);
  }

  lemma {:induction false} FlushAgedSnoc(w: World, cfg: Config, st: State, keys: seq<Key>, k: Key, now: int)
    ensures FlushAged(w, cfg, st, keys + [k], now) == FlushAged(w, cfg, FlushAged(w, cfg, st, keys, now), [k], now)
    decreases |keys|
  {
    hide Flush;
    if keys == [] {
      assert keys + [k] == [k];
    } else {
      assert (keys + [k])[1..] == keys[1..] + [k] && (keys + [k])[0] == keys[0];
      if keys[0] in st.partitions && now - st.partitions[keys[0]].since >= cfg.maxAge {
        var b := Batch(keys[0], st.partitions[keys[0]].envelopes);
        FlushAgedSnoc(w, cfg, Flush(w, cfg, st.(partitions := st.partitions - {keys[0]}), b), keys[1..], k, now);
      } else {
        FlushAgedSnoc(w, cfg, st, keys[1..], k, now);
      }
    }
  }

  lemma OpenHolds(cfg: Config, k: Key, p: Partition)
    requires PartitionOk(cfg, k, p)
    ensures p.envelopes != []
  {}

  lemma {:induction false} FlushAgedExact(w: World, cfg: Config, st: State, keys: seq<Key>, now: int)
    requires PartitionsOk(cfg, st.partitions)
    ensures FlushAged(w, cfg, st, keys, now).partitions == LeftByAge(cfg, st.partitions, keys, now)
    decreases |keys|
  {
    hide Flush, PartitionOk, SumSizes;
    if keys == [] {
      assert LeftByAge(cfg, st.partitions, keys, now) == st.partitions;
    } else if keys[0] in st.partitions && now - st.partitions[keys[0]].since >= cfg.maxAge {
      var b, taken := Batch(keys[0], st.partitions[keys[0]].envelopes), st.(partitions := st.partitions - {keys[0]});
      OpenHolds(cfg, keys[0], st.partitions[keys[0]]);
      FlushRecords(w, cfg, taken, b);
      FlushAgedExact(w, cfg, Flush(w, cfg, taken, b), keys[1..], now);
    } else {
      FlushAgedExact(w, cfg, st, keys[1..], now);
    }
  }

  /** At some clock reading between the two the record was stuck, or was not. */
  ghost predicate FoundStuck(w: World, cfg: Config, f: Entry<Spooled>, stuck: bool, from: nat, to: nat) {
    exists n :: from <= n < to && (w.clock(n) - f.content.failedAt >= cfg.escalateAfter) == stuck
  }

  /** A batch newly in the failed tree was in the spool, found stuck for long enough. */
  ghost predicate WasStuck(w: World, cfg: Config, files: SpoolDir, b: Batch, from: nat, to: nat) {
    exists f :: f in files && f.content.batch == b && FoundStuck(w, cfg, f, true, from, to)
  }

  ghost predicate GivenUp(w: World, cfg: Config, before: seq<Batch>, after: seq<Batch>, files: SpoolDir, from: nat, to: nat) {
    before <= after && forall i :: |before| <= i < |after| ==> WasStuck(w, cfg, files, after[i], from, to)
  }

  lemma FoundLonger(w: World, cfg: Config, f: Entry<Spooled>, stuck: bool, from: nat, to: nat, from': nat, to': nat)
    requires FoundStuck(w, cfg, f, stuck, from, to) && from' <= from && to <= to'
    ensures FoundStuck(w, cfg, f, stuck, from', to')
  {}

  lemma ReshipGivesUp(w: World, cfg: Config, st: State, f: Entry<Spooled>)
    ensures var st' := Reship(w, cfg, st, f);
            && st.readings <= st'.readings
            && (st'.failed == st.failed
                || (FoundStuck(w, cfg, f, true, st.readings, st'.readings) && st'.failed == st.failed + [f.content.batch]))
            && (st'.files == st.files || st'.files == st.files + [f])
  {
    hide TryUpload;
  }

  lemma {:induction false} ReshipAllGivesUp(w: World, cfg: Config, st: State, todo: SpoolDir)
    ensures var st' := ReshipAll(w, cfg, st, todo);
            && st.readings <= st'.readings
            && GivenUp(w, cfg, st.failed, st'.failed, todo, st.readings, st'.readings)
            && forall f :: f in st'.files ==> f in st.files || f in todo
    decreases |todo|
  {
    hide Reship, Legible, FoundStuck;
    if todo != [] {
      var st1 := if Legible(todo[0].content.batch) then Reship(w, cfg, st, todo[0]) else Dropped(st, todo[0].content.batch);
      ReshipGivesUp(w, cfg, st, todo[0]);
      ReshipAllGivesUp(w, cfg, st1, todo[1..]);
      var st' := ReshipAll(w, cfg, st, todo);
      assert st' == ReshipAll(w, cfg, st1, todo[1..]);
      assert todo[0] in todo;
      forall i | |st.failed| <= i < |st'.failed|
        ensures WasStuck(w, cfg, todo, st'.failed[i], st.readings, st'.readings)
      {
        if i >= |st1.failed| {
          assert WasStuck(w, cfg, todo[1..], st'.failed[i], st1.readings, st'.readings);
          var f :| f in todo[1..] && f.content.batch == st'.failed[i] && FoundStuck(w, cfg, f, true, st1.readings, st'.readings);
          FoundLonger(w, cfg, f, true, st1.readings, st'.readings, st.readings, st'.readings);
          assert f in todo;
        } else {
          assert st'.failed[i] == todo[0].content.batch;
          FoundLonger(w, cfg, todo[0], true, st.readings, st1.readings, st.readings, st'.readings);
        }
      }
    }
  }

  /**
   * A retry tick gives up only on records that it finds stuck for `escalateAfter` at a clock reading
   * of its own, and keeps no record it did not find.
   */
  lemma TickGivesUp(w: World, cfg: Config, st: State, listed: bool)
    ensures var st' := RetryTick(w, cfg, st, listed);
            && GivenUp(w, cfg, st.failed, st'.failed, st.files, st.readings, st'.readings)
            && forall f :: f in st'.files ==> f in st.files
  {
    hide ReshipAll, OldestFirst, FoundStuck;
    if listed {
      var sorted := OldestFirst(st.files);
      SortFacts(st.files);
      forall f | f in sorted
        ensures f in st.files
      {
        assert f in multiset(sorted);
        assert f in multiset(st.files);
      }
      var st' := RetryTick(w, cfg, st, listed);
      ReshipAllGivesUp(w, cfg, st.(files := []), sorted);
      forall i | |st.failed| <= i < |st'.failed|
        ensures WasStuck(w, cfg, st.files, st'.failed[i], st.readings, st'.readings)
      {
        assert WasStuck(w, cfg, sorted, st'.failed[i], st.readings, st'.readings);
      }
    }
  }

  /** How many clock readings and key requests there have been. */
  datatype Marks = Marks(readings: nat, rekeys: nat)

  function MarksOf(st: State): Marks {
    Marks(st.readings, st.rekeys)
  }

  predicate Later(a: Marks, b: Marks) {
    a.readings <= b.readings && a.rekeys <= b.rekeys
  }

  /** A record that may stay in the spool: between the marks it was found not stuck yet, or without a key. */
  ghost predicate MayWait(w: World, cfg: Config, f: Entry<Spooled>, a: Marks, b: Marks) {
    var es := f.content.batch.envelopes;
    && es != []
    && (FoundStuck(w, cfg, f, false, a.readings, b.readings) || exists n :: a.rekeys <= n < b.rekeys && w.rekey(n, es[0]).None?)
  }

  ghost predicate AllMayWait(w: World, cfg: Config, a: Marks, st: State) {
    forall f :: f in st.files ==> MayWait(w, cfg, f, a, MarksOf(st))
  }

  lemma WaitsLonger(w: World, cfg: Config, f: Entry<Spooled>, a: Marks, b: Marks, c: Marks)
    requires MayWait(w, cfg, f, a, b) && Later(b, c)
    ensures MayWait(w, cfg, f, a, c)
  {}

  lemma ReshipKeeps(w: World, cfg: Config, a: Marks, st: State, f: Entry<Spooled>)
    requires Later(a, MarksOf(st)) && forall n :: w.moves(n)
    ensures var st' := Reship(w, cfg, st, f);
            Later(MarksOf(st), MarksOf(st')) && (st'.files != st.files ==> MayWait(w, cfg, f, a, MarksOf(st')))
  {
    hide TryUpload;
    var st' := Reship(w, cfg, st, f);
    if f.content.batch.envelopes != [] && w.rekey(st.rekeys, f.content.batch.envelopes[0]).Some? && st'.files != st.files {
      assert !Stuck(cfg, f, w.clock(st.readings));
    }
  }

  lemma ReshipClears(w: World, cfg: Config, a: Marks, st: State, f: Entry<Spooled>)
    requires Later(a, MarksOf(st)) && AllMayWait(w, cfg, a, st) && forall n :: w.moves(n)
    ensures var st' := Reship(w, cfg, st, f); Later(a, MarksOf(st')) && AllMayWait(w, cfg, a, st')
  {
    hide Reship, MayWait;
    var st' := Reship(w, cfg, st, f);
    ReshipKeeps(w, cfg, a, st, f);
    ReshipGivesUp(w, cfg, st, f);
    forall g | g in st'.files
      ensures MayWait(w, cfg, g, a, MarksOf(st'))
    {
      if g in st.files { WaitsLonger(w, cfg, g, a, MarksOf(st), MarksOf(st')); }
    }
  }

  lemma {:induction false} ReshipAllClears(w: World, cfg: Config, a: Marks, st: State, todo: SpoolDir)
    requires Later(a, MarksOf(st)) && AllMayWait(w, cfg, a, st) && forall n :: w.moves(n)
    ensures AllMayWait(w, cfg, a, ReshipAll(w, cfg, st, todo))
    decreases |todo|
  {
    hide Legible, Reship, MayWait;
    if todo != [] {
      if Legible(todo[0].content.batch) {
        ReshipClears(w, cfg, a, st, todo[0]);
        ReshipAllClears(w, cfg, a, Reship(w, cfg, st, todo[0]), todo[1..]);
      } else {
        ReshipAllClears(w, cfg, a, Dropped(st, todo[0].content.batch), todo[1..]);
      }
    }
  }

  /**
   * While moves to the failed tree succeed, a retry tick leaves in the spool only records that it
   * found not stuck yet, at a clock reading of its own, or without a key.
   */
  lemma TickClearsStuck(w: World, cfg: Config, st: State)
    requires forall n :: w.moves(n)
    ensures AllMayWait(w, cfg, MarksOf(st), RetryTick(w, cfg, st, true))
  {
    hide ReshipAll, OldestFirst, MayWait;
    ReshipAllClears(w, cfg, MarksOf(st), st.(files := []), OldestFirst(st.files));
  }

  // ---- The worker's files are the spool's files ----

  ghost function Seen<E>(see: E -> Envelope, es: seq<E>): (r: seq<Envelope>)
    ensures |r| == |es|
  {
    if es == [] then [] else [see(es[0])] + Seen(see, es[1..])
  }

  lemma {:induction false} SumSizesCons(e: Envelope, es: seq<Envelope>)
    ensures SumSizes([e] + es) == e.size + SumSizes(es)
    decreases |es|
  {
    if es == [] {
      assert [e] + es == [e] && [e][..0] == [];
      assert SumSizes([e]) == SumSizes([]) + e.size;
    } else {
      SumSizesCons(e, es[..|es| - 1]);
      assert ([e] + es)[..|es|] == [e] + es[..|es| - 1] && ([e] + es)[|es|] == es[|es| - 1];
    }
  }

  /**
   * For every codec, the size the worker books for a spool file is the length of the bytes the spool
   * writes, and the worker takes a file for readable exactly when the spool can read it back.
   */
  lemma {:induction false} FilesAgree<E(!new)>(c: Codec<E>, see: E -> Envelope, es: seq<E>, key: Key)
    requires c.Valid() && forall x :: x in es ==> see(x).size == |c.encode(x)|
    ensures FileSize(Batch(key, Seen(see, es))) == |FileBytes(c, es)|
    ensures Legible(Batch(key, Seen(see, es))) <==> ReadFrames(c, FileBytes(c, es)) == Some(es)
    decreases |es|
  {
    hide ReadFrames;
    FilesSized(c, see, es, key);
    ReadBack(c, es);
  }

  lemma {:induction false} FilesSized<E(!new)>(c: Codec<E>, see: E -> Envelope, es: seq<E>, key: Key)
    requires c.Valid() && forall x :: x in es ==> see(x).size == |c.encode(x)|
    ensures FileSize(Batch(key, Seen(see, es))) == |FileBytes(c, es)|
    ensures Legible(Batch(key, Seen(see, es))) <==> Readable(c, es)
    decreases |es|
  {
    if es != [] {
      FilesSized(c, see, es[1..], key);
      SumSizesCons(see(es[0]), Seen(see, es[1..]));
      assert es == [es[0]] + es[1..];
      assert Readable(c, es) <==> |c.encode(es[0])| <= MAX_FRAME && Readable(c, es[1..]);
      var all, rest := Batch(key, Seen(see, es)), Batch(key, Seen(see, es[1..]));
      assert Legible(all) <==> see(es[0]).size <= MAX_FRAME && Legible(rest);
    }
  }
}
