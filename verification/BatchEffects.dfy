/** What each step of the batching worker does to one batch, and the times the worker acts on. */
module BatchEffects {
  import opened Bytes
  import opened EnvelopeSpool
  import opened BatchWorker
  import opened BatchInvariants
  import opened BatchResults

  // ---- Flush and upload ----

  /** A flush of `b` from `st` ends in an upload: there is a key, the batch encodes, and the retry loop meets a success. */
  ghost predicate Delivers(w: World, cfg: Config, st: State, b: Batch) {
    b.key.Some? && w.encodes(st.encodings) && Ships(w, st.calls, cfg.maxAttempts)
  }

  /** `b`, and nothing else, was added to the spool, which evicted what the cap demanded. */
  ghost predicate JoinedSpool(st: State, st': State, b: Batch) {
    && multiset(Contents(st'.files)) + multiset(st'.log.capEvicted)
       == multiset(Contents(st.files)) + multiset(st.log.capEvicted) + multiset{b}
    && st'.log.writeLost == st.log.writeLost && st'.counters.spooled == st.counters.spooled + 1
  }

  ghost predicate SpoolUntouched(st: State, st': State) {
    && st'.files == st.files && st'.log.capEvicted == st.log.capEvicted && st'.log.writeLost == st.log.writeLost
    && st'.writes == st.writes && st'.counters.spooled == st.counters.spooled
  }

  /** A spooled batch joins the spool exactly when its write succeeds, and is written off otherwise. */
  ghost predicate Spools(w: World, st: State, st': State, b: Batch) {
    && st'.writes == st.writes + 1
    && if w.spoolWrite(st.writes) then JoinedSpool(st, st', b)
       else st'.log.writeLost == st.log.writeLost + [b] && st'.files == st.files && st'.log.capEvicted == st.log.capEvicted
            && st'.counters.spooled == st.counters.spooled
  }

  lemma SpoolExact(w: World, cfg: Config, st: State, b: Batch)
    ensures Spools(w, st, SpoolBatch(w, cfg, st, b), b)
  {
    hide EvictToCap, FileSize, Contents;
    if w.spoolWrite(st.writes) {
      var now := w.clock(st.readings);
      var f := Entry(st.nextId, now, FileSize(b), Spooled(b, now));
      var ev := EvictToCap(st.files + [f], cfg.spoolMaxBytes);
      EvictionContents(st.files + [f], cfg.spoolMaxBytes);
      ContentsConcat(st.files, [f]);
      ContentsOne(f);
      AddUp(multiset(Contents(st.files)), multiset(st.log.capEvicted), multiset(Contents(ev.kept)), multiset(Contents(ev.evicted)), b);
    }
  }

  lemma AddUp<T>(k: multiset<T>, c: multiset<T>, k': multiset<T>, e: multiset<T>, b: T)
    requires e + k' == k + multiset{b}
    ensures k' + (c + e) == k + c + multiset{b}
  {
    assert k' + (c + e) == c + (e + k');
  }

  /**
   * A flush uploads its batch exactly when there is a key, the batch encodes, and the backend answers
   * success after nothing but retries within `max_attempts`; otherwise the batch is spooled.
   */
  lemma FlushExact(w: World, cfg: Config, st: State, b: Batch)
    requires b.envelopes != []
    ensures var st', out := Flush(w, cfg, st, b), Delivers(w, cfg, st, b);
            && st'.log.uploaded == st.log.uploaded + (if out then [b] else [])
            && st'.counters.uploads == st.counters.uploads + (if out then 1 else 0)
            && (if out then SpoolUntouched(st, st') else Spools(w, st, st', b))
            && st'.encodings == st.encodings + (if b.key.Some? then 1 else 0)
            && st'.calls == (if b.key.Some? && w.encodes(st.encodings) then TryUpload(w, st.calls, 0, cfg.maxAttempts).calls else st.calls)
            && st'.counters.retries == st.counters.retries + RetriesIn(st.calls, st'.calls)
  {
    hide TryUpload, Ships, SpoolBatch, Spools;
    var r := TryUpload(w, st.calls, 0, cfg.maxAttempts);
    ShipsIff(w, st.calls, cfg.maxAttempts);
    UploadsBounded(w, st.calls, 0, cfg.maxAttempts);
    var st1 := Flushing(st, b);
    SpoolCase(w, cfg, st, st1, b);
    SpoolCase(w, cfg, st, Encoded(st1), b);
    SpoolCase(w, cfg, st, Tried(Encoded(st1), r), b);
  }

  /** Spooling from a state that differs only in what was asked before. */
  lemma SpoolCase(w: World, cfg: Config, st: State, st1: State, b: Batch)
    ensures var st' := SpoolBatch(w, cfg, st1, b);
            && st'.log.uploaded == st1.log.uploaded && st'.counters.uploads == st1.counters.uploads
            && st'.encodings == st1.encodings && st'.calls == st1.calls && st'.counters.retries == st1.counters.retries
            && (SpoolUntouched(st, st1) ==> Spools(w, st, st', b))
  {
    SpoolExact(w, cfg, st1, b);
    hide EvictToCap, FileSize, Contents;
  }

  /** The same over runs: an arrival that closes its partition uploads the batch exactly when it delivers. */
  lemma ArrivalUploads(w: World, cfg: Config, evs: seq<Event>, e: Envelope, now: int)
    requires cfg.Valid() && e.size <= U32_MAX
    ensures var st, st' := Run(w, cfg, evs), Run(w, cfg, evs + [Arrives(e, now)]);
            var b := Batch(e.key, Buffered(st.partitions, e.key) + [e]);
            if |b.envelopes| >= cfg.maxEvents || SumSizes(b.envelopes) >= cfg.maxBytes then
              && st'.log.uploaded == st.log.uploaded + (if Delivers(w, cfg, st, b) then [b] else [])
              && (if Delivers(w, cfg, st, b) then SpoolUntouched(st, st') else Spools(w, st, st', b))
            else st'.log.uploaded == st.log.uploaded && SpoolUntouched(st, st')
  {
    RunKeeps(w, cfg, evs);
    var longer := evs + [Arrives(e, now)];
    assert longer[..|longer| - 1] == evs;
    RunLast(w, cfg, longer);
    hide Run, HistoryOk;
    AdmitUploads(w, cfg, Run(w, cfg, evs), e, now);
  }

  lemma AdmitUploads(w: World, cfg: Config, st: State, e: Envelope, now: int)
    requires cfg.Valid() && PartitionsOk(cfg, st.partitions) && e.size <= U32_MAX
    ensures var st' := Admit(w, cfg, st, e, now);
            var b := Batch(e.key, Buffered(st.partitions, e.key) + [e]);
            if |b.envelopes| >= cfg.maxEvents || SumSizes(b.envelopes) >= cfg.maxBytes then
              && st'.log.uploaded == st.log.uploaded + (if Delivers(w, cfg, st, b) then [b] else [])
              && (if Delivers(w, cfg, st, b) then SpoolUntouched(st, st') else Spools(w, st, st', b))
            else st'.log.uploaded == st.log.uploaded && SpoolUntouched(st, st')
  {
    hide Flush, PartitionsOk, Due, Ships, Contents;
    var found := PartitionOf(st, e.key, now);
    RingNotFull(cfg, st, e.key, now);
    DueExact(cfg, st.partitions, e, found);
    var p := Push(found, e);
    assert p.envelopes == Buffered(st.partitions, e.key) + [e];
    var closed := st.(log := st.log.(admitted := st.log.admitted + [e]), partitions := st.partitions - {e.key});
    FlushExact(w, cfg, closed, Batch(e.key, p.envelopes));
  }

  /** The age timer, partition by partition: the next one in its order uploads exactly when it delivers. */
  lemma AgeTimerUploads(w: World, cfg: Config, evs: seq<Event>, keys: seq<Key>, k: Key, now: int)
    requires cfg.Valid()
    ensures var st := Run(w, cfg, evs + [AgeTimer(keys, now)]);
            var st' := Run(w, cfg, evs + [AgeTimer(keys + [k], now)]);
            if k in st.partitions && now - st.partitions[k].since >= cfg.maxAge then
              var b := Batch(k, st.partitions[k].envelopes);
              && st'.log.flushed == st.log.flushed + [b]
              && st'.log.uploaded == st.log.uploaded + (if Delivers(w, cfg, st, b) then [b] else [])
              && (if Delivers(w, cfg, st, b) then SpoolUntouched(st, st') else Spools(w, st, st', b))
            else st' == st
  {
    var one, two := evs + [AgeTimer(keys, now)], evs + [AgeTimer(keys + [k], now)];
    assert one[..|one| - 1] == evs && two[..|two| - 1] == evs;
    RunLast(w, cfg, one);
    RunLast(w, cfg, two);
    RunKeeps(w, cfg, one);
    var st := Run(w, cfg, one);
    assert PartitionsOk(cfg, st.partitions);
    hide Run, Inv, FlushAged, PartitionsOk, Delivers, Spools, SpoolUntouched;
    FlushAgedSnoc(w, cfg, Run(w, cfg, evs), keys, k, now);
    AgedOne(w, cfg, st, k, now);
  }

  lemma AgedOne(w: World, cfg: Config, st: State, k: Key, now: int)
    requires PartitionsOk(cfg, st.partitions)
    ensures var st' := FlushAged(w, cfg, st, [k], now);
            if k in st.partitions && now - st.partitions[k].since >= cfg.maxAge then
              var b := Batch(k, st.partitions[k].envelopes);
              && st'.log.flushed == st.log.flushed + [b]
              && st'.log.uploaded == st.log.uploaded + (if Delivers(w, cfg, st, b) then [b] else [])
              && (if Delivers(w, cfg, st, b) then SpoolUntouched(st, st') else Spools(w, st, st', b))
            else st' == st
  {
    assert [k][1..] == [];
    hide Flush, Ships, Contents, PartitionOk;
    if k in st.partitions && now - st.partitions[k].since >= cfg.maxAge {
      var b, taken := Batch(k, st.partitions[k].envelopes), st.(partitions := st.partitions - {k});
      OpenHolds(cfg, k, st.partitions[k]);
      FlushExact(w, cfg, taken, b);
      FlushRecords(w, cfg, taken, b);
    }
  }

  /** The shutdown drain encodes nothing and uploads nothing. */
  lemma {:induction false} DrainUploadsNothing(w: World, cfg: Config, st: State, keys: seq<Key>)
    ensures var st' := Drain(w, cfg, st, keys);
            st'.log.uploaded == st.log.uploaded && st'.calls == st.calls && st'.encodings == st.encodings
    decreases |keys|
  {
    hide EvictToCap, FileSize, Contents;
    if keys != [] {
      var taken := st.(partitions := st.partitions - {keys[0]});
      if keys[0] in st.partitions && st.partitions[keys[0]].envelopes != [] {
        var b := Batch(keys[0], st.partitions[keys[0]].envelopes);
        DrainUploadsNothing(w, cfg, SpoolBatch(w, cfg, Flushing(taken, b), b), keys[1..]);
      } else {
        DrainUploadsNothing(w, cfg, taken, keys[1..]);
      }
    }
  }

  /** The ring guard acts from `max(2 * maxEvents, 4)` envelopes on: it drops the oldest one and keeps the byte count exact. */
  lemma RingGuardExact(cfg: Config, st: State, p: Partition)
    requires p.bytes == SumSizes(p.envelopes)
    ensures var g, st' := Guarded(cfg, p), NoteEvicted(cfg, st, p);
            && (if |p.envelopes| >= 4 && |p.envelopes| >= 2 * cfg.maxEvents then
                  && p.envelopes == [p.envelopes[0]] + g.envelopes
                  && st'.log.ringEvicted == st.log.ringEvicted + [p.envelopes[0]] && st'.counters.evicted == st.counters.evicted + 1
                else g == p && st' == st)
            && g.bytes == SumSizes(g.envelopes) && g.since == p.since
  {
    if |p.envelopes| >= cfg.RingCap() {
      assert p.envelopes == [p.envelopes[0]] + p.envelopes[1..];
      SumSizesCons(p.envelopes[0], p.envelopes[1..]);
    }
  }

  // ---- The retry tick ----

  /** `a` is what is left of `b` when some elements are struck out. */
  ghost predicate Within<T>(a: seq<T>, b: seq<T>)
    decreases |b|
  {
    if b == [] then a == []
    else Within(a, b[1..]) || (a != [] && a[0] == b[0] && Within(a[1..], b[1..]))
  }

  lemma {:induction false} NothingWithin<T>(b: seq<T>)
    ensures Within([], b)
    decreases |b|
  {
    if b != [] { NothingWithin(b[1..]); }
  }

  lemma ReshipAppends(w: World, cfg: Config, st: State, f: Entry<Spooled>)
    ensures var st' := Reship(w, cfg, st, f);
            && (st'.log.uploaded == st.log.uploaded || st'.log.uploaded == st.log.uploaded + [f.content.batch])
            && (st'.files == st.files || st'.files == st.files + [f])
  {
    hide TryUpload;
  }

  /** Records are worked off in the order given: uploads and kept files follow it, and no unreadable file is kept. */
  lemma {:induction false} ReshipAllInOrder(w: World, cfg: Config, st: State, todo: SpoolDir) returns (up: seq<Batch>, kept: SpoolDir)
    ensures var st' := ReshipAll(w, cfg, st, todo);
            && st'.log.uploaded == st.log.uploaded + up && Within(up, Contents(todo))
            && st'.files == st.files + kept && Within(kept, todo)
            && forall f :: f in kept ==> Legible(f.content.batch)
    decreases |todo|
  {
    if todo == [] {
      up, kept := [], [];
    } else {
      hide Reship, Legible;
      var f := todo[0];
      var st1 := if Legible(f.content.batch) then Reship(w, cfg, st, f) else Dropped(st, f.content.batch);
      ReshipAppends(w, cfg, st, f);
      var up1, kept1 := ReshipAllInOrder(w, cfg, st1, todo[1..]);
      assert Contents(todo)[0] == f.content.batch && Contents(todo)[1..] == Contents(todo[1..]);
      up := if st1.log.uploaded == st.log.uploaded then up1 else [f.content.batch] + up1;
      kept := if st1.files == st.files then kept1 else [f] + kept1;
      Prepended(st.log.uploaded, st1.log.uploaded, f.content.batch, up1, up);
      Prepended(st.files, st1.files, f, kept1, kept);
      WithinMore(up1, up, f.content.batch, Contents(todo));
      WithinMore(kept1, kept, f, todo);
    }
  }

  lemma Prepended<T>(before: seq<T>, mid: seq<T>, x: T, rest: seq<T>, all: seq<T>)
    requires mid == before || mid == before + [x]
    requires all == if mid == before then rest else [x] + rest
    ensures mid + rest == before + all
  {
    Assoc(before, [x], rest);
  }

  lemma WithinMore<T>(rest: seq<T>, all: seq<T>, x: T, b: seq<T>)
    requires b != [] && b[0] == x && Within(rest, b[1..]) && (all == rest || all == [x] + rest)
    ensures Within(all, b)
  {
    if all != rest {
      assert all[0] == x && all[1..] == rest;
    }
  }

  /**
   * A retry tick works the records off oldest first: what it uploads and what it keeps are in the
   * order of age, and it keeps no file that cannot be read back. If the directory cannot be listed
   * it does nothing.
   */
  lemma TickInAgeOrder(w: World, cfg: Config, st: State, listed: bool) returns (up: seq<Batch>)
    ensures var st' := RetryTick(w, cfg, st, listed);
            && st'.log.uploaded == st.log.uploaded + up && Within(up, Contents(OldestFirst(st.files)))
            && (!listed ==> st' == st)
            && (listed ==> Within(st'.files, OldestFirst(st.files)) && forall f :: f in st'.files ==> Legible(f.content.batch))
  {
    hide ReshipAll, OldestFirst, Contents, Legible;
    if listed {
      var kept;
      up, kept := ReshipAllInOrder(w, cfg, st.(files := []), OldestFirst(st.files));
      assert [] + kept == kept;
    } else {
      up := [];
      NothingWithin(Contents(OldestFirst(st.files)));
      assert st.log.uploaded + [] == st.log.uploaded;
    }
  }

  // ---- Times ----

  /** The file was written at a clock reading before `to`, which is both its creation time and when its batch first failed. */
  ghost predicate Dated(w: World, f: Entry<Spooled>, to: nat) {
    && f.created == f.content.failedAt && f.size == FileSize(f.content.batch)
    && exists n :: 0 <= n < to && w.clock(n) == f.content.failedAt
  }

  /** Every file of `st'` was there before or has been written since. */
  ghost predicate DatedStep(w: World, st: State, st': State) {
    st.readings <= st'.readings && forall f :: f in st'.files ==> f in st.files || Dated(w, f, st'.readings)
  }

  lemma DatedThen(w: World, a: State, b: State, c: State)
    requires DatedStep(w, a, b) && DatedStep(w, b, c)
    ensures DatedStep(w, a, c)
  {
    forall f | f in c.files && f !in a.files
      ensures Dated(w, f, c.readings)
    {
      if f in b.files { assert Dated(w, f, b.readings); }
    }
  }

  lemma SpoolDated(w: World, cfg: Config, st: State, b: Batch)
    ensures DatedStep(w, st, SpoolBatch(w, cfg, st, b))
  {
    hide EvictToCap, FileSize, Contents;
    var st', now := SpoolBatch(w, cfg, st, b), w.clock(st.readings);
    var f := Entry(st.nextId, now, FileSize(b), Spooled(b, now));
    assert Dated(w, f, st'.readings);
    if w.spoolWrite(st.writes) {
      KeptFrom(st.files + [f], cfg.spoolMaxBytes);
    }
  }

  lemma KeptFrom(files: SpoolDir, cap: nat)
    ensures forall g :: g in EvictToCap(files, cap).kept ==> g in files
  {
    hide EvictToCap, OldestFirst, Total;
    EvictionMinimal(files, cap);
    var kept := EvictToCap(files, cap).kept;
    forall g | g in kept
      ensures g in files
    {
      assert g in multiset(kept);
      assert g in multiset(files);
    }
  }

  lemma FlushDated(w: World, cfg: Config, st: State, b: Batch)
    ensures DatedStep(w, st, Flush(w, cfg, st, b))
  {
    hide SpoolBatch, TryUpload, Dated;
    var r, st1 := TryUpload(w, st.calls, 0, cfg.maxAttempts), Flushing(st, b);
    SpoolDated(w, cfg, st1, b);
    SpoolDated(w, cfg, Encoded(st1), b);
    SpoolDated(w, cfg, Tried(Encoded(st1), r), b);
  }

  lemma AdmitDated(w: World, cfg: Config, st: State, e: Envelope, now: int)
    ensures DatedStep(w, st, Admit(w, cfg, st, e, now))
  {
    hide Flush, Due, Dated;
    if e.size <= U32_MAX {
      var st0 := st.(log := st.log.(admitted := st.log.admitted + [e]));
      var found := PartitionOf(st, e.key, now);
      var st1 := NoteEvicted(cfg, st0, found);
      var p := Push(Guarded(cfg, found), e);
      FlushDated(w, cfg, st1.(partitions := st.partitions - {e.key}), Batch(e.key, p.envelopes));
    }
  }

  lemma {:induction false} FlushAgedDated(w: World, cfg: Config, st: State, keys: seq<Key>, now: int)
    ensures DatedStep(w, st, FlushAged(w, cfg, st, keys, now))
    decreases |keys|
  {
    hide Flush, Dated;
    if keys != [] {
      if keys[0] in st.partitions && now - st.partitions[keys[0]].since >= cfg.maxAge {
        var b, taken := Batch(keys[0], st.partitions[keys[0]].envelopes), st.(partitions := st.partitions - {keys[0]});
        var mid := Flush(w, cfg, taken, b);
        FlushDated(w, cfg, taken, b);
        FlushAgedDated(w, cfg, mid, keys[1..], now);
        DatedThen(w, st, mid, FlushAged(w, cfg, mid, keys[1..], now));
      } else {
        FlushAgedDated(w, cfg, st, keys[1..], now);
      }
    }
  }

  lemma {:induction false} DrainDated(w: World, cfg: Config, st: State, keys: seq<Key>)
    ensures DatedStep(w, st, Drain(w, cfg, st, keys))
    decreases |keys|
  {
    hide SpoolBatch, Dated;
    if keys != [] {
      var taken := st.(partitions := st.partitions - {keys[0]});
      if keys[0] in st.partitions && st.partitions[keys[0]].envelopes != [] {
        var b := Batch(keys[0], st.partitions[keys[0]].envelopes);
        var mid := SpoolBatch(w, cfg, Flushing(taken, b), b);
        SpoolDated(w, cfg, Flushing(taken, b), b);
        DrainDated(w, cfg, mid, keys[1..]);
        DatedThen(w, st, mid, Drain(w, cfg, mid, keys[1..]));
      } else {
        DrainDated(w, cfg, taken, keys[1..]);
      }
    }
  }

  lemma TickDated(w: World, cfg: Config, st: State, listed: bool)
    ensures DatedStep(w, st, RetryTick(w, cfg, st, listed))
  {
    hide ReshipAll, OldestFirst, Dated;
    TickGivesUp(w, cfg, st, listed);
    if listed {
      ReshipAllGivesUp(w, cfg, st.(files := []), OldestFirst(st.files));
    }
  }

  lemma StepDated(w: World, cfg: Config, st: State, ev: Event)
    ensures DatedStep(w, st, Step(w, cfg, st, ev))
  {
    hide Admit, FlushAged, Drain, RetryTick, DatedStep;
    match ev {
      case Arrives(e, now) => AdmitDated(w, cfg, st, e, now);
      case AgeTimer(order, now) => FlushAgedDated(w, cfg, st, order, now);
      case RetryTimer(listed) => TickDated(w, cfg, st, listed);
      case Shutdown(order) => DrainDated(w, cfg, st, order);
    }
  }

  ghost predicate AllDated(w: World, st: State) {
    forall f :: f in st.files ==> Dated(w, f, st.readings)
  }

  /** In every reachable state every spool file carries the clock reading of its own write, and its own length. */
  lemma {:induction false} FilesDated(w: World, cfg: Config, evs: seq<Event>)
    ensures AllDated(w, Run(w, cfg, evs))
    decreases |evs|
  {
    if evs != [] {
      hide Run, Step, AllDated, DatedStep;
      var init := evs[..|evs| - 1];
      FilesDated(w, cfg, init);
      StepDated(w, cfg, Run(w, cfg, init), evs[|evs| - 1]);
      RunLast(w, cfg, evs);
      StillDated(w, Run(w, cfg, init), Run(w, cfg, evs));
    }
  }

  lemma StillDated(w: World, st: State, st': State)
    requires DatedStep(w, st, st') && AllDated(w, st)
    ensures AllDated(w, st')
  {
    forall f | f in st'.files
      ensures Dated(w, f, st'.readings)
    {
      if f in st.files { assert Dated(w, f, st.readings); }
    }
  }

  /** The event that opened the partition: the arrival of its first envelope, when no partition of its key was open. */
  ghost predicate OpenedBy(w: World, cfg: Config, evs: seq<Event>, i: nat, k: Key, p: Partition) {
    && i < |evs| && evs[i].Arrives? && evs[i].e.key == k && k !in Run(w, cfg, evs[..i]).partitions
    && p.envelopes != [] && p.envelopes[0] == evs[i].e && p.since == evs[i].now
  }

  /** A partition that stays keeps its opening time and its first envelope. */
  ghost predicate Continues(p: Partition, p': Partition) {
    p'.since == p.since && p.envelopes != [] && p.envelopes <= p'.envelopes
  }

  lemma AdmitOpens(w: World, cfg: Config, st: State, e: Envelope, now: int, k: Key)
    requires cfg.Valid() && PartitionsOk(cfg, st.partitions) && k in Admit(w, cfg, st, e, now).partitions
    ensures var p := Admit(w, cfg, st, e, now).partitions[k];
            if k in st.partitions then Continues(st.partitions[k], p) else k == e.key && p.envelopes == [e] && p.since == now
  {
    hide Flush, Due;
    if k in st.partitions { assert PartitionOk(cfg, k, st.partitions[k]); }
    if e.size <= U32_MAX {
      var found := PartitionOf(st, e.key, now);
      RingNotFull(cfg, st, e.key, now);
      var p := Push(found, e);
      assert [] + [e] == [e];
      if Due(cfg, p) {
        var st0 := st.(log := st.log.(admitted := st.log.admitted + [e]), partitions := st.partitions - {e.key});
        FlushRecords(w, cfg, st0, Batch(e.key, p.envelopes));
      }
    }
  }

  lemma StepContinues(w: World, cfg: Config, st: State, ev: Event, k: Key)
    requires cfg.Valid() && Inv(cfg, st) && k in Step(w, cfg, st, ev).partitions
    ensures var p := Step(w, cfg, st, ev).partitions[k];
            if k in st.partitions then Continues(st.partitions[k], p)
            else ev.Arrives? && k == ev.e.key && p.envelopes == [ev.e] && p.since == ev.now
  {
    if k in st.partitions { assert PartitionOk(cfg, k, st.partitions[k]); }
    hide Admit, FlushAged, Drain, RetryTick, HistoryOk;
    match ev {
      case Arrives(e, now) => AdmitOpens(w, cfg, st, e, now, k);
      case AgeTimer(order, now) => FlushAgedExact(w, cfg, st, order, now);
      case RetryTimer(listed) => TickKeepsPartitions(w, cfg, st, listed);
      case Shutdown(order) => DrainKeeps(w, cfg, st, order);
    }
  }

  lemma TickKeepsPartitions(w: World, cfg: Config, st: State, listed: bool)
    requires Inv(cfg, st)
    ensures RetryTick(w, cfg, st, listed).partitions == st.partitions
  {
    hide RetryTick, Settled, CountersOk, ShelvesOk, InOrder, PartitionsOk;
    SpooledFromFlushed(st);
    RetryTickShuffles(w, cfg, st, listed);
  }

  lemma OpenedStill(w: World, cfg: Config, evs: seq<Event>, i: nat, k: Key, p: Partition, p': Partition)
    requires evs != [] && OpenedBy(w, cfg, evs[..|evs| - 1], i, k, p) && Continues(p, p')
    ensures OpenedBy(w, cfg, evs, i, k, p')
  {
    hide Run;
    var init := evs[..|evs| - 1];
    assert init[..i] == evs[..i] && init[i] == evs[i];
  }

  lemma OpenedNow(w: World, cfg: Config, evs: seq<Event>, k: Key, p: Partition)
    requires evs != [] && k !in Run(w, cfg, evs[..|evs| - 1]).partitions
    requires var ev := evs[|evs| - 1]; ev.Arrives? && k == ev.e.key && p.envelopes == [ev.e] && p.since == ev.now
    ensures OpenedBy(w, cfg, evs, |evs| - 1, k, p)
  {
    hide Run;
  }

  lemma NothingOpen(w: World, cfg: Config)
    ensures Run(w, cfg, []).partitions == map[]
  {}

  /** In every reachable state a partition's age counts from the arrival of its first buffered envelope. */
  lemma {:induction false} SinceFirst(w: World, cfg: Config, evs: seq<Event>, k: Key) returns (i: nat)
    requires cfg.Valid() && k in Run(w, cfg, evs).partitions
    ensures OpenedBy(w, cfg, evs, i, k, Run(w, cfg, evs).partitions[k])
    decreases |evs|
  {
    hide Inv, Step, Run, Continues, OpenedBy;
    NothingOpen(w, cfg);
    var init := evs[..|evs| - 1];
    RunKeeps(w, cfg, init);
    RunLast(w, cfg, evs);
    StepContinues(w, cfg, Run(w, cfg, init), evs[|evs| - 1], k);
    if k in Run(w, cfg, init).partitions {
      i := SinceFirst(w, cfg, init, k);
      OpenedStill(w, cfg, evs, i, k, Run(w, cfg, init).partitions[k], Run(w, cfg, evs).partitions[k]);
    } else {
      i := |init|;
      OpenedNow(w, cfg, evs, k, Run(w, cfg, evs).partitions[k]);
    }
  }
}
