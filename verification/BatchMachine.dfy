/** The worker as the source has it, an object updated in place, against the value machine. */
module BatchMachine {
  import opened EnvelopeSpool
  import opened BatchWorker
  import opened BatchInvariants
  import opened BatchResults

  class Worker {
    const world: World
    const cfg: Config

    var partitions: map<Key, Partition>
    var files: SpoolDir
    var failed: seq<Batch>
    var nextId: nat
    var encodings: nat
    var calls: nat
    var writes: nat
    var moves: nat
    var rekeys: nat
    var readings: nat
    var counters: Counters

    // Where everything went, and what has happened so far.
    ghost var log: Log
    ghost var history: seq<Event>

    ghost function Snapshot(): State
      reads this
    {
      State(partitions, files, failed, nextId, encodings, calls, writes, moves, rekeys, readings, counters, log)
    }

    /** The worker is where its history takes it. */
    ghost predicate Valid()
      reads this
    {
      cfg.Valid() && Snapshot() == Run(world, cfg, history)
    }

    constructor (world: World, cfg: Config)
      requires cfg.Valid()
      ensures this.world == world && this.cfg == cfg && Valid() && history == [] && Snapshot() == Init()
    {
      this.world, this.cfg := world, cfg;
      partitions, files, failed := map[], [], [];
      nextId, encodings, calls, writes, moves, rekeys, readings := 0, 0, 0, 0, 0, 0, 0;
      counters, log := Counters(0, 0, 0, 0, 0, 0, 0), Log([], [], [], [], [], [], [], [], []);
      history := [];
    }

    /** Buffer the envelope; flush its partition once a count or byte trigger fires. */
    method Admit(e: Envelope, now: int)
      requires Valid()
      modifies this
      ensures Valid() && history == old(history) + [Arrives(e, now)]
      ensures Snapshot() == BatchWorker.Admit(world, cfg, old(Snapshot()), e, now)
    {
      hide Run, BatchWorker.Admit;
      RunSnoc(world, cfg, history, Arrives(e, now));
      history := history + [Arrives(e, now)];
      Take(e, now);
    }

    method Take(e: Envelope, now: int)
      modifies this
      ensures Snapshot() == BatchWorker.Admit(world, cfg, old(Snapshot()), e, now) && history == old(history)
    {
      hide Flush;
      log := log.(admitted := log.admitted + [e]);
      if e.size > U32_MAX {
        counters := counters.(tooLarge := counters.tooLarge + 1);
        log := log.(tooLarge := log.tooLarge + [e]);
        return;
      }
      var p := if e.key in partitions then partitions[e.key] else Partition([], 0, now);
      if |p.envelopes| >= cfg.RingCap() {
        var dropped := p.envelopes[0];
        counters := counters.(evicted := counters.evicted + 1);
        log := log.(ringEvicted := log.ringEvicted + [dropped]);
        p := p.(envelopes := p.envelopes[1..], bytes := if dropped.size <= p.bytes then p.bytes - dropped.size else 0);
      }
      p := p.(envelopes := p.envelopes + [e], bytes := SaturatingAdd(p.bytes, e.size));
      if |p.envelopes| >= cfg.maxEvents || p.bytes >= cfg.maxBytes {
        partitions := partitions - {e.key};
        FlushPartition(Batch(e.key, p.envelopes));
      } else {
        partitions := partitions[e.key := p];
      }
    }

    method FlushPartition(b: Batch)
      modifies this
      ensures Snapshot() == Flush(world, cfg, old(Snapshot()), b) && history == old(history)
    {
      hide SpoolBatch, BatchWorker.Ship;
      if b.envelopes == [] {
        return;
      }
      log := log.(flushed := log.flushed + [b]);
      if b.key.None? {
        SpoolAndEmit(b);
        return;
      }
      Ship(b);
    }

    method Ship(b: Batch)
      modifies this
      ensures Snapshot() == BatchWorker.Ship(world, cfg, old(Snapshot()), b) && history == old(history)
    {
      hide SpoolBatch, TryUpload;
      var encoded := world.encodes(encodings);
      encodings := encodings + 1;
      if !encoded {
        SpoolAndEmit(b);
        return;
      }
      var shipped := UploadWithRetries();
      if shipped {
        counters := counters.(uploads := counters.uploads + 1);
        log := log.(uploaded := log.uploaded + [b]);
      } else {
        SpoolAndEmit(b);
      }
    }

    /** The retry loop: one upload per attempt, a counted retry between attempts. */
    method UploadWithRetries() returns (shipped: bool)
      modifies this`calls, this`counters
      ensures var r := TryUpload(world, old(calls), 0, cfg.maxAttempts);
              calls == r.calls && counters == old(counters).(retries := old(counters.retries) + r.retries) && shipped == r.shipped
      ensures calls - old(calls) <= cfg.maxAttempts
    {
      ghost var goal := TryUpload(world, calls, 0, cfg.maxAttempts);
      UploadsBounded(world, calls, 0, cfg.maxAttempts);
      var attempt := 0;
      shipped := false;
      while attempt < cfg.maxAttempts
        invariant attempt <= cfg.maxAttempts && !shipped
        invariant counters == old(counters).(retries := counters.retries) && counters.retries >= old(counters.retries)
        invariant var rest := TryUpload(world, calls, attempt, cfg.maxAttempts);
                  goal == rest.(retries := counters.retries - old(counters.retries) + rest.retries)
      {
        attempt := attempt + 1;
        var answer := world.upload(calls);
        calls := calls + 1;
        match answer {
          case Shipped =>
            shipped := true;
            return;
          case Refused =>
            return;
          case RetryLater =>
            if attempt < cfg.maxAttempts {
              counters := counters.(retries := counters.retries + 1);
            }
        }
      }
    }

    method SpoolAndEmit(b: Batch)
      modifies this
      ensures Snapshot() == SpoolBatch(world, cfg, old(Snapshot()), b) && history == old(history)
    {
      hide Stored;
      var now := world.clock(readings);
      readings := readings + 1;
      var written := world.spoolWrite(writes);
      writes := writes + 1;
      if written {
        StoreFile(b, now);
      } else {
        log := log.(writeLost := log.writeLost + [b]);
      }
    }

    method StoreFile(b: Batch, now: int)
      modifies this
      ensures Snapshot() == Stored(cfg, old(Snapshot()), b, now) && history == old(history)
    {
      hide EvictToCap, FileSize, Contents;
      var ev := EvictToCap(files + [Entry(nextId, now, FileSize(b), Spooled(b, now))], cfg.spoolMaxBytes);
      files, nextId := ev.kept, nextId + 1;
      counters := counters.(spooled := counters.spooled + 1);
      log := log.(capEvicted := log.capEvicted + Contents(ev.evicted));
    }

    /** Flush every partition that is old enough, in whatever order the map yields them. */
    method FlushAgedPartitions(now: int) returns (ghost order: seq<Key>)
      requires Valid()
      modifies this
      ensures Valid() && history == old(history) + [AgeTimer(order, now)]
      ensures forall k :: k in order <==> k in old(partitions) && now - old(partitions)[k].since >= cfg.maxAge
    {
      hide Run, FlushAged;
      order := FlushOld(now);
      RunSnoc(world, cfg, history, AgeTimer(order, now));
      history := history + [AgeTimer(order, now)];
    }

    method FlushOld(now: int) returns (ghost order: seq<Key>)
      modifies this
      ensures Snapshot() == FlushAged(world, cfg, old(Snapshot()), order, now) && history == old(history)
      ensures forall k :: k in order <==> k in old(partitions) && now - old(partitions)[k].since >= cfg.maxAge
    {
      hide Flush;
      var todo := set k | k in partitions && now - partitions[k].since >= cfg.maxAge;
      order := [];
      while todo != {}
        invariant Snapshot() == FlushAged(world, cfg, old(Snapshot()), order, now) && history == old(history)
        invariant forall k :: k in todo ==> k in partitions && k in old(partitions) && partitions[k] == old(partitions)[k]
        invariant forall k :: k in old(partitions) && now - old(partitions)[k].since >= cfg.maxAge <==> k in todo || k in order
        decreases |todo|
      {
        var k :| k in todo;
        var b := Batch(k, partitions[k].envelopes);
        ghost var before := Snapshot();
        partitions := partitions - {k};
        FlushPartition(b);
        FlushKeepsPartitions(world, cfg, before.(partitions := before.partitions - {k}), b);
        FlushAgedSnoc(world, cfg, old(Snapshot()), order, k, now);
        order := order + [k];
        todo := todo - {k};
      }
    }

    /** Spool every partition on the way out. */
    method DrainOnShutdown() returns (ghost order: seq<Key>)
      requires Valid()
      modifies this
      ensures Valid() && history == old(history) + [Shutdown(order)] && partitions == map[]
    {
      hide Run, Drain;
      order := SpoolRest();
      RunSnoc(world, cfg, history, Shutdown(order));
      history := history + [Shutdown(order)];
    }

    method SpoolRest() returns (ghost order: seq<Key>)
      modifies this
      ensures Snapshot() == Drain(world, cfg, old(Snapshot()), order) && history == old(history)
      ensures partitions == map[] && forall k :: k in order <==> k in old(partitions)
    {
      hide SpoolBatch;
      var todo := partitions.Keys;
      order := [];
      while todo != {}
        invariant Snapshot() == Drain(world, cfg, old(Snapshot()), order) && history == old(history)
        invariant todo == partitions.Keys
        invariant forall k :: k in old(partitions) <==> k in todo || k in order
        decreases |todo|
      {
        var k :| k in todo;
        var b := Batch(k, partitions[k].envelopes);
        ghost var before := Snapshot();
        DrainSnoc(world, cfg, old(Snapshot()), order, k);
        partitions := partitions - {k};
        if b.envelopes != [] {
          log := log.(flushed := log.flushed + [b]);
          SpoolAndEmit(b);
          SpoolKeepsPartitions(world, cfg, Flushing(before.(partitions := before.partitions - {k}), b), b);
        }
        order := order + [k];
        todo := todo - {k};
      }
    }

    /** Recovery and the background retry: the records are taken off the directory, oldest first. */
    method RetrySpool(listed: bool)
      requires Valid()
      modifies this
      ensures Valid() && history == old(history) + [RetryTimer(listed)]
      ensures Snapshot() == RetryTick(world, cfg, old(Snapshot()), listed)
    {
      hide Run, RetryTick;
      RunSnoc(world, cfg, history, RetryTimer(listed));
      history := history + [RetryTimer(listed)];
      WorkOff(listed);
    }

    method WorkOff(listed: bool)
      modifies this
      ensures Snapshot() == RetryTick(world, cfg, old(Snapshot()), listed) && history == old(history)
    {
      if !listed {
        return;
      }
      var todo := OldestFirst(files);
      files := [];
      ghost var goal := ReshipAll(world, cfg, Snapshot(), todo);
      for i := 0 to |todo|
        invariant ReshipAll(world, cfg, Snapshot(), todo[i..]) == goal && history == old(history)
      {
        hide Reship, Legible;
        assert todo[i..][1..] == todo[i + 1..];
        if Legible(todo[i].content.batch) {
          TryReship(todo[i]);
        } else {
          log := log.(unreadable := log.unreadable + [todo[i].content.batch]);
        }
      }
    }

    method TryReship(f: Entry<Spooled>)
      modifies this
      ensures Snapshot() == Reship(world, cfg, old(Snapshot()), f) && history == old(history)
    {
      hide BatchWorker.EncodeAndShip;
      var b := f.content.batch;
      if b.envelopes == [] {
        return;
      }
      var key := world.rekey(rekeys, b.envelopes[0]);
      rekeys := rekeys + 1;
      log := log.(rekeyed := log.rekeyed + if key.Some? then [b] else []);
      if key.None? {
        files := files + [f];
        return;
      }
      EncodeAndShip(f);
    }

    /** Encode the record afresh and walk the full retry policy. */
    method EncodeAndShip(f: Entry<Spooled>)
      modifies this
      ensures Snapshot() == BatchWorker.EncodeAndShip(world, cfg, old(Snapshot()), f) && history == old(history)
    {
      hide Escalate, TryUpload;
      var encoded := world.encodes(encodings);
      encodings := encodings + 1;
      if !encoded {
        EscalateIfStuck(f);
        return;
      }
      var shipped := UploadWithRetries();
      if shipped {
        counters := counters.(recovered := counters.recovered + 1);
        log := log.(uploaded := log.uploaded + [f.content.batch]);
      } else {
        EscalateIfStuck(f);
      }
    }

    method EscalateIfStuck(f: Entry<Spooled>)
      modifies this
      ensures Snapshot() == Escalate(world, cfg, old(Snapshot()), f) && history == old(history)
    {
      var now := world.clock(readings);
      readings := readings + 1;
      if now - f.content.failedAt >= cfg.escalateAfter {
        var moved := world.moves(moves);
        moves := moves + 1;
        if moved {
          failed := failed + [f.content.batch];
          counters := counters.(escalated := counters.escalated + 1);
          return;
        }
      }
      files := files + [f];
    }

    /** At any moment an envelope's places add up to how often it arrived. */
    lemma ConservedNow(e: Envelope)
      requires Valid()
      ensures Sum(Places(Snapshot(), e)) == multiset(Arrivals(history))[e]
    {
      hide Run, Places;
      Conservation(world, cfg, history, e);
      AdmittedAreArrivals(world, cfg, history);
    }

    /** At any moment the flushed batches of a key and its buffer are the arrivals of that key, in order. */
    lemma OrderedNow(k: Key)
      requires Valid()
      ensures FlushedFor(log.flushed, k) + Buffered(partitions, k) == OfKey(Arrivals(history), k)
      ensures forall b :: b in log.flushed ==> BatchOk(b)
    {
      hide Run;
      PartitionOrder(world, cfg, history, k);
    }

    /** At any moment no partition is due, none has overflowed, and the counters tell the truth. */
    lemma BoundedNow(k: Key)
      requires Valid()
      ensures counters.evicted == 0
      ensures k in partitions ==> PartitionOk(cfg, k, partitions[k])
      ensures counters.uploads + counters.recovered == |log.uploaded| && counters.escalated == |failed|
      ensures counters.spooled == |files| + counters.recovered + |failed| + |log.capEvicted| + |log.unreadable|
    {
      hide Run;
      NeverOverflows(world, cfg, history, k);
      CountersExact(world, cfg, history);
    }
  }

  lemma RunSnoc(w: World, cfg: Config, evs: seq<Event>, ev: Event)
    ensures Run(w, cfg, evs + [ev]) == Step(w, cfg, Run(w, cfg, evs), ev)
  {
    hide Step;
    assert (evs + [ev])[..|evs|] == evs;
  }

  lemma SpoolKeepsPartitions(w: World, cfg: Config, st: State, b: Batch)
    ensures SpoolBatch(w, cfg, st, b).partitions == st.partitions
  {
    hide EvictToCap, FileSize, Contents;
  }

  lemma FlushKeepsPartitions(w: World, cfg: Config, st: State, b: Batch)
    ensures Flush(w, cfg, st, b).partitions == st.partitions
  {
    hide SpoolBatch, TryUpload;
    var r := TryUpload(w, st.calls, 0, cfg.maxAttempts);
    SpoolKeepsPartitions(w, cfg, Flushing(st, b), b);
    SpoolKeepsPartitions(w, cfg, Encoded(Flushing(st, b)), b);
    SpoolKeepsPartitions(w, cfg, Tried(Encoded(Flushing(st, b)), r), b);
  }

  lemma {:induction false} DrainSnoc(w: World, cfg: Config, st: State, keys: seq<Key>, k: Key)
    ensures Drain(w, cfg, st, keys + [k]) == Drain(w, cfg, Drain(w, cfg, st, keys), [k])
    decreases |keys|
  {
    hide SpoolBatch;
    if keys == [] {
      assert keys + [k] == [k];
    } else {
      assert (keys + [k])[1..] == keys[1..] + [k] && (keys + [k])[0] == keys[0];
      var taken := st.(partitions := st.partitions - {keys[0]});
      if keys[0] in st.partitions && st.partitions[keys[0]].envelopes != [] {
        var b := Batch(keys[0], st.partitions[keys[0]].envelopes);
        DrainSnoc(w, cfg, SpoolBatch(w, cfg, Flushing(taken, b), b), keys[1..], k);
      } else {
        DrainSnoc(w, cfg, taken, keys[1..], k);
      }
    }
  }
}
