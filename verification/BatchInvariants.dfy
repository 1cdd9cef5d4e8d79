/** What every run of the batching worker keeps, and where each envelope can be. */
module BatchInvariants {
  import opened Bytes
  import opened EnvelopeSpool
  import opened BatchWorker

  // ---- The invariant ----

  ghost predicate PartitionOk(cfg: Config, k: Key, p: Partition) {
    && 0 < |p.envelopes| < cfg.maxEvents
    && p.bytes == SumSizes(p.envelopes) < cfg.maxBytes
    && (forall e :: e in p.envelopes ==> e.key == k)
  }

  ghost predicate PartitionsOk(cfg: Config, partitions: map<Key, Partition>) {
    forall k :: k in partitions ==> PartitionOk(cfg, k, partitions[k])
  }

  ghost predicate BatchOk(b: Batch) {
    b.envelopes != [] && forall e :: e in b.envelopes ==> e.key == b.key
  }

  ghost predicate BatchesOk(bs: seq<Batch>) {
    forall b :: b in bs ==> BatchOk(b)
  }

  /** The envelopes of partition `k` among those offered, in order; oversized ones never enter one. */
  ghost function OfKey(es: seq<Envelope>, k: Key): seq<Envelope> {
    if es == [] then []
    else
      var last := es[|es| - 1];
      OfKey(es[..|es| - 1], k) + (if last.key == k && last.size <= U32_MAX then [last] else [])
  }

  /** The batches of partition `k` end to end. */
  ghost function FlushedFor(bs: seq<Batch>, k: Key): seq<Envelope> {
    if bs == [] then []
    else FlushedFor(bs[..|bs| - 1], k) + (if bs[|bs| - 1].key == k then bs[|bs| - 1].envelopes else [])
  }

  ghost function Buffered(partitions: map<Key, Partition>, k: Key): seq<Envelope> {
    if k in partitions then partitions[k].envelopes else []
  }

  ghost predicate InOrder(partitions: map<Key, Partition>, log: Log) {
    forall k :: OfKey(log.admitted, k) == FlushedFor(log.flushed, k) + Buffered(partitions, k)
  }

  /** Every batch that has a resting place, with multiplicity. */
  ghost function Settled(st: State): multiset<Batch> {
    multiset(st.log.uploaded) + multiset(Contents(st.files)) + multiset(st.failed)
    + multiset(st.log.writeLost) + multiset(st.log.capEvicted) + multiset(st.log.unreadable)
  }

  /** Every batch has a key, or was given one at a re-ship. */
  ghost predicate Keyed(bs: seq<Batch>, rekeyed: seq<Batch>) {
    forall b :: b in bs ==> b.key.Some? || b in rekeyed
  }

  /** `todo` spooled batches are out of the directory while a retry tick works on them. */
  ghost predicate CountersOk(st: State, todo: nat) {
    var c := st.counters;
    && c.uploads + c.recovered == |st.log.uploaded|
    && c.escalated == |st.failed|
    && c.tooLarge == |st.log.tooLarge|
    && c.evicted == 0
    && c.spooled == |st.files| + todo + c.recovered + |st.failed| + |st.log.capEvicted| + |st.log.unreadable|
    && st.nextId == c.spooled && st.writes == c.spooled + |st.log.writeLost|
  }

  ghost predicate Illegible(bs: seq<Batch>) {
    forall b :: b in bs ==> !Legible(b)
  }

  /** The history: order, conservation, counters. */
  ghost predicate HistoryOk(st: State) {
    && st.log.ringEvicted == []
    && BatchesOk(st.log.flushed)
    && InOrder(st.partitions, st.log)
    && multiset(st.log.flushed) == Settled(st)
    && ShelvesOk(st)
    && CountersOk(st, 0)
    && st.log.tooLarge == Oversized(st.log.admitted)
  }

  ghost predicate Inv(cfg: Config, st: State) {
    PartitionsOk(cfg, st.partitions) && HistoryOk(st)
  }

  ghost function Oversized(es: seq<Envelope>): seq<Envelope> {
    if es == [] then []
    else Oversized(es[..|es| - 1]) + (if es[|es| - 1].size > U32_MAX then [es[|es| - 1]] else [])
  }

  // ---- Directories and their contents ----

  lemma {:induction false} ContentsConcat(a: SpoolDir, b: SpoolDir)
    ensures Contents(a + b) == Contents(a) + Contents(b)
    decreases |a|
  {
    if a == [] {
      assert a + b == b;
    } else {
      ContentsConcat(a[1..], b);
      assert (a + b)[1..] == a[1..] + b && (a + b)[0] == a[0];
    }
  }

  lemma {:induction false} ContentsLength(a: SpoolDir)
    ensures |Contents(a)| == |a|
    decreases |a|
  {
    if a != [] {
      ContentsLength(a[1..]);
    }
  }

  /** Taking one element out of the middle. */
  lemma MidOut<T>(l: seq<T>, x: T, r: seq<T>)
    ensures multiset(l + ([x] + r)) == multiset(l + r) + multiset{x}
  {}

  lemma Around<T>(s: seq<T>, j: nat)
    requires j < |s|
    ensures s == s[..j] + ([s[j]] + s[j + 1..])
  {}

  lemma Cancel<T>(x: multiset<T>, y: multiset<T>, m: T)
    requires x + multiset{m} == y + multiset{m}
    ensures x == y
  {
    assert (x + multiset{m}) - multiset{m} == x && (y + multiset{m}) - multiset{m} == y;
  }

  /** The first element of a list stands somewhere in every reordering, and taking it out of both leaves a reordering. */
  lemma FirstInOther<T>(a: seq<T>, b: seq<T>) returns (j: nat)
    requires a != [] && multiset(a) == multiset(b)
    ensures j < |b| && b[j] == a[0] && multiset(a[1..]) == multiset(b[..j] + b[j + 1..])
  {
    j := PlaceOf(a, b);
    FirstOut(a);
    ghost var l, r := b[..j], b[j + 1..];
    Around(b, j);
    MidOut(l, a[0], r);
    Cancel(multiset(a[1..]), multiset(l + r), a[0]);
  }

  lemma PlaceOf<T>(a: seq<T>, b: seq<T>) returns (j: nat)
    requires a != [] && multiset(a) == multiset(b)
    ensures j < |b| && b[j] == a[0]
  {
    assert a[0] in multiset(a);
    assert a[0] in multiset(b);
    j :| 0 <= j < |b| && b[j] == a[0];
  }

  lemma FirstOut<T>(a: seq<T>)
    requires a != []
    ensures multiset(a) == multiset(a[1..]) + multiset{a[0]}
  {
    assert a == [a[0]] + a[1..];
  }

  lemma NothingLeft<T>(b: seq<T>)
    requires multiset(b) == multiset{}
    ensures b == []
  {
    assert |b| == |multiset(b)|;
  }

  /** Reordering a directory reorders what it holds. */
  lemma {:induction false} ContentsPermute(a: SpoolDir, b: SpoolDir)
    requires multiset(a) == multiset(b)
    ensures multiset(Contents(a)) == multiset(Contents(b))
    decreases |a|
  {
    hide Contents;
    if a == [] {
      NothingLeft(b);
    } else {
      var j := FirstInOther(a, b);
      ContentsPermute(a[1..], b[..j] + b[j + 1..]);
      ContentsWithout([], a[0], a[1..]);
      ContentsWithout(b[..j], b[j], b[j + 1..]);
      Around(b, j);
      assert [] + ([a[0]] + a[1..]) == a && [] + a[1..] == a[1..];
    }
  }

  lemma ContentsWithout(l: SpoolDir, f: Entry<Spooled>, r: SpoolDir)
    ensures multiset(Contents(l + ([f] + r))) == multiset(Contents(l + r)) + multiset{f.content.batch}
  {
    ContentsOne(f);
    hide Contents;
    ContentsConcat(l, [f] + r);
    ContentsConcat([f], r);
    ContentsConcat(l, r);
    MidOut(Contents(l), f.content.batch, Contents(r));
  }

  lemma EvictionContents(files: SpoolDir, cap: nat)
    ensures var ev := EvictToCap(files, cap);
            && multiset(Contents(ev.evicted)) + multiset(Contents(ev.kept)) == multiset(Contents(files))
            && |Contents(ev.evicted)| + |ev.kept| == |files|
  {
    hide EvictToCap, OldestFirst, Total, Contents;
    var ev := EvictToCap(files, cap);
    EvictionMinimal(files, cap);
    assert multiset(ev.evicted + ev.kept) == multiset(files);
    ContentsPermute(ev.evicted + ev.kept, files);
    ContentsConcat(ev.evicted, ev.kept);
    ContentsLength(ev.evicted);
    assert |multiset(ev.evicted + ev.kept)| == |multiset(files)|;
  }

  // ---- Uploads ----

  /** Uploads go on exactly until the first answer that is not a retry, or `max` of them; all but the last count as retries. */
  lemma {:induction false} UploadsBounded(w: World, calls: nat, attempt: nat, max: nat)
    ensures var r := TryUpload(w, calls, attempt, max);
            && calls <= r.calls <= calls + (if attempt < max then max - attempt else 0)
            && (attempt >= max ==> r == Attempts(false, calls, 0))
            && (attempt < max ==> r.calls > calls && r.retries == r.calls - calls - 1)
            && (attempt < max ==> w.upload(r.calls - 1) != RetryLater || r.calls == calls + max - attempt)
            && (r.shipped <==> attempt < max && w.upload(r.calls - 1) == Shipped)
            && (forall n :: calls <= n < r.calls - 1 ==> w.upload(n) == RetryLater)
    decreases max - attempt
  {
    if attempt < max && w.upload(calls) == RetryLater {
      UploadsBounded(w, calls + 1, attempt + 1, max);
    }
  }

  // ---- One step at a time ----

  /** Nothing about intake changes: only where batches rest. */
  ghost predicate SameIntake(st: State, st': State) {
    && st'.partitions == st.partitions
    && st'.log.admitted == st.log.admitted && st'.log.flushed == st.log.flushed
    && st'.log.tooLarge == st.log.tooLarge && st'.log.ringEvicted == st.log.ringEvicted
  }

  ghost predicate ShelvesOk(st: State) {
    Keyed(st.log.uploaded, st.log.rekeyed) && Keyed(st.failed, st.log.rekeyed) && Illegible(st.log.unreadable)
  }

  /** `st'` is `st` with batch `b` put to rest. */
  ghost predicate SettlesOne(st: State, st': State, b: Batch, todo: nat) {
    && SameIntake(st, st')
    && Settled(st') == Settled(st) + multiset{b}
    && (CountersOk(st, todo) ==> CountersOk(st', todo))
    && (ShelvesOk(st) ==> ShelvesOk(st'))
  }

  lemma Shelve<T>(u: multiset<T>, k: multiset<T>, f: multiset<T>, l: multiset<T>, c: multiset<T>, r: multiset<T>,
                  e: multiset<T>, k': multiset<T>, b: T)
    requires e + k' == k + multiset{b}
    ensures u + k' + f + l + (c + e) + r == (u + k + f + l + c + r) + multiset{b}
  {
    var rest := u + f + l + c + r;
    assert u + k' + f + l + (c + e) + r == rest + (e + k');
    assert (u + k + f + l + c + r) + multiset{b} == rest + (k + multiset{b});
  }

  lemma ShelveOther<T>(u: multiset<T>, k: multiset<T>, f: multiset<T>, l: multiset<T>, c: multiset<T>, r: multiset<T>, b: T)
    ensures (u + multiset{b}) + k + f + l + c + r == (u + k + f + l + c + r) + multiset{b}
    ensures u + (k + multiset{b}) + f + l + c + r == (u + k + f + l + c + r) + multiset{b}
    ensures u + k + (f + multiset{b}) + l + c + r == (u + k + f + l + c + r) + multiset{b}
    ensures u + k + f + (l + multiset{b}) + c + r == (u + k + f + l + c + r) + multiset{b}
    ensures u + k + f + l + c + (r + multiset{b}) == (u + k + f + l + c + r) + multiset{b}
  {}

  lemma SpoolBatchSettles(w: World, cfg: Config, st: State, b: Batch, todo: nat)
    ensures SettlesOne(st, SpoolBatch(w, cfg, st, b), b, todo)
  {
    hide EvictToCap, FileSize, Contents, Keyed, Illegible;
    var now := w.clock(st.readings);
    var f := Entry(st.nextId, now, FileSize(b), Spooled(b, now));
    var u, k, d := multiset(st.log.uploaded), multiset(Contents(st.files)), multiset(st.failed);
    var l, c, r := multiset(st.log.writeLost), multiset(st.log.capEvicted), multiset(st.log.unreadable);
    if w.spoolWrite(st.writes) {
      var ev := EvictToCap(st.files + [f], cfg.spoolMaxBytes);
      EvictionContents(st.files + [f], cfg.spoolMaxBytes);
      ContentsConcat(st.files, [f]);
      ContentsOne(f);
      Shelve(u, k, d, l, c, r, multiset(Contents(ev.evicted)), multiset(Contents(ev.kept)), b);
    } else {
      ShelveOther(u, k, d, l, c, r, b);
    }
  }

  lemma ContentsOne(f: Entry<Spooled>)
    ensures Contents([f]) == [f.content.batch]
  {}

  lemma FlushSettles(w: World, cfg: Config, st: State, b: Batch)
    requires b.envelopes != []
    ensures SettlesOne(Flushing(st, b), Flush(w, cfg, st, b), b, 0)
  {
    hide SpoolBatch, TryUpload, Contents, Illegible;
    var st1 := Flushing(st, b);
    var r := TryUpload(w, st.calls, 0, cfg.maxAttempts);
    if b.key.None? {
      SpoolBatchSettles(w, cfg, st1, b, 0);
    } else if !w.encodes(st.encodings) {
      SpoolBatchSettles(w, cfg, Encoded(st1), b, 0);
    } else if !r.shipped {
      SpoolBatchSettles(w, cfg, Tried(Encoded(st1), r), b, 0);
    } else {
      ShelveOther(multiset(st.log.uploaded), multiset(Contents(st.files)), multiset(st.failed),
                  multiset(st.log.writeLost), multiset(st.log.capEvicted), multiset(st.log.unreadable), b);
    }
  }

  // ---- Retry ticks ----

  /** `st'` is `st` with the record of batch `b`, out of the directory for the tick, put to rest. */
  ghost predicate Rests(st: State, st': State, b: Batch, todo: nat) {
    && SameIntake(st, st')
    && Settled(st') == Settled(st) + multiset{b}
    && (CountersOk(st, todo + 1) ==> CountersOk(st', todo))
    && (ShelvesOk(st) ==> ShelvesOk(st'))
  }

  /** Answers asked for, retries counted and keys obtained do not concern where batches rest. */
  ghost predicate Consulted(st: State, st': State) {
    && st'.partitions == st.partitions && st'.files == st.files && st'.failed == st.failed
    && st'.nextId == st.nextId && st'.writes == st.writes
    && st'.counters == st.counters.(retries := st'.counters.retries)
    && st'.log == st.log.(rekeyed := st'.log.rekeyed) && st.log.rekeyed <= st'.log.rekeyed
  }

  lemma ConsultedRests(st: State, mid: State, st': State, b: Batch, todo: nat)
    requires Consulted(st, mid) && Rests(mid, st', b, todo)
    ensures Rests(st, st', b, todo)
  {
    hide Illegible, Contents;
    assert forall x :: x in st.log.rekeyed ==> x in mid.log.rekeyed;
  }

  lemma KeepRests(st: State, f: Entry<Spooled>, todo: nat)
    ensures Rests(st, Keep(st, f), f.content.batch, todo)
  {
    hide Contents, Keyed, Illegible;
    ContentsConcat(st.files, [f]);
    ContentsOne(f);
    ShelveOther(multiset(st.log.uploaded), multiset(Contents(st.files)), multiset(st.failed),
                multiset(st.log.writeLost), multiset(st.log.capEvicted), multiset(st.log.unreadable), f.content.batch);
  }

  function Failed(st: State, b: Batch): State {
    st.(failed := st.failed + [b], counters := st.counters.(escalated := st.counters.escalated + 1))
  }

  lemma FailedRests(st: State, b: Batch, todo: nat)
    requires b.key.Some? || b in st.log.rekeyed
    ensures Rests(st, Failed(st, b), b, todo)
  {
    hide Contents, Illegible;
    ShelveOther(multiset(st.log.uploaded), multiset(Contents(st.files)), multiset(st.failed),
                multiset(st.log.writeLost), multiset(st.log.capEvicted), multiset(st.log.unreadable), b);
  }

  function Recovered(st: State, b: Batch): State {
    st.(counters := st.counters.(recovered := st.counters.recovered + 1), log := st.log.(uploaded := st.log.uploaded + [b]))
  }

  lemma RecoveredRests(st: State, b: Batch, todo: nat)
    requires b.key.Some? || b in st.log.rekeyed
    ensures Rests(st, Recovered(st, b), b, todo)
  {
    hide Contents, Illegible;
    ShelveOther(multiset(st.log.uploaded), multiset(Contents(st.files)), multiset(st.failed),
                multiset(st.log.writeLost), multiset(st.log.capEvicted), multiset(st.log.unreadable), b);
  }

  function Dropped(st: State, b: Batch): State {
    st.(log := st.log.(unreadable := st.log.unreadable + [b]))
  }

  lemma DroppedRests(st: State, b: Batch, todo: nat)
    requires !Legible(b)
    ensures Rests(st, Dropped(st, b), b, todo)
  {
    hide Contents, Keyed, Legible;
    ShelveOther(multiset(st.log.uploaded), multiset(Contents(st.files)), multiset(st.failed),
                multiset(st.log.writeLost), multiset(st.log.capEvicted), multiset(st.log.unreadable), b);
  }

  lemma EscalateRests(w: World, cfg: Config, st: State, f: Entry<Spooled>, todo: nat)
    requires f.content.batch.key.Some? || f.content.batch in st.log.rekeyed
    ensures Rests(st, Escalate(w, cfg, st, f), f.content.batch, todo)
  {
    hide Rests;
    var b, read := f.content.batch, st.(readings := st.readings + 1);
    var moved := read.(moves := st.moves + 1);
    if !Stuck(cfg, f, w.clock(st.readings)) {
      KeepRests(read, f, todo);
      ConsultedRests(st, read, Keep(read, f), b, todo);
    } else {
      if w.moves(st.moves) {
        FailedRests(moved, b, todo);
      } else {
        KeepRests(moved, f, todo);
      }
      ConsultedRests(st, moved, Escalate(w, cfg, st, f), b, todo);
    }
  }

  /** A record taken out of the directory is put back, moved to the failed tree, or uploaded. */
  lemma ReshipRests(w: World, cfg: Config, st: State, f: Entry<Spooled>, todo: nat)
    requires f.content.batch.envelopes != []
    ensures Rests(st, Reship(w, cfg, st, f), f.content.batch, todo)
  {
    hide Rests, Escalate, TryUpload;
    var b := f.content.batch;
    var key := w.rekey(st.rekeys, b.envelopes[0]);
    var asked := Rekeyed(st, b, key);
    if key.None? {
      KeepRests(asked, f, todo);
      ConsultedRests(st, asked, Keep(asked, f), b, todo);
    } else if !w.encodes(st.encodings) {
      EscalateRests(w, cfg, Encoded(asked), f, todo);
      ConsultedRests(st, Encoded(asked), Escalate(w, cfg, Encoded(asked), f), b, todo);
    } else {
      var r := TryUpload(w, st.calls, 0, cfg.maxAttempts);
      var tried := Tried(Encoded(asked), r);
      if r.shipped {
        RecoveredRests(tried, b, todo);
      } else {
        EscalateRests(w, cfg, tried, f, todo);
      }
      ConsultedRests(st, tried, Reship(w, cfg, st, f), b, todo);
    }
  }

  /** `st'` is `st` with the whole list `bs` put to rest. */
  ghost predicate RestsAll(st: State, st': State, bs: seq<Batch>) {
    && SameIntake(st, st')
    && Settled(st') == Settled(st) + multiset(bs)
    && (CountersOk(st, |bs|) ==> CountersOk(st', 0))
    && (ShelvesOk(st) ==> ShelvesOk(st'))
  }

  lemma RestsCons(st: State, mid: State, st': State, b: Batch, bs: seq<Batch>)
    requires Rests(st, mid, b, |bs|) && RestsAll(mid, st', bs)
    ensures RestsAll(st, st', [b] + bs)
  {
    hide Settled, CountersOk, ShelvesOk;
    assert multiset([b] + bs) == multiset{b} + multiset(bs);
    assert (Settled(st) + multiset{b}) + multiset(bs) == Settled(st) + (multiset{b} + multiset(bs));
  }

  lemma RestsNil(st: State)
    ensures RestsAll(st, st, [])
  {
    hide Settled, CountersOk, ShelvesOk;
    var none: seq<Batch> := [];
    assert multiset(none) == multiset{};
  }

  lemma {:induction false} ReshipAllRests(w: World, cfg: Config, st: State, todo: SpoolDir)
    requires BatchesOk(Contents(todo))
    ensures RestsAll(st, ReshipAll(w, cfg, st, todo), Contents(todo))
    decreases |todo|
  {
    hide Rests, RestsAll, Legible, Reship;
    if todo == [] {
      RestsNil(st);
    } else {
      var b, rest := todo[0].content.batch, todo[1..];
      assert Contents(todo) == [b] + Contents(rest);
      assert b in Contents(todo);
      assert forall x :: x in Contents(rest) ==> x in Contents(todo);
      ContentsLength(rest);
      var mid := if Legible(b) then Reship(w, cfg, st, todo[0]) else Dropped(st, b);
      if Legible(b) {
        ReshipRests(w, cfg, st, todo[0], |rest|);
      } else {
        DroppedRests(st, b, |rest|);
      }
      ReshipAllRests(w, cfg, mid, rest);
      RestsCons(st, mid, ReshipAll(w, cfg, st, todo), b, Contents(rest));
    }
  }

  /** A tick moves batches between resting places and neither loses nor repeats one. */
  ghost predicate Shuffled(st: State, st': State) {
    && SameIntake(st, st')
    && Settled(st') == Settled(st)
    && (CountersOk(st, 0) ==> CountersOk(st', 0))
    && (ShelvesOk(st) ==> ShelvesOk(st'))
  }

  lemma SettledWithoutFiles(st: State)
    ensures Settled(st.(files := [])) + multiset(Contents(st.files)) == Settled(st)
  {
    var none: SpoolDir := [];
    assert Contents(none) == [];
    hide Contents;
    Regroup(multiset(st.log.uploaded), multiset(Contents(st.files)), multiset(st.failed),
            multiset(st.log.writeLost), multiset(st.log.capEvicted), multiset(st.log.unreadable));
  }

  lemma Regroup<T>(u: multiset<T>, k: multiset<T>, f: multiset<T>, l: multiset<T>, c: multiset<T>, r: multiset<T>)
    ensures (u + multiset{} + f + l + c + r) + k == u + k + f + l + c + r
  {}

  lemma TakenOut(st: State, st': State, bs: seq<Batch>)
    requires multiset(bs) == multiset(Contents(st.files)) && RestsAll(st.(files := []), st', bs)
    ensures Shuffled(st, st')
  {
    hide Keyed, Illegible, Settled, Contents;
    SettledWithoutFiles(st);
    ContentsLength(st.files);
    assert |multiset(bs)| == |multiset(Contents(st.files))|;
  }

  lemma RetryTickShuffles(w: World, cfg: Config, st: State, listed: bool)
    requires BatchesOk(Contents(st.files))
    ensures Shuffled(st, RetryTick(w, cfg, st, listed))
  {
    hide OldestFirst, ReshipAll, BatchOk, RestsAll, Contents, Settled, CountersOk, ShelvesOk;
    if listed {
      var sorted := OldestFirst(st.files);
      SortFacts(st.files);
      ContentsPermute(sorted, st.files);
      forall b | b in Contents(sorted)
        ensures BatchOk(b)
      {
        assert b in multiset(Contents(sorted));
        assert b in multiset(Contents(st.files));
      }
      ReshipAllRests(w, cfg, st.(files := []), sorted);
      TakenOut(st, RetryTick(w, cfg, st, listed), Contents(sorted));
    }
  }

  // ---- Intake ----

  lemma OfKeySnoc(es: seq<Envelope>, e: Envelope, k: Key)
    ensures OfKey(es + [e], k) == OfKey(es, k) + (if e.key == k && e.size <= U32_MAX then [e] else [])
  {
    assert (es + [e])[..|es|] == es;
  }

  lemma FlushedForSnoc(bs: seq<Batch>, b: Batch, k: Key)
    ensures FlushedFor(bs + [b], k) == FlushedFor(bs, k) + (if b.key == k then b.envelopes else [])
  {
    assert (bs + [b])[..|bs|] == bs;
  }

  lemma SumSizesSnoc(es: seq<Envelope>, e: Envelope)
    ensures SumSizes(es + [e]) == SumSizes(es) + e.size
  {
    assert (es + [e])[..|es|] == es;
  }

  /** Handing the buffer of partition `k` over as a batch keeps every partition in order. */
  lemma HandOver(partitions: map<Key, Partition>, log: Log, k: Key)
    requires InOrder(partitions, log) && k in partitions
    ensures InOrder(partitions - {k}, log.(flushed := log.flushed + [Batch(k, partitions[k].envelopes)]))
  {
    var b := Batch(k, partitions[k].envelopes);
    forall j
      ensures OfKey(log.admitted, j) == FlushedFor(log.flushed + [b], j) + Buffered(partitions - {k}, j)
    {
      FlushedForSnoc(log.flushed, b, j);
      assert OfKey(log.admitted, j) == FlushedFor(log.flushed, j) + Buffered(partitions, j);
    }
  }

  /** Appending an envelope to its partition keeps every partition in order. */
  lemma Enter(partitions: map<Key, Partition>, log: Log, e: Envelope, p: Partition)
    requires InOrder(partitions, log) && e.size <= U32_MAX
    requires p.envelopes == Buffered(partitions, e.key) + [e]
    ensures InOrder(partitions[e.key := p], log.(admitted := log.admitted + [e]))
  {
    hide OfKey, FlushedFor;
    forall j
      ensures OfKey(log.admitted + [e], j) == FlushedFor(log.flushed, j) + Buffered(partitions[e.key := p], j)
    {
      OfKeySnoc(log.admitted, e, j);
      assert OfKey(log.admitted, j) == FlushedFor(log.flushed, j) + Buffered(partitions, j);
      if j == e.key {
        Assoc(FlushedFor(log.flushed, j), Buffered(partitions, j), [e]);
      } else {
        assert OfKey(log.admitted, j) + [] == OfKey(log.admitted, j);
      }
    }
  }

  lemma Skip(partitions: map<Key, Partition>, log: Log, e: Envelope)
    requires InOrder(partitions, log) && e.size > U32_MAX
    ensures InOrder(partitions, log.(admitted := log.admitted + [e]))
  {
    forall j
      ensures OfKey(log.admitted + [e], j) == FlushedFor(log.flushed, j) + Buffered(partitions, j)
    {
      OfKeySnoc(log.admitted, e, j);
      assert OfKey(log.admitted, j) == FlushedFor(log.flushed, j) + Buffered(partitions, j);
    }
  }

  /** Flushing, by upload or straight to the spool, one partition that holds the envelopes of its key. */
  lemma SettleFlushed(st: State, k: Key, b: Batch, st': State)
    requires HistoryOk(st) && k in st.partitions && b == Batch(k, st.partitions[k].envelopes) && BatchOk(b)
    requires SettlesOne(Flushing(st.(partitions := st.partitions - {k}), b), st', b, 0)
    ensures HistoryOk(st') && st'.partitions == st.partitions - {k}
  {
    hide OfKey, FlushedFor, Oversized, BatchOk, Contents;
    HandOver(st.partitions, st.log, k);
    var mid := Flushing(st.(partitions := st.partitions - {k}), b);
    assert InOrder(mid.partitions, mid.log);
    OrderFrame(mid, st');
    assert multiset(st.log.flushed + [b]) == multiset(st.log.flushed) + multiset{b};
  }

  lemma OrderFrame(st: State, st': State)
    requires SameIntake(st, st') && InOrder(st.partitions, st.log)
    ensures InOrder(st'.partitions, st'.log)
  {
    hide OfKey, FlushedFor;
  }

  lemma AdmitOversized(cfg: Config, st: State, e: Envelope)
    requires Inv(cfg, st) && e.size > U32_MAX
    ensures Inv(cfg, st.(counters := st.counters.(tooLarge := st.counters.tooLarge + 1),
                         log := st.log.(admitted := st.log.admitted + [e], tooLarge := st.log.tooLarge + [e])))
  {
    hide OfKey, FlushedFor, BatchesOk, PartitionsOk, Contents;
    Skip(st.partitions, st.log, e);
    OversizedSnoc(st.log.admitted, e);
  }

  lemma OversizedSnoc(es: seq<Envelope>, e: Envelope)
    ensures Oversized(es + [e]) == Oversized(es) + (if e.size > U32_MAX then [e] else [])
  {
    assert (es + [e])[..|es|] == es;
  }

  /** The state after the envelope has joined its partition and before the trigger is looked at. */
  ghost function Joined(st: State, e: Envelope, p: Partition): State {
    st.(partitions := st.partitions[e.key := p], log := st.log.(admitted := st.log.admitted + [e]))
  }

  lemma JoinedOk(cfg: Config, st: State, e: Envelope, p: Partition)
    requires Inv(cfg, st) && e.size <= U32_MAX && p.envelopes == Buffered(st.partitions, e.key) + [e]
    ensures HistoryOk(Joined(st, e, p)) && BatchOk(Batch(e.key, p.envelopes))
  {
    hide OfKey, FlushedFor, BatchesOk, Contents, Oversized, Settled;
    Enter(st.partitions, st.log, e, p);
    OversizedSnoc(st.log.admitted, e);
    SettledFrame(st, Joined(st, e, p));
    assert e.key in st.partitions ==> PartitionOk(cfg, e.key, st.partitions[e.key]);
  }

  lemma SettledFrame(st: State, st': State)
    requires st'.files == st.files && st'.failed == st.failed
    requires st'.log == st.log.(admitted := st'.log.admitted)
    ensures Settled(st') == Settled(st)
  {}

  /** A partition that stays buffered is below both triggers, so the byte count never saturates. */
  lemma BufferedOk(cfg: Config, partitions: map<Key, Partition>, e: Envelope, found: Partition)
    requires cfg.Valid() && PartitionsOk(cfg, partitions)
    requires found.envelopes == Buffered(partitions, e.key)
    requires if e.key in partitions then found == partitions[e.key] else found.bytes == 0
    requires !Due(cfg, Push(found, e))
    ensures PartitionOk(cfg, e.key, Push(found, e))
  {
    SumSizesSnoc(found.envelopes, e);
    assert e.key in partitions ==> PartitionOk(cfg, e.key, partitions[e.key]);
    assert SumSizes([]) == 0;
  }

  lemma AdmitKeeps(w: World, cfg: Config, st: State, e: Envelope, now: int)
    requires cfg.Valid() && Inv(cfg, st)
    ensures Inv(cfg, Admit(w, cfg, st, e, now))
  {
    hide HistoryOk, PartitionOk, Flush, Due;
    if e.size > U32_MAX {
      AdmitOversized(cfg, st, e);
    } else {
      var found := PartitionOf(st, e.key, now);
      RingNotFull(cfg, st, e.key, now);
      var p := Push(found, e);
      var joined := Joined(st, e, p);
      JoinedOk(cfg, st, e, p);
      if Due(cfg, p) {
        var b := Batch(e.key, p.envelopes);
        var taken := joined.(partitions := joined.partitions - {e.key});
        assert taken.partitions == st.partitions - {e.key};
        FlushSettles(w, cfg, taken, b);
        SettleFlushed(joined, e.key, b, Flush(w, cfg, taken, b));
      } else {
        BufferedOk(cfg, st.partitions, e, found);
      }
    }
  }

  /** The ring-eviction branch of `admit` is never taken. */
  lemma RingNotFull(cfg: Config, st: State, k: Key, now: int)
    requires PartitionsOk(cfg, st.partitions)
    ensures |PartitionOf(st, k, now).envelopes| < cfg.RingCap()
  {
    assert k in st.partitions ==> PartitionOk(cfg, k, st.partitions[k]);
  }

  // ---- Timers and shutdown ----

  lemma FlushOneKeeps(w: World, cfg: Config, st: State, k: Key)
    requires Inv(cfg, st) && k in st.partitions
    ensures var b := Batch(k, st.partitions[k].envelopes);
            var taken := st.(partitions := st.partitions - {k});
            && Inv(cfg, Flush(w, cfg, taken, b))
            && Inv(cfg, SpoolBatch(w, cfg, Flushing(taken, b), b))
            && Flush(w, cfg, taken, b).partitions == taken.partitions
            && SpoolBatch(w, cfg, Flushing(taken, b), b).partitions == taken.partitions
  {
    hide HistoryOk, Flush, SpoolBatch;
    var b := Batch(k, st.partitions[k].envelopes);
    var taken := st.(partitions := st.partitions - {k});
    assert PartitionOk(cfg, k, st.partitions[k]);
    FlushSettles(w, cfg, taken, b);
    SettleFlushed(st, k, b, Flush(w, cfg, taken, b));
    SpoolBatchSettles(w, cfg, Flushing(taken, b), b, 0);
    SettleFlushed(st, k, b, SpoolBatch(w, cfg, Flushing(taken, b), b));
  }

  lemma {:induction false} FlushAgedKeeps(w: World, cfg: Config, st: State, keys: seq<Key>, now: int)
    requires Inv(cfg, st)
    ensures Inv(cfg, FlushAged(w, cfg, st, keys, now))
    decreases |keys|
  {
    hide Inv, Flush, SpoolBatch;
    if keys != [] {
      if keys[0] in st.partitions && now - st.partitions[keys[0]].since >= cfg.maxAge {
        var b := Batch(keys[0], st.partitions[keys[0]].envelopes);
        FlushOneKeeps(w, cfg, st, keys[0]);
        FlushAgedKeeps(w, cfg, Flush(w, cfg, st.(partitions := st.partitions - {keys[0]}), b), keys[1..], now);
      } else {
        FlushAgedKeeps(w, cfg, st, keys[1..], now);
      }
    }
  }

  /** A drain over an order that names every partition leaves none buffered. */
  lemma {:induction false} DrainKeeps(w: World, cfg: Config, st: State, keys: seq<Key>)
    requires Inv(cfg, st)
    ensures Inv(cfg, Drain(w, cfg, st, keys))
    ensures Drain(w, cfg, st, keys).partitions == map k | k in st.partitions && k !in keys :: st.partitions[k]
    decreases |keys|
  {
    hide Flush, SpoolBatch, HistoryOk;
    if keys == [] {
      assert (map k | k in st.partitions && k !in keys :: st.partitions[k]) == st.partitions;
    } else {
      var k := keys[0];
      if k in st.partitions {
        assert PartitionOk(cfg, k, st.partitions[k]);
        var b := Batch(k, st.partitions[k].envelopes);
        FlushOneKeeps(w, cfg, st, k);
        DrainKeeps(w, cfg, SpoolBatch(w, cfg, Flushing(st.(partitions := st.partitions - {k}), b), b), keys[1..]);
      } else {
        assert st.(partitions := st.partitions - {k}) == st;
        DrainKeeps(w, cfg, st, keys[1..]);
      }
    }
  }

  lemma SpooledFromFlushed(st: State)
    requires HistoryOk(st)
    ensures BatchesOk(Contents(st.files))
  {
    hide Contents, BatchOk, InOrder, CountersOk, ShelvesOk;
    forall b | b in Contents(st.files)
      ensures BatchOk(b)
    {
      assert b in multiset(Contents(st.files));
      assert b in Settled(st);
      assert b in multiset(st.log.flushed);
    }
  }

  lemma RetryTickKeeps(w: World, cfg: Config, st: State, listed: bool)
    requires Inv(cfg, st)
    ensures Inv(cfg, RetryTick(w, cfg, st, listed))
  {
    hide RetryTick, Settled, CountersOk, ShelvesOk, InOrder, PartitionsOk;
    SpooledFromFlushed(st);
    RetryTickShuffles(w, cfg, st, listed);
    OrderFrame(st, RetryTick(w, cfg, st, listed));
  }

  lemma InitInOrder(st: State)
    requires st.partitions == map[] && st.log.admitted == [] && st.log.flushed == []
    ensures InOrder(st.partitions, st.log)
  {
    forall k
      ensures OfKey(st.log.admitted, k) == FlushedFor(st.log.flushed, k) + Buffered(st.partitions, k)
    {}
  }

  lemma NothingYet(st: State)
    requires st.files == [] && st.failed == [] && st.nextId == 0 && st.writes == 0 && st.log == Log([], [], [], [], [], [], [], [], [])
    ensures multiset(st.log.flushed) == Settled(st) && BatchesOk(st.log.flushed) && ShelvesOk(st)
    ensures st.log.tooLarge == Oversized(st.log.admitted)
    ensures st.counters == Counters(0, 0, 0, 0, 0, 0, 0) ==> CountersOk(st, 0)
  {
    assert Contents(st.files) == [];
  }

  lemma InitOk(cfg: Config)
    ensures Inv(cfg, Init())
  {
    hide InOrder, Settled, BatchesOk, ShelvesOk, Oversized, CountersOk;
    var st := Init();
    InitInOrder(st);
    NothingYet(st);
  }

  /** Every reachable state of every run, under every behaviour of backend and file system. */
  lemma {:induction false} RunKeeps(w: World, cfg: Config, evs: seq<Event>)
    requires cfg.Valid()
    ensures Inv(cfg, Run(w, cfg, evs))
    decreases |evs|
  {
    hide Inv;
    if evs == [] {
      InitOk(cfg);
    } else {
      var st, ev := Run(w, cfg, evs[..|evs| - 1]), evs[|evs| - 1];
      RunKeeps(w, cfg, evs[..|evs| - 1]);
      match ev {
        case Arrives(e, now) => AdmitKeeps(w, cfg, st, e, now);
        case AgeTimer(order, now) => FlushAgedKeeps(w, cfg, st, order, now);
        case RetryTimer(listed) => RetryTickKeeps(w, cfg, st, listed);
        case Shutdown(order) => DrainKeeps(w, cfg, st, order);
      }
    }
  }
}
