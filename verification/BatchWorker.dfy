/**
 * The batching worker (crates/obs-sink-batch/src/sink.rs) as a machine over values: admit,
 * age flush, retry tick and shutdown, with the file system and the backend as oracles.
 */
module BatchWorker {
  import opened Bytes
  import opened EnvelopeSpool

  const U32_MAX := 0xFFFF_FFFF
  const U64_MAX := 0xFFFF_FFFF_FFFF_FFFF

  type Key = Option<nat>

  /** What the worker sees of an envelope: an identity, its partition key, its encoded length. */
  datatype Envelope = Envelope(id: nat, key: Key, size: nat)

  datatype Config = Config(maxEvents: nat, maxBytes: nat, maxAge: int, maxAttempts: nat, spoolMaxBytes: nat, escalateAfter: int) {
    predicate Valid() {
      maxEvents <= U32_MAX && maxBytes <= U64_MAX
    }

    function RingCap(): nat {
      if 2 * maxEvents > 4 then 2 * maxEvents else 4
    }
  }

  datatype Upload = Shipped | RetryLater | Refused

  /**
   * The answers of the outside world, the n-th call of each kind getting the n-th answer. `rekey` is
   * the partition key that a re-ship derives anew from the first envelope of a record.
   */
  datatype World = World(encodes: Answers<bool>, upload: Answers<Upload>, spoolWrite: Answers<bool>, moves: Answers<bool>,
                         rekey: (nat, Envelope) -> Key, clock: Answers<int>)

  type Answers<T> = nat -> T

  datatype Partition = Partition(envelopes: seq<Envelope>, bytes: nat, since: int)
  datatype Batch = Batch(key: Key, envelopes: seq<Envelope>)
  datatype Spooled = Spooled(batch: Batch, failedAt: int)

  type SpoolDir = seq<Entry<Spooled>>

  datatype Counters = Counters(evicted: nat, uploads: nat, retries: nat, spooled: nat, recovered: nat, escalated: nat, tooLarge: nat)

  /** Where everything went: the history the results are stated over. */
  datatype Log = Log(admitted: seq<Envelope>, tooLarge: seq<Envelope>, ringEvicted: seq<Envelope>,
                     flushed: seq<Batch>, uploaded: seq<Batch>, writeLost: seq<Batch>, capEvicted: seq<Batch>, unreadable: seq<Batch>,
                     rekeyed: seq<Batch>)

  datatype State = State(partitions: map<Key, Partition>, files: SpoolDir, failed: seq<Batch>,
                         nextId: nat, encodings: nat, calls: nat, writes: nat, moves: nat, rekeys: nat, readings: nat,
                         counters: Counters, log: Log)

  function Init(): State {
    State(map[], [], [], 0, 0, 0, 0, 0, 0, 0, Counters(0, 0, 0, 0, 0, 0, 0), Log([], [], [], [], [], [], [], [], []))
  }

  function SumSizes(es: seq<Envelope>): nat {
    if es == [] then 0 else SumSizes(es[..|es| - 1]) + es[|es| - 1].size
  }

  /** The length of the spool file of a batch: a four-byte header per envelope. */
  function FileSize(b: Batch): nat {
    SumSizes(b.envelopes) + 4 * |b.envelopes|
  }

  /** The files `list` can read back (`EnvelopeSpool.ReadBack`). */
  predicate Legible(b: Batch) {
    forall e :: e in b.envelopes ==> e.size <= MAX_FRAME
  }

  // ---- Upload with retries ----

  datatype Attempts = Attempts(shipped: bool, calls: nat, retries: nat)

  /** The retry loop from `attempt` on, `calls` uploads made before it. */
  function TryUpload(w: World, calls: nat, attempt: nat, max: nat): Attempts
    decreases max - attempt
  {
    if attempt >= max then Attempts(false, calls, 0)
    else
      match w.upload(calls)
      case Shipped => Attempts(true, calls + 1, 0)
      case Refused => Attempts(false, calls + 1, 0)
      case RetryLater =>
        var rest := TryUpload(w, calls + 1, attempt + 1, max);
        if attempt + 1 < max then rest.(retries := rest.retries + 1) else rest
  }

  // ---- Spooling ----

  function Contents(files: SpoolDir): seq<Batch> {
    if files == [] then [] else [files[0].content.batch] + Contents(files[1..])
  }

  /** `Spool::write`: the clock is read for the new file's name and creation time. */
  function SpoolBatch(w: World, cfg: Config, st: State, b: Batch): State {
    var st' := st.(writes := st.writes + 1, readings := st.readings + 1);
    if w.spoolWrite(st.writes) then Stored(cfg, st', b, w.clock(st.readings))
    else st'.(log := st.log.(writeLost := st.log.writeLost + [b]))
  }

  /** One more file, then eviction to the cap. */
  function Stored(cfg: Config, st: State, b: Batch, now: int): State {
    var ev := EvictToCap(st.files + [Entry(st.nextId, now, FileSize(b), Spooled(b, now))], cfg.spoolMaxBytes);
    st.(files := ev.kept, nextId := st.nextId + 1,
        counters := st.counters.(spooled := st.counters.spooled + 1),
        log := st.log.(capEvicted := st.log.capEvicted + Contents(ev.evicted)))
  }

  /** A batch leaves its partition. */
  function Flushing(st: State, b: Batch): State {
    st.(log := st.log.(flushed := st.log.flushed + [b]))
  }

  /** `flush_partition`. */
  function Flush(w: World, cfg: Config, st: State, b: Batch): State {
    if b.envelopes == [] then st
    else if b.key.None? then SpoolBatch(w, cfg, Flushing(st, b), b)
    else Ship(w, cfg, Flushing(st, b), b)
  }

  /** Encode a batch and upload it; what does not ship is spooled. */
  function Ship(w: World, cfg: Config, st: State, b: Batch): State {
    if !w.encodes(st.encodings) then SpoolBatch(w, cfg, Encoded(st), b)
    else
      var r := TryUpload(w, st.calls, 0, cfg.maxAttempts);
      var st' := Tried(Encoded(st), r);
      if r.shipped then
        st'.(counters := st'.counters.(uploads := st'.counters.uploads + 1),
             log := st'.log.(uploaded := st'.log.uploaded + [b]))
      else SpoolBatch(w, cfg, st', b)
  }

  /** One more batch was handed to the encoder. */
  function Encoded(st: State): State {
    st.(encodings := st.encodings + 1)
  }

  function Tried(st: State, r: Attempts): State {
    st.(calls := r.calls, counters := st.counters.(retries := st.counters.retries + r.retries))
  }

  // ---- Admission ----

  function PartitionOf(st: State, k: Key, now: int): Partition {
    if k in st.partitions then st.partitions[k] else Partition([], 0, now)
  }

  function SaturatingAdd(a: nat, b: nat): nat {
    if a + b <= U64_MAX then a + b else U64_MAX
  }

  /** The ring guard of `admit`: drop the oldest envelope of a full partition. */
  function Guarded(cfg: Config, p: Partition): Partition {
    if |p.envelopes| < cfg.RingCap() then p
    else
      var old_ := p.envelopes[0].size;
      p.(envelopes := p.envelopes[1..], bytes := if old_ <= p.bytes then p.bytes - old_ else 0)
  }

  function NoteEvicted(cfg: Config, st: State, p: Partition): State {
    if |p.envelopes| < cfg.RingCap() then st
    else st.(counters := st.counters.(evicted := st.counters.evicted + 1),
             log := st.log.(ringEvicted := st.log.ringEvicted + [p.envelopes[0]]))
  }

  function Push(p: Partition, e: Envelope): Partition {
    p.(envelopes := p.envelopes + [e], bytes := SaturatingAdd(p.bytes, e.size))
  }

  predicate Due(cfg: Config, p: Partition) {
    |p.envelopes| >= cfg.maxEvents || p.bytes >= cfg.maxBytes
  }

  function Admit(w: World, cfg: Config, st: State, e: Envelope, now: int): State {
    var st0 := st.(log := st.log.(admitted := st.log.admitted + [e]));
    if e.size > U32_MAX then
      st0.(counters := st.counters.(tooLarge := st.counters.tooLarge + 1),
           log := st0.log.(tooLarge := st.log.tooLarge + [e]))
    else
      var found := PartitionOf(st, e.key, now);
      var st1 := NoteEvicted(cfg, st0, found);
      var p := Push(Guarded(cfg, found), e);
      if Due(cfg, p) then
        Flush(w, cfg, st1.(partitions := st.partitions - {e.key}), Batch(e.key, p.envelopes))
      else st1.(partitions := st.partitions[e.key := p])
  }

  // ---- Age flush and shutdown ----

  /** Flush, in the order given, the listed partitions that are old enough. */
  function FlushAged(w: World, cfg: Config, st: State, keys: seq<Key>, now: int): State
    decreases |keys|
  {
    if keys == [] then st
    else if keys[0] in st.partitions && now - st.partitions[keys[0]].since >= cfg.maxAge then
      var b := Batch(keys[0], st.partitions[keys[0]].envelopes);
      FlushAged(w, cfg, Flush(w, cfg, st.(partitions := st.partitions - {keys[0]}), b), keys[1..], now)
    else FlushAged(w, cfg, st, keys[1..], now)
  }

  /** `drain_on_shutdown`: straight to the spool, without uploads. */
  function Drain(w: World, cfg: Config, st: State, keys: seq<Key>): State
    decreases |keys|
  {
    if keys == [] then st
    else if keys[0] in st.partitions && st.partitions[keys[0]].envelopes != [] then
      var b := Batch(keys[0], st.partitions[keys[0]].envelopes);
      Drain(w, cfg, SpoolBatch(w, cfg, Flushing(st.(partitions := st.partitions - {keys[0]}), b), b), keys[1..])
    else Drain(w, cfg, st.(partitions := st.partitions - {keys[0]}), keys[1..])
  }

  // ---- Retry tick ----

  function Keep(st: State, f: Entry<Spooled>): State {
    st.(files := st.files + [f])
  }

  predicate Stuck(cfg: Config, f: Entry<Spooled>, now: int) {
    now - f.content.failedAt >= cfg.escalateAfter
  }

  /** `escalate_if_stuck`, with its own clock reading, on a record that is not yet back in the directory. */
  function Escalate(w: World, cfg: Config, st: State, f: Entry<Spooled>): State {
    var st0 := st.(readings := st.readings + 1);
    if !Stuck(cfg, f, w.clock(st.readings)) then Keep(st0, f)
    else if !w.moves(st.moves) then Keep(st0.(moves := st.moves + 1), f)
    else st0.(moves := st.moves + 1, failed := st.failed + [f.content.batch],
              counters := st.counters.(escalated := st.counters.escalated + 1))
  }

  /** `try_reship` of a readable record: `st.files` are the records already dealt with. */
  function Reship(w: World, cfg: Config, st: State, f: Entry<Spooled>): State {
    var b := f.content.batch;
    if b.envelopes == [] then st
    else
      var key := w.rekey(st.rekeys, b.envelopes[0]);
      var st0 := Rekeyed(st, b, key);
      if key.None? then Keep(st0, f) else EncodeAndShip(w, cfg, st0, f)
  }

  function EncodeAndShip(w: World, cfg: Config, st: State, f: Entry<Spooled>): State {
    if !w.encodes(st.encodings) then Escalate(w, cfg, Encoded(st), f)
    else
      var r := TryUpload(w, st.calls, 0, cfg.maxAttempts);
      Reshipped(w, cfg, Tried(Encoded(st), r), f, r.shipped)
  }

  /** The partitioner was asked for the key of a record. */
  function Rekeyed(st: State, b: Batch, key: Key): State {
    st.(rekeys := st.rekeys + 1, log := st.log.(rekeyed := st.log.rekeyed + if key.Some? then [b] else []))
  }

  function Reshipped(w: World, cfg: Config, st: State, f: Entry<Spooled>, shipped: bool): State {
    if shipped then
      st.(counters := st.counters.(recovered := st.counters.recovered + 1),
          log := st.log.(uploaded := st.log.uploaded + [f.content.batch]))
    else Escalate(w, cfg, st, f)
  }

  function ReshipAll(w: World, cfg: Config, st: State, todo: SpoolDir): State
    decreases |todo|
  {
    if todo == [] then st
    else if !Legible(todo[0].content.batch) then
      ReshipAll(w, cfg, st.(log := st.log.(unreadable := st.log.unreadable + [todo[0].content.batch])), todo[1..])
    else ReshipAll(w, cfg, Reship(w, cfg, st, todo[0]), todo[1..])
  }

  /** `recover_spool` and `drive_spool_retry`; `listed` is whether the directory could be read. */
  function RetryTick(w: World, cfg: Config, st: State, listed: bool): State {
    if !listed then st else ReshipAll(w, cfg, st.(files := []), OldestFirst(st.files))
  }

  // ---- Runs ----

  datatype Event =
    | Arrives(e: Envelope, now: int)
    | AgeTimer(order: seq<Key>, now: int)
    | RetryTimer(listed: bool)
    | Shutdown(order: seq<Key>)

  function Step(w: World, cfg: Config, st: State, ev: Event): State {
    match ev
    case Arrives(e, now) => Admit(w, cfg, st, e, now)
    case AgeTimer(order, now) => FlushAged(w, cfg, st, order, now)
    case RetryTimer(listed) => RetryTick(w, cfg, st, listed)
    case Shutdown(order) => Drain(w, cfg, st, order)
  }

  function Run(w: World, cfg: Config, evs: seq<Event>): State {
    if evs == [] then Init() else Step(w, cfg, Run(w, cfg, evs[..|evs| - 1]), evs[|evs| - 1])
  }
}
