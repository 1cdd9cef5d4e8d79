# Delivery, recovery and parsing in the `obs` SDK

A Dafny model of the parts of the `obs` SDK that decide whether an event survives, and of the
parsers and arithmetic around them, with proofs of what those parts promise. The theorems are about
all inputs, all runs or all interleavings; the few lemmas at one concrete input (`CheckValue` and the
counterexamples) say so. The file system, the backend, the clock and the envelope encoding are
parameters.

| part | files |
|---|---|
| AUDIT spool: checksum, append, durability, crash recovery | `Crc32c`, `RecordSum`, `AuditSpool`, `AuditWriter` |
| Batching worker and its envelope spool | `EnvelopeSpool`, `BatchWorker`, `BatchInvariants`, `BatchResults`, `BatchEffects`, `BatchMachine` |
| Filter language: splitter, grammar, resolution, decisions | `FilterSplit`, `FilterGrammar`, `FilterRender`, `FilterLayout`, `FilterDecision` |
| Protocol Buffers option scanner | `WireScanner`, `TagSearch` |
| Parquet partition dates and event columns | `Calendar`, `EventColumns` |
| Span pairing | `SpanPairing` |
| Callsite interest cache, and reloads around it | `InterestCache`, `InterestReload` |
| Live-tail registry | `LiveTail`, `LiveTailCaps` |
| Base64 for ClickHouse rows | `Base64` |
| Bytes, fixed-width integers, the abstract codec, UTF-8 | `Bytes`, `Unicode` |

How to read it. Code that updates objects or loops is a `class` or a `method`, proved equal to a
function of the old state; the promises are then lemmas about that function. Each class carries its
history as ghost state and states its promises on itself: `BatchMachine.Worker` is the worker as an
object, `BatchWorker` the same worker as a machine over values, `BatchResults` and `BatchEffects` what
every run and every step of the machine guarantee, and `Worker.ConservedNow`, `OrderedNow` and
`BoundedNow` say it of the object.
Concurrency is a state machine whose steps are the single loads, stores, checks and insertions of the
source (`InterestCache`, `InterestReload`, `LiveTailCaps`).

What the proofs turned up. Where the code does not do what its documentation or a reader would
expect, the model follows the code, and a lemma gives the exact condition:

- One envelope between the reader's frame limit (2^30) and the writer's (2^32 - 1) makes its whole
  spool file unreadable, and `list` then deletes the file (`EnvelopeSpool.ReadBack`,
  `EnvelopeSpool.StaysIffReadable`).
- A batch without a partition key is described as going to a catch-all partition
  (crates/obs-sink-batch/src/backend.rs:52-55); it is uploaded or escalated only after a re-ship for
  which the partitioner finds a key, and until then stays in the spool or is lost from it
  (`BatchResults.ShelvesExact`, `BatchResults.KeylessWaits`).
- The ring-eviction branch of `admit` cannot run (`BatchResults.NeverOverflows`).
- The AUDIT writer goes on acknowledging after a failed write. The failure is harmless to later
  records if and only if it left nothing, or everything, in the files (`AuditWriter.HarmlessIff`). One
  byte left of a header loses the next record (`AuditWriter.HeaderTear`), a torn body loses all
  records until as many bytes follow as it is missing (`AuditWriter.TornBodyExact`,
  `SpoolWriter.LostNow`), and a lost checksum makes each later record answer to its neighbour's
  (`SpoolWriter.SlippedNow`, `SpoolWriter.SidecarNow`). Durable records from before the failure always
  survive (`SpoolWriter.BeforeTheTear`).
- `fsync_now` after `close` reports success and clears the pending count without syncing
  (`AuditWriter.SpoolWriter.FsyncNow`).
- A dynamic directive decides an event only if it is filed under the event's exact full name. So
  `[k=v]=level`, documented in crates/obs-core/src/filter.rs:19 as matching on labels, and a target
  that is only a prefix, documented in crates/obs-core/src/filter.rs:48-51, change no decision
  (`FilterDecision.DynamicExact`, `FilterDecision.TargetlessDynamicInert`,
  `FilterDecision.PrefixTargetInert`).
- A `module=off` directive silences a callsite whose events the per-event check would let through
  (`FilterDecision.ModuleVetoDisagrees`); the two agree if and only if the winning directive also
  names the event, or gives the verdict of the directive that wins by name alone
  (`FilterDecision.AgreementExact`).
- A comma separates directives if and only if the text before it is balanced. After a stray `]`
  commas between directives no longer cut, and commas inside a later clause do
  (`FilterSplit.CutExact`, `FilterSplit.StrayBracketExample`).
- A target that is itself a level name is read as that level unless `=` or `[` follows it at once, so a
  space there makes the directive invalid (`FilterLayout.DirectiveExact`).
- `find_tag_payload` can be fooled by tag bytes inside an earlier payload (`TagSearch.FindTagFooled`). It
  finds a field's payload, for every payload, if and only if the field's tag bytes do not occur in the
  bytes before the field (`TagSearch.FindTagExact`).
- A decode that writes a field and then fails, or writes a field twice, leaves its column misaligned
  for good (`EventColumns.RowAlignment`).
- An event without ids leaves neither a span nor a pending entry if and only if it has a declared
  sibling or a legacy Started name (`SpanPairing.VanishesIff`).
- Two emits in flight with generations that answer differently can leave a stale cached decision
  (`InterestCache.StaleRead`, `InterestCache.FreshIff`). With the two steps of a reload taken into
  account, a rule for announcing generations is safe if and only if it never allows an announcement
  while an emit is about to store an answer that differs from the current filter's
  (`InterestReload.AnnounceIff`); waiting for all emits begun under an older filter is such a rule
  (`InterestReload.PatientReloadFresh`), announcing at any time, as the code does, is one only if no
  reload changes an answer (`InterestReload.HastyReloadFreshIff`).
- Overlapping `subscribe` calls overshoot the caps, by at most one less than their number, and that
  bound is reached (`LiveTailCaps.CapsBounded`, `LiveTailCaps.BoundReached`).

## Model

| member | source | states |
|---|---|---|
| `Crc32c.Compute` | crates/obs-core/src/audit_spool.rs:36-46 | The bit loop with its wrapping-negation mask computes the recursive checksum of every byte string |
| `Crc32c.Shift8` | crates/obs-core/src/audit_spool.rs:40-43 | Eight turns of the masked inner loop are eight conditional polynomial steps |
| `Crc32c.RegisterConcat` | crates/obs-core/src/audit_spool.rs:38-44 | The register after two strings end to end is the second's register started from the first's |
| `Crc32c.RegisterInjective` | crates/obs-core/src/audit_spool.rs:38-44 | Reading the same bytes never merges two different register values |
| `Crc32c.WordInjective` | crates/obs-core/src/audit_spool.rs:38-44 | From one register value, different four-byte words give different registers |
| `Crc32c.WindowInjective` | crates/obs-core/src/audit_spool.rs:38-44 | Strings equal outside a window of at most four bytes reach the same register only if they are equal |
| `Crc32c.BurstDetected` | crates/obs-core/src/audit_spool.rs:36-46 | For strings that differ only inside a window of at most four bytes, checksums are equal if and only if the strings are |
| `Crc32c.CheckValue` | crates/obs-core/src/audit_spool.rs:31-46 | The checksum of the digits 1 to 9 is the published CRC-32C check value |
| `RecordSum.LeWordInjective` | crates/obs-core/src/audit_spool.rs:336-350 | Comparing the four stored little-endian bytes is comparing the checksums |
| `RecordSum.BurstChangesSum` | crates/obs-core/src/audit_spool.rs:344-350 | A record changed inside a window of at most four bytes no longer matches its sidecar bytes |
| `RecordSum.StoredOrder` | crates/obs-core/src/audit_spool.rs:166-171 | The sidecar bytes of the one-byte record "a" are its published checksum, lowest byte first |
| `AuditSpool.RecoverOne` | crates/obs-core/src/audit_spool.rs:305-366 | If the consumer accepts every record the loop reports what the recursive reading of both files reports; otherwise it stops having handed over exactly the records before the first refused one |
| `AuditSpool.RecoverRecord` | crates/obs-core/src/audit_spool.rs:317-359 | A whole record is read as one record whatever bytes follow it, and consumes one checksum |
| `AuditSpool.RecoverTorn` | crates/obs-core/src/audit_spool.rs:318-335 | A last record cut after its header counts one drop, one cut inside its header counts none |
| `AuditSpool.WholeRecordsLongest` | crates/obs-core/src/audit_spool.rs:317-359 | The number of whole records before a cut is the longest run of records ending at or before it |
| `AuditSpool.CrashRecovery` | crates/obs-core/src/audit_spool.rs:148-195 | Cut the record file anywhere and the sidecar anywhere, or lose the sidecar: recovery delivers exactly the longest run of whole records in order, and counts one drop exactly when the torn tail reaches past a header |
| `AuditSpool.CleanRecovery` | crates/obs-core/src/audit_spool.rs:305-366 | Without a crash every record is delivered and none is dropped |
| `AuditSpool.AnySidecar` | crates/obs-core/src/audit_spool.rs:305-366 | For any sidecar bytes and any cut, recovery delivers exactly the whole records whose place in the sidecar is missing or holds their checksum, in order, and counts the others and a torn one as dropped |
| `AuditSpool.SidecarExact` | crates/obs-core/src/audit_spool.rs:305-366 | The same for a record file that is not cut |
| `AuditSpool.PrefixSurvives` | crates/obs-core/src/audit_spool.rs:305-366 | Intact leading records are delivered whatever follows them in either file |
| `AuditSpool.RecoverPrefix` | crates/obs-core/src/audit_spool.rs:305-366 | Intact leading records are delivered and recovery continues as on the remaining bytes |
| `AuditSpool.CorruptBodyDropped` | crates/obs-core/src/audit_spool.rs:317-360 | With headers and sidecar intact, a body damaged inside a window of at most four bytes is the one record dropped; all others are delivered in order |
| `AuditSpool.Appended` | crates/obs-core/src/audit_spool.rs:148-172 | Appending extends both files by one frame and one checksum and disturbs no earlier record |
| `AuditSpool.DurabilityWindow` | crates/obs-core/src/audit_spool.rs:74-195 | If all but `pending` records are durable, any crash past the durable bytes loses at most those |
| `AuditSpool.SlippedSidecar` | crates/obs-core/src/audit_spool.rs:336-350 | With the first checksum missing, recovery delivers exactly the last record and those whose checksum equals their successor's |
| `AuditSpool.EveryRecordAccounted` | crates/obs-core/src/audit_spool.rs:305-366 | Whatever bytes the two files hold, every whole record in the record file is delivered, in order, if its place in the sidecar is missing or agrees and it decodes, and is counted as dropped otherwise; so is a torn one |
| `AuditWriter.SpoolWriter.constructor` | crates/obs-core/src/audit_spool.rs:99-140 | A new writer is open, empty and fully synced |
| `AuditWriter.SpoolWriter.Append` | crates/obs-core/src/audit_spool.rs:148-195 | Refused, with nothing changed, if the writer is closed or the counted records and the new one, four bytes more than its body each, together exceed the cap; otherwise, under every fault, the files grow by the frame and the checksum or what a failed write left of them, the byte count by the frame if both were written, and the call says whether it was acknowledged; after `Ok` fewer than 64 records (per batch) or none (per record) are unsynced |
| `AuditWriter.SpoolWriter.CapHolds` | crates/obs-core/src/audit_spool.rs:148-172 | The records counted since opening never take more than `max_bytes` bytes of the record file |
| `AuditWriter.SpoolWriter.SyncBoth` | crates/obs-core/src/audit_spool.rs:183-193 | Success makes both files durable; a failed sidecar sync leaves only the record file durable |
| `AuditWriter.SpoolWriter.FsyncNow` | crates/obs-core/src/audit_spool.rs:204-214 | Success while open leaves nothing unsynced; after close the call succeeds and syncs nothing |
| `AuditWriter.SpoolWriter.Close` | crates/obs-core/src/audit_spool.rs:218-222 | Closing keeps the files and their invariant |
| `AuditWriter.SpoolWriter.CrashNow` | crates/obs-core/src/audit_spool.rs:148-214 | If every attempt so far was harmless, a crash that keeps synced bytes delivers a run of the whole records that includes every durable one, and misses at most `pendingRecords` of the counted records, after an `Ok` append at most 63 or 0 |
| `AuditWriter.PastArePending` | crates/obs-core/src/audit_spool.rs:172-193 | Counted records beyond a run that includes all durable ones number at most the records written since the last sync |
| `AuditWriter.SpoolWriter.BeforeTheTear` | crates/obs-core/src/audit_spool.rs:148-214 | Whatever failed later, durable records from before the first harmful attempt are delivered after every crash |
| `AuditWriter.SpoolWriter.SidecarNow` | crates/obs-core/src/audit_spool.rs:166-171 | While no record-file write left part of a frame, recovery delivers exactly the records the sidecar does not contradict |
| `AuditWriter.SpoolWriter.SlippedNow` | crates/obs-core/src/audit_spool.rs:166-171 | After one checksum write that left nothing, at any record, recovery delivers all records before it and from it on exactly those whose checksum equals their successor's, and the last |
| `AuditWriter.SpoolWriter.TornNow` | crates/obs-core/src/audit_spool.rs:159-165 | After one write that left part of a frame, the earlier records are delivered and reading goes on at the remainder |
| `AuditWriter.SpoolWriter.LostNow` | crates/obs-core/src/audit_spool.rs:159-165 | Every record acknowledged since a torn body is lost until as many bytes follow as the body is missing |
| `AuditWriter.InStepFiles` | crates/obs-core/src/audit_spool.rs:148-172 | Harmless attempts leave exactly the files of the records they wrote |
| `AuditWriter.HarmlessIff` | crates/obs-core/src/audit_spool.rs:148-172 | A failed append disturbs no later records, whatever they are, if and only if it left nothing or everything in the files |
| `AuditWriter.HeaderTear` | crates/obs-core/src/audit_spool.rs:317-335 | One to three bytes left of a header swallow the next record, up to 2^24 - 1 bytes long after one stray byte |
| `AuditWriter.SumTear` | crates/obs-core/src/audit_spool.rs:336-350 | A checksum left in part makes recovery drop a record |
| `AuditWriter.TornBodyExact` | crates/obs-core/src/audit_spool.rs:317-359 | At a torn body recovery stops if fewer bytes follow than are missing, and otherwise reads the missing bytes from the records behind it under the next checksum |
| `Bytes.Le32RoundTrip` | crates/obs-core/src/audit_spool.rs:163-326 | A record length survives its little-endian header, whose bytes stand lowest first |
| `Bytes.Be32RoundTrip` | crates/obs-core/src/wire/envelope_codec.rs:64-98 | A frame length survives its big-endian header, whose bytes stand highest first |
| `EnvelopeSpool.ReadFile` | crates/obs-sink-batch/src/spool.rs:274-306 | The offset loop returns all envelopes of a file or nothing, as the recursive reader does |
| `EnvelopeSpool.FrameThen` | crates/obs-core/src/wire/envelope_codec.rs:64-111 | A written frame decodes to its envelope and length whatever follows, exactly when it is within the limit |
| `EnvelopeSpool.ReadBack` | crates/obs-sink-batch/src/spool.rs:104-298 | A written file reads back as the same envelopes if every one is within the reader's limit, and as nothing otherwise |
| `EnvelopeSpool.CutFile` | crates/obs-sink-batch/src/spool.rs:274-298 | A truncated file is refused unless the cut falls between two frames, and then gives exactly the frames before it |
| `EnvelopeSpool.SortFacts` | crates/obs-sink-batch/src/spool.rs:140-140 | Sorting by creation time orders the directory by age and is a permutation of it |
| `EnvelopeSpool.SortStable` | crates/obs-sink-batch/src/spool.rs:140-140 | Files of one creation time keep their directory order |
| `EnvelopeSpool.EvictionMinimal` | crates/obs-sink-batch/src/spool.rs:203-221 | Cap eviction removes precisely the shortest oldest-first run that brings the total within the cap; nothing evicted is younger than anything kept |
| `EnvelopeSpool.Spool.constructor` | crates/obs-sink-batch/src/spool.rs:78-90 | A spool on a fresh directory is empty |
| `EnvelopeSpool.Spool.Write` | crates/obs-sink-batch/src/spool.rs:94-131 | The directory becomes the old one plus one framed file, evicted to the cap; every name ever written stays in exactly one of directory, failed tree, removed, evicted, dropped |
| `EnvelopeSpool.Spool.FrameAll` | crates/obs-sink-batch/src/spool.rs:106-117 | The buffer loop builds the frames of all envelopes in order |
| `EnvelopeSpool.Spool.EvictFiles` | crates/obs-sink-batch/src/spool.rs:203-221 | The loop over the running size keeps the files that minimal eviction keeps |
| `EnvelopeSpool.Spool.List` | crates/obs-sink-batch/src/spool.rs:137-156 | Returns, oldest first, exactly the batches ever written that were not removed, evicted, dropped as unreadable or moved to the failed tree, each with the envelopes written |
| `EnvelopeSpool.Spool.Remove` | crates/obs-sink-batch/src/spool.rs:159-165 | Only the named file leaves the directory, to the removed names; a missing name is no error |
| `EnvelopeSpool.Spool.MoveToFailed` | crates/obs-sink-batch/src/spool.rs:170-196 | The named file changes from the directory to the failed tree; the result tells whether it was there |
| `EnvelopeSpool.ListExact` | crates/obs-sink-batch/src/spool.rs:137-156 | Listing files that hold written batches gives exactly those batches for the files that stay |
| `EnvelopeSpool.StaysIffReadable` | crates/obs-sink-batch/src/spool.rs:143-153 | A written file survives `list` if and only if every envelope of its batch is within the reader's limit |
| `EnvelopeSpool.ListedIff` | crates/obs-sink-batch/src/spool.rs:137-156 | A written name is in the directory if and only if it is in none of the other four places |
| `BatchInvariants.UploadsBounded` | crates/obs-sink-batch/src/sink.rs:450-511 | The retry loop makes at most `max_attempts` uploads and one retry fewer than uploads, goes on only after answers that ask for a retry, and stops at the first other answer or at the bound; it succeeds exactly when its last upload did |
| `BatchInvariants.SpoolBatchSettles` | crates/obs-sink-batch/src/sink.rs:522-556 | Spooling puts one batch to rest, in a file or as a write loss, and moves evicted batches from files to losses |
| `BatchInvariants.FlushSettles` | crates/obs-sink-batch/src/sink.rs:379-520 | Every branch of a flush puts exactly its batch to rest once |
| `BatchInvariants.ReshipRests` | crates/obs-sink-batch/src/sink.rs:597-685 | A re-ship moves its record to exactly one of uploaded, spool or failed tree |
| `BatchInvariants.RetryTickShuffles` | crates/obs-sink-batch/src/sink.rs:558-585 | A retry tick only moves batches between resting places |
| `BatchInvariants.AdmitKeeps` | crates/obs-sink-batch/src/sink.rs:261-326 | Admission keeps order, conservation, counters and partition bounds |
| `BatchInvariants.RingNotFull` | crates/obs-sink-batch/src/sink.rs:277-314 | Before every admission the partition holds fewer envelopes than the ring capacity, so the eviction branch is not taken |
| `BatchInvariants.FlushAgedKeeps` | crates/obs-sink-batch/src/sink.rs:328-341 | The age flush keeps the invariant in whatever order partitions are taken |
| `BatchInvariants.DrainKeeps` | crates/obs-sink-batch/src/sink.rs:348-377 | The shutdown drain keeps the invariant and leaves exactly the partitions not in its order |
| `BatchInvariants.RetryTickKeeps` | crates/obs-sink-batch/src/sink.rs:558-711 | A retry tick keeps the invariant |
| `BatchInvariants.RunKeeps` | crates/obs-sink-batch/src/sink.rs:210-251 | Every run stays within the invariant, whatever the backend answers to each encoding, upload and key request and the file system to each write and move |
| `BatchResults.Conservation` | crates/obs-sink-batch/src/sink.rs:261-711 | In every reachable state, an envelope's occurrences over buffer, uploads, spool files, failed tree and the four named losses add up to how often it was admitted |
| `BatchResults.ExactlyOnePlace` | crates/obs-sink-batch/src/sink.rs:261-711 | An envelope admitted once is in exactly one of those places, once |
| `BatchResults.AdmittedAreArrivals` | crates/obs-sink-batch/src/sink.rs:229-236 | What counts as admitted is exactly what arrived, in order |
| `BatchResults.PartitionOrder` | crates/obs-sink-batch/src/sink.rs:261-341 | Per key, flushed batches end to end followed by the buffer are the arrivals of that key in order; no batch mixes keys or is empty |
| `BatchResults.NeverOverflows` | crates/obs-sink-batch/src/sink.rs:277-325 | Every buffered partition is below both triggers with an exact byte count, so nothing was ever ring-evicted |
| `BatchResults.CountersExact` | crates/obs-sink-batch/src/sink.rs:265-711 | The exported counters equal the sizes of the histories they stand for; every spool write was a file or a write loss |
| `BatchResults.ShelvesExact` | crates/obs-sink-batch/src/sink.rs:405-628 | A batch is uploaded or escalated only if it has a key or the partitioner found one at an earlier re-ship; files dropped as unreadable held an envelope over the limit |
| `BatchResults.KeylessWaits` | crates/obs-sink-batch/src/sink.rs:405-628 | While the partitioner finds no key for keyless envelopes, each of their flushed batches is in the spool, write-lost, evicted or dropped as unreadable |
| `BatchResults.ReshipExact` | crates/obs-sink-batch/src/sink.rs:597-685 | A listed record is uploaded if and only if a key is found for it, it encodes, and the backend answers success after nothing but retries within `max_attempts`; recoveries, key requests, encodings and calls are counted exactly |
| `BatchResults.FilesAgree` | crates/obs-sink-batch/src/spool.rs:104-117 | For every codec, the size the worker books for a file is the length of the bytes the spool writes, and the worker takes it for readable if and only if the spool reads it back |
| `BatchResults.ShutdownDrains` | crates/obs-sink-batch/src/sink.rs:348-377 | A shutdown leaves nothing buffered |
| `BatchResults.ArrivalExact` | crates/obs-sink-batch/src/sink.rs:281-325 | An arrival closes its partition if and only if it reaches the count or the byte trigger; the batch is the whole buffer with the arrival last, and no other partition changes |
| `BatchResults.AgeTimerExact` | crates/obs-sink-batch/src/sink.rs:328-341 | The age timer empties exactly the listed partitions whose first envelope arrived at least `max_age` before |
| `BatchResults.TickGivesUp` | crates/obs-sink-batch/src/sink.rs:597-711 | A retry tick moves to the failed tree only records whose first failure lies at least `escalate_after` before a clock reading of its own, and keeps no record it did not find |
| `BatchResults.TickClearsStuck` | crates/obs-sink-batch/src/sink.rs:597-711 | While moves succeed, every record a retry tick leaves in the spool failed less than `escalate_after` before a clock reading of its own, or was found without a key |
| `BatchEffects.FlushExact` | crates/obs-sink-batch/src/sink.rs:379-520 | A flushed batch is uploaded if and only if it has a key, encodes, and the backend answers success after nothing but retries within `max_attempts`; otherwise it joins the spool, or the write losses if its write fails. What is asked of the backend is counted exactly |
| `BatchEffects.SpoolExact` | crates/obs-sink-batch/src/sink.rs:522-556 | Spooling adds the batch, and nothing else, to files and evictions if its write succeeds, and to the write losses otherwise |
| `BatchEffects.ArrivalUploads` | crates/obs-sink-batch/src/sink.rs:281-325 | In every run: an arrival that closes its partition uploads the batch, or spools it, on the same condition; any other arrival does neither |
| `BatchEffects.AgeTimerUploads` | crates/obs-sink-batch/src/sink.rs:328-341 | In every run: the age timer treats its partitions one after the other, each uploaded or spooled on the same condition |
| `BatchEffects.DrainUploadsNothing` | crates/obs-sink-batch/src/sink.rs:348-377 | The shutdown drain encodes nothing and uploads nothing |
| `BatchEffects.RingGuardExact` | crates/obs-sink-batch/src/sink.rs:293-314 | The ring guard drops exactly the oldest envelope, from `max(2 * max_events, 4)` envelopes on, and keeps the byte count exact and records the loss |
| `BatchEffects.ReshipAllInOrder` | crates/obs-sink-batch/src/sink.rs:558-585 | Listed records are worked off in the order given: uploads and kept files follow it |
| `BatchEffects.TickInAgeOrder` | crates/obs-sink-batch/src/sink.rs:558-585 | A retry tick uploads records oldest first, keeps no unreadable file, and does nothing if listing fails |
| `BatchEffects.FilesDated` | crates/obs-sink-batch/src/spool.rs:94-131 | In every reachable state every spool file carries the clock reading of its own write as creation and first failure time, and its own length |
| `BatchEffects.SinceFirst` | crates/obs-sink-batch/src/sink.rs:281-292 | In every reachable state the age of a partition counts from the arrival of its first buffered envelope |
| `BatchMachine.Worker.constructor` | crates/obs-sink-batch/src/sink.rs:105-116 | A new worker has nothing buffered, spooled or counted |
| `BatchMachine.Worker.Admit` | crates/obs-sink-batch/src/sink.rs:261-326 | The in-place admission is the machine's admission step and extends the worker's history by the arrival |
| `BatchMachine.Worker.FlushPartition` | crates/obs-sink-batch/src/sink.rs:379-520 | The in-place flush is the machine's flush, which `BatchEffects.FlushExact` decides |
| `BatchMachine.Worker.Ship` | crates/obs-sink-batch/src/sink.rs:411-520 | The in-place encoding, upload and spooling of a flush are the machine's, which `BatchEffects.FlushExact` decides |
| `BatchMachine.Worker.UploadWithRetries` | crates/obs-sink-batch/src/sink.rs:450-511 | The loop's uploads, retries and verdict are those of the bounded retry function; at most `max_attempts` calls |
| `BatchMachine.Worker.SpoolAndEmit` | crates/obs-sink-batch/src/sink.rs:522-556 | The in-place spooling is the machine's spooling |
| `BatchMachine.Worker.StoreFile` | crates/obs-sink-batch/src/spool.rs:94-131 | A written file joins the directory, which is then evicted to the cap, as in the machine |
| `BatchMachine.Worker.FlushAgedPartitions` | crates/obs-sink-batch/src/sink.rs:328-341 | Flushes exactly the partitions old enough at the call, in some order, as the machine's age timer does in that order |
| `BatchMachine.Worker.DrainOnShutdown` | crates/obs-sink-batch/src/sink.rs:348-377 | Spools every partition in some order and leaves none |
| `BatchMachine.Worker.RetrySpool` | crates/obs-sink-batch/src/sink.rs:558-585 | The loop over listed records is the machine's retry tick and extends the history by it |
| `BatchMachine.Worker.TryReship` | crates/obs-sink-batch/src/sink.rs:597-685 | The in-place re-ship is the machine's re-ship |
| `BatchMachine.Worker.EncodeAndShip` | crates/obs-sink-batch/src/sink.rs:629-684 | The in-place encoding and retry loop of a re-ship are the machine's |
| `BatchMachine.Worker.EscalateIfStuck` | crates/obs-sink-batch/src/sink.rs:687-711 | The in-place escalation is the machine's escalation |
| `BatchMachine.Worker.ConservedNow` | crates/obs-sink-batch/src/sink.rs:261-711 | At any moment of the object's life an envelope's places add up to how often it arrived |
| `BatchMachine.Worker.OrderedNow` | crates/obs-sink-batch/src/sink.rs:261-341 | At any moment the flushed batches of a key and its buffer are its arrivals in order |
| `BatchMachine.Worker.BoundedNow` | crates/obs-sink-batch/src/sink.rs:261-711 | At any moment no partition is due, nothing was ring-evicted, and the counters equal their histories |
| `FilterSplit.SplitDirectives` | crates/obs-core/src/filter.rs:307-332 | The character loop cuts the input into the pieces of the recursive splitter |
| `FilterSplit.PiecesRejoin` | crates/obs-core/src/filter.rs:307-332 | For every input, joining the pieces with commas gives the input back |
| `FilterSplit.SplitJoin` | crates/obs-core/src/filter.rs:307-332 | Pieces that contain no top-level comma and close their brackets and quotes come back from their join |
| `FilterSplit.PiecesAreFinal` | crates/obs-core/src/filter.rs:307-332 | No piece contains a comma that would still be cut |
| `FilterSplit.StrayBracketDisablesSplit` | crates/obs-core/src/filter.rs:316-316 | Below depth zero and outside quotes, input without an opening bracket is never cut again |
| `FilterSplit.CutExact` | crates/obs-core/src/filter.rs:307-332 | A comma separates what stands before it from what stands after it if and only if the text before it closes its brackets and quotes exactly |
| `FilterSplit.CommaOutside` | crates/obs-core/src/filter.rs:307-332 | A comma behind any balanced text, with clauses, quoted text and nested brackets in it, separates |
| `FilterSplit.DepthBounded` | crates/obs-core/src/filter.rs:307-332 | The bracket depth stays a 32-bit number |
| `FilterSplit.CommaInside` | crates/obs-core/src/filter.rs:307-332 | A comma inside a clause, quoted or not, at any nesting, separates nothing, whether the clause is ever closed or not |
| `FilterSplit.StrayBracketExample` | crates/obs-core/src/filter.rs:316-316 | Two concrete specs with a stray bracket: one whose comma no longer cuts, one cut inside a clause |
| `FilterRender.DirectiveRoundTrip` | crates/obs-core/src/filter.rs:371-519 | Every well-formed directive, written with quoted values, parses back to its target, fields, level and off flag |
| `FilterRender.RenderWhole` | crates/obs-core/src/filter.rs:307-332 | A written directive is never cut by the splitter, whatever its quoted values contain |
| `FilterRender.FilterRoundTrip` | crates/obs-core/src/filter.rs:99-138 | Every list of well-formed directives, written with commas between, parses back to the same list |
| `FilterRender.ParsedWellFormed` | crates/obs-core/src/filter.rs:371-534 | Every directive the grammar accepts is well formed |
| `FilterRender.NormalForm` | crates/obs-core/src/filter.rs:99-138 | Every spec that parses has the same directives as the text they are written back to |
| `FilterLayout.SeverityExact` | crates/obs-proto/src/ext.rs:183-205 | A token is a level if and only if it is, in any mixture of cases, the level's name, that name behind `severity_`, or `warning` or `err` |
| `FilterLayout.ClassesListed` | crates/obs-core/src/filter.rs:516-534 | The characters of targets, keys, values, spaces and white space, listed |
| `FilterLayout.TrimExact` | crates/obs-core/src/filter.rs:300-302 | Trimming leaves the text between white space that has none at its own ends |
| `FilterLayout.ValueReads` | crates/obs-core/src/filter.rs:486-502 | A quoted value is read as what stands between the quotes, a bare one as what stands before the comma or bracket without white space around it |
| `FilterLayout.LayoutReads` | crates/obs-core/src/filter.rs:371-534 | Every layout of a directive is read as what it means: a level alone, or target, clauses and level, each optional, with spaces between; a target without a level means `trace` |
| `FilterLayout.DirectiveExact` | crates/obs-core/src/filter.rs:371-534 | A text is read as a directive if and only if it is, white space at both ends aside, the text of a layout that means that directive; everything else is refused |
| `FilterLayout.SpecExact` | crates/obs-core/src/filter.rs:99-138 | A spec parses if and only if every piece is blank or a directive, and gives their directives in order; one bad piece refuses the whole spec |
| `FilterDecision.Parse` | crates/obs-core/src/filter.rs:99-138 | The loop over pieces builds the filter of the parsed directive list, which `BuiltInOrder` and `FloorExact` determine, or fails with the first bad piece |
| `FilterDecision.BuiltInOrder` | crates/obs-core/src/filter.rs:117-138 | Static directives and each dynamic bucket are exactly the directives of that kind in spec order |
| `FilterDecision.FloorExact` | crates/obs-core/src/filter.rs:117-138 | The floor is the level of the last bare level of the spec, `info` without one, and is off if and only if the last bare directive is `off` |
| `FilterDecision.SegmentExact` | crates/obs-core/src/filter.rs:270-281 | A target matches a name that equals it or continues it behind `.` or `::`, and no other |
| `FilterDecision.ParsedValid` | crates/obs-core/src/filter.rs:99-138 | No parsed spec yields a static directive with an empty target |
| `FilterDecision.ResolveStatic` | crates/obs-core/src/filter.rs:230-251 | The loop over statics returns the level of the winning directive |
| `FilterDecision.ResolutionExact` | crates/obs-core/src/filter.rs:230-281 | A directive wins if and only if it matches on a segment boundary, no match is longer, and no earlier match is as long; none wins if and only if none matches |
| `FilterDecision.EventExact` | crates/obs-core/src/filter.rs:200-221 | An event that satisfies no dynamic directive filed under its name is decided by the winning static directive, else by the floor: off rejects, a level admits the severities at or above it |
| `FilterDecision.CallsiteExact` | crates/obs-core/src/filter.rs:153-199 | A callsite is asked per event if a dynamic directive is filed under its name, and is otherwise on or off as its winning directive or the floor says of its default severity |
| `FilterDecision.CallsiteAgreesWithEvents` | crates/obs-core/src/filter.rs:153-221 | With no static directive on the callsite's module, `Always` implies every event is allowed at the default severity and `Never` that none is |
| `FilterDecision.AgreementExact` | crates/obs-core/src/filter.rs:153-221 | The cached and the per-event decision agree if and only if no directive wins for the callsite, or the winner names the event, or the winner clears the default severity exactly when the winner by name alone, or else the floor, does |
| `FilterDecision.WinnerNamesEvent` | crates/obs-core/src/filter.rs:200-251 | If the winning directive names the event itself, leaving the module out changes nothing |
| `FilterDecision.ModuleVetoDisagrees` | crates/obs-core/src/filter.rs:153-221 | A concrete filter, callsite and event on which the two decisions differ |
| `FilterDecision.TargetlessDynamicInert` | crates/obs-core/src/filter.rs:117-138 | A dynamic directive without a target, anywhere in a spec, changes no decision for any named event or callsite |
| `FilterDecision.DynamicExact` | crates/obs-core/src/filter.rs:117-221 | A dynamic directive of a spec decides an event if it is filed under the event's full name, its clauses hold and no earlier one filed there matches; otherwise the event is decided as if it were absent |
| `FilterDecision.DynamicAtCallsite` | crates/obs-core/src/filter.rs:153-228 | A dynamic directive makes a callsite ask per event if and only if it is filed under the callsite's full name, and otherwise changes nothing there |
| `FilterDecision.PrefixTargetInert` | crates/obs-core/src/filter.rs:117-221 | A concrete dynamic directive whose target is a segment prefix of the event's name, and which has no effect |
| `WireScanner.ReadVarint` | crates/obs-build/src/options.rs:406-417 | The shift loop returns the value, length or error of the recursive scan |
| `WireScanner.VarintRoundTrip` | crates/obs-build/src/options.rs:406-417 | Every 64-bit value is read back from its base-128 encoding with the right length, whatever follows |
| `WireScanner.VarintTruncated` | crates/obs-build/src/options.rs:406-417 | Every proper prefix of an encoding is refused |
| `WireScanner.VarintExact` | crates/obs-build/src/options.rs:406-417 | Whatever the bytes: a varint ends at the first byte under 128, if that is one of the first ten, and is its base-128 digits modulo 2^64; otherwise it is refused |
| `WireScanner.WalkMessage` | crates/obs-build/src/options.rs:351-404 | The index loop visits the fields and ends with the error of the recursive walk |
| `WireScanner.ReadValue` | crates/obs-build/src/options.rs:362-400 | The wire-type branches read the value, or report the error, that the walk expects |
| `WireScanner.WalkField` | crates/obs-build/src/options.rs:351-404 | An encoded field is visited first and the walk goes on with the rest |
| `WireScanner.WalkEncoded` | crates/obs-build/src/options.rs:351-404 | Walking the encoding of any field list visits exactly those fields in order, without error |
| `WireScanner.WalkTruncated` | crates/obs-build/src/options.rs:351-404 | Walking a cut message visits exactly the whole fields before the cut and errs unless the cut falls between fields |
| `WireScanner.WalkAnyTag` | crates/obs-build/src/options.rs:351-404 | Whatever 64-bit tag precedes a value, the field visited has the tag's upper bits, modulo 2^32, for its number |
| `WireScanner.WalkUnknown` | crates/obs-build/src/options.rs:351-404 | A tag with a wire type outside 0, 1, 2 and 5 ends the walk with an error |
| `TagSearch.FindTagPayload` | crates/obs-build/src/options.rs:331-349 | The offset loop returns the payload of the recursive search |
| `TagSearch.FindTagFirst` | crates/obs-build/src/options.rs:331-349 | The search returns the payload at the first occurrence of the tag bytes, or nothing if that payload cannot be read |
| `TagSearch.FindTagNone` | crates/obs-build/src/options.rs:331-349 | The search finds nothing if and only if the tag bytes do not occur or their first occurrence has no readable payload |
| `TagSearch.FindTagExact` | crates/obs-build/src/options.rs:331-349 | Whatever bytes stand around a length-delimited field, the search finds its payload for every payload if and only if the field's tag bytes do not occur in what stands before it |
| `TagSearch.NoStraddling` | crates/obs-build/src/options.rs:331-349 | No occurrence of a tag overlaps the beginning of the tag itself |
| `TagSearch.ScanStops` | crates/obs-build/src/options.rs:406-417 | Reading a varint does not look past the first byte under 128 |
| `TagSearch.NoTagNoOptions` | crates/obs-build/src/options.rs:112-115 | A message without the tag bytes has no event options |
| `TagSearch.FindTagAgrees` | crates/obs-build/src/options.rs:331-349 | In a message of whole fields the search returns the payload of field k when its tag bytes do not occur in the fields before it |
| `TagSearch.FindTagFooled` | crates/obs-build/src/options.rs:331-349 | A concrete message in which tag bytes inside an earlier payload win |
| `TagSearch.EventTagIsField80001` | crates/obs-build/src/options.rs:24-24 | The three tag bytes are the encoding of field 80001, length-delimited |
| `TagSearch.EventOptionsRoundTrip` | crates/obs-build/src/options.rs:112-147 | The options read from a message are exactly those its event-option field encodes, applied in order |
| `TagSearch.NumbersExact` | crates/obs-build/src/options.rs:215-235 | A 64-bit value names the tier or severity whose number its low 32 bits are, and none otherwise |
| `TagSearch.OptionsExact` | crates/obs-build/src/options.rs:112-147 | Tier and severity are what the last varint of their field numbers says, the sibling the last UTF-8 text of its own, and the defaults without one |
| `Calendar.DaysToYmdCorrect` | crates/obs-parquet/src/partition.rs:59-72 | The result is the valid Gregorian date of the day number if and only if its year fits 32 bits, against a calendar counted year by year |
| `Calendar.DateRoundTrip` | crates/obs-parquet/src/partition.rs:59-72 | Every date from 1970 to year 2147483647 comes back from its own day number |
| `Calendar.DayNumberInjective` | crates/obs-parquet/src/partition.rs:59-72 | Different dates have different day numbers |
| `Calendar.HourBuckets` | crates/obs-parquet/src/partition.rs:48-55 | Two times whose years fit print the same date and hour if and only if they fall in the same 3600-second bucket, negative times counting as zero |
| `Calendar.DateHourExact` | crates/obs-parquet/src/partition.rs:48-72 | The text is year, month and day of a valid date in that order, in digits of width four, two and two, and 24 times its day number plus the hour is the number of hours since 1970 |
| `Calendar.TimestampFits` | crates/obs-parquet/src/partition.rs:17-30 | Every 64-bit nanosecond timestamp has a year that fits |
| `Calendar.SamePartition` | crates/obs-parquet/src/partition.rs:17-30 | Two envelopes share a partition if and only if their effective services and their hours are equal |
| `Calendar.KeyExact` | crates/obs-parquet/src/partition.rs:17-30 | The partition key has the envelope's service, or the default for an empty one, and the date and hour its timestamp falls in |
| `SpanPairing.SpanPairTracker.FromEnvelopes` | crates/obs-otel/src/traces.rs:129-181 | A batch yields the spans of handling its envelopes in order, then drops exactly the pending entries older than the timeout and reports their ids and event names |
| `SpanPairing.SpanPairTracker.EmittedInOnePiece` | crates/obs-otel/src/traces.rs:105-181 | While nothing times out, the spans a tracker has given so far are those of its whole stream in one piece |
| `SpanPairing.HandleConcat` | crates/obs-otel/src/traces.rs:129-178 | Handling two streams one after the other is handling their concatenation |
| `SpanPairing.BatchingInvisible` | crates/obs-otel/src/traces.rs:105-181 | While no pending entry times out, cutting the stream into batches anywhere yields the same spans and the same pending entries |
| `SpanPairing.PendingExact` | crates/obs-otel/src/traces.rs:73-100 | Ids are pending if and only if the last envelope with them was taken as Started, with that envelope's event, name and time; the empty ids never are |
| `SpanPairing.PairingExact` | crates/obs-otel/src/traces.rs:137-178 | Each envelope is taken as Started or gives exactly one span; the span carries an event if and only if the previous envelope with its ids was taken as Started, and then that one's name, time and labels |
| `SpanPairing.TakenIffOpens` | crates/obs-otel/src/traces.rs:73-160 | An envelope is taken as Started if and only if its name has a legacy Started ending, or it has a declared sibling and either no ids or ids that the last envelope with them, if any, did not open |
| `SpanPairing.SpanExact` | crates/obs-otel/src/traces.rs:162-178 | A span starts `latency_ns` before its end if that label spells a 64-bit number, else `latency_ms` milliseconds before, capped at 2^64 - 1 ns, else at its end, never before zero; status, name, parent and attributes are the envelope's |
| `SpanPairing.LabelExact` | crates/obs-otel/src/traces.rs:163-172 | A label is read as a number if and only if it is digits, after at most one plus sign, that spell a number below 2^64 |
| `SpanPairing.SpansInOrder` | crates/obs-otel/src/traces.rs:137-178 | The spans of a stream are those its envelopes add one by one, in order |
| `SpanPairing.AttachedOnce` | crates/obs-otel/src/traces.rs:97-178 | A span that carries a Started event carries one, and no later span carries the event of the same Started |
| `SpanPairing.ProjectSpan` | crates/obs-otel/src/mapping.rs:172-202 | A span ends at its envelope's timestamp and never starts later, whatever the duration |
| `SpanPairing.VanishesIff` | crates/obs-otel/src/traces.rs:73-160 | An envelope yields no span and leaves its ids without a pending entry if and only if it has no ids and its event has a declared sibling or a legacy Started name |
| `EventColumns.EventColumn.constructor` | crates/obs-parquet/src/event_columns.rs:66-90 | A new column is empty and its index sends every name to its last declaration |
| `EventColumns.EventColumn.AppendUnmatched` | crates/obs-parquet/src/event_columns.rs:95-101 | Every child gains a null and the parent an invalid row |
| `EventColumns.EventColumn.FinishMatchedRow` | crates/obs-parquet/src/event_columns.rs:107-115 | Exactly the unwritten children gain a null and the parent a valid row |
| `EventColumns.EventColumn.Append` | crates/obs-parquet/src/event_columns.rs:141-298 | A typed append adds one converted cell to the named child, a null on a type mismatch, and ignores unknown names |
| `EventColumns.EventColumn.DecodeInto` | crates/obs-parquet/src/writer.rs:254-254 | A decode is its appends in order |
| `EventColumns.EventColumn.Finish` | crates/obs-parquet/src/event_columns.rs:119-132 | Empties the builders and gives the array if and only if all lengths agree |
| `EventColumns.DispatchRow` | crates/obs-parquet/src/writer.rs:240-272 | Each column takes the row meant for it: decoded for the matched column, null for every other |
| `EventColumns.BuildColumns` | crates/obs-parquet/src/writer.rs:240-272 | After a batch each column is its own run over the batch |
| `EventColumns.RowGain` | crates/obs-parquet/src/event_columns.rs:95-196 | A row adds at least one entry to a child, and one exactly when it treats the child cleanly |
| `EventColumns.RowAlignment` | crates/obs-parquet/src/event_columns.rs:95-196 | Every child and the validity have one entry per row if and only if every successful decode wrote each field at most once, every failing one wrote none, and none nulled the struct |
| `EventColumns.FinishSucceedsIff` | crates/obs-parquet/src/event_columns.rs:119-132 | Building the array succeeds if and only if no failing decode wrote a field and each successful one wrote fields at most once, after any whole-struct null |
| `EventColumns.ColumnContents` | crates/obs-parquet/src/event_columns.rs:95-196 | After clean rows every cell is what its own row wrote, converted, and the parent is valid exactly on decoded rows |
| `EventColumns.TableAlignment` | crates/obs-parquet/src/writer.rs:240-272 | A batch is aligned in all columns if and only if every dispatched decode was clean for its column |
| `EventColumns.AtMostOneTyped` | crates/obs-parquet/src/writer.rs:240-272 | A column is non-null on a row if and only if it is the matched one, its schema is registered and its decode succeeded; all other cells of the row are null |
| `EventColumns.ConvertedExact` | crates/obs-parquet/src/event_columns.rs:239-298 | A cell is what its value means in its column: kept in a column of its own type, read modulo 2^64 between signed and unsigned, truncated towards zero and capped from a float, and null otherwise |
| `Unicode.Utf8Exact` | crates/obs-parquet/src/event_columns.rs:239-298 | The byte check accepts exactly the UTF-8 encodings of sequences of Unicode scalar values |
| `InterestCache.ObsCallsite.constructor` | crates/obs-core/src/callsite.rs:69-86 | A new callsite knows nothing |
| `InterestCache.ObsCallsite.Enabled` | crates/obs-core/src/callsite.rs:97-108 | `Off` and `AlwaysOn` are the decision whatever the observer would answer; otherwise the decision is the observer's, and is cached exactly on `ReProbe` |
| `InterestCache.ObsCallsite.Store` | crates/obs-core/src/callsite.rs:111-114 | Interest and generation are both replaced |
| `InterestCache.ObsCallsite.ResetCache` | crates/obs-core/src/callsite.rs:119-123 | The cache is as new |
| `InterestCache.ObsCallsite.EmitOne` | crates/obs-core/src/emit.rs:70-94 | An emit of a callsite is decided by the observer's answer at the start of the unbroken run of its generation |
| `InterestCache.DecisionExact` | crates/obs-core/src/emit.rs:70-94 | Whatever the observers answer, an emit is decided by the answer at the start of the unbroken run of its generation |
| `InterestCache.AlwaysFreshIff` | crates/obs-core/src/callsite.rs:97-123 | All decisions of a run equal asking afresh if and only if the answer never changes inside a run of one generation |
| `InterestCache.FreshIff` | crates/obs-core/src/callsite.rs:97-114 | A rule for which generations may be in flight together makes every interleaving's decisions fresh if and only if it lets only generations with the same answer overlap |
| `InterestCache.SameGenerationFresh` | crates/obs-core/src/callsite.rs:97-114 | While all emits in flight carry one generation, every decision of every interleaving is fresh |
| `InterestCache.StaleRead` | crates/obs-core/src/callsite.rs:111-114 | For any two overlapping generations with different answers, a schedule whose third emit reads the wrong answer |
| `InterestCache.AdvanceKeeps` | crates/obs-core/src/emit.rs:70-94 | Every single load, probe or store keeps the cache consistent for the emits in flight |
| `InterestCache.AloneIsAtomic` | crates/obs-core/src/emit.rs:70-94 | An emit with no other in flight does, step by step, what the one-thread emit does |
| `InterestReload.AnnounceIff` | crates/obs-core/src/observer/standard.rs:169-187 | With reloads in two steps, a rule for announcing generations makes every decision of every obeying interleaving the answer of a filter in force since the announcement its emit saw, if and only if the rule never allows an announcement while an emit is about to store an answer differing from the current filter's |
| `InterestReload.PatientReloadFresh` | crates/obs-core/src/observer/standard.rs:169-187 | Announcing a generation only when no emit begun under an older filter is in flight keeps every decision fresh, whatever the filters answer |
| `InterestReload.HastyReloadFreshIff` | crates/obs-core/src/observer/standard.rs:169-187 | If generations are announced at any time, all interleavings are fresh if and only if no two filter versions answer differently for the callsite |
| `InterestReload.StaleAfterAnnouncement` | crates/obs-core/src/observer/standard.rs:169-187 | From any run whose rule allows an announcement while an emit is about to store a differing answer, an extension in which a later emit gets that answer |
| `InterestReload.AdvanceKeeps` | crates/obs-core/src/emit.rs:70-94 | Every single load, probe or store keeps the cache supported for the emits in flight |
| `LiveTail.Offer` | crates/obs-live-tail/src/lib.rs:453-467 | A matching open subscriber has exactly one counter raised, the one for delivery if and only if the channel has room, and then the envelope queued last; nothing else changes; a matching closed one is marked for removal |
| `LiveTail.OfferedExact` | crates/obs-live-tail/src/lib.rs:453-467 | That description determines the new subscriber |
| `LiveTail.Accepts` | crates/obs-live-tail/src/lib.rs:152-173 | The loop over matchers, then the severity, decides acceptance |
| `LiveTail.MatchesLaws` | crates/obs-live-tail/src/lib.rs:152-173 | A filter without matchers and severity accepts every envelope; each matcher narrows it to envelopes with that label and value, the severity to ranks not below it |
| `LiveTail.Registry.constructor` | crates/obs-live-tail/src/lib.rs:274-282 | A new registry is empty |
| `LiveTail.Registry.CountBy` | crates/obs-live-tail/src/lib.rs:366-377 | The count of subscribers requiring `key = value`, saturated at 32 bits |
| `LiveTail.Registry.EnforceCaps` | crates/obs-live-tail/src/lib.rs:418-443 | No refusal if and only if the total and every finite cap of the filter have room; a refusal names a cap that is exhausted |
| `LiveTail.Registry.SweepClosed` | crates/obs-live-tail/src/lib.rs:321-331 | Exactly the closed subscribers go |
| `LiveTail.Registry.Subscribe` | crates/obs-live-tail/src/lib.rs:294-319 | After the sweep, registers an empty channel of the configured capacity, 256 if none is given, under a new id if and only if all caps have room |
| `LiveTail.Registry.Unsubscribe` | crates/obs-live-tail/src/lib.rs:334-336 | Only that subscriber goes; the result tells whether it was there |
| `LiveTail.Registry.SweepIdle` | crates/obs-live-tail/src/lib.rs:347-363 | Exactly the subscribers whose last activity lies more than the budget before the sweep go, and they are counted |
| `LiveTail.Registry.DeliverEnvelope` | crates/obs-live-tail/src/lib.rs:449-473 | Every subscriber is offered the envelope once; matching closed ones are removed |
| `LiveTail.Registry.TryRecv` | crates/obs-live-tail/src/lib.rs:226-228 | The receiver takes the oldest queued envelope, if any |
| `LiveTail.Registry.DropReceiver` | crates/obs-live-tail/src/lib.rs:203-206 | Dropping the receiver closes the channel and changes nothing else |
| `LiveTail.Registry.AccountNow` | crates/obs-live-tail/src/lib.rs:449-473 | At any moment, for every registered subscriber of a registry, counters and channel account for every matching envelope offered since its registration |
| `LiveTail.OfferAccounted` | crates/obs-live-tail/src/lib.rs:457-467 | An offer is accepted if and only if the channel has room, and keeps the account of delivered, dropped and queued envelopes |
| `LiveTail.DeliveredInOrder` | crates/obs-live-tail/src/lib.rs:449-473 | In every run, for every registered subscriber: each matching envelope offered since its registration raised exactly one counter, and received plus queued are exactly the delivered ones in the order offered, within capacity |
| `LiveTailCaps.CapsBounded` | crates/obs-live-tail/src/lib.rs:294-443 | With at most k calls in flight the registry never exceeds `max_total + k - 1` subscribers, nor a capped `key = value` its cap plus k - 1; with k = 1 caps are exact |
| `LiveTailCaps.StepKeeps` | crates/obs-live-tail/src/lib.rs:294-331 | Every step of every call, delivery, removal or sweep keeps registered plus passed calls within the bound |
| `LiveTailCaps.BoundReached` | crates/obs-live-tail/src/lib.rs:294-443 | For every filter and every limit its caps allow, some run with at most k calls in flight registers limit + k - 1 subscribers |
| `LiveTailCaps.SequentialRun` | crates/obs-live-tail/src/lib.rs:294-319 | A run of the registry is an interleaving with at most one call in flight |
| `LiveTailCaps.CapsNow` | crates/obs-live-tail/src/lib.rs:294-443 | A registry used without overlapping calls never exceeds a cap |
| `Base64.Base64Encode` | crates/obs-clickhouse/src/sink.rs:416-446 | The index loop with its two tail cases builds the recursive encoding |
| `Base64.DecodeEncode` | crates/obs-clickhouse/src/sink.rs:416-446 | A strict decoder (section 4 of RFC 4648) gives every byte string back |
| `Base64.EncodeDecode` | crates/obs-clickhouse/src/sink.rs:416-446 | Every text the strict decoder accepts is the encoding of what it decodes to |
| `Base64.RoundTrip` | crates/obs-clickhouse/src/sink.rs:416-446 | A text is the encoding of a byte string if and only if it decodes to it |
| `Base64.Shape` | crates/obs-clickhouse/src/sink.rs:416-446 | The length is four times the ceiling of n / 3, padding stands exactly at the end, and every other character is in the standard alphabet |
| `Base64.Alphabet` | crates/obs-clickhouse/src/sink.rs:416-446 | The 64 symbols are A to Z, a to z, 0 to 9, plus and slash, in that order |

## Left out

- Backoff delays and jitter (`compute_backoff`, `splitmix64`), self-events, the ingress channel and what shutdown leaves in it: no safety property of the modelled state depends on them.
- A crash that loses the worker's buffers: a run of `BatchWorker` that continues after `Shutdown` stands for the next process on the same spool, with counters carried on.
- Spool faults in the worker: a spool write happens or not as a whole, and removal after a successful re-ship succeeds; otherwise a batch can be uploaded twice.
- File times: the creation time and the stamp in the name of a file are one clock reading; equal times keep directory order, and after an eviction or a tick the model's directory is in age order.
- `admit`'s too-large guard cannot fire for a real envelope, whose encoded length is a `u32`; the model keeps the branch by letting sizes be any number.
- EnvelopeSpool.Spool.List: files that do not read back are removed in one assignment after the loop rather than one by one.
- EnvelopeSpool.Spool.Write: file-system errors are left to the worker's `spoolWrite` answer.
- AuditWriter.SpoolWriter.Append: `pending_records` does not wrap at 2^32, which needs that many appends without a sync.
- AuditWriter.SpoolWriter.CapHolds: says nothing of a cap of 2^64 - 1, which the saturating sum of the source never exceeds.
- Error values: refusals and failures are told apart only where behaviour differs, not by kind or message.
- The directory walk of `recover` over several files, with deletion of drained ones: one file at a time is modelled.
- AuditWriter.HarmlessIff: assumes a codec with some envelope of 1 to 255 bytes and two envelopes whose checksums differ in the first stored byte; whether bytes behind a torn body happen to decode as a record depends on the codec.
- Codecs: the envelope encoding is any function with a decoder that inverts it and lengths below 2^32.
- FilterSplit.SplitDirectives: bracket depth wraps at 2^31 as in a build without overflow checks; a checked build stops there instead.
- `FieldOptions` and `MetricSpec` decoding, and the enum tables of the option scanner beyond tiers and severities: further visitors over the same walk.
- WireScanner.ReadVarint: the bits of one byte are added rather than or-ed into the value, which is the same because they are disjoint.
- `PartitionKey::dir`: string formatting only.
- OTLP JSON for spans, and the order in which orphans are reported.
- EventColumns.EventColumn.Append: floats are reals, so NaN, infinities and rounding of large integers are not modelled.
- Generated decoders and Arrow builders: a decode is any list of appends with a verdict; a builder is a list of cells.
- InterestCache.FreshIff: takes the answer as a function of the generation; `InterestReload.AnnounceIff` does not.
- InterestCache.SameGenerationFresh: likewise; `InterestReload.PatientReloadFresh` is its form with reloads.
- Interest cache under memory models weaker than sequential consistency, `reset_cache` racing with emits, and generations that wrap at 2^32.
- LiveTail.Registry.DeliverEnvelope: counters do not wrap at 2^64, and what a receiver drains after its subscriber was removed is not modelled.
- LiveTailCaps.CapsBounded: counting all caps is one step of a call.
- Registry, scrubber, scope stack, observer pool, CLI, configuration loading, code generation, Parquet, Arrow and OTLP transport: plumbing or foreign libraries.
