/** Pairing Started with Completed envelopes into spans (crates/obs-otel/src/traces.rs, mapping.rs). */
module SpanPairing {
  import opened Bytes

  const U64_MAX := 0xFFFF_FFFF_FFFF_FFFF

  datatype Envelope = Envelope(traceId: string, spanId: string, parentSpanId: string, fullName: string,
                               tsNs: nat, isError: bool, labels: map<string, string>)
  datatype SpanEvent = SpanEvent(name: string, at: nat, attributes: map<string, string>)
  datatype Span = Span(name: string, start: nat, end: nat, traceId: string, spanId: string, parentSpanId: string,
                       status: string, attributes: map<string, string>, events: seq<SpanEvent>)

  type Ids = (string, string)

  datatype Pending = Pending(record: SpanEvent, fullName: string, queuedAt: int)
  type PendingMap = map<Ids, Pending>

  /** An envelope and the instant the tracker handles it. */
  datatype Timed = Timed(env: Envelope, now: int)

  function IdsOf(e: Envelope): Ids {
    (e.traceId, e.spanId)
  }

  const NO_IDS: Ids := ("", "")

  predicate EndsWith(s: string, suffix: string) {
    |suffix| <= |s| && s[|s| - |suffix|..] == suffix
  }

  // ---- Projection ----

  function Digits(s: string): Option<nat> {
    if s == "" then Some(0)
    else
      var c, front := s[|s| - 1], Digits(s[..|s| - 1]);
      if '0' <= c <= '9' && front.Some? then Some(10 * front.value + (c as int - '0' as int)) else None
  }

  /** `str::parse::<u64>`: an optional plus sign, at least one digit, no overflow. */
  function ParseU64(s: string): Option<nat> {
    var body := if s != "" && s[0] == '+' then s[1..] else s;
    if body == "" then None
    else
      match Digits(body)
      case None => None
      case Some(n) => if n <= U64_MAX then Some(n) else None
  }

  function LabelU64(e: Envelope, name: string): Option<nat> {
    if name in e.labels then ParseU64(e.labels[name]) else None
  }

  function Duration(e: Envelope): Option<nat> {
    match LabelU64(e, "latency_ns")
    case Some(ns) => Some(ns)
    case None =>
      match LabelU64(e, "latency_ms")
      case Some(ms) => Some(if ms * 1_000_000 <= U64_MAX then ms * 1_000_000 else U64_MAX)
      case None => None
  }

  function ProjectSpan(e: Envelope, duration: Option<nat>): (s: Span)
    ensures s.start <= s.end == e.tsNs && s.events == []
  {
    var d := if duration.Some? then duration.value else 0;
    Span(e.fullName, if d <= e.tsNs then e.tsNs - d else 0, e.tsNs, e.traceId, e.spanId, e.parentSpanId,
         if e.isError then "ERROR" else "UNSET", e.labels["event.name" := e.fullName], [])
  }

  function StartedEvent(e: Envelope): SpanEvent {
    SpanEvent("started", e.tsNs, e.labels)
  }

  // ---- One envelope ----

  /** Whether the schema registry declares a paired sibling for the envelope's event. */
  type Registry = Envelope -> bool

  predicate TakenAsStarted(paired: Registry, pending: PendingMap, e: Envelope) {
    (paired(e) && IdsOf(e) !in pending) || EndsWith(e.fullName, "Started") || EndsWith(e.fullName, ".Start")
  }

  function NoteStarted(pending: PendingMap, t: Timed): PendingMap {
    if IdsOf(t.env) == NO_IDS then pending
    else pending[IdsOf(t.env) := Pending(StartedEvent(t.env), t.env.fullName, t.now)]
  }

  function SpanFor(pending: PendingMap, e: Envelope): Span {
    var span := ProjectSpan(e, Duration(e));
    if IdsOf(e) in pending then span.(events := [pending[IdsOf(e)].record]) else span
  }

  datatype Step = Step(pending: PendingMap, spans: seq<Span>)

  function Handle(paired: Registry, pending: PendingMap, t: Timed): Step {
    if TakenAsStarted(paired, pending, t.env) then Step(NoteStarted(pending, t), [])
    else Step(pending - {IdsOf(t.env)}, [SpanFor(pending, t.env)])
  }

  /** A list of envelopes without the sweep. */
  function HandleAll(paired: Registry, pending: PendingMap, ts: seq<Timed>): Step
    decreases |ts|
  {
    if ts == [] then Step(pending, [])
    else
      var before := HandleAll(paired, pending, ts[..|ts| - 1]);
      var last := Handle(paired, before.pending, ts[|ts| - 1]);
      Step(last.pending, before.spans + last.spans)
  }

  lemma HandleSnoc(paired: Registry, pending: PendingMap, ts: seq<Timed>, t: Timed)
    ensures var before := HandleAll(paired, pending, ts);
            var last := Handle(paired, before.pending, t);
            HandleAll(paired, pending, ts + [t]) == Step(last.pending, before.spans + last.spans)
  {
    hide Handle;
    assert (ts + [t])[..|ts|] == ts;
  }

  // ---- Batches ----

  predicate Stale(timeout: int, now: int, p: Pending) {
    (if now >= p.queuedAt then now - p.queuedAt else 0) >= timeout
  }

  function Sweep(timeout: int, now: int, pending: PendingMap): PendingMap {
    map k | k in pending && !Stale(timeout, now, pending[k]) :: pending[k]
  }

  /** The ids and event names of the entries a sweep drops. */
  function Orphans(timeout: int, now: int, pending: PendingMap): map<Ids, string> {
    map k | k in pending && Stale(timeout, now, pending[k]) :: pending[k].fullName
  }

  class SpanPairTracker {
    const paired: Registry
    const timeout: int
    var pending: PendingMap

    // The batches projected so far and the spans they gave.
    ghost var batches: seq<Batch>
    ghost var emitted: seq<Span>

    ghost predicate Valid()
      reads this
    {
      Step(pending, emitted) == RunBatches(paired, timeout, map[], batches)
    }

    constructor (paired: Registry, timeout: int)
      ensures this.paired == paired && this.timeout == timeout && pending == map[]
      ensures Valid() && batches == [] && emitted == []
    {
      this.paired, this.timeout, pending, batches, emitted := paired, timeout, map[], [], [];
    }

    /** Project one batch, then drop the Started entries that have waited too long. */
    method FromEnvelopes(ts: seq<Timed>, sweepAt: int) returns (spans: seq<Span>, orphaned: map<Ids, string>)
      requires Valid()
      modifies this
      ensures var r := HandleAll(paired, old(pending), ts);
              && spans == r.spans
              && pending == Sweep(timeout, sweepAt, r.pending)
              && orphaned == Orphans(timeout, sweepAt, r.pending)
      ensures var held := HandleAll(paired, old(pending), ts).pending;
              forall k :: k in held ==>
                && (k in orphaned <==> timeout <= 0 || sweepAt - held[k].queuedAt >= timeout)
                && (k in pending <==> k !in orphaned) && (k in orphaned ==> orphaned[k] == held[k].fullName)
      ensures Valid() && batches == old(batches) + [Batch(ts, sweepAt)] && emitted == old(emitted) + spans
    {
      hide RunBatches;
      spans := ProjectAll(ts);
      orphaned := map k | k in pending && Stale(timeout, sweepAt, pending[k]) :: pending[k].fullName;
      pending := map k | k in pending && !Stale(timeout, sweepAt, pending[k]) :: pending[k];
      RunBatchesSnoc(paired, timeout, map[], batches, Batch(ts, sweepAt));
      batches, emitted := batches + [Batch(ts, sweepAt)], emitted + spans;
    }

    /** The loop over one batch. */
    method ProjectAll(ts: seq<Timed>) returns (spans: seq<Span>)
      modifies this`pending
      ensures Step(pending, spans) == HandleAll(paired, old(pending), ts)
    {
      hide Duration, StartedEvent, EndsWith;
      spans := [];
      for i := 0 to |ts|
        invariant Step(pending, spans) == HandleAll(paired, old(pending), ts[..i])
      {
        var e, now := ts[i].env, ts[i].now;
        assert ts[..i + 1] == ts[..i] + [ts[i]];
        ghost var before, h := spans, Handle(paired, pending, ts[i]);
        hide HandleAll;
        var startedHalf := paired(e) && IdsOf(e) !in pending;
        if startedHalf || EndsWith(e.fullName, "Started") || EndsWith(e.fullName, ".Start") {
          if !(e.traceId == "" && e.spanId == "") {
            pending := pending[IdsOf(e) := Pending(StartedEvent(e), e.fullName, now)];
          }
          assert before + h.spans == before;
        } else {
          var span := ProjectSpan(e, Duration(e));
          if IdsOf(e) in pending {
            assert span.events + [pending[IdsOf(e)].record] == [pending[IdsOf(e)].record];
            span := span.(events := span.events + [pending[IdsOf(e)].record]);
          }
          pending := pending - {IdsOf(e)};
          spans := spans + [span];
          assert [span] == h.spans;
        }
        assert Step(pending, spans) == Step(h.pending, before + h.spans);
        HandleSnoc(paired, old(pending), ts[..i], ts[i]);
      }
      assert ts[..|ts|] == ts;
    }

    /** While nothing times out, the spans given so far are those of the whole stream in one piece. */
    lemma EmittedInOnePiece()
      requires Valid() && NoTimeout(paired, timeout, map[], batches)
      ensures Step(pending, emitted) == HandleAll(paired, map[], Flat(batches))
    {
      BatchingInvisible(paired, timeout, map[], batches);
    }
  }

  // ---- Cutting the stream into batches ----

  datatype Batch = Batch(ts: seq<Timed>, sweepAt: int)

  function RunBatches(paired: Registry, timeout: int, pending: PendingMap, bs: seq<Batch>): Step
    decreases |bs|
  {
    if bs == [] then Step(pending, [])
    else
      var r := HandleAll(paired, pending, bs[0].ts);
      var rest := RunBatches(paired, timeout, Sweep(timeout, bs[0].sweepAt, r.pending), bs[1..]);
      Step(rest.pending, r.spans + rest.spans)
  }

  lemma {:induction false} RunBatchesSnoc(paired: Registry, timeout: int, pending: PendingMap, bs: seq<Batch>, b: Batch)
    ensures var before := RunBatches(paired, timeout, pending, bs);
            var r := HandleAll(paired, before.pending, b.ts);
            RunBatches(paired, timeout, pending, bs + [b]) == Step(Sweep(timeout, b.sweepAt, r.pending), before.spans + r.spans)
    decreases |bs|
  {
    hide HandleAll, Sweep;
    if bs == [] {
      assert bs + [b] == [b] && [b][1..] == [];
      var r := HandleAll(paired, pending, b.ts);
      assert r.spans + [] == r.spans && [] + r.spans == r.spans;
    } else {
      assert (bs + [b])[0] == bs[0] && (bs + [b])[1..] == bs[1..] + [b];
      var first := HandleAll(paired, pending, bs[0].ts);
      var swept := Sweep(timeout, bs[0].sweepAt, first.pending);
      RunBatchesSnoc(paired, timeout, swept, bs[1..], b);
      var rest := RunBatches(paired, timeout, swept, bs[1..]);
      Assoc(first.spans, rest.spans, HandleAll(paired, rest.pending, b.ts).spans);
    }
  }

  /** No sweep along the way finds a stale entry. */
  ghost predicate NoTimeout(paired: Registry, timeout: int, pending: PendingMap, bs: seq<Batch>)
    decreases |bs|
  {
    bs == [] ||
    (var after := HandleAll(paired, pending, bs[0].ts).pending;
     && (forall k :: k in after ==> !Stale(timeout, bs[0].sweepAt, after[k]))
     && NoTimeout(paired, timeout, after, bs[1..]))
  }

  ghost function Flat(bs: seq<Batch>): seq<Timed> {
    if bs == [] then [] else bs[0].ts + Flat(bs[1..])
  }

  lemma {:induction false} HandleConcat(paired: Registry, pending: PendingMap, a: seq<Timed>, b: seq<Timed>)
    ensures var r := HandleAll(paired, pending, a);
            var s := HandleAll(paired, r.pending, b);
            HandleAll(paired, pending, a + b) == Step(s.pending, r.spans + s.spans)
    decreases |b|
  {
    hide Handle;
    var r := HandleAll(paired, pending, a);
    if b == [] {
      assert a + b == a && r.spans + [] == r.spans;
    } else {
      var init, last := b[..|b| - 1], b[|b| - 1];
      HandleConcat(paired, pending, a, init);
      assert (a + b)[..|a + b| - 1] == a + init && (a + b)[|a + b| - 1] == last;
      var s := HandleAll(paired, r.pending, init);
      var l := Handle(paired, s.pending, last);
      assert (r.spans + s.spans) + l.spans == r.spans + (s.spans + l.spans);
    }
  }

  /** While nothing times out, cutting the stream into batches anywhere yields the same spans. */
  lemma {:induction false} BatchingInvisible(paired: Registry, timeout: int, pending: PendingMap, bs: seq<Batch>)
    requires NoTimeout(paired, timeout, pending, bs)
    ensures RunBatches(paired, timeout, pending, bs) == HandleAll(paired, pending, Flat(bs))
    decreases |bs|
  {
    hide HandleAll;
    if bs == [] {
      HandleNothing(paired, pending);
    } else {
      var after := HandleAll(paired, pending, bs[0].ts).pending;
      assert Sweep(timeout, bs[0].sweepAt, after) == after;
      BatchingInvisible(paired, timeout, after, bs[1..]);
      HandleConcat(paired, pending, bs[0].ts, Flat(bs[1..]));
    }
  }

  lemma HandleNothing(paired: Registry, pending: PendingMap)
    ensures HandleAll(paired, pending, []) == Step(pending, [])
  {}

  // ---- Which Started goes with which span ----

  ghost function PendingAt(paired: Registry, ts: seq<Timed>, n: nat): PendingMap
    requires n <= |ts|
  {
    HandleAll(paired, map[], ts[..n]).pending
  }

  ghost predicate Taken(paired: Registry, ts: seq<Timed>, i: nat)
    requires i < |ts|
  {
    TakenAsStarted(paired, PendingAt(paired, ts, i), ts[i].env)
  }

  /** The last index before `n` whose envelope has these ids. */
  ghost function LastWith(ts: seq<Timed>, n: nat, ids: Ids): (r: Option<nat>)
    requires n <= |ts|
    ensures r.Some? ==> r.value < n && IdsOf(ts[r.value].env) == ids
                        && forall m :: r.value < m < n ==> IdsOf(ts[m].env) != ids
    ensures r.None? ==> forall m :: 0 <= m < n ==> IdsOf(ts[m].env) != ids
  {
    if n == 0 then None
    else if IdsOf(ts[n - 1].env) == ids then Some(n - 1)
    else LastWith(ts, n - 1, ids)
  }

  lemma PendingStep(paired: Registry, ts: seq<Timed>, n: nat)
    requires n < |ts|
    ensures PendingAt(paired, ts, n + 1) == Handle(paired, PendingAt(paired, ts, n), ts[n]).pending
  {
    hide Handle;
    assert ts[..n + 1][..n] == ts[..n] && ts[..n + 1][n] == ts[n];
  }

  /** What handling one envelope does to the entry for `ids`. */
  lemma HandleEntry(paired: Registry, pending: PendingMap, t: Timed, ids: Ids)
    ensures var after := Handle(paired, pending, t).pending;
            var same := (ids in after <==> ids in pending) && (ids in pending ==> after[ids] == pending[ids]);
            if IdsOf(t.env) != ids then same
            else if !TakenAsStarted(paired, pending, t.env) then ids !in after
            else if ids == NO_IDS then same
            else ids in after && after[ids] == Pending(StartedEvent(t.env), t.env.fullName, t.now)
  {
    hide TakenAsStarted, SpanFor, StartedEvent;
  }

  /**
   * Ids are pending exactly when the last envelope with those ids was taken as Started, and what is
   * pending is that envelope's event, name and time; the pair of empty ids is never pending.
   */
  lemma {:induction false} PendingExact(paired: Registry, ts: seq<Timed>, n: nat, ids: Ids)
    requires n <= |ts|
    ensures var p, i := PendingAt(paired, ts, n), LastWith(ts, n, ids);
            && (ids in p <==> ids != NO_IDS && i.Some? && Taken(paired, ts, i.value))
            && (ids in p ==> p[ids] == Pending(StartedEvent(ts[i.value].env), ts[i.value].env.fullName, ts[i.value].now))
    decreases n
  {
    hide TakenAsStarted, Handle, StartedEvent;
    if n == 0 {
      assert ts[..0] == [];
    } else {
      hide PendingAt;
      PendingExact(paired, ts, n - 1, ids);
      PendingStep(paired, ts, n - 1);
      HandleEntry(paired, PendingAt(paired, ts, n - 1), ts[n - 1], ids);
    }
  }

  /** The Started whose event the span of envelope `j` carries, if `j` gives a span and one was pending. */
  ghost function SourceOf(paired: Registry, ts: seq<Timed>, j: nat): (r: Option<nat>)
    requires j < |ts|
    ensures r.Some? ==> r.value < j && IdsOf(ts[r.value].env) == IdsOf(ts[j].env) != NO_IDS && Taken(paired, ts, r.value)
  {
    var i := LastWith(ts, j, IdsOf(ts[j].env));
    if !Taken(paired, ts, j) && IdsOf(ts[j].env) != NO_IDS && i.Some? && Taken(paired, ts, i.value) then i else None
  }

  /** What envelope `j` of a stream adds to the spans. */
  ghost function SpansAt(paired: Registry, ts: seq<Timed>, j: nat): seq<Span>
    requires j < |ts|
  {
    Handle(paired, PendingAt(paired, ts, j), ts[j]).spans
  }

  /**
   * Span pairing. Every envelope is either taken as Started and gives no span, or gives exactly one
   * span of its own, ending at its timestamp and not before its start. That span carries one event
   * exactly when the previous envelope with the same ids was taken as Started, and it is that
   * envelope's.
   */
  lemma PairingExact(paired: Registry, ts: seq<Timed>, j: nat)
    requires j < |ts|
    ensures var e, out, i := ts[j].env, SpansAt(paired, ts, j), SourceOf(paired, ts, j);
            if Taken(paired, ts, j) then out == []
            else
              && |out| == 1 && out[0].start <= out[0].end == e.tsNs && (out[0].traceId, out[0].spanId) == IdsOf(e)
              && out[0].events == if i.Some? then [SpanEvent("started", ts[i.value].env.tsNs, ts[i.value].env.labels)] else []
  {
    hide TakenAsStarted, Duration;
    PendingExact(paired, ts, j, IdsOf(ts[j].env));
  }

  /** Taken as Started by its own name: `...Started` or `....Start`. */
  ghost predicate NamedStart(e: Envelope) {
    exists front: string :: e.fullName == front + "Started" || e.fullName == front + ".Start"
  }

  lemma NamedStartExact(e: Envelope)
    ensures NamedStart(e) <==> EndsWith(e.fullName, "Started") || EndsWith(e.fullName, ".Start")
  {
    var s := e.fullName;
    if EndsWith(s, "Started") {
      assert s == s[..|s| - 7] + "Started";
    }
    if EndsWith(s, ".Start") {
      assert s == s[..|s| - 6] + ".Start";
    }
  }

  /** Whether envelope `j` opens a pair: by its name, or as a paired event when the last envelope with its ids did not. */
  ghost predicate Opens(paired: Registry, ts: seq<Timed>, j: nat)
    requires j < |ts|
    decreases j
  {
    var e, i := ts[j].env, LastWith(ts, j, IdsOf(ts[j].env));
    NamedStart(e) || (paired(e) && (IdsOf(e) == NO_IDS || i.None? || !Opens(paired, ts, i.value)))
  }

  /** Which half an envelope is depends only on the halves before it: paired events with the same ids take turns. */
  lemma {:induction false} TakenIffOpens(paired: Registry, ts: seq<Timed>, j: nat)
    requires j < |ts|
    ensures Taken(paired, ts, j) <==> Opens(paired, ts, j)
    decreases j
  {
    var e, i := ts[j].env, LastWith(ts, j, IdsOf(ts[j].env));
    PendingExact(paired, ts, j, IdsOf(e));
    if i.Some? {
      TakenIffOpens(paired, ts, i.value);
    }
    hide PendingAt, EndsWith, NamedStart;
    NamedStartExact(e);
  }

  // ---- When a span starts ----

  /** The number a label spells in decimal, as `u64`: an optional plus sign and digits only, no more than 2^64 - 1. */
  ghost predicate Spells(e: Envelope, name: string, n: nat) {
    && name in e.labels && n <= 0xFFFF_FFFF_FFFF_FFFF
    && var body := Unsigned(e.labels[name]);
       body != "" && IsDigits(body) && Weight(body) == n
  }

  ghost function Unsigned(s: string): string {
    if s != "" && s[0] == '+' then s[1..] else s
  }

  ghost predicate IsDigits(s: string) {
    forall i :: 0 <= i < |s| ==> '0' <= s[i] <= '9'
  }

  /** The value of a digit string, most significant digit first. */
  ghost function Weight(s: string): int
    decreases |s|
  {
    if s == "" then 0 else (s[0] as int - '0' as int) * Tens(|s| - 1) + Weight(s[1..])
  }

  ghost function Tens(n: nat): nat {
    if n == 0 then 1 else 10 * Tens(n - 1)
  }

  lemma {:induction false} WeightSnoc(s: string, c: char)
    ensures Weight(s + [c]) == 10 * Weight(s) + (c as int - '0' as int)
    decreases |s|
  {
    if s == "" {
      assert s + [c] == [c] && [c][1..] == "";
    } else {
      var d := s[0] as int - '0' as int;
      WeightSnoc(s[1..], c);
      assert (s + [c])[0] == s[0] && (s + [c])[1..] == s[1..] + [c];
      TenTimes(d, Tens(|s| - 1));
    }
  }

  lemma TenTimes(d: int, t: int)
    ensures d * (10 * t) == 10 * (d * t)
  {}

  /** Reading digits succeeds exactly on digits, with the value they spell. */
  lemma {:induction false} DigitsExact(s: string)
    ensures Digits(s).Some? <==> IsDigits(s)
    ensures Digits(s).Some? ==> Digits(s).value == Weight(s)
    decreases |s|
  {
    if s != "" {
      var init, c := s[..|s| - 1], s[|s| - 1];
      assert s == init + [c];
      DigitsExact(init);
      WeightSnoc(init, c);
    }
  }

  /** A label is read as a number exactly when it spells one. */
  lemma LabelExact(e: Envelope, name: string)
    ensures forall n: nat :: LabelU64(e, name) == Some(n) <==> Spells(e, name, n)
  {
    hide Digits, Weight, IsDigits;
    if name in e.labels {
      DigitsExact(Unsigned(e.labels[name]));
    }
  }

  /** `end` less `d`, but not below zero. */
  function Before(end: nat, d: nat): nat {
    if d <= end then end - d else 0
  }

  /**
   * The span of an envelope. It starts the latency before its end: `latency_ns` if that label spells a
   * 64-bit number, else `latency_ms` in milliseconds, capped at 2^64 - 1 nanoseconds, else not at all.
   * Its status is the envelope's severity class, and its name, parent and attributes are the envelope's.
   */
  lemma SpanExact(paired: Registry, ts: seq<Timed>, j: nat)
    requires j < |ts| && !Taken(paired, ts, j)
    ensures var e, out := ts[j].env, SpansAt(paired, ts, j);
            && |out| == 1 && out[0].end == e.tsNs
            && (forall n: nat :: Spells(e, "latency_ns", n) ==> out[0].start == Before(e.tsNs, n))
            && ((forall n: nat :: !Spells(e, "latency_ns", n)) ==>
                  && (forall m: nat :: Spells(e, "latency_ms", m) ==>
                        var ns := if m * 1_000_000 < 0x1_0000_0000_0000_0000 then m * 1_000_000 else 0xFFFF_FFFF_FFFF_FFFF;
                        out[0].start == Before(e.tsNs, ns))
                  && ((forall m: nat :: !Spells(e, "latency_ms", m)) ==> out[0].start == e.tsNs))
            && out[0].status == (if e.isError then "ERROR" else "UNSET")
            && out[0].name == e.fullName && out[0].parentSpanId == e.parentSpanId
            && out[0].attributes == e.labels["event.name" := e.fullName]
  {
    var e := ts[j].env;
    LabelExact(e, "latency_ns");
    LabelExact(e, "latency_ms");
    hide LabelU64, Spells, PendingAt, TakenAsStarted;
    if LabelU64(e, "latency_ns").Some? { assert Spells(e, "latency_ns", LabelU64(e, "latency_ns").value); }
    if LabelU64(e, "latency_ms").Some? { assert Spells(e, "latency_ms", LabelU64(e, "latency_ms").value); }
  }

  /** Two different spans never carry the event of the same Started. */
  lemma AttachedOnce(paired: Registry, ts: seq<Timed>, j: nat, k: nat)
    requires j < k < |ts| && SourceOf(paired, ts, j).Some?
    ensures |SpansAt(paired, ts, j)| == 1 && SpansAt(paired, ts, j)[0].events == [StartedEvent(ts[SourceOf(paired, ts, j).value].env)]
    ensures SourceOf(paired, ts, k) != SourceOf(paired, ts, j)
  {
    hide SpansAt, Taken;
    PairingExact(paired, ts, j);
  }

  /** The event has a declared sibling, or is named as a Started event. */
  ghost predicate MeansStarted(paired: Registry, e: Envelope) {
    paired(e) || NamedStart(e)
  }

  /**
   * An envelope leaves no trace, neither a span nor a pending entry for its ids, exactly when it has no ids
   * and its event has a declared sibling or a legacy Started name.
   */
  lemma VanishesIff(paired: Registry, ts: seq<Timed>, j: nat)
    requires j < |ts|
    ensures SpansAt(paired, ts, j) == [] && IdsOf(ts[j].env) !in PendingAt(paired, ts, j + 1)
       <==> IdsOf(ts[j].env) == NO_IDS && MeansStarted(paired, ts[j].env)
  {
    hide EndsWith, SpanFor, StartedEvent, NamedStart;
    NamedStartExact(ts[j].env);
    PendingStep(paired, ts, j);
    PendingExact(paired, ts, j, NO_IDS);
  }

  /** The spans of a stream are those of its envelopes, in order. */
  lemma SpansInOrder(paired: Registry, ts: seq<Timed>, n: nat)
    requires n < |ts|
    ensures HandleAll(paired, map[], ts[..n + 1]).spans == HandleAll(paired, map[], ts[..n]).spans + SpansAt(paired, ts, n)
  {
    hide Handle;
    assert ts[..n + 1][..n] == ts[..n] && ts[..n + 1][n] == ts[n];
  }
}
