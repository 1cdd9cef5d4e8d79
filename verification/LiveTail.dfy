/** The live-tail subscriber registry (crates/obs-live-tail/src/lib.rs). */
module LiveTail {
  import opened Bytes

  const U32_MAX := 0xFFFF_FFFF
  const DEFAULT_CHANNEL := 256

  datatype Envelope = Envelope(labels: map<string, string>, rank: nat, payload: seq<byte>)

  datatype Filter = Filter(matchers: map<string, string>, minRank: Option<nat>)

  datatype Config = Config(maxPerKey: map<string, nat>, maxTotal: nat, idleMs: nat, channelCapacity: nat) {
    /** The caps are `u32`. */
    predicate Valid() {
      maxTotal <= U32_MAX && forall k :: k in maxPerKey ==> maxPerKey[k] <= U32_MAX
    }
  }

  /** The clock as read when a subscriber is served. */
  type Clock = nat -> nat

  predicate Matches(f: Filter, e: Envelope) {
    && (forall k :: k in f.matchers ==> k in e.labels && e.labels[k] == f.matchers[k])
    && (f.minRank.Some? ==> e.rank >= f.minRank.value)
  }

  /** A filter without matchers and severity accepts everything; each matcher and the severity narrow it by their own test. */
  lemma MatchesLaws(f: Filter, e: Envelope, k: string, v: string, r: nat)
    ensures Matches(Filter(map[], None), e)
    ensures k !in f.matchers ==> (Matches(f.(matchers := f.matchers[k := v]), e) <==> Matches(f, e) && k in e.labels && e.labels[k] == v)
    ensures f.minRank.None? ==> (Matches(f.(minRank := Some(r)), e) <==> Matches(f, e) && !(e.rank < r))
  {
    if k !in f.matchers {
      var g := f.(matchers := f.matchers[k := v]);
      assert forall j :: j in f.matchers ==> j in g.matchers && g.matchers[j] == f.matchers[j];
      assert k in g.matchers && g.matchers[k] == v;
    }
  }

  /** The loop over the matchers, then the severity. */
  method Accepts(f: Filter, e: Envelope) returns (ok: bool)
    ensures ok == Matches(f, e)
  {
    var todo := f.matchers.Keys;
    while todo != {}
      invariant todo <= f.matchers.Keys
      invariant forall k :: k in f.matchers && k !in todo ==> k in e.labels && e.labels[k] == f.matchers[k]
    {
      var k :| k in todo;
      if k !in e.labels || e.labels[k] != f.matchers[k] { return false; }
      todo := todo - {k};
    }
    if f.minRank.Some? && e.rank < f.minRank.value { return false; }
    return true;
  }

  function CapacityOf(c: Config): (n: nat)
    ensures n > 0
  {
    if c.channelCapacity == 0 then DEFAULT_CHANNEL else c.channelCapacity
  }

  /** A registry entry together with both ends of its channel. */
  datatype Subscriber = Subscriber(filter: Filter, capacity: nat, queue: seq<Envelope>, received: seq<Envelope>,
                                   closed: bool, delivered: nat, dropped: nat, lastMs: nat)

  type Subscribers = map<nat, Subscriber>

  // ---- Caps ----

  ghost function HavingAmong(subs: Subscribers, ids: set<nat>, key: string, value: string): set<nat>
    requires ids <= subs.Keys
  {
    set id | id in ids && key in subs[id].filter.matchers && subs[id].filter.matchers[key] == value
  }

  /** The subscribers whose filter requires `key = value`. */
  ghost function Having(subs: Subscribers, key: string, value: string): set<nat> {
    HavingAmong(subs, subs.Keys, key, value)
  }

  lemma HavingNone(subs: Subscribers, key: string, value: string)
    ensures HavingAmong(subs, {}, key, value) == {}
  {}

  lemma HavingMore(subs: Subscribers, ids: set<nat>, id: nat, key: string, value: string)
    requires ids <= subs.Keys && id in subs && id !in ids
    ensures |HavingAmong(subs, ids + {id}, key, value)|
         == |HavingAmong(subs, ids, key, value)| + if HasMatcher(subs[id].filter, key, value) then 1 else 0
  {
    var few, more := HavingAmong(subs, ids, key, value), HavingAmong(subs, ids + {id}, key, value);
    assert more == if HasMatcher(subs[id].filter, key, value) then few + {id} else few;
  }

  predicate HasMatcher(f: Filter, key: string, value: string) {
    key in f.matchers && f.matchers[key] == value
  }

  /** The cap on one label key; `None` is unbounded. */
  function CapOf(c: Config, key: string): (r: Option<nat>)
    ensures r.Some? ==> key in c.maxPerKey && r.value == c.maxPerKey[key] != U32_MAX
  {
    if key in c.maxPerKey && c.maxPerKey[key] != U32_MAX then Some(c.maxPerKey[key]) else None
  }

  ghost predicate UnderCaps(c: Config, subs: Subscribers, f: Filter) {
    && |subs| < c.maxTotal
    && forall key :: key in f.matchers && CapOf(c, key).Some? ==> |Having(subs, key, f.matchers[key])| < CapOf(c, key).value
  }

  datatype Refusal = TotalCap(cap: nat, current: nat) | PerKeyCap(key: string, value: string, cap: nat, current: nat)

  /** A refusal names a cap that is really exhausted. */
  ghost predicate Justified(c: Config, subs: Subscribers, f: Filter, r: Refusal) {
    match r
    case TotalCap(cap, current) => cap == c.maxTotal <= current <= |subs|
    case PerKeyCap(key, value, cap, current) =>
      HasMatcher(f, key, value) && CapOf(c, key) == Some(cap) && cap <= current <= |Having(subs, key, value)|
  }

  function Capped(n: nat): nat {
    if n <= U32_MAX then n else U32_MAX
  }

  // ---- Delivery ----

  function OfferTo(s: Subscriber, e: Envelope, now: nat): Subscriber {
    if !Matches(s.filter, e) || s.closed then s
    else if |s.queue| < s.capacity then s.(queue := s.queue + [e], delivered := s.delivered + 1, lastMs := now)
    else s.(dropped := s.dropped + 1)
  }

  function Delivered(subs: Subscribers, e: Envelope, clock: Clock): Subscribers {
    map id | id in subs && !(Matches(subs[id].filter, e) && subs[id].closed) :: OfferTo(subs[id], e, clock(id))
  }

  function OnlyOpen(subs: Subscribers): Subscribers {
    map id | id in subs && !subs[id].closed :: subs[id]
  }

  predicate Idle(c: Config, s: Subscriber, now: nat) {
    (if now >= s.lastMs then now - s.lastMs else 0) > c.idleMs
  }

  function NotIdle(c: Config, subs: Subscribers, now: nat): Subscribers {
    map id | id in subs && !Idle(c, subs[id], now) :: subs[id]
  }

  lemma IdleOnes(c: Config, subs: Subscribers, now: nat)
    ensures var idle := set id | id in subs && Idle(c, subs[id], now);
            subs - idle == NotIdle(c, subs, now) && subs.Keys - NotIdle(c, subs, now).Keys == idle
            && forall id :: id in NotIdle(c, subs, now) <==> id in subs && now - subs[id].lastMs <= c.idleMs
  {
    assert forall id :: id in subs ==> (Idle(c, subs[id], now) <==> now - subs[id].lastMs > c.idleMs);
    hide Idle;
  }

  function NewSubscriber(c: Config, f: Filter, now: nat): Subscriber {
    Subscriber(f, CapacityOf(c), [], [], false, 0, 0, now)
  }

  datatype State = State(subs: Subscribers, nextId: nat)

  datatype SubscribeResult = Subscribed(id: nat) | Refused(why: Refusal)

  ghost function AfterSubscribe(c: Config, s: State, f: Filter, now: nat): State {
    var open := OnlyOpen(s.subs);
    if UnderCaps(c, open, f) then State(open[s.nextId := NewSubscriber(c, f, now)], s.nextId + 1) else State(open, s.nextId)
  }

  /**
   * What an offer means to a subscriber. A matching open one has exactly one counter raised, the one
   * for delivery exactly if the channel has room; then the envelope is queued last and the delivery
   * time noted. Nothing else changes.
   */
  ghost predicate Offered(s: Subscriber, e: Envelope, now: nat, r: Subscriber) {
    if Matches(s.filter, e) && !s.closed then
      && s.delivered <= r.delivered && s.dropped <= r.dropped && r.delivered + r.dropped == s.delivered + s.dropped + 1
      && (r.delivered > s.delivered <==> |s.queue| < s.capacity)
      && r.queue == s.queue + (if r.delivered > s.delivered then [e] else [])
      && r.lastMs == (if r.delivered > s.delivered then now else s.lastMs)
      && (r.filter, r.capacity, r.received, r.closed) == (s.filter, s.capacity, s.received, s.closed)
    else r == s
  }

  /** The filter and `try_send` for one subscriber; `drop` tells that its channel is closed. */
  method Offer(s: Subscriber, e: Envelope, now: nat) returns (r: Subscriber, drop: bool)
    ensures Offered(s, e, now, r)
    ensures drop <==> Matches(s.filter, e) && s.closed
  {
    r, drop := s, false;
    var ok := Accepts(s.filter, e);
    if ok {
      if s.closed {
        drop := true;
      } else if |s.queue| < s.capacity {
        r := s.(queue := s.queue + [e], delivered := s.delivered + 1, lastMs := now);
      } else {
        r := s.(dropped := s.dropped + 1);
      }
    }
  }

  lemma OfferedExact(s: Subscriber, e: Envelope, now: nat, r: Subscriber)
    ensures Offered(s, e, now, r) <==> r == OfferTo(s, e, now)
  {
    hide Matches;
    assert s.queue + [] == s.queue;
  }

  class Registry {
    const config: Config
    var subs: Subscribers
    var nextId: nat

    // What has happened to the registry and its receivers so far.
    ghost var events: seq<Event>

    ghost function View(): State reads this {
      State(subs, nextId)
    }

    ghost predicate Valid() reads this {
      config.Valid() && View() == Run(config, events)
    }

    constructor (config: Config)
      requires config.Valid()
      ensures this.config == config && Valid() && events == [] && View() == State(map[], 1)
    {
      this.config := config;
      subs, nextId, events := map[], 1, [];
    }

    method CountBy(key: string, value: string) returns (n: nat)
      ensures n == Capped(|Having(subs, key, value)|)
    {
      hide HasMatcher, HavingAmong;
      n := 0;
      var todo := subs.Keys;
      ghost var seen: set<nat> := {};
      HavingNone(subs, key, value);
      while todo != {}
        invariant todo <= subs.Keys && seen == subs.Keys - todo
        invariant n == Capped(|HavingAmong(subs, seen, key, value)|)
      {
        var id :| id in todo;
        HavingMore(subs, seen, id, key, value);
        if HasMatcher(subs[id].filter, key, value) {
          if n < U32_MAX { n := n + 1; }
        }
        todo, seen := todo - {id}, seen + {id};
      }
      assert seen == subs.Keys;
    }

    method EnforceCaps(f: Filter) returns (r: Option<Refusal>)
      requires config.Valid()
      ensures r.None? <==> UnderCaps(config, subs, f)
      ensures r.Some? ==> Justified(config, subs, f, r.value)
    {
      var total := Capped(|subs|);
      if total >= config.maxTotal {
        return Some(TotalCap(config.maxTotal, total));
      }
      var todo := f.matchers.Keys;
      while todo != {}
        invariant todo <= f.matchers.Keys
        invariant forall key :: key in f.matchers && key !in todo && CapOf(config, key).Some? ==>
          |Having(subs, key, f.matchers[key])| < CapOf(config, key).value
      {
        var key :| key in todo;
        todo := todo - {key};
        var cap := CapOf(config, key);
        if cap.Some? {
          var current := CountBy(key, f.matchers[key]);
          if current >= cap.value {
            return Some(PerKeyCap(key, f.matchers[key], cap.value, current));
          }
        }
      }
      return None;
    }

    method SweepClosed()
      modifies this`subs
      ensures subs == OnlyOpen(old(subs))
      ensures forall id :: id in subs <==> id in old(subs) && !old(subs)[id].closed
    {
      var toDrop := set id | id in subs && subs[id].closed;
      subs := subs - toDrop;
    }

    /** Sweep, check every cap, then register under a new id. */
    method Subscribe(f: Filter, now: nat) returns (r: SubscribeResult)
      requires Valid()
      modifies this
      ensures Valid() && events == old(events) + [Event.Subscribe(f, now)]
      ensures View() == AfterSubscribe(config, old(View()), f, now)
      ensures r.Subscribed? <==> UnderCaps(config, OnlyOpen(old(subs)), f)
      ensures match r
              case Subscribed(id) =>
                && id == old(nextId) && id in subs && subs[id].filter == f && !subs[id].closed && subs[id].lastMs == now
                && subs[id].queue == [] && subs[id].received == [] && subs[id].delivered == 0 && subs[id].dropped == 0
                && subs[id].capacity == (if config.channelCapacity == 0 then 256 else config.channelCapacity)
              case Refused(why) => Justified(config, OnlyOpen(old(subs)), f, why)
    {
      hide Run;
      RunSnoc(config, events, Event.Subscribe(f, now));
      events := events + [Event.Subscribe(f, now)];
      SweepClosed();
      var refusal := EnforceCaps(f);
      if refusal.Some? { return Refused(refusal.value); }
      var id := nextId;
      nextId := nextId + 1;
      subs := subs[id := NewSubscriber(config, f, now)];
      r := Subscribed(id);
    }

    method Unsubscribe(id: nat) returns (found: bool)
      requires Valid()
      modifies this
      ensures Valid() && events == old(events) + [Event.Unsubscribe(id)]
      ensures subs == old(subs) - {id} && nextId == old(nextId) && found == (id in old(subs))
    {
      hide Run;
      RunSnoc(config, events, Event.Unsubscribe(id));
      events := events + [Event.Unsubscribe(id)];
      found := id in subs;
      subs := subs - {id};
    }

    method SweepIdle(now: nat) returns (removed: nat)
      requires Valid()
      modifies this
      ensures Valid() && events == old(events) + [Event.SweepIdle(now)]
      ensures subs == NotIdle(config, old(subs), now) && nextId == old(nextId) && removed == |old(subs).Keys - subs.Keys|
      ensures forall id :: id in subs <==> id in old(subs) && now - old(subs)[id].lastMs <= config.idleMs
    {
      hide Run, Idle, NotIdle;
      RunSnoc(config, events, Event.SweepIdle(now));
      events := events + [Event.SweepIdle(now)];
      var toRemove := set id | id in subs && Idle(config, subs[id], now);
      IdleOnes(config, subs, now);
      removed := |toRemove|;
      subs := subs - toRemove;
    }

    method DeliverEnvelope(e: Envelope, clock: Clock)
      requires Valid()
      modifies this
      ensures Valid() && events == old(events) + [Deliver(e, clock)]
      ensures subs == Delivered(old(subs), e, clock) && nextId == old(nextId)
      ensures forall id :: id in subs <==> id in old(subs) && !(Matches(old(subs)[id].filter, e) && old(subs)[id].closed)
    {
      hide Run, Delivered, Matches;
      RunSnoc(config, events, Deliver(e, clock));
      events := events + [Deliver(e, clock)];
      FanOut(e, clock);
    }

    /** Offer the envelope to each subscriber, then drop those found closed. */
    method FanOut(e: Envelope, clock: Clock)
      modifies this`subs
      ensures subs == Delivered(old(subs), e, clock)
      ensures forall id :: id in subs <==> id in old(subs) && !(Matches(old(subs)[id].filter, e) && old(subs)[id].closed)
    {
      hide Matches, OfferTo, Offered;
      var toDrop: set<nat> := {};
      var todo := subs.Keys;
      while todo != {}
        invariant subs.Keys == old(subs).Keys && todo <= subs.Keys
        invariant toDrop == set id | id in old(subs) && id !in todo && Matches(old(subs)[id].filter, e) && old(subs)[id].closed
        invariant forall id :: id in subs ==> subs[id] == if id in todo then old(subs)[id] else OfferTo(old(subs)[id], e, clock(id))
      {
        var id :| id in todo;
        todo := todo - {id};
        var s, drop := Offer(subs[id], e, clock(id));
        OfferedExact(subs[id], e, clock(id), s);
        subs := subs[id := s];
        if drop { toDrop := toDrop + {id}; }
      }
      subs := subs - toDrop;
    }

    /** The receiving end of subscriber `id` takes its next envelope. */
    method TryRecv(id: nat) returns (r: Option<Envelope>)
      requires Valid()
      modifies this
      ensures Valid() && events == old(events) + [Receive(id)] && nextId == old(nextId)
      ensures if id in old(subs) && !old(subs)[id].closed && old(subs)[id].queue != []
              then r == Some(old(subs)[id].queue[0]) && subs == old(subs)[id := Received(old(subs)[id])]
              else r == None && subs == old(subs)
    {
      hide Run;
      RunSnoc(config, events, Receive(id));
      events := events + [Receive(id)];
      r := None;
      if id in subs {
        var s := subs[id];
        if !s.closed && s.queue != [] {
          r := Some(s.queue[0]);
          subs := subs[id := s.(queue := s.queue[1..], received := s.received + [s.queue[0]])];
        } else {
          assert subs[id := s] == subs;
        }
      }
    }

    /** The receiving end of subscriber `id` goes away. */
    method DropReceiver(id: nat)
      requires Valid()
      modifies this
      ensures Valid() && events == old(events) + [CloseReceiver(id)] && nextId == old(nextId)
      ensures subs == if id in old(subs) then old(subs)[id := old(subs)[id].(closed := true)] else old(subs)
    {
      hide Run;
      RunSnoc(config, events, CloseReceiver(id));
      events := events + [CloseReceiver(id)];
      if id in subs {
        subs := subs[id := subs[id].(closed := true)];
      }
    }

    /** What the counters and the channel of a registered subscriber say, at any moment. */
    lemma AccountNow(id: nat) returns (b: nat, taken: seq<bool>)
      requires Valid() && id in subs
      ensures RegisteredBy(config, events, b, id, subs[id].filter)
      ensures Accounted(subs[id], MatchingSince(events, b + 1, subs[id].filter), taken)
    {
      b, taken := DeliveredInOrder(config, events, id);
    }
  }

  // ---- Runs ----

  datatype Event =
    | Subscribe(filter: Filter, now: nat)
    | Deliver(env: Envelope, clock: Clock)
    | Receive(id: nat)
    | CloseReceiver(id: nat)
    | Unsubscribe(id: nat)
    | SweepIdle(now: nat)

  function Received(s: Subscriber): Subscriber {
    if s.queue == [] || s.closed then s else s.(queue := s.queue[1..], received := s.received + [s.queue[0]])
  }

  ghost function Next(c: Config, s: State, e: Event): State {
    match e
    case Subscribe(f, now) => AfterSubscribe(c, s, f, now)
    case Deliver(env, clock) => s.(subs := Delivered(s.subs, env, clock))
    case Receive(id) => if id in s.subs then s.(subs := s.subs[id := Received(s.subs[id])]) else s
    case CloseReceiver(id) => if id in s.subs then s.(subs := s.subs[id := s.subs[id].(closed := true)]) else s
    case Unsubscribe(id) => s.(subs := s.subs - {id})
    case SweepIdle(now) => s.(subs := NotIdle(c, s.subs, now))
  }

  ghost function Run(c: Config, events: seq<Event>): State {
    if events == [] then State(map[], 1) else Next(c, Run(c, events[..|events| - 1]), events[|events| - 1])
  }

  lemma RunSnoc(c: Config, events: seq<Event>, e: Event)
    ensures Run(c, events + [e]) == Next(c, Run(c, events), e)
  {
    hide Next;
    assert (events + [e])[..|events|] == events;
  }

  /** The envelopes offered from event `from` on that a filter matches. */
  ghost function MatchingSince(events: seq<Event>, from: nat, f: Filter): seq<Envelope>
    requires from <= |events|
    decreases |events|
  {
    if from == |events| then []
    else
      var last := events[|events| - 1];
      MatchingSince(events[..|events| - 1], from, f) + if last.Deliver? && Matches(f, last.env) then [last.env] else []
  }

  /** The items whose flag is set, in order. */
  ghost function Picked(es: seq<Envelope>, taken: seq<bool>): (r: seq<Envelope>)
    requires |es| == |taken|
    ensures |r| <= |es|
  {
    if es == [] then []
    else Picked(es[..|es| - 1], taken[..|es| - 1]) + if taken[|es| - 1] then [es[|es| - 1]] else []
  }

  lemma PickedSnoc(es: seq<Envelope>, taken: seq<bool>, e: Envelope, t: bool)
    requires |es| == |taken|
    ensures Picked(es + [e], taken + [t]) == Picked(es, taken) + if t then [e] else []
  {
    assert (es + [e])[..|es|] == es && (taken + [t])[..|es|] == taken;
  }

  /** What a subscriber's channel and counters say about the envelopes offered to it, `taken` telling which were accepted. */
  ghost predicate Accounted(s: Subscriber, offered: seq<Envelope>, taken: seq<bool>) {
    && |taken| == |offered| == s.delivered + s.dropped
    && s.received + s.queue == Picked(offered, taken)
    && s.delivered == |Picked(offered, taken)|
    && |s.queue| <= s.capacity
  }

  lemma OfferAccounted(s: Subscriber, offered: seq<Envelope>, taken: seq<bool>, e: Envelope, now: nat) returns (t: bool)
    requires Accounted(s, offered, taken) && Matches(s.filter, e) && !s.closed
    ensures t <==> |s.queue| < s.capacity
    ensures Accounted(OfferTo(s, e, now), offered + [e], taken + [t])
  {
    hide Matches, Picked;
    t := |s.queue| < s.capacity;
    PickedSnoc(offered, taken, e, t);
    assert s.received + (s.queue + [e]) == (s.received + s.queue) + [e];
  }

  lemma ReceiveAccounted(s: Subscriber, offered: seq<Envelope>, taken: seq<bool>)
    requires Accounted(s, offered, taken)
    ensures Accounted(Received(s), offered, taken)
  {
    hide Picked;
    if s.queue != [] {
      assert (s.received + [s.queue[0]]) + s.queue[1..] == s.received + s.queue;
    }
  }

  lemma {:induction false} IdsBelowNext(c: Config, events: seq<Event>)
    ensures forall id :: id in Run(c, events).subs ==> id < Run(c, events).nextId
    decreases |events|
  {
    hide UnderCaps, OfferTo, Idle, Matches;
    if events != [] { IdsBelowNext(c, events[..|events| - 1]); }
  }

  /** The subscriber `id` was registered by event `b`. */
  ghost predicate RegisteredBy(c: Config, events: seq<Event>, b: nat, id: nat, f: Filter) {
    && b < |events| && events[b].Subscribe? && events[b].filter == f
    && Run(c, events[..b]).nextId == id && Run(c, events[..b + 1]).nextId == id + 1
  }

  lemma RegisteredLater(c: Config, events: seq<Event>, b: nat, id: nat, f: Filter)
    requires events != [] && RegisteredBy(c, events[..|events| - 1], b, id, f)
    ensures RegisteredBy(c, events, b, id, f)
  {
    hide Run;
    var init := events[..|events| - 1];
    assert init[..b] == events[..b] && init[..b + 1] == events[..b + 1] && init[b] == events[b];
  }

  /** A matching subscriber that is still registered after an offer was open when it was made. */
  lemma SurvivorWasOpen(subs: Subscribers, e: Envelope, clock: Clock, id: nat)
    requires id in Delivered(subs, e, clock)
    ensures id in subs && Delivered(subs, e, clock)[id] == OfferTo(subs[id], e, clock(id))
    ensures Matches(subs[id].filter, e) ==> !subs[id].closed
  {}

  /** One event keeps the account of a subscriber that it leaves registered. */
  lemma NextAccounted(c: Config, s: State, e: Event, id: nat, offered: seq<Envelope>, taken: seq<bool>)
    returns (offered': seq<Envelope>, taken': seq<bool>)
    requires id in s.subs && id < s.nextId && Accounted(s.subs[id], offered, taken)
    requires id in Next(c, s, e).subs
    ensures Next(c, s, e).subs[id].filter == s.subs[id].filter
    ensures offered' == offered + if e.Deliver? && Matches(s.subs[id].filter, e.env) then [e.env] else []
    ensures Accounted(Next(c, s, e).subs[id], offered', taken')
  {
    hide Matches, Picked, UnderCaps, Idle;
    offered', taken' := offered, taken;
    match e
    case Deliver(env, clock) =>
      SurvivorWasOpen(s.subs, env, clock, id);
      if Matches(s.subs[id].filter, env) {
        var t := OfferAccounted(s.subs[id], offered, taken, env, clock(id));
        offered', taken' := offered + [env], taken + [t];
      }
    case Receive(r) =>
      ReceiveAccounted(s.subs[id], offered, taken);
    case _ =>
  }

  lemma JustRegistered(c: Config, events: seq<Event>, id: nat)
    requires events != [] && id !in Run(c, events[..|events| - 1]).subs && id in Run(c, events).subs
    ensures var s := Run(c, events).subs[id];
            && RegisteredBy(c, events, |events| - 1, id, s.filter)
            && Accounted(s, MatchingSince(events, |events|, s.filter), [])
  {
    hide Matches, UnderCaps, OfferTo, Idle;
    assert events[..|events|] == events;
    assert events[|events| - 1].Subscribe?;
  }

  /**
   * Delivery. For every registered subscriber of every run: the envelopes offered since its
   * registration that match its filter each raised exactly one of its two counters, and its receiver
   * has seen, or has queued, exactly those counted as delivered, in the order offered.
   */
  lemma {:induction false} DeliveredInOrder(c: Config, events: seq<Event>, id: nat) returns (b: nat, taken: seq<bool>)
    requires id in Run(c, events).subs
    ensures var s := Run(c, events).subs[id];
            && RegisteredBy(c, events, b, id, s.filter)
            && Accounted(s, MatchingSince(events, b + 1, s.filter), taken)
    decreases |events|
  {
    hide Matches, Picked, UnderCaps, Accounted, OfferTo;
    if events == [] {
      assert false;
    } else {
      var init, last := events[..|events| - 1], events[|events| - 1];
      var before := Run(c, init);
      IdsBelowNext(c, init);
      if id in before.subs {
        b, taken := DeliveredInOrder(c, init, id);
        var offered;
        offered, taken := NextAccounted(c, before, last, id, MatchingSince(init, b + 1, before.subs[id].filter), taken);
        RegisteredLater(c, events, b, id, before.subs[id].filter);
      } else {
        b, taken := |init|, [];
        JustRegistered(c, events, id);
      }
    }
  }
}
