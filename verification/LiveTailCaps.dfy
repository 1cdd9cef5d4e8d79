/**
 * Overlapping `subscribe` calls on the live-tail registry: the caps are counted in one step and the
 * subscriber is inserted in a later one (crates/obs-live-tail/src/lib.rs).
 */
module LiveTailCaps {
  import opened LiveTail

  /** How far a `subscribe` call in flight has got. */
  datatype Call = Called(filter: Filter) | Swept(filter: Filter) | Passed(filter: Filter)

  datatype World = World(state: State, calls: map<nat, Call>)

  datatype Action = Start(call: nat, filter: Filter) | Advance(call: nat, now: nat) | Other(event: Event)

  ghost function Advanced(c: Config, w: World, t: nat, now: nat): World
    requires t in w.calls
  {
    var s := w.state;
    match w.calls[t]
    case Called(f) => World(s.(subs := OnlyOpen(s.subs)), w.calls[t := Swept(f)])
    case Swept(f) => World(s, if UnderCaps(c, s.subs, f) then w.calls[t := Passed(f)] else w.calls - {t})
    case Passed(f) => World(State(s.subs[s.nextId := NewSubscriber(c, f, now)], s.nextId + 1), w.calls - {t})
  }

  /** An action that does not apply changes nothing; registrations go through calls only. */
  ghost function Then(c: Config, w: World, a: Action): World {
    match a
    case Start(t, f) => if t in w.calls then w else w.(calls := w.calls[t := Called(f)])
    case Advance(t, now) => if t in w.calls then Advanced(c, w, t, now) else w
    case Other(e) => if e.Subscribe? then w else w.(state := Next(c, w.state, e))
  }

  ghost function Interleave(c: Config, acts: seq<Action>): World {
    if acts == [] then World(State(map[], 1), map[])
    else Then(c, Interleave(c, acts[..|acts| - 1]), acts[|acts| - 1])
  }

  /** At no point are more than `k` calls in flight. */
  ghost predicate AtMostInFlight(c: Config, acts: seq<Action>, k: nat) {
    forall n :: 0 <= n <= |acts| ==> |Interleave(c, acts[..n]).calls| <= k
  }

  // ---- The bound ----

  /** A class of filters that a cap counts: all of them, or those requiring one `key = value`. */
  type Kind = Filter -> bool

  ghost function Counted(subs: Subscribers, kind: Kind): set<nat> {
    set id | id in subs && kind(subs[id].filter)
  }

  ghost function PassedCalls(calls: map<nat, Call>, kind: Kind): set<nat> {
    set t | t in calls && calls[t].Passed? && kind(calls[t].filter)
  }

  /** A call whose filter is of this kind passes only while fewer than `cap` of the kind are registered. */
  ghost predicate Guards(c: Config, kind: Kind, cap: nat) {
    forall subs, f :: kind(f) && UnderCaps(c, subs, f) ==> |Counted(subs, kind)| < cap
  }

  ghost predicate Within(w: World, kind: Kind, limit: int) {
    && |Counted(w.state.subs, kind)| + |PassedCalls(w.calls, kind)| <= limit
    && forall id :: id in w.state.subs ==> id < w.state.nextId
  }

  lemma {:induction false} SubsetSize<T>(a: set<T>, b: set<T>)
    requires a <= b
    ensures |a| <= |b|
    decreases |a|
  {
    if a != {} {
      var x :| x in a;
      SubsetSize(a - {x}, b - {x});
    }
  }

  /** Nothing but an insertion adds to a kind. */
  lemma OthersShrink(c: Config, s: State, e: Event, kind: Kind)
    requires !e.Subscribe?
    ensures Counted(Next(c, s, e).subs, kind) <= Counted(s.subs, kind)
    ensures Next(c, s, e).nextId == s.nextId && Next(c, s, e).subs.Keys <= s.subs.Keys
  {
    hide Matches, Idle, UnderCaps;
  }

  lemma SweepShrinks(subs: Subscribers, kind: Kind)
    ensures Counted(OnlyOpen(subs), kind) <= Counted(subs, kind)
  {}

  /** Moving a call to a phase that has not passed leaves the passed calls as they were, or without it. */
  lemma PassedShrinks(calls: map<nat, Call>, t: nat, p: Call, kind: Kind)
    requires !p.Passed?
    ensures PassedCalls(calls[t := p], kind) <= PassedCalls(calls, kind)
    ensures PassedCalls(calls - {t}, kind) <= PassedCalls(calls, kind)
  {}

  lemma PassKeeps(c: Config, w: World, t: nat, f: Filter, kind: Kind, cap: nat, k: nat)
    requires Guards(c, kind, cap) && Within(w, kind, cap + k - 1) && |w.calls| <= k
    requires t in w.calls && w.calls[t] == Swept(f) && UnderCaps(c, w.state.subs, f)
    ensures Within(World(w.state, w.calls[t := Passed(f)]), kind, cap + k - 1)
  {
    hide UnderCaps, Counted;
    var before, after := PassedCalls(w.calls, kind), PassedCalls(w.calls[t := Passed(f)], kind);
    if kind(f) {
      SubsetSize(after, w.calls.Keys);
    } else {
      assert after == before;
    }
  }

  lemma InsertCounted(subs: Subscribers, id: nat, s: Subscriber, kind: Kind)
    requires id !in subs
    ensures |Counted(subs[id := s], kind)| == |Counted(subs, kind)| + if kind(s.filter) then 1 else 0
  {
    var before, after := Counted(subs, kind), Counted(subs[id := s], kind);
    assert after == if kind(s.filter) then before + {id} else before;
  }

  lemma LeaveCounted(calls: map<nat, Call>, t: nat, kind: Kind)
    requires t in calls && calls[t].Passed?
    ensures |PassedCalls(calls - {t}, kind)| == |PassedCalls(calls, kind)| - if kind(calls[t].filter) then 1 else 0
  {
    var before, after := PassedCalls(calls, kind), PassedCalls(calls - {t}, kind);
    assert before == if kind(calls[t].filter) then after + {t} else after;
  }

  lemma InsertKeeps(c: Config, w: World, t: nat, f: Filter, now: nat, kind: Kind, limit: int)
    requires Within(w, kind, limit) && t in w.calls && w.calls[t] == Passed(f)
    ensures Within(Advanced(c, w, t, now), kind, limit)
  {
    hide Counted, PassedCalls, UnderCaps;
    InsertCounted(w.state.subs, w.state.nextId, NewSubscriber(c, f, now), kind);
    LeaveCounted(w.calls, t, kind);
  }

  lemma StepKeeps(c: Config, w: World, a: Action, kind: Kind, cap: nat, k: nat)
    requires Guards(c, kind, cap) && Within(w, kind, cap + k - 1) && |w.calls| <= k
    ensures Within(Then(c, w, a), kind, cap + k - 1)
  {
    var n := Then(c, w, a);
    assert Within(n, kind, cap + k - 1) by {
      hide UnderCaps, Counted, PassedCalls, Guards, NewSubscriber, Next;
      match a
      case Start(t, f) =>
        PassedShrinks(w.calls, t, Called(f), kind);
        SubsetSize(PassedCalls(n.calls, kind), PassedCalls(w.calls, kind));
      case Other(e) =>
        if !e.Subscribe? {
          OthersShrink(c, w.state, e, kind);
          SubsetSize(Counted(n.state.subs, kind), Counted(w.state.subs, kind));
        }
      case Advance(t, now) =>
        if t in w.calls {
          match w.calls[t]
          case Called(f) =>
            SweepShrinks(w.state.subs, kind);
            SubsetSize(Counted(n.state.subs, kind), Counted(w.state.subs, kind));
            PassedShrinks(w.calls, t, Swept(f), kind);
            SubsetSize(PassedCalls(n.calls, kind), PassedCalls(w.calls, kind));
          case Swept(f) =>
            if UnderCaps(c, w.state.subs, f) {
              PassKeeps(c, w, t, f, kind, cap, k);
            } else {
              PassedShrinks(w.calls, t, Called(f), kind);
              SubsetSize(PassedCalls(n.calls, kind), PassedCalls(w.calls, kind));
            }
          case Passed(f) => InsertKeeps(c, w, t, f, now, kind, cap + k - 1);
        }
    }
  }

  lemma {:induction false} RunKeeps(c: Config, acts: seq<Action>, kind: Kind, cap: nat, k: nat)
    requires Guards(c, kind, cap) && k > 0 && AtMostInFlight(c, acts, k)
    ensures Within(Interleave(c, acts), kind, cap + k - 1)
    decreases |acts|
  {
    if acts == [] {
      assert Counted(map[], kind) == {} && PassedCalls(map[], kind) == {};
    } else {
      hide Guards, Within, Then;
      var init := acts[..|acts| - 1];
      assert forall n :: 0 <= n <= |init| ==> init[..n] == acts[..n];
      RunKeeps(c, init, kind, cap, k);
      assert init[..|init|] == init;
      StepKeeps(c, Interleave(c, init), acts[|acts| - 1], kind, cap, k);
    }
  }

  /**
   * Caps under overlap. With at most `k` calls in flight, the registry never holds more than
   * `maxTotal + k - 1` subscribers, nor a capped `key = value` more than its cap plus `k - 1`; so with
   * calls that do not overlap (`k = 1`) no cap is ever exceeded.
   */
  lemma CapsBounded(c: Config, acts: seq<Action>, k: nat, key: string, value: string)
    requires k > 0 && AtMostInFlight(c, acts, k)
    ensures var subs := Interleave(c, acts).state.subs;
            && |subs| <= c.maxTotal + k - 1
            && (key in c.maxPerKey && c.maxPerKey[key] != 0xFFFF_FFFF ==> |Having(subs, key, value)| <= c.maxPerKey[key] + k - 1)
  {
    var subs := Interleave(c, acts).state.subs;
    hide Interleave, AtMostInFlight, PassedCalls;
    var all: Kind := f => true;
    TotalGuards(c, all);
    RunKeeps(c, acts, all, c.maxTotal, k);
    assert Counted(subs, all) == subs.Keys;
    if CapOf(c, key).Some? {
      var those: Kind := f => HasMatcher(f, key, value);
      KeyGuards(c, key, value, those);
      RunKeeps(c, acts, those, CapOf(c, key).value, k);
      assert Counted(subs, those) == Having(subs, key, value);
    }
  }

  lemma TotalGuards(c: Config, all: Kind)
    requires forall f :: all(f)
    ensures Guards(c, all, c.maxTotal)
  {
    forall subs, f | all(f) && UnderCaps(c, subs, f) ensures |Counted(subs, all)| < c.maxTotal {
      assert Counted(subs, all) == subs.Keys;
    }
  }

  lemma KeyGuards(c: Config, key: string, value: string, those: Kind)
    requires CapOf(c, key).Some? && forall f :: those(f) <==> HasMatcher(f, key, value)
    ensures Guards(c, those, CapOf(c, key).value)
  {
    forall subs, f | those(f) && UnderCaps(c, subs, f) ensures |Counted(subs, those)| < CapOf(c, key).value {
      assert Counted(subs, those) == Having(subs, key, value);
      assert key in f.matchers;
    }
  }

  // ---- The bound is reached ----

  lemma Extend(c: Config, acts: seq<Action>, a: Action, k: nat) returns (longer: seq<Action>)
    requires AtMostInFlight(c, acts, k) && |Then(c, Interleave(c, acts), a).calls| <= k
    ensures AtMostInFlight(c, longer, k) && Interleave(c, longer) == Then(c, Interleave(c, acts), a)
  {
    hide Then;
    longer := acts + [a];
    assert longer[..|acts|] == acts && longer[..|longer|] == longer;
    assert forall n :: 0 <= n <= |acts| ==> longer[..n] == acts[..n];
  }

  /** `n` open subscribers, all with this filter. */
  ghost predicate Uniform(s: State, f: Filter, n: nat) {
    |s.subs| == n && forall id :: id in s.subs ==> id < s.nextId && s.subs[id].filter == f && !s.subs[id].closed
  }

  ghost predicate BelowLimits(c: Config, f: Filter, limit: nat) {
    limit <= c.maxTotal && forall key :: key in f.matchers && CapOf(c, key).Some? ==> limit <= CapOf(c, key).value
  }

  lemma UniformPasses(c: Config, s: State, f: Filter, n: nat, limit: nat)
    requires BelowLimits(c, f, limit) && n < limit && Uniform(s, f, n)
    ensures UnderCaps(c, s.subs, f) && OnlyOpen(s.subs) == s.subs
  {
    forall key | key in f.matchers && CapOf(c, key).Some?
      ensures |Having(s.subs, key, f.matchers[key])| < CapOf(c, key).value
    {
      SubsetSize(Having(s.subs, key, f.matchers[key]), s.subs.Keys);
    }
  }

  lemma UniformMore(c: Config, s: State, f: Filter, n: nat, now: nat)
    requires Uniform(s, f, n)
    ensures Uniform(State(s.subs[s.nextId := NewSubscriber(c, f, now)], s.nextId + 1), f, n + 1)
  {
    assert s.nextId !in s.subs;
  }

  /** One more call gets past the caps. */
  lemma PassOne(c: Config, acts: seq<Action>, t: nat, f: Filter, n: nat, limit: nat, k: nat) returns (longer: seq<Action>)
    requires AtMostInFlight(c, acts, k) && BelowLimits(c, f, limit) && n < limit
    requires var w := Interleave(c, acts); Uniform(w.state, f, n) && t !in w.calls && |w.calls| < k
    ensures AtMostInFlight(c, longer, k)
    ensures var w := Interleave(c, acts); Interleave(c, longer) == World(w.state, w.calls[t := Passed(f)])
  {
    hide AtMostInFlight, Interleave, UnderCaps, Uniform;
    var w := Interleave(c, acts);
    UniformPasses(c, w.state, f, n, limit);
    assert |w.calls[t := Called(f)]| == |w.calls| + 1;
    longer := Extend(c, acts, Start(t, f), k);
    var called := Interleave(c, longer);
    assert called.calls[t := Swept(f)].Keys == called.calls.Keys;
    longer := Extend(c, longer, Advance(t, 0), k);
    var swept := Interleave(c, longer);
    assert swept.calls[t := Passed(f)].Keys == swept.calls.Keys;
    longer := Extend(c, longer, Advance(t, 0), k);
    assert Interleave(c, longer).calls == w.calls[t := Passed(f)];
  }

  ghost function Waiting(f: Filter, m: nat): (w: map<nat, Call>)
    ensures |w| == m && forall t :: t in w ==> t < m
  {
    if m == 0 then map[] else Waiting(f, m - 1)[m - 1 := Passed(f)]
  }

  lemma WaitingLess(f: Filter, m: nat)
    requires m > 0
    ensures m - 1 in Waiting(f, m) && Waiting(f, m)[m - 1] == Passed(f) && Waiting(f, m) - {m - 1} == Waiting(f, m - 1)
  {}

  /** `m` calls get past the caps before any of them inserts. */
  lemma {:induction false} PassMany(c: Config, acts: seq<Action>, m: nat, f: Filter, n: nat, limit: nat, k: nat)
    returns (longer: seq<Action>)
    requires AtMostInFlight(c, acts, k) && BelowLimits(c, f, limit) && n < limit && m <= k
    requires var w := Interleave(c, acts); Uniform(w.state, f, n) && w.calls == map[]
    ensures AtMostInFlight(c, longer, k)
    ensures Interleave(c, longer) == World(Interleave(c, acts).state, Waiting(f, m))
    decreases m
  {
    hide AtMostInFlight, Interleave, Uniform;
    if m == 0 {
      longer := acts;
    } else {
      longer := PassMany(c, acts, m - 1, f, n, limit, k);
      longer := PassOne(c, longer, m - 1, f, n, limit, k);
    }
  }

  lemma InsertOne(c: Config, w: World, f: Filter, m: nat)
    requires m > 0 && w.calls == Waiting(f, m)
    ensures Then(c, w, Advance(m - 1, 0))
         == World(State(w.state.subs[w.state.nextId := NewSubscriber(c, f, 0)], w.state.nextId + 1), Waiting(f, m - 1))
  {
    WaitingLess(f, m);
    hide Waiting, UnderCaps, NewSubscriber;
  }

  /** The waiting calls insert one by one. */
  lemma {:induction false} InsertMany(c: Config, acts: seq<Action>, m: nat, f: Filter, n: nat, k: nat) returns (longer: seq<Action>)
    requires AtMostInFlight(c, acts, k) && m <= k
    requires var w := Interleave(c, acts); Uniform(w.state, f, n) && w.calls == Waiting(f, m)
    ensures AtMostInFlight(c, longer, k)
    ensures var w := Interleave(c, longer); Uniform(w.state, f, n + m) && w.calls == map[]
    decreases m
  {
    longer := acts;
    if m > 0 {
      hide AtMostInFlight, Interleave, Uniform, UnderCaps, Waiting;
      var w := Interleave(c, acts);
      InsertOne(c, w, f, m);
      hide Then;
      longer := Extend(c, acts, Advance(m - 1, 0), k);
      UniformMore(c, w.state, f, n, 0);
      longer := InsertMany(c, longer, m - 1, f, n + 1, k);
    }
  }

  /** Calls made one at a time fill the registry up to `n`. */
  lemma {:induction false} FillTo(c: Config, n: nat, f: Filter, limit: nat, k: nat) returns (acts: seq<Action>)
    requires k > 0 && BelowLimits(c, f, limit) && n <= limit
    ensures AtMostInFlight(c, acts, k)
    ensures var w := Interleave(c, acts); Uniform(w.state, f, n) && w.calls == map[]
    decreases n
  {
    if n == 0 {
      acts := [];
    } else {
      hide AtMostInFlight, Interleave, Uniform;
      acts := FillTo(c, n - 1, f, limit, k);
      acts := PassMany(c, acts, 1, f, n - 1, limit, k);
      acts := InsertMany(c, acts, 1, f, n - 1, k);
    }
  }

  /**
   * The bounds are tight: for every filter and every limit that its caps allow, some run with at most
   * `k` calls in flight registers `limit + k - 1` subscribers with that filter.
   */
  lemma BoundReached(c: Config, f: Filter, limit: nat, k: nat) returns (acts: seq<Action>)
    requires k > 0 && limit > 0 && BelowLimits(c, f, limit)
    ensures AtMostInFlight(c, acts, k)
    ensures var subs := Interleave(c, acts).state.subs;
            |subs| == limit + k - 1 && forall id :: id in subs ==> subs[id].filter == f
  {
    hide AtMostInFlight, Interleave;
    acts := FillTo(c, limit - 1, f, limit, k);
    acts := PassMany(c, acts, k, f, limit - 1, limit, k);
    acts := InsertMany(c, acts, k, f, limit - 1, k);
  }

  // ---- Calls that do not overlap ----

  /** A run of the registry is an interleaving with at most one call in flight. */
  lemma {:induction false} SequentialRun(c: Config, events: seq<Event>) returns (acts: seq<Action>)
    ensures AtMostInFlight(c, acts, 1)
    ensures Interleave(c, acts) == World(Run(c, events), map[])
    decreases |events|
  {
    if events == [] {
      acts := [];
    } else {
      hide AtMostInFlight, Interleave, Next;
      var e := events[|events| - 1];
      acts := SequentialRun(c, events[..|events| - 1]);
      if e.Subscribe? {
        acts := OneCall(c, acts, e.filter, e.now);
      } else {
        acts := Extend(c, acts, Other(e), 1);
      }
    }
  }

  lemma OneCall(c: Config, acts: seq<Action>, f: Filter, now: nat) returns (longer: seq<Action>)
    requires AtMostInFlight(c, acts, 1) && Interleave(c, acts).calls == map[]
    ensures AtMostInFlight(c, longer, 1)
    ensures Interleave(c, longer) == World(Next(c, Interleave(c, acts).state, Subscribe(f, now)), map[])
  {
    hide AtMostInFlight, Interleave, UnderCaps, OnlyOpen, NewSubscriber;
    var s := Interleave(c, acts).state;
    longer := Extend(c, acts, Start(0, f), 1);
    assert Interleave(c, longer) == World(s, map[0 := Called(f)]);
    longer := Extend(c, longer, Advance(0, now), 1);
    assert Interleave(c, longer) == World(s.(subs := OnlyOpen(s.subs)), map[0 := Swept(f)]);
    longer := Extend(c, longer, Advance(0, now), 1);
    if UnderCaps(c, OnlyOpen(s.subs), f) {
      assert Interleave(c, longer) == World(s.(subs := OnlyOpen(s.subs)), map[0 := Passed(f)]);
      longer := Extend(c, longer, Advance(0, now), 1);
    }
    assert Interleave(c, longer).calls == map[];
  }

  /** A registry used without overlapping calls never exceeds a cap. */
  lemma CapsNow(r: Registry, key: string, value: string)
    requires r.Valid()
    ensures |r.subs| <= r.config.maxTotal
    ensures key in r.config.maxPerKey && r.config.maxPerKey[key] != 0xFFFF_FFFF ==>
      |Having(r.subs, key, value)| <= r.config.maxPerKey[key]
  {
    hide AtMostInFlight, Interleave, Run;
    var acts := SequentialRun(r.config, r.events);
    CapsBounded(r.config, acts, 1, key, value);
  }
}
