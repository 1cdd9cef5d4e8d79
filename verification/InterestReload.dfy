/**
 * The interest cache while the filter is reloaded: a reload stores the new filter and bumps the
 * generation in two steps (crates/obs-core/src/observer/standard.rs), between which and around which
 * emits of several threads take their own steps (crates/obs-core/src/callsite.rs, emit.rs).
 */
module InterestReload {
  import InterestCache

  type Interest = InterestCache.Interest
  type Cache = InterestCache.Cache

  /** Where an emit in flight stands; an answer is remembered by the version of the filter that gave it. */
  datatype Phase = Began | Matched | Probing | Asked(version: nat) | Between(version: nat)

  /** An emit in flight: the generation it read, and the filter in force when it began. */
  datatype Emit = Emit(gen: nat, since: nat, phase: Phase)

  /** A decision, with the first and last filter version it may be judged by. */
  datatype Verdict = Verdict(permitted: bool, low: nat, high: nat)

  /** `stored` filters have been stored; `low[g]` is the one in force when generation `g` was announced. */
  datatype World = World(stored: nat, low: seq<nat>, cache: Cache, threads: map<nat, Emit>, verdicts: seq<Verdict>)

  const START := World(0, [0], InterestCache.NEW, map[], [])

  ghost predicate Shaped(w: World) {
    && |w.low| > 0
    && forall t :: t in w.threads ==> w.threads[t].gen < |w.low|
  }

  datatype Action = StoreFilter | Bump | Begin(thread: nat) | Advance(thread: nat)

  /** What each version of the filter answers for this callsite. */
  type Filters = nat -> bool

  function To(w: World, t: nat, p: Phase): World
    requires t in w.threads
  {
    w.(threads := w.threads[t := w.threads[t].(phase := p)])
  }

  function Done(w: World, t: nat, permitted: bool): World
    requires t in w.threads && w.threads[t].gen < |w.low|
  {
    w.(threads := w.threads - {t}, verdicts := w.verdicts + [Verdict(permitted, w.low[w.threads[t].gen], w.stored)])
  }

  function Advanced(answer: Filters, w: World, t: nat): World
    requires t in w.threads && w.threads[t].gen < |w.low|
  {
    var e := w.threads[t];
    match e.phase
    case Began => To(w, t, if w.cache.gen == e.gen then Matched else Probing)
    case Matched =>
      (match InterestCache.Classify(w.cache.interest)
       case ReProbe => To(w, t, Probing)
       case Off => Done(w, t, false)
       case SometimesOn => Done(w, t, answer(w.stored))
       case AlwaysOn => Done(w, t, true))
    case Probing => To(w, t, Asked(w.stored))
    case Asked(v) => To(w.(cache := w.cache.(interest := InterestCache.Learned(answer(v)))), t, Between(v))
    case Between(v) => Done(w.(cache := w.cache.(gen := e.gen)), t, answer(v))
  }

  /** An action that does not apply to its thread changes nothing. */
  function Next(answer: Filters, w: World, a: Action): (r: World)
    requires Shaped(w)
    ensures Shaped(r)
  {
    match a
    case StoreFilter => w.(stored := w.stored + 1)
    case Bump => w.(low := w.low + [w.stored])
    case Begin(t) => if t in w.threads then w else w.(threads := w.threads[t := Emit(|w.low| - 1, w.stored, Began)])
    case Advance(t) => if t in w.threads then Advanced(answer, w, t) else w
  }

  function Interleave(answer: Filters, acts: seq<Action>): (r: World)
    ensures Shaped(r)
  {
    if acts == [] then START else Next(answer, Interleave(answer, acts[..|acts| - 1]), acts[|acts| - 1])
  }

  /** The decision is the answer of a filter that was in force after the last announcement the emit saw. */
  ghost predicate Judged(answer: Filters, v: Verdict) {
    exists n :: v.low <= n <= v.high && answer(n) == v.permitted
  }

  ghost predicate Fresh(answer: Filters, w: World) {
    forall k :: 0 <= k < |w.verdicts| ==> Judged(answer, w.verdicts[k])
  }

  /** A rule for when a generation may be announced. */
  type Rule = World -> bool

  ghost predicate Obeys(answer: Filters, rule: Rule, acts: seq<Action>) {
    forall k :: 0 <= k < |acts| && acts[k] == Bump ==> rule(Interleave(answer, acts[..k]))
  }

  /** No emit in flight is about to store an answer that differs from the current filter's. */
  ghost predicate Settled(answer: Filters, w: World) {
    forall t :: t in w.threads && w.threads[t].phase.Asked? ==> answer(w.threads[t].phase.version) == answer(w.stored)
  }

  /** In every world that an obeying run reaches and where the rule allows an announcement, nothing is about to store an outdated answer. */
  ghost predicate AllowsOnlySettled(answer: Filters, rule: Rule) {
    forall acts :: Obeys(answer, rule, acts) && rule(Interleave(answer, acts)) ==> Settled(answer, Interleave(answer, acts))
  }

  // ---- Rules that are safe ----

  /** The cached interest says nothing definite, or what some filter between the versions says. */
  ghost predicate Supported(answer: Filters, i: Interest, low: nat, high: nat) {
    || i == InterestCache.Unknown || i == InterestCache.Sometimes
    || exists n :: low <= n <= high && i == InterestCache.Learned(answer(n))
  }

  /** The answer of version `v` is also that of a filter in force since the last announcement. */
  ghost predicate Current(answer: Filters, w: World, v: nat)
    requires |w.low| > 0
  {
    exists n :: w.low[|w.low| - 1] <= n <= w.stored && answer(n) == answer(v)
  }

  ghost predicate EmitOk(answer: Filters, w: World, e: Emit) {
    && e.gen < |w.low| && w.low[e.gen] <= e.since <= w.stored
    && (e.phase.Matched? || e.phase.Between? ==> Supported(answer, w.cache.interest, w.low[e.gen], w.stored))
    && (e.phase.Asked? || e.phase.Between? ==> e.since <= e.phase.version <= w.stored)
    && (e.phase.Asked? ==> Current(answer, w, e.phase.version))
  }

  ghost predicate LowOk(w: World) {
    && |w.low| > 0 && w.low[|w.low| - 1] <= w.stored
    && forall g, h :: 0 <= g <= h < |w.low| ==> w.low[g] <= w.low[h]
  }

  ghost predicate EmitsOk(answer: Filters, w: World) {
    forall t :: t in w.threads ==> EmitOk(answer, w, w.threads[t])
  }

  ghost predicate Inv(answer: Filters, w: World) {
    && LowOk(w) && EmitsOk(answer, w) && Fresh(answer, w)
    && w.cache.gen < |w.low| && Supported(answer, w.cache.interest, w.low[w.cache.gen], w.stored)
  }

  lemma StoreKeeps(answer: Filters, w: World)
    requires Inv(answer, w)
    ensures Inv(answer, w.(stored := w.stored + 1))
  {
    var n := w.(stored := w.stored + 1);
    assert forall t :: t in n.threads ==> EmitOk(answer, w, n.threads[t]);
  }

  lemma BumpKeeps(answer: Filters, w: World)
    requires Inv(answer, w) && Settled(answer, w)
    ensures Inv(answer, w.(low := w.low + [w.stored]))
  {
    var n := w.(low := w.low + [w.stored]);
    forall t | t in n.threads
      ensures EmitOk(answer, n, n.threads[t])
    {
      assert EmitOk(answer, w, w.threads[t]);
      assert n.low[|n.low| - 1] == w.stored;
    }
    assert Supported(answer, n.cache.interest, n.low[n.cache.gen], n.stored);
  }

  lemma BeginKeeps(answer: Filters, w: World, t: nat)
    requires Inv(answer, w) && t !in w.threads
    ensures Inv(answer, w.(threads := w.threads[t := Emit(|w.low| - 1, w.stored, Began)]))
  {
    hide Supported, Judged;
    var n := w.(threads := w.threads[t := Emit(|w.low| - 1, w.stored, Began)]);
    forall u | u in n.threads
      ensures EmitOk(answer, n, n.threads[u])
    {
      if u != t { assert EmitOk(answer, w, w.threads[u]); }
    }
  }

  lemma MoveKeeps(answer: Filters, w: World, t: nat, p: Phase)
    requires Inv(answer, w) && t in w.threads && EmitOk(answer, w, w.threads[t].(phase := p))
    ensures Inv(answer, To(w, t, p))
  {
    hide Supported, Judged;
    var n := To(w, t, p);
    forall u | u in n.threads
      ensures EmitOk(answer, n, n.threads[u])
    {
      if u != t { assert EmitOk(answer, w, w.threads[u]); }
    }
  }

  lemma DoneKeeps(answer: Filters, w: World, t: nat, permitted: bool)
    requires Inv(answer, w) && t in w.threads && w.threads[t].gen < |w.low|
    requires Judged(answer, Verdict(permitted, w.low[w.threads[t].gen], w.stored))
    ensures Inv(answer, Done(w, t, permitted))
  {
    hide Supported, Judged;
    var n := Done(w, t, permitted);
    forall u | u in n.threads
      ensures EmitOk(answer, n, n.threads[u])
    {
      assert EmitOk(answer, w, w.threads[u]);
    }
  }

  /** An answer that a filter since the last announcement gives supports every emit in flight. */
  lemma LearnKeeps(answer: Filters, w: World, v: nat)
    requires Inv(answer, w) && Current(answer, w, v)
    ensures Inv(answer, w.(cache := w.cache.(interest := InterestCache.Learned(answer(v)))))
  {
    hide Judged;
    var n := w.(cache := w.cache.(interest := InterestCache.Learned(answer(v))));
    var m :| w.low[|w.low| - 1] <= m <= w.stored && answer(m) == answer(v);
    forall u | u in n.threads
      ensures EmitOk(answer, n, n.threads[u])
    {
      assert EmitOk(answer, w, w.threads[u]);
      assert w.low[w.threads[u].gen] <= m;
    }
    assert w.low[w.cache.gen] <= m;
  }

  lemma AnnounceKeeps(answer: Filters, w: World, gen: nat)
    requires Inv(answer, w) && gen < |w.low| && Supported(answer, w.cache.interest, w.low[gen], w.stored)
    ensures Inv(answer, w.(cache := w.cache.(gen := gen)))
  {
    hide Supported, Judged;
    var n := w.(cache := w.cache.(gen := gen));
    forall u | u in n.threads
      ensures EmitOk(answer, n, n.threads[u])
    {
      assert EmitOk(answer, w, w.threads[u]);
    }
  }

  lemma SupportedJudged(answer: Filters, i: Interest, permitted: bool, low: nat, high: nat)
    requires Supported(answer, i, low, high) && i == InterestCache.Learned(permitted)
    ensures Judged(answer, Verdict(permitted, low, high))
  {}

  /** What is known of an emit in flight, at its own versions. */
  lemma EmitFacts(answer: Filters, w: World, t: nat)
    requires Inv(answer, w) && t in w.threads
    ensures EmitOk(answer, w, w.threads[t])
    ensures w.low[w.threads[t].gen] <= w.low[|w.low| - 1] <= w.stored
  {}

  lemma MatchedKeeps(answer: Filters, w: World, t: nat)
    requires Inv(answer, w) && t in w.threads && w.threads[t].gen < |w.low| && w.threads[t].phase == Matched
    ensures Inv(answer, Advanced(answer, w, t))
  {
    hide Inv, Supported, Judged, InterestCache.Learned;
    EmitFacts(answer, w, t);
    LearnedNever();
    var low := w.low[w.threads[t].gen];
    match w.cache.interest {
      case Unknown => MoveKeeps(answer, w, t, Probing);
      case Never =>
        SupportedJudged(answer, w.cache.interest, false, low, w.stored);
        DoneKeeps(answer, w, t, false);
      case Always =>
        SupportedJudged(answer, w.cache.interest, true, low, w.stored);
        DoneKeeps(answer, w, t, true);
      case Sometimes =>
        AnswerJudged(answer, w.stored, low, w.stored);
        DoneKeeps(answer, w, t, answer(w.stored));
    }
  }

  lemma StoresKeep(answer: Filters, w: World, t: nat)
    requires Inv(answer, w) && t in w.threads && w.threads[t].gen < |w.low|
    requires w.threads[t].phase.Asked? || w.threads[t].phase.Between?
    ensures Inv(answer, Advanced(answer, w, t))
  {
    hide Inv, Supported, Current, Judged, InterestCache.Learned;
    EmitFacts(answer, w, t);
    var e := w.threads[t];
    var v := e.phase.version;
    if e.phase.Asked? {
      var n := w.(cache := w.cache.(interest := InterestCache.Learned(answer(v))));
      LearnKeeps(answer, w, v);
      LearnedSupported(answer, v, w.low[e.gen], w.stored);
      MoveKeeps(answer, n, t, Between(v));
    } else {
      AnnounceKeeps(answer, w, e.gen);
      AnswerJudged(answer, v, w.low[e.gen], w.stored);
      DoneKeeps(answer, w.(cache := w.cache.(gen := e.gen)), t, answer(v));
    }
  }

  lemma AdvanceKeeps(answer: Filters, w: World, t: nat)
    requires Inv(answer, w) && t in w.threads && w.threads[t].gen < |w.low|
    ensures Inv(answer, Advanced(answer, w, t))
  {
    var e := w.threads[t];
    match e.phase {
      case Began =>
        CacheFacts(answer, w);
        hide Inv, Supported, Current;
        EmitFacts(answer, w, t);
        MoveKeeps(answer, w, t, if w.cache.gen == e.gen then Matched else Probing);
      case Matched => MatchedKeeps(answer, w, t);
      case Probing =>
        hide Inv, Supported, Current;
        EmitFacts(answer, w, t);
        NowCurrent(answer, w);
        MoveKeeps(answer, w, t, Asked(w.stored));
      case _ => StoresKeep(answer, w, t);
    }
  }

  lemma CacheFacts(answer: Filters, w: World)
    requires Inv(answer, w)
    ensures w.cache.gen < |w.low| && Supported(answer, w.cache.interest, w.low[w.cache.gen], w.stored)
  {}

  lemma NowCurrent(answer: Filters, w: World)
    requires |w.low| > 0 && w.low[|w.low| - 1] <= w.stored
    ensures Current(answer, w, w.stored)
  {
    var n := w.stored;
    assert w.low[|w.low| - 1] <= n <= w.stored && answer(n) == answer(w.stored);
  }

  lemma LearnedNever()
    ensures InterestCache.Learned(false) == InterestCache.Never && InterestCache.Learned(true) == InterestCache.Always
  {}

  lemma AnswerJudged(answer: Filters, v: nat, low: nat, high: nat)
    requires low <= v <= high
    ensures Judged(answer, Verdict(answer(v), low, high))
  {}

  lemma LearnedSupported(answer: Filters, v: nat, low: nat, high: nat)
    requires low <= v <= high
    ensures Supported(answer, InterestCache.Learned(answer(v)), low, high)
  {}

  lemma StepKeeps(answer: Filters, w: World, a: Action)
    requires Shaped(w) && Inv(answer, w) && (a == Bump ==> Settled(answer, w))
    ensures Inv(answer, Next(answer, w, a))
  {
    hide Inv, Settled, Advanced;
    match a
    case StoreFilter => StoreKeeps(answer, w);
    case Bump => BumpKeeps(answer, w);
    case Begin(t) => if t !in w.threads { BeginKeeps(answer, w, t); }
    case Advance(t) => if t in w.threads { AdvanceKeeps(answer, w, t); }
  }

  lemma {:induction false} RunKeeps(answer: Filters, acts: seq<Action>)
    requires forall k :: 0 <= k < |acts| && acts[k] == Bump ==> Settled(answer, Interleave(answer, acts[..k]))
    ensures Inv(answer, Interleave(answer, acts))
    decreases |acts|
  {
    if acts == [] {
      StartOk(answer);
    } else {
      hide Inv, Settled, Next;
      var init := acts[..|acts| - 1];
      assert forall k :: 0 <= k < |init| ==> init[..k] == acts[..k];
      RunKeeps(answer, init);
      StepKeeps(answer, Interleave(answer, init), acts[|acts| - 1]);
    }
  }

  lemma StartOk(answer: Filters)
    ensures Inv(answer, START)
  {}

  lemma SafeRule(answer: Filters, rule: Rule, acts: seq<Action>)
    requires AllowsOnlySettled(answer, rule) && Obeys(answer, rule, acts)
    ensures Inv(answer, Interleave(answer, acts))
  {
    hide Inv, Settled, Interleave;
    forall k | 0 <= k < |acts| && acts[k] == Bump
      ensures Settled(answer, Interleave(answer, acts[..k]))
    {
      ObeysBefore(answer, rule, acts, k);
    }
    RunKeeps(answer, acts);
  }

  lemma ObeysBefore(answer: Filters, rule: Rule, acts: seq<Action>, k: nat)
    requires Obeys(answer, rule, acts) && k <= |acts|
    ensures Obeys(answer, rule, acts[..k])
  {
    hide Interleave;
    assert forall j :: 0 <= j < k ==> acts[..k][..j] == acts[..j];
  }

  // ---- Rules that are not ----

  lemma Extend(answer: Filters, rule: Rule, acts: seq<Action>, a: Action) returns (longer: seq<Action>)
    requires Obeys(answer, rule, acts) && (a == Bump ==> rule(Interleave(answer, acts)))
    ensures Obeys(answer, rule, longer) && Interleave(answer, longer) == Next(answer, Interleave(answer, acts), a)
  {
    hide Next;
    longer := acts + [a];
    assert longer[..|acts|] == acts;
    assert forall k :: 0 <= k < |acts| ==> longer[..k] == acts[..k] && longer[k] == acts[k];
  }

  lemma {:induction false} CachedGenBelow(answer: Filters, acts: seq<Action>)
    ensures Interleave(answer, acts).cache.gen < |Interleave(answer, acts).low|
    decreases |acts|
  {
    if acts != [] {
      CachedGenBelow(answer, acts[..|acts| - 1]);
    }
  }

  lemma {:induction false} Unused(ids: set<nat>) returns (a: nat)
    ensures forall t :: t in ids ==> t < a
    decreases |ids|
  {
    a := 0;
    if ids != {} {
      var x :| x in ids;
      var b := Unused(ids - {x});
      a := if x < b then b else x + 1;
      assert forall t :: t in ids ==> t == x || t in ids - {x};
    }
  }

  /** An emit that the cache cannot serve gets as far as having asked the current filter. */
  lemma UpToAsked(answer: Filters, rule: Rule, acts: seq<Action>, t: nat) returns (longer: seq<Action>)
    requires Obeys(answer, rule, acts)
    ensures Obeys(answer, rule, longer)
    ensures var w := Interleave(answer, acts);
            t !in w.threads && (w.cache.gen != |w.low| - 1 || w.cache.interest == InterestCache.Unknown) ==>
              Interleave(answer, longer) == w.(threads := w.threads[t := Emit(|w.low| - 1, w.stored, Asked(w.stored))])
  {
    hide Interleave, Obeys;
    var w := Interleave(answer, acts);
    longer := Extend(answer, rule, acts, Begin(t));
    longer := Extend(answer, rule, longer, Advance(t));
    if w.cache.gen == |w.low| - 1 {
      longer := Extend(answer, rule, longer, Advance(t));
    }
    longer := Extend(answer, rule, longer, Advance(t));
  }

  /** From there it stores its answer and its generation. */
  lemma ThroughStores(answer: Filters, rule: Rule, acts: seq<Action>, t: nat) returns (longer: seq<Action>)
    requires Obeys(answer, rule, acts)
    ensures Obeys(answer, rule, longer)
    ensures var w := Interleave(answer, acts);
            t in w.threads && w.threads[t].phase.Asked? ==>
              var e := w.threads[t];
              Interleave(answer, longer)
              == w.(cache := InterestCache.Cache(InterestCache.Learned(answer(e.phase.version)), e.gen), threads := w.threads - {t},
                    verdicts := w.verdicts + [Verdict(answer(e.phase.version), w.low[e.gen], w.stored)])
  {
    hide Interleave, Obeys, InterestCache.Learned;
    longer := Extend(answer, rule, acts, Advance(t));
    longer := Extend(answer, rule, longer, Advance(t));
  }

  /** With the current generation not cached, an emit of its own runs through and caches the current answer. */
  lemma RunThrough(answer: Filters, rule: Rule, acts: seq<Action>, t: nat) returns (longer: seq<Action>)
    requires Obeys(answer, rule, acts)
    ensures Obeys(answer, rule, longer)
    ensures var w := Interleave(answer, acts);
            t !in w.threads && w.cache.gen != |w.low| - 1 ==>
              Interleave(answer, longer)
              == w.(cache := InterestCache.Cache(InterestCache.Learned(answer(w.stored)), |w.low| - 1),
                    verdicts := w.verdicts + [Verdict(answer(w.stored), w.low[|w.low| - 1], w.stored)])
  {
    hide Interleave, Obeys, InterestCache.Learned;
    longer := UpToAsked(answer, rule, acts, t);
    longer := ThroughStores(answer, rule, longer, t);
  }

  /** With the current generation cached, an emit of its own takes over the cached decision. */
  lemma ReadsCache(answer: Filters, rule: Rule, acts: seq<Action>, t: nat, b: bool) returns (longer: seq<Action>)
    requires Obeys(answer, rule, acts)
    ensures Obeys(answer, rule, longer)
    ensures var w := Interleave(answer, acts);
            t !in w.threads && w.cache == InterestCache.Cache(InterestCache.Learned(b), |w.low| - 1) ==>
              Interleave(answer, longer).verdicts == w.verdicts + [Verdict(b, w.low[|w.low| - 1], w.stored)]
  {
    hide Interleave, Obeys;
    longer := Extend(answer, rule, acts, Begin(t));
    longer := Extend(answer, rule, longer, Advance(t));
    longer := Extend(answer, rule, longer, Advance(t));
  }

  /** An announcement while an emit is about to store another answer: that answer is then read for the new generation. */
  lemma StaleAfterAnnouncement(answer: Filters, rule: Rule, acts: seq<Action>, t: nat) returns (longer: seq<Action>)
    requires Obeys(answer, rule, acts) && rule(Interleave(answer, acts))
    requires t in Interleave(answer, acts).threads && Interleave(answer, acts).threads[t].phase.Asked?
    requires answer(Interleave(answer, acts).threads[t].phase.version) != answer(Interleave(answer, acts).stored)
    ensures Obeys(answer, rule, longer) && !Fresh(answer, Interleave(answer, longer))
  {
    hide Interleave, Obeys, InterestCache.Learned;
    var w := Interleave(answer, acts);
    CachedGenBelow(answer, acts);
    longer := Extend(answer, rule, acts, Bump);
    var bumped := w.(low := w.low + [w.stored]);
    var a := Unused(w.threads.Keys);
    assert a !in w.threads;
    longer := RunThrough(answer, rule, longer, a);
    var cached := Interleave(answer, longer);
    longer := Extend(answer, rule, longer, Advance(t));
    var late := Interleave(answer, longer);
    var v := w.threads[t].phase.version;
    assert late.cache == InterestCache.Cache(InterestCache.Learned(answer(v)), |late.low| - 1);
    assert a !in late.threads;
    longer := ReadsCache(answer, rule, longer, a, answer(v));
    var last := Interleave(answer, longer).verdicts[|late.verdicts|];
    assert last == Verdict(answer(v), w.stored, w.stored);
    assert !Judged(answer, last);
  }

  /**
   * Reloads. A rule for when generations may be announced keeps every decision of every interleaving
   * the answer of a filter in force between the announcement its emit saw and the decision, exactly
   * when it never allows an announcement while an emit is about to store an answer that differs from
   * the current filter's.
   */
  lemma AnnounceIff(answer: Filters, rule: Rule)
    ensures (forall acts :: Obeys(answer, rule, acts) ==> Fresh(answer, Interleave(answer, acts))) <==> AllowsOnlySettled(answer, rule)
  {
    hide Interleave, Obeys, Fresh;
    if AllowsOnlySettled(answer, rule) {
      forall acts | Obeys(answer, rule, acts) ensures Fresh(answer, Interleave(answer, acts)) {
        SafeRule(answer, rule, acts);
      }
    } else {
      var acts :| Obeys(answer, rule, acts) && rule(Interleave(answer, acts)) && !Settled(answer, Interleave(answer, acts));
      var w := Interleave(answer, acts);
      var t :| t in w.threads && w.threads[t].phase.Asked? && answer(w.threads[t].phase.version) != answer(w.stored);
      var longer := StaleAfterAnnouncement(answer, rule, acts, t);
    }
  }

  /** No emit that began under an older filter is in flight. */
  predicate Quiet(w: World) {
    forall t :: t in w.threads ==> w.threads[t].since == w.stored
  }

  /** Every emit has asked no filter older than the one it began under, nor a newer one than is stored. */
  ghost predicate AskedInTime(w: World) {
    forall t :: t in w.threads ==>
      var e := w.threads[t];
      e.since <= w.stored && (e.phase.Asked? ==> e.since <= e.phase.version <= w.stored)
  }

  lemma AskedInTimeKept(answer: Filters, w: World, a: Action)
    requires Shaped(w) && AskedInTime(w)
    ensures AskedInTime(Next(answer, w, a))
  {
    var n := Next(answer, w, a);
    forall t | t in n.threads
      ensures n.threads[t].since <= n.stored
      ensures n.threads[t].phase.Asked? ==> n.threads[t].since <= n.threads[t].phase.version <= n.stored
    {
      if t in w.threads { assert w.threads[t].since <= w.stored; }
    }
  }

  lemma {:induction false} AskedInTimeAlways(answer: Filters, acts: seq<Action>)
    ensures AskedInTime(Interleave(answer, acts))
    decreases |acts|
  {
    hide Next;
    if acts != [] {
      hide AskedInTime;
      AskedInTimeAlways(answer, acts[..|acts| - 1]);
      AskedInTimeKept(answer, Interleave(answer, acts[..|acts| - 1]), acts[|acts| - 1]);
    }
  }

  /** Waiting until every emit begun under an older filter is done is such a rule, whatever the filters answer. */
  lemma PatientReloadFresh(answer: Filters, acts: seq<Action>)
    requires Obeys(answer, Quiet, acts)
    ensures Fresh(answer, Interleave(answer, acts))
  {
    hide Interleave, Obeys, Fresh;
    forall before | Obeys(answer, Quiet, before) && Quiet(Interleave(answer, before))
      ensures Settled(answer, Interleave(answer, before))
    {
      AskedInTimeAlways(answer, before);
    }
    AnnounceIff(answer, Quiet);
  }

  // ---- No rule at all ----

  /** `n` reloads with no emit about. */
  lemma {:induction false} Reloads(answer: Filters, n: nat) returns (acts: seq<Action>)
    ensures Obeys(answer, _ => true, acts)
    ensures var w := Interleave(answer, acts); w.stored == n && w.cache == InterestCache.NEW && w.threads == map[]
    decreases n
  {
    if n == 0 {
      acts := [];
    } else {
      hide Interleave, Obeys;
      acts := Reloads(answer, n - 1);
      acts := Extend(answer, _ => true, acts, StoreFilter);
      acts := Extend(answer, _ => true, acts, Bump);
    }
  }

  /** An emit has asked filter `n` when filter `n + 1` is stored. */
  lemma Overtaken(answer: Filters, n: nat) returns (acts: seq<Action>)
    ensures Obeys(answer, _ => true, acts)
    ensures var w := Interleave(answer, acts);
            w.stored == n + 1 && 0 in w.threads && w.threads[0].phase == Asked(n)
  {
    hide Interleave, Obeys;
    acts := Reloads(answer, n);
    acts := UpToAsked(answer, _ => true, acts, 0);
    acts := Extend(answer, _ => true, acts, StoreFilter);
  }

  /** Two versions that answer differently have neighbours between them that do. */
  lemma {:induction false} SomeChange(answer: Filters, m: nat, n: nat) returns (k: nat)
    ensures m <= n && answer(m) != answer(n) ==> answer(k) != answer(k + 1)
    decreases n
  {
    if n <= m {
      k := 0;
    } else if answer(n - 1) != answer(n) {
      k := n - 1;
    } else {
      k := SomeChange(answer, m, n - 1);
    }
  }

  /** If generations are announced at any time, every interleaving is fresh exactly when no reload changes the callsite's answer. */
  lemma HastyReloadFreshIff(answer: Filters)
    ensures (forall acts :: Fresh(answer, Interleave(answer, acts))) <==> (forall m, n :: answer(m) == answer(n))
  {
    hide Interleave, Fresh;
    AnnounceIff(answer, _ => true);
    if !forall m, n :: answer(m) == answer(n) {
      var m, n :| answer(m) != answer(n);
      var k;
      if m <= n {
        k := SomeChange(answer, m, n);
      } else {
        k := SomeChange(answer, n, m);
      }
      var acts := Overtaken(answer, k);
      assert !Settled(answer, Interleave(answer, acts));
    }
  }
}
