/** The per-callsite interest cache (crates/obs-core/src/callsite.rs, emit.rs). */
module InterestCache {
  datatype Interest = Unknown | Never | Sometimes | Always
  datatype Outcome = ReProbe | Off | SometimesOn | AlwaysOn

  datatype Cache = Cache(interest: Interest, gen: nat)

  const NEW := Cache(Unknown, 0)

  function Classify(i: Interest): Outcome {
    match i
    case Unknown => ReProbe
    case Never => Off
    case Sometimes => SometimesOn
    case Always => AlwaysOn
  }

  function Learned(allows: bool): Interest {
    if allows then Always else Never
  }

  // ---- One thread ----

  datatype Decision = Decision(cache: Cache, permitted: bool)

  /** One emit against an observer with generation `gen` whose own answer is `allows`. */
  function Decide(c: Cache, gen: nat, allows: bool): Decision {
    match if c.gen != gen then ReProbe else Classify(c.interest)
    case AlwaysOn => Decision(c, true)
    case Off => Decision(c, false)
    case SometimesOn => Decision(c, allows)
    case ReProbe => Decision(Cache(Learned(allows), gen), allows)
  }

  class ObsCallsite {
    var interest: Interest
    var cachedGen: nat

    // The emits and resets so far.
    ghost var ops: seq<Op>

    ghost function View(): Cache reads this {
      Cache(interest, cachedGen)
    }

    ghost predicate Valid() reads this {
      View() == After(ops)
    }

    constructor ()
      ensures Valid() && ops == [] && View() == NEW
    {
      interest, cachedGen, ops := Unknown, 0, [];
    }

    /**
     * `Off` and `AlwaysOn` are the decision whatever the observer would answer; otherwise it is the
     * observer's, to be cached on `ReProbe`.
     */
    method Enabled(gen: nat) returns (r: Outcome)
      ensures forall allows :: Decide(View(), gen, allows)
                               == Decision(if r == ReProbe then Cache(Learned(allows), gen) else View(),
                                           r == AlwaysOn || (r != Off && allows))
    {
      if cachedGen != gen { return ReProbe; }
      r := Classify(interest);
    }

    method Store(i: Interest, gen: nat)
      modifies this`interest, this`cachedGen
      ensures View() == Cache(i, gen)
    {
      interest := i;
      cachedGen := gen;
    }

    method ResetCache()
      modifies this
      ensures View() == NEW && Valid() && ops == old(ops) + [Reset]
    {
      interest := Unknown;
      cachedGen := 0;
      ops := ops + [Reset];
    }

    /** The decision is the observer's answer at the start of the unbroken run of this generation. */
    method EmitOne(gen: nat, allows: bool) returns (permitted: bool)
      requires Valid()
      modifies this
      ensures Decision(View(), permitted) == Decide(old(View()), gen, allows)
      ensures Valid() && ops == old(ops) + [Emit(gen, allows)]
      ensures permitted == ops[RunStart(ops, |ops| - 1)].allows
    {
      hide RunStart;
      var outcome := Enabled(gen);
      match outcome {
        case AlwaysOn => permitted := true;
        case Off => permitted := false;
        case SometimesOn => permitted := allows;
        case ReProbe =>
          permitted := allows;
          Store(if allows then Always else Never, gen);
      }
      ghost var before := ops;
      ops := ops + [Emit(gen, allows)];
      assert ops[..|before|] == before && ops[..|ops|] == ops;
      DecisionExact(ops, |before|);
    }
  }

  datatype Op = Emit(gen: nat, allows: bool) | Reset

  function After(ops: seq<Op>): Cache {
    if ops == [] then NEW
    else
      match ops[|ops| - 1]
      case Reset => NEW
      case Emit(gen, allows) => Decide(After(ops[..|ops| - 1]), gen, allows).cache
  }

  function PermittedAt(ops: seq<Op>, k: nat): bool
    requires k < |ops| && ops[k].Emit?
  {
    Decide(After(ops[..k]), ops[k].gen, ops[k].allows).permitted
  }

  /** The first emit of the unbroken run of emits with one generation that ends at `k`. */
  function RunStart(ops: seq<Op>, k: nat): (r: nat)
    requires k < |ops| && ops[k].Emit?
    ensures r <= k && ops[r].Emit? && ops[r].gen == ops[k].gen
  {
    if k > 0 && ops[k - 1].Emit? && ops[k - 1].gen == ops[k].gen then RunStart(ops, k - 1) else k
  }

  /**
   * Whatever the observers answer, an emit is decided by what the observer answered at the start of
   * the unbroken run of its generation.
   */
  lemma {:induction false} DecisionExact(ops: seq<Op>, k: nat)
    requires k < |ops| && ops[k].Emit?
    ensures PermittedAt(ops, k) == ops[RunStart(ops, k)].allows
    ensures After(ops[..k + 1]) == Cache(Learned(ops[RunStart(ops, k)].allows), ops[k].gen)
    decreases k
  {
    assert ops[..k + 1][..k] == ops[..k];
    if k > 0 {
      assert ops[..k][..k - 1] == ops[..k - 1];
      if ops[k - 1].Emit? {
        DecisionExact(ops, k - 1);
      }
    }
  }

  /**
   * Every decision of a run equals asking the observer afresh exactly when the answer never changes
   * inside an unbroken run of one generation.
   */
  lemma AlwaysFreshIff(ops: seq<Op>)
    ensures (forall k :: 0 <= k < |ops| && ops[k].Emit? ==> PermittedAt(ops, k) == ops[k].allows)
       <==> (forall k :: 0 < k < |ops| && ops[k].Emit? && ops[k - 1].Emit? && ops[k - 1].gen == ops[k].gen ==>
               ops[k - 1].allows == ops[k].allows)
  {
    forall k | 0 <= k < |ops| && ops[k].Emit?
      ensures PermittedAt(ops, k) == ops[RunStart(ops, k)].allows
    {
      DecisionExact(ops, k);
    }
    if forall k :: 0 < k < |ops| && ops[k].Emit? && ops[k - 1].Emit? && ops[k - 1].gen == ops[k].gen ==>
         ops[k - 1].allows == ops[k].allows {
      forall k | 0 <= k < |ops| && ops[k].Emit? ensures ops[RunStart(ops, k)].allows == ops[k].allows {
        SteadyRun(ops, k);
      }
    }
  }

  lemma {:induction false} SteadyRun(ops: seq<Op>, k: nat)
    requires k < |ops| && ops[k].Emit?
    requires forall j :: 0 < j < |ops| && ops[j].Emit? && ops[j - 1].Emit? && ops[j - 1].gen == ops[j].gen ==>
      ops[j - 1].allows == ops[j].allows
    ensures ops[RunStart(ops, k)].allows == ops[k].allows
    decreases k
  {
    if k > 0 && ops[k - 1].Emit? && ops[k - 1].gen == ops[k].gen {
      SteadyRun(ops, k - 1);
    }
  }

  // ---- Interleaved threads ----

  /**
   * Where an emit in flight stands. Loads go generation first, then interest; stores go interest
   * first, then generation; each is one step.
   */
  datatype Phase =
    | Began(gen: nat)                 // has read the observer
    | Matched(gen: nat)               // loaded the cached generation, and it is this one
    | Probing(gen: nat)               // must ask the observer
    | Asked(gen: nat, allows: bool)   // about to store the interest
    | Between(gen: nat, allows: bool) // stored the interest, not yet the generation

  datatype Verdict = Verdict(gen: nat, permitted: bool)

  datatype World = World(cache: Cache, threads: map<nat, Phase>, verdicts: seq<Verdict>)

  const START := World(NEW, map[], [])

  datatype Action = Begin(thread: nat, gen: nat) | Advance(thread: nat)

  /** What the observer of each generation answers for this callsite. */
  type Observers = nat -> bool

  function To(w: World, t: nat, p: Phase): World {
    w.(threads := w.threads[t := p])
  }

  function Done(w: World, t: nat, gen: nat, permitted: bool): World {
    World(w.cache, w.threads - {t}, w.verdicts + [Verdict(gen, permitted)])
  }

  function Advanced(answer: Observers, w: World, t: nat): World
    requires t in w.threads
  {
    match w.threads[t]
    case Began(g) => To(w, t, if w.cache.gen == g then Matched(g) else Probing(g))
    case Matched(g) =>
      (match Classify(w.cache.interest)
       case ReProbe => To(w, t, Probing(g))
       case Off => Done(w, t, g, false)
       case SometimesOn => Done(w, t, g, answer(g))
       case AlwaysOn => Done(w, t, g, true))
    case Probing(g) => To(w, t, Asked(g, answer(g)))
    case Asked(g, a) => To(w.(cache := Cache(Learned(a), w.cache.gen)), t, Between(g, a))
    case Between(g, a) => Done(w.(cache := Cache(w.cache.interest, g)), t, g, a)
  }

  /** An action that does not apply to its thread changes nothing. */
  function Next(answer: Observers, w: World, a: Action): World {
    match a
    case Begin(t, g) => if t in w.threads then w else To(w, t, Began(g))
    case Advance(t) => if t in w.threads then Advanced(answer, w, t) else w
  }

  function Interleave(answer: Observers, acts: seq<Action>): World {
    if acts == [] then START else Next(answer, Interleave(answer, acts[..|acts| - 1]), acts[|acts| - 1])
  }

  /** Which generations may have emits in flight together. */
  type Overlap = (nat, nat) -> bool

  /** Every emit begins only beside emits whose generation may overlap its own. */
  ghost predicate Scheduled(answer: Observers, may: Overlap, acts: seq<Action>) {
    forall k :: 0 <= k < |acts| && acts[k].Begin? ==> MayBegin(may, Interleave(answer, acts[..k]), acts[k].gen)
  }

  ghost predicate MayBegin(may: Overlap, w: World, gen: nat) {
    forall t :: t in w.threads ==> may(gen, w.threads[t].gen)
  }

  ghost predicate Fresh(answer: Observers, w: World) {
    forall k :: 0 <= k < |w.verdicts| ==> w.verdicts[k].permitted == answer(w.verdicts[k].gen)
  }

  predicate Agrees(i: Interest, allows: bool) {
    i in {Unknown, Sometimes, Learned(allows)}
  }

  /** An emit in flight whose observer answers `b`, as far as it has got. */
  ghost predicate PhaseOk(answer: Observers, i: Interest, b: bool, p: Phase) {
    && answer(p.gen) == b
    && (p.Matched? ==> Agrees(i, b))
    && (p.Asked? || p.Between? ==> p.allows == b)
    && (p.Between? ==> i == Learned(b))
  }

  ghost predicate PhasesOk(answer: Observers, w: World, b: bool) {
    forall t :: t in w.threads ==> PhaseOk(answer, w.cache.interest, b, w.threads[t])
  }

  ghost predicate SomeBetween(w: World) {
    exists t :: t in w.threads && w.threads[t].Between?
  }

  /** `b` is the answer shared by all emits in flight; the cache is consistent unless one is between its stores. */
  ghost predicate Shared(answer: Observers, w: World, b: bool) {
    && PhasesOk(answer, w, b)
    && (Agrees(w.cache.interest, answer(w.cache.gen)) || SomeBetween(w))
    && Fresh(answer, w)
  }

  ghost predicate Inv(answer: Observers, w: World) {
    exists b :: Shared(answer, w, b)
  }

  lemma BeginKeeps(answer: Observers, may: Overlap, w: World, t: nat, g: nat)
    requires forall g, h :: may(g, h) ==> answer(g) == answer(h)
    requires Inv(answer, w) && MayBegin(may, w, g)
    ensures Inv(answer, Next(answer, w, Begin(t, g)))
  {
    var n := Next(answer, w, Begin(t, g));
    if t !in w.threads {
      var b :| Shared(answer, w, b);
      assert forall u :: u in w.threads ==> u in n.threads && n.threads[u] == w.threads[u];
      assert PhasesOk(answer, n, answer(g));
      assert Shared(answer, n, answer(g));
    }
  }

  /** While an emit is between its stores the interest is the shared answer, so the cache never misleads one in flight. */
  lemma MatchAgrees(answer: Observers, w: World, b: bool, t: nat)
    requires Shared(answer, w, b) && t in w.threads && w.cache.gen == w.threads[t].gen
    ensures Agrees(w.cache.interest, b)
  {
    assert PhaseOk(answer, w.cache.interest, b, w.threads[t]);
  }

  lemma MoveKeeps(answer: Observers, w: World, b: bool, t: nat, p: Phase)
    requires Shared(answer, w, b) && t in w.threads && !w.threads[t].Between?
    requires PhaseOk(answer, w.cache.interest, b, p)
    ensures Shared(answer, To(w, t, p), b)
  {
    var n := To(w, t, p);
    assert forall u :: u in n.threads && u != t ==> u in w.threads && n.threads[u] == w.threads[u];
    if SomeBetween(w) {
      var u :| u in w.threads && w.threads[u].Between?;
      assert u in n.threads && n.threads[u].Between?;
    }
  }

  lemma DoneKeeps(answer: Observers, w: World, b: bool, t: nat, g: nat)
    requires Shared(answer, w, b) && t in w.threads && answer(g) == b
    requires w.threads[t].Between? ==> Agrees(w.cache.interest, answer(w.cache.gen))
    ensures Shared(answer, Done(w, t, g, b), b)
  {
    var n := Done(w, t, g, b);
    assert forall u :: u in n.threads ==> u in w.threads && n.threads[u] == w.threads[u];
    if SomeBetween(w) && !w.threads[t].Between? {
      var u :| u in w.threads && w.threads[u].Between?;
      assert u in n.threads && n.threads[u].Between?;
    }
  }

  lemma StoreInterestKeeps(answer: Observers, w: World, b: bool, t: nat, g: nat)
    requires Shared(answer, w, b) && t in w.threads && w.threads[t] == Asked(g, b)
    ensures Shared(answer, To(w.(cache := Cache(Learned(b), w.cache.gen)), t, Between(g, b)), b)
  {
    var n := To(w.(cache := Cache(Learned(b), w.cache.gen)), t, Between(g, b));
    assert PhaseOk(answer, w.cache.interest, b, w.threads[t]);
    assert forall u :: u in n.threads && u != t ==> u in w.threads && n.threads[u] == w.threads[u];
    assert n.threads[t].Between?;
  }

  lemma StoreGenKeeps(answer: Observers, w: World, b: bool, t: nat, g: nat)
    requires Shared(answer, w, b) && t in w.threads && w.threads[t] == Between(g, b)
    ensures Shared(answer, w.(cache := Cache(w.cache.interest, g)), b)
    ensures Agrees(w.cache.interest, answer(g))
  {
    assert PhaseOk(answer, w.cache.interest, b, w.threads[t]);
  }

  lemma AdvanceKeeps(answer: Observers, w: World, t: nat)
    requires Inv(answer, w) && t in w.threads
    ensures Inv(answer, Advanced(answer, w, t))
  {
    var b :| Shared(answer, w, b);
    var p := w.threads[t];
    assert PhaseOk(answer, w.cache.interest, b, p);
    assert Shared(answer, Advanced(answer, w, t), b) by {
      hide SomeBetween, Fresh, PhasesOk, To, Done;
      match p
      case Began(g) =>
        if w.cache.gen == g { MatchAgrees(answer, w, b, t); }
        MoveKeeps(answer, w, b, t, if w.cache.gen == g then Matched(g) else Probing(g));
      case Matched(g) =>
        if w.cache.interest == Unknown { MoveKeeps(answer, w, b, t, Probing(g)); }
        else { DoneKeeps(answer, w, b, t, g); }
      case Probing(g) => MoveKeeps(answer, w, b, t, Asked(g, b));
      case Asked(g, a) => StoreInterestKeeps(answer, w, b, t, g);
      case Between(g, a) =>
        StoreGenKeeps(answer, w, b, t, g);
        DoneKeeps(answer, w.(cache := Cache(w.cache.interest, g)), b, t, g);
    }
  }

  lemma {:induction false} RunKeeps(answer: Observers, may: Overlap, acts: seq<Action>)
    requires forall g, h :: may(g, h) ==> answer(g) == answer(h)
    requires Scheduled(answer, may, acts)
    ensures Inv(answer, Interleave(answer, acts))
    decreases |acts|
  {
    hide Inv, MayBegin, Advanced;
    if acts == [] {
      StartOk(answer);
    } else {
      var init := acts[..|acts| - 1];
      assert forall k :: 0 <= k < |init| ==> init[..k] == acts[..k];
      RunKeeps(answer, may, init);
      var w := Interleave(answer, init);
      match acts[|acts| - 1]
      case Begin(t, g) => BeginKeeps(answer, may, w, t, g);
      case Advance(t) => if t in w.threads { AdvanceKeeps(answer, w, t); }
    }
  }

  lemma StartOk(answer: Observers)
    ensures Inv(answer, START)
  {
    assert Shared(answer, START, true);
  }

  lemma Extend(answer: Observers, may: Overlap, acts: seq<Action>, a: Action) returns (longer: seq<Action>)
    requires Scheduled(answer, may, acts)
    requires a.Begin? ==> MayBegin(may, Interleave(answer, acts), a.gen)
    ensures longer == acts + [a] && Scheduled(answer, may, longer)
    ensures Interleave(answer, longer) == Next(answer, Interleave(answer, acts), a)
  {
    hide Next, MayBegin;
    longer := acts + [a];
    assert longer[..|acts|] == acts;
    assert forall k :: 0 <= k < |acts| ==> longer[..k] == acts[..k] && longer[k] == acts[k];
  }

  /** Against an empty cache an emit gets as far as having asked the observer. */
  lemma UpToAsked(answer: Observers, may: Overlap, acts: seq<Action>, t: nat, g: nat) returns (longer: seq<Action>)
    requires Scheduled(answer, may, acts)
    requires var w := Interleave(answer, acts); w.cache == NEW && t !in w.threads && MayBegin(may, w, g)
    ensures Scheduled(answer, may, longer)
    ensures Interleave(answer, longer) == To(Interleave(answer, acts), t, Asked(g, answer(g)))
  {
    hide Scheduled, Interleave, MayBegin;
    var w := Interleave(answer, acts);
    longer := Extend(answer, may, acts, Begin(t, g));
    longer := Extend(answer, may, longer, Advance(t));
    longer := Extend(answer, may, longer, Advance(t));
    if g == 0 {
      longer := Extend(answer, may, longer, Advance(t));
    }
    assert Interleave(answer, longer) == To(w, t, Asked(g, answer(g)));
  }

  /** A slow emit of generation `g` stores its answer over that of `h`, and a third emit reads it for `h`. */
  lemma StaleRead(answer: Observers, may: Overlap, g: nat, h: nat) returns (acts: seq<Action>)
    requires may(g, h) && may(h, g) && answer(g) != answer(h)
    ensures Scheduled(answer, may, acts)
    ensures Interleave(answer, acts).verdicts == [Verdict(h, answer(h)), Verdict(h, answer(g))]
  {
    hide Scheduled, Interleave;
    StartsEmpty(answer, may);
    acts := UpToAsked(answer, may, [], 0, g);
    acts := UpToAsked(answer, may, acts, 1, h);
    acts := Extend(answer, may, acts, Advance(1));
    acts := Extend(answer, may, acts, Advance(1));
    acts := Extend(answer, may, acts, Advance(0));
    assert Interleave(answer, acts) == World(Cache(Learned(answer(g)), h), map[0 := Between(g, answer(g))], [Verdict(h, answer(h))]);
    acts := Extend(answer, may, acts, Begin(2, h));
    acts := Extend(answer, may, acts, Advance(2));
    acts := Extend(answer, may, acts, Advance(2));
  }

  lemma StartsEmpty(answer: Observers, may: Overlap)
    ensures Scheduled(answer, may, []) && Interleave(answer, []) == START
  {}

  /**
   * Interleaved emits. A rule for which generations may be in flight together makes every decision
   * of every interleaving fresh exactly when it lets only generations with the same answer overlap.
   */
  lemma FreshIff(answer: Observers, may: Overlap)
    requires forall g, h :: may(g, h) ==> may(h, g)
    ensures (forall acts :: Scheduled(answer, may, acts) ==> Fresh(answer, Interleave(answer, acts)))
       <==> (forall g, h :: may(g, h) ==> answer(g) == answer(h))
  {
    hide Scheduled, Interleave;
    if forall g, h :: may(g, h) ==> answer(g) == answer(h) {
      forall acts | Scheduled(answer, may, acts) ensures Fresh(answer, Interleave(answer, acts)) {
        RunKeeps(answer, may, acts);
      }
    } else {
      var g, h :| may(g, h) && answer(g) != answer(h);
      var acts := StaleRead(answer, may, g, h);
      assert Interleave(answer, acts).verdicts[1] == Verdict(h, answer(g));
      assert !Fresh(answer, Interleave(answer, acts));
    }
  }

  /** While all emits in flight carry one generation, every decision is fresh, whatever the observers answer. */
  lemma SameGenerationFresh(answer: Observers, acts: seq<Action>)
    requires Scheduled(answer, (g, h) => g == h, acts)
    ensures Fresh(answer, Interleave(answer, acts))
  {
    RunKeeps(answer, (g, h) => g == h, acts);
  }

  function Alone(answer: Observers, w: World, t: nat, steps: nat): World {
    if steps == 0 then w else Next(answer, Alone(answer, w, t, steps - 1), Advance(t))
  }

  /** An emit that runs with no other in flight does what the one-thread emit does. */
  lemma AloneIsAtomic(answer: Observers, w: World, t: nat, g: nat)
    requires w.threads == map[]
    ensures var d := Decide(w.cache, g, answer(g));
            Alone(answer, Next(answer, w, Begin(t, g)), t, 5) == World(d.cache, map[], w.verdicts + [Verdict(g, d.permitted)])
  {
    var b := Next(answer, w, Begin(t, g));
    assert Alone(answer, b, t, 1) == To(w, t, if w.cache.gen == g then Matched(g) else Probing(g));
    var two, three := Alone(answer, b, t, 2), Alone(answer, b, t, 3);
    if w.cache.gen == g && w.cache.interest != Unknown {
      assert two.threads == map[];
    } else if w.cache.gen == g {
      assert two == To(w, t, Probing(g));
    } else {
      assert two == To(w, t, Asked(g, answer(g)));
    }
  }
}
