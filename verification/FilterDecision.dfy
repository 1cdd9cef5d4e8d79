/** Building a filter and deciding with it (crates/obs-core/src/filter.rs). */
module FilterDecision {
  import opened Bytes
  import opened FilterGrammar
  import opened FilterSplit
  import opened FilterRender

  // ---- Building ----

  datatype Filter = Filter(defaultLevel: Severity, defaultOff: bool, statics: seq<Directive>, dynamics: map<string, seq<Directive>>)

  const EMPTY := Filter(Info, false, [], map[])

  function BucketKey(d: Directive): string {
    if d.target.Some? then d.target.value else ""
  }

  function Bucket(f: Filter, k: string): seq<Directive> {
    if k in f.dynamics then f.dynamics[k] else []
  }

  /** `add_directive` on a parsed directive: a floor, a static directive, or a bucketed dynamic one. */
  function Add(f: Filter, d: Directive): Filter {
    if d.target.None? && d.fields == [] then
      if d.off then f.(defaultOff := true) else f.(defaultLevel := d.level, defaultOff := false)
    else if d.fields == [] then f.(statics := f.statics + [d])
    else f.(dynamics := f.dynamics[BucketKey(d) := Bucket(f, BucketKey(d)) + [d]])
  }

  function AddAll(f: Filter, ds: seq<Directive>): Filter
    decreases |ds|
  {
    if ds == [] then f else AddAll(Add(f, ds[0]), ds[1..])
  }

  function Parsed(spec: string): Option<Filter> {
    match ParseSpec(spec)
    case None => None
    case Some(ds) => Some(AddAll(EMPTY, ds))
  }

  method Parse(spec: string) returns (r: Option<Filter>)
    ensures r == Parsed(spec)
  {
    hide Pieces, Trim, ParseDirective;
    var pieces := SplitDirectives(spec);
    ghost var goal := Parsed(spec);
    var f := EMPTY;
    for i := 0 to |pieces|
      invariant goal == match ParsePieces(pieces[i..]) case None => None case Some(ds) => Some(AddAll(f, ds))
    {
      assert pieces[i..][1..] == pieces[i + 1..];
      var raw := Trim(pieces[i]);
      if raw != "" {
        var d := ParseDirective(raw);
        if d.None? {
          return None;
        }
        ghost var rest := ParsePieces(pieces[i + 1..]);
        assert rest.Some? ==> ([d.value] + rest.value)[1..] == rest.value;
        f := Add(f, d.value);
      }
    }
    return Some(f);
  }

  ghost function Statics(ds: seq<Directive>): seq<Directive> {
    if ds == [] then []
    else (if ds[0].target.Some? && ds[0].fields == [] then [ds[0]] else []) + Statics(ds[1..])
  }

  ghost function Dynamics(ds: seq<Directive>, k: string): seq<Directive> {
    if ds == [] then []
    else (if ds[0].fields != [] && BucketKey(ds[0]) == k then [ds[0]] else []) + Dynamics(ds[1..], k)
  }

  lemma AddOne(f: Filter, d: Directive, k: string)
    ensures Add(f, d).statics == f.statics + (if d.target.Some? && d.fields == [] then [d] else [])
    ensures Bucket(Add(f, d), k) == Bucket(f, k) + (if d.fields != [] && BucketKey(d) == k then [d] else [])
    ensures k in Add(f, d).dynamics <==> k in f.dynamics || (d.fields != [] && BucketKey(d) == k)
  {}

  /** Directives are kept in spec order, each in the list or bucket it belongs to. */
  lemma {:induction false} BuiltInOrder(f: Filter, ds: seq<Directive>, k: string)
    ensures AddAll(f, ds).statics == f.statics + Statics(ds)
    ensures Bucket(AddAll(f, ds), k) == Bucket(f, k) + Dynamics(ds, k)
    ensures k in AddAll(f, ds).dynamics <==> k in f.dynamics || Dynamics(ds, k) != []
    decreases |ds|
  {
    hide Add, Bucket, BucketKey;
    if ds == [] {
      assert f.statics + [] == f.statics && Bucket(f, k) + [] == Bucket(f, k);
    } else {
      var d := ds[0];
      AddOne(f, d, k);
      BuiltInOrder(Add(f, d), ds[1..], k);
      Assoc(f.statics, if d.target.Some? && d.fields == [] then [d] else [], Statics(ds[1..]));
      Assoc(Bucket(f, k), if d.fields != [] && BucketKey(d) == k then [d] else [], Dynamics(ds[1..], k));
    }
  }

  /** A filter whose static directives all have a target to match, as `parse` builds them. */
  predicate Valid(f: Filter) {
    forall d :: d in f.statics ==> d.target.Some? && d.target.value != ""
  }

  lemma DirectiveTarget(raw: string)
    ensures var d := ParseDirective(raw); d.Some? && d.value.target.Some? ==> d.value.target.value != ""
  {
    hide Span, Skip, FieldBlock, Tail, BareToken, Lower, SeverityOf, Trim;
  }

  lemma {:induction false} PiecesTargets(pieces: seq<string>)
    ensures var ds := ParsePieces(pieces);
            ds.Some? ==> forall d :: d in ds.value && d.target.Some? ==> d.target.value != ""
    decreases |pieces|
  {
    hide ParseDirective, Trim;
    if pieces != [] {
      DirectiveTarget(Trim(pieces[0]));
      PiecesTargets(pieces[1..]);
    }
  }

  lemma {:induction false} StaticsFrom(ds: seq<Directive>)
    ensures forall d :: d in Statics(ds) ==> d in ds && d.target.Some?
    decreases |ds|
  {
    if ds != [] {
      StaticsFrom(ds[1..]);
    }
  }

  /** Whatever spec is parsed, the filter it gives is valid. */
  lemma ParsedValid(spec: string)
    ensures Parsed(spec).Some? ==> Valid(Parsed(spec).value)
  {
    hide Pieces, ParsePieces, AddAll;
    var ds := ParseSpec(spec);
    if ds.Some? {
      PiecesTargets(Pieces(spec));
      BuiltInOrder(EMPTY, ds.value, "");
      StaticsFrom(ds.value);
      assert [] + Statics(ds.value) == Statics(ds.value);
    }
  }

  // ---- Resolution ----

  predicate MatchesSegment(s: string, target: string) {
    s == target
    || (target <= s && (var rest := s[|target|..]; "." <= rest || "::" <= rest))
  }

  /** A target matches a name that equals it or goes on after it with a segment separator, and no other. */
  lemma SegmentExact(s: string, target: string)
    ensures MatchesSegment(s, target) <==> s == target || exists rest :: s == target + ("." + rest) || s == target + ("::" + rest)
  {
    if MatchesSegment(s, target) && s != target {
      var tail := s[|target|..];
      var rest := if "." <= tail then tail[1..] else tail[2..];
      assert "." <= tail ==> tail == "." + rest;
      assert !("." <= tail) ==> tail == "::" + rest;
      assert s == target + tail;
    } else if rest :| s == target + ("." + rest) || s == target + ("::" + rest) {
      assert target <= s && (s[|target|..] == "." + rest || s[|target|..] == "::" + rest);
    }
  }

  predicate Matches(d: Directive, fullName: string, module_: string) {
    d.target.Some? && (MatchesSegment(fullName, d.target.value) || MatchesSegment(module_, d.target.value))
  }

  function TargetLength(d: Directive): nat {
    if d.target.Some? then |d.target.value| else 0
  }

  /** The index of the directive that decides among the first `n`. */
  function Winner(statics: seq<Directive>, n: nat, fullName: string, module_: string): (w: Option<nat>)
    requires n <= |statics|
    ensures w.Some? ==> w.value < n
  {
    if n == 0 then None
    else
      var best := Winner(statics, n - 1, fullName, module_);
      if Matches(statics[n - 1], fullName, module_)
         && (best.None? || TargetLength(statics[n - 1]) > TargetLength(statics[best.value])) then Some(n - 1)
      else best
  }

  datatype Resolved = Off | Level(floor: Severity)

  function Resolution(d: Directive): Resolved {
    if d.off then Off else Level(d.level)
  }

  function StaticLevelFor(f: Filter, fullName: string, module_: string): Option<Resolved> {
    match Winner(f.statics, |f.statics|, fullName, module_)
    case None => None
    case Some(i) => Some(Resolution(f.statics[i]))
  }

  method ResolveStatic(f: Filter, fullName: string, module_: string) returns (r: Option<Resolved>)
    ensures r == StaticLevelFor(f, fullName, module_)
  {
    hide Matches;
    var best: Option<(nat, Resolved)> := None;
    for i := 0 to |f.statics|
      invariant match Winner(f.statics, i, fullName, module_)
                case None => best == None
                case Some(j) => best == Some((TargetLength(f.statics[j]), Resolution(f.statics[j])))
    {
      var d := f.statics[i];
      if Matches(d, fullName, module_) && (best.None? || TargetLength(d) > best.value.0) {
        best := Some((TargetLength(d), Resolution(d)));
      }
    }
    r := if best.None? then None else Some(best.value.1);
  }

  /** Longest matching target, the earliest among equally long ones. */
  ghost predicate Decides(statics: seq<Directive>, n: nat, fullName: string, module_: string, i: nat)
    requires n <= |statics|
  {
    && i < n && statics[i].target.Some? && Matches(statics[i], fullName, module_)
    && (forall j :: 0 <= j < n && statics[j].target.Some? && Matches(statics[j], fullName, module_) ==>
          |statics[j].target.value| <= |statics[i].target.value|
          && (j < i ==> |statics[j].target.value| < |statics[i].target.value|))
  }

  lemma {:induction false} WinnerDecides(statics: seq<Directive>, n: nat, fullName: string, module_: string)
    requires n <= |statics|
    ensures var w := Winner(statics, n, fullName, module_);
            && (w.Some? ==> Decides(statics, n, fullName, module_, w.value))
            && (w.None? ==> forall j :: 0 <= j < n ==> !Matches(statics[j], fullName, module_))
    decreases n
  {
    if n > 0 {
      assert Matches(statics[n - 1], fullName, module_) ==> statics[n - 1].target.Some?;
      hide Matches;
      WinnerDecides(statics, n - 1, fullName, module_);
    }
  }

  /** Static resolution is exactly the longest matching segment-bounded target, earliest on ties. */
  lemma ResolutionExact(statics: seq<Directive>, fullName: string, module_: string, i: nat)
    ensures var w := Winner(statics, |statics|, fullName, module_);
            && (w == Some(i) <==> Decides(statics, |statics|, fullName, module_, i))
            && (w == None <==> forall j :: 0 <= j < |statics| ==> !Matches(statics[j], fullName, module_))
  {
    assert forall j :: 0 <= j < |statics| && Matches(statics[j], fullName, module_) ==> statics[j].target.Some?;
    hide Matches;
    WinnerDecides(statics, |statics|, fullName, module_);
  }

  // ---- Decisions ----

  datatype Interest = Never | Sometimes | Always
  datatype Callsite = Callsite(fullName: string, defaultSev: Severity, module_: string)
  datatype Event = Event(fullName: string, labels: map<string, string>)

  function CallsiteInterest(f: Filter, c: Callsite): Interest {
    var dynamicPresent := c.fullName in f.dynamics;
    match StaticLevelFor(f, c.fullName, c.module_)
    case Some(Off) =>
      if dynamicPresent then Sometimes else Never
    case Some(Level(floor)) =>
      if c.defaultSev.Rank() < floor.Rank() then (if dynamicPresent then Sometimes else Never)
      else if dynamicPresent then Sometimes
      else Always
    case None =>
      if f.defaultOff || c.defaultSev.Rank() < f.defaultLevel.Rank() then (if dynamicPresent then Sometimes else Never)
      else if dynamicPresent then Sometimes
      else Always
  }

  predicate FieldsMatch(fields: seq<(string, string)>, labels: map<string, string>) {
    forall i :: 0 <= i < |fields| ==> fields[i].0 in labels && labels[fields[i].0] == fields[i].1
  }

  /** The first dynamic directive of the bucket whose clauses the labels satisfy. */
  function FirstMatch(bucket: seq<Directive>, labels: map<string, string>): Option<Directive> {
    if bucket == [] then None
    else if FieldsMatch(bucket[0].fields, labels) then Some(bucket[0])
    else FirstMatch(bucket[1..], labels)
  }

  /** The per-event decision looks statics up by full name only. */
  function EventAllowed(f: Filter, e: Event, sev: Severity): bool {
    match FirstMatch(Bucket(f, e.fullName), e.labels)
    case Some(d) => !d.off && sev.Rank() >= d.level.Rank()
    case None =>
      match StaticLevelFor(f, e.fullName, "")
      case Some(Off) => false
      case Some(Level(floor)) => sev.Rank() >= floor.Rank()
      case None => !f.defaultOff && sev.Rank() >= f.defaultLevel.Rank()
  }

  /** A static directive cannot match the empty module. */
  lemma {:induction false} EmptyModule(statics: seq<Directive>, n: nat, fullName: string, module_: string)
    requires n <= |statics|
    requires forall d :: d in statics ==> d.target.Some? && d.target.value != ""
    requires forall i :: 0 <= i < n && Matches(statics[i], fullName, module_) ==> MatchesSegment(fullName, statics[i].target.value)
    ensures Winner(statics, n, fullName, module_) == Winner(statics, n, fullName, "")
    decreases n
  {
    if n > 0 {
      EmptyModule(statics, n - 1, fullName, module_);
      assert statics[n - 1] in statics;
      assert !MatchesSegment("", statics[n - 1].target.value);
    }
  }

  ghost predicate ModuleUntouched(f: Filter, c: Callsite) {
    forall i :: 0 <= i < |f.statics| && f.statics[i].target.Some? ==> !MatchesSegment(c.module_, f.statics[i].target.value)
  }

  /**
   * When no static directive matches the callsite's module, the cached callsite decision is the
   * decision every event of that callsite gets at its default severity.
   */
  lemma CallsiteAgreesWithEvents(f: Filter, c: Callsite, e: Event)
    requires Valid(f) && ModuleUntouched(f, c) && e.fullName == c.fullName
    ensures CallsiteInterest(f, c) == Always ==> EventAllowed(f, e, c.defaultSev)
    ensures CallsiteInterest(f, c) == Never ==> !EventAllowed(f, e, c.defaultSev)
  {
    hide Winner;
    EmptyModule(f.statics, |f.statics|, c.fullName, c.module_);
  }

  /** The winning directive naming the event itself is enough for that. */
  lemma WinnerNamesEvent(f: Filter, c: Callsite, i: nat)
    requires Valid(f) && Winner(f.statics, |f.statics|, c.fullName, c.module_) == Some(i)
    requires MatchesSegment(c.fullName, f.statics[i].target.value)
    ensures StaticLevelFor(f, c.fullName, "") == StaticLevelFor(f, c.fullName, c.module_)
  {
    WinnerDecides(f.statics, |f.statics|, c.fullName, c.module_);
    forall j | 0 <= j < |f.statics|
      ensures !MatchesSegment("", f.statics[j].target.value)
    {
      assert f.statics[j] in f.statics;
    }
    assert Decides(f.statics, |f.statics|, c.fullName, "", i);
    ResolutionExact(f.statics, c.fullName, "", i);
  }

  /** What a directive says of a severity. */
  predicate Clears(d: Directive, sev: Severity) {
    !d.off && sev.Rank() >= d.level.Rank()
  }

  predicate ClearsFloor(f: Filter, sev: Severity) {
    !f.defaultOff && sev.Rank() >= f.defaultLevel.Rank()
  }

  /**
   * The directive that decides for the callsite also names its event, or says of the default
   * severity what the directive that decides by event name alone, or else the floor, says of it.
   */
  ghost predicate SpeaksForEvent(f: Filter, c: Callsite)
    requires Valid(f)
  {
    match Winner(f.statics, |f.statics|, c.fullName, c.module_)
    case None => true
    case Some(w) =>
      || MatchesSegment(c.fullName, f.statics[w].target.value)
      || Clears(f.statics[w], c.defaultSev)
         == match Winner(f.statics, |f.statics|, c.fullName, "")
            case Some(n) => Clears(f.statics[n], c.defaultSev)
            case None => ClearsFloor(f, c.defaultSev)
  }

  /** Without that assumption, the cached and the per-event decision agree exactly when the winning directive speaks for the event. */
  lemma AgreementExact(f: Filter, c: Callsite, e: Event)
    requires Valid(f) && CallsiteInterest(f, c) != Sometimes && e.fullName == c.fullName
    ensures (CallsiteInterest(f, c) == Always <==> EventAllowed(f, e, c.defaultSev)) <==> SpeaksForEvent(f, c)
  {
    hide Winner, MatchesSegment;
    var w := Winner(f.statics, |f.statics|, c.fullName, c.module_);
    if w.None? {
      NoWinnerByName(f, c);
    } else if MatchesSegment(c.fullName, f.statics[w.value].target.value) {
      WinnerNamesEvent(f, c, w.value);
    }
  }

  lemma NoWinnerByName(f: Filter, c: Callsite)
    requires Valid(f) && Winner(f.statics, |f.statics|, c.fullName, c.module_).None?
    ensures Winner(f.statics, |f.statics|, c.fullName, "").None?
  {
    hide Winner;
    WinnerDecides(f.statics, |f.statics|, c.fullName, c.module_);
    EmptyModule(f.statics, |f.statics|, c.fullName, c.module_);
  }

  /** `my_module=off` silences a callsite in `my_module`, yet an event of that callsite would be allowed. */
  lemma ModuleVetoDisagrees()
    ensures var f := Add(EMPTY, Directive(Some("my_module"), [], Trace, true));
            var c := Callsite("myapp.v1.ObsNoisy", Warn, "my_module");
            CallsiteInterest(f, c) == Never && EventAllowed(f, Event("myapp.v1.ObsNoisy", map[]), Warn)
  {
    var d := Directive(Some("my_module"), [], Trace, true);
    var f := Add(EMPTY, d);
    assert f.statics == [d];
    assert "my_module"[1] == 'y' && "myapp.v1.ObsNoisy"[2] == 'a' && "my_module"[2] == '_';
    assert !("my_module" <= "myapp.v1.ObsNoisy") && !MatchesSegment("", "my_module");
    assert Winner(f.statics, 0, "myapp.v1.ObsNoisy", "my_module") == None;
    assert Matches(d, "myapp.v1.ObsNoisy", "my_module") && !Matches(d, "myapp.v1.ObsNoisy", "");
    assert Winner(f.statics, 1, "myapp.v1.ObsNoisy", "my_module") == Some(0);
    assert Winner(f.statics, 1, "myapp.v1.ObsNoisy", "") == None;
  }

  // ---- What a dynamic directive decides ----

  /** `d` comes to decide `e` when it follows the directives `before` in a spec. */
  ghost predicate DecidesEvent(before: seq<Directive>, d: Directive, e: Event) {
    && d.fields != [] && BucketKey(d) == e.fullName && HoldsOf(d, e)
    && forall b :: b in before && b.fields != [] && BucketKey(b) == e.fullName ==> !HoldsOf(b, e)
  }

  /** Every clause of the directive names a label of the event and its exact value. */
  ghost predicate HoldsOf(d: Directive, e: Event) {
    forall k, v :: (k, v) in d.fields ==> k in e.labels && e.labels[k] == v
  }

  lemma HoldsIffMatch(d: Directive, e: Event)
    ensures HoldsOf(d, e) <==> FieldsMatch(d.fields, e.labels)
  {
    if FieldsMatch(d.fields, e.labels) {
      forall k, v | (k, v) in d.fields
        ensures k in e.labels && e.labels[k] == v
      {
        var i :| 0 <= i < |d.fields| && d.fields[i] == (k, v);
      }
    }
    if HoldsOf(d, e) {
      forall i | 0 <= i < |d.fields|
        ensures d.fields[i].0 in e.labels && e.labels[d.fields[i].0] == d.fields[i].1
      {
        assert (d.fields[i].0, d.fields[i].1) in d.fields;
      }
    }
  }

  lemma {:induction false} FirstMatchConcat(a: seq<Directive>, b: seq<Directive>, labels: map<string, string>)
    ensures FirstMatch(a + b, labels) == if FirstMatch(a, labels).Some? then FirstMatch(a, labels) else FirstMatch(b, labels)
    decreases |a|
  {
    hide FieldsMatch;
    if a == [] {
      assert a + b == b;
    } else {
      assert (a + b)[0] == a[0] && (a + b)[1..] == a[1..] + b;
      FirstMatchConcat(a[1..], b, labels);
    }
  }

  lemma {:induction false} NoMatchIn(ds: seq<Directive>, k: string, labels: map<string, string>)
    ensures FirstMatch(Dynamics(ds, k), labels).None?
       <==> forall b :: b in ds && b.fields != [] && BucketKey(b) == k ==> !FieldsMatch(b.fields, labels)
    decreases |ds|
  {
    hide FieldsMatch, BucketKey;
    if ds != [] {
      NoMatchIn(ds[1..], k, labels);
      assert ds == [ds[0]] + ds[1..];
      if ds[0].fields != [] && BucketKey(ds[0]) == k {
        FirstMatchConcat([ds[0]], Dynamics(ds[1..], k), labels);
        assert [ds[0]][1..] == [];
      } else {
        assert [] + Dynamics(ds[1..], k) == Dynamics(ds[1..], k);
      }
    }
  }

  lemma {:induction false} DynamicsConcat(a: seq<Directive>, b: seq<Directive>, k: string)
    ensures Dynamics(a + b, k) == Dynamics(a, k) + Dynamics(b, k)
    decreases |a|
  {
    if a == [] {
      assert a + b == b;
    } else {
      assert (a + b)[0] == a[0] && (a + b)[1..] == a[1..] + b;
      DynamicsConcat(a[1..], b, k);
      Assoc(if a[0].fields != [] && BucketKey(a[0]) == k then [a[0]] else [], Dynamics(a[1..], k), Dynamics(b, k));
    }
  }

  /** The parts of a filter that dynamic directives do not touch. */
  ghost predicate SameStatics(f: Filter, g: Filter) {
    f.statics == g.statics && f.defaultLevel == g.defaultLevel && f.defaultOff == g.defaultOff
  }

  lemma {:induction false} SameStaticsKept(f: Filter, g: Filter, ds: seq<Directive>)
    requires SameStatics(f, g)
    ensures SameStatics(AddAll(f, ds), AddAll(g, ds))
    decreases |ds|
  {
    if ds != [] {
      SameStaticsKept(Add(f, ds[0]), Add(g, ds[0]), ds[1..]);
    }
  }

  lemma {:induction false} AddAllConcat(f: Filter, a: seq<Directive>, b: seq<Directive>)
    ensures AddAll(f, a + b) == AddAll(AddAll(f, a), b)
    decreases |a|
  {
    hide Add;
    if a == [] {
      assert a + b == b;
    } else {
      assert (a + b)[0] == a[0] && (a + b)[1..] == a[1..] + b;
      AddAllConcat(Add(f, a[0]), a[1..], b);
    }
  }

  lemma InsertedStatics(a: seq<Directive>, d: Directive, b: seq<Directive>)
    requires d.fields != []
    ensures SameStatics(AddAll(EMPTY, a + [d] + b), AddAll(EMPTY, a + b))
  {
    AddAllConcat(EMPTY, a + [d], b);
    AddAllConcat(EMPTY, a, [d]);
    AddAllConcat(EMPTY, a, b);
    assert [d][1..] == [];
    assert AddAll(AddAll(EMPTY, a), [d]) == Add(AddAll(EMPTY, a), d);
    SameStaticsKept(Add(AddAll(EMPTY, a), d), AddAll(EMPTY, a), b);
  }

  lemma BucketOf(ds: seq<Directive>, k: string)
    ensures Bucket(AddAll(EMPTY, ds), k) == Dynamics(ds, k)
    ensures k in AddAll(EMPTY, ds).dynamics <==> Dynamics(ds, k) != []
  {
    BuiltInOrder(EMPTY, ds, k);
    assert [] + Dynamics(ds, k) == Dynamics(ds, k);
  }

  lemma InsertedBucket(a: seq<Directive>, d: Directive, b: seq<Directive>, k: string)
    requires d.fields != []
    ensures Dynamics(a + [d] + b, k) == Dynamics(a, k) + (if BucketKey(d) == k then [d] else []) + Dynamics(b, k)
  {
    DynamicsConcat(a + [d], b, k);
    DynamicsConcat(a, [d], k);
    assert [d][1..] == [];
    assert Dynamics([d], k) == if BucketKey(d) == k then [d] else [];
  }

  lemma InsertedMatch(a: seq<Directive>, d: Directive, b: seq<Directive>, e: Event)
    requires d.fields != []
    ensures FirstMatch(Dynamics(a + [d] + b, e.fullName), e.labels)
         == if DecidesEvent(a, d, e) then Some(d) else FirstMatch(Dynamics(a + b, e.fullName), e.labels)
  {
    HoldsIffMatch(d, e);
    forall b: Directive ensures HoldsOf(b, e) <==> FieldsMatch(b.fields, e.labels) { HoldsIffMatch(b, e); }
    hide Dynamics, FieldsMatch, BucketKey, HoldsOf;
    var k := e.fullName;
    var before, mid, after := Dynamics(a, k), if BucketKey(d) == k then [d] else [], Dynamics(b, k);
    InsertedBucket(a, d, b, k);
    DynamicsConcat(a, b, k);
    NoMatchIn(a, k, e.labels);
    FirstMatchConcat(before + mid, after, e.labels);
    FirstMatchConcat(before, mid, e.labels);
    FirstMatchConcat(before, after, e.labels);
    MatchOne(d, e.labels);
  }

  lemma MatchOne(d: Directive, labels: map<string, string>)
    ensures FirstMatch([d], labels) == (if FieldsMatch(d.fields, labels) then Some(d) else None)
    ensures FirstMatch([], labels) == None
  {
    assert [d][1..] == [];
  }

  /**
   * A dynamic directive of a spec decides an event exactly when it is filed under the event's full
   * name, its clauses hold of the event's labels, and no earlier directive filed there matches.
   * Otherwise the event is decided as if the directive were not in the spec.
   */
  lemma DynamicExact(a: seq<Directive>, d: Directive, b: seq<Directive>, e: Event, sev: Severity)
    requires d.fields != []
    ensures EventAllowed(AddAll(EMPTY, a + [d] + b), e, sev)
         == if DecidesEvent(a, d, e) then Clears(d, sev) else EventAllowed(AddAll(EMPTY, a + b), e, sev)
  {
    hide AddAll, Dynamics, DecidesEvent, FirstMatch, Winner, Bucket;
    InsertedStatics(a, d, b);
    BucketOf(a + [d] + b, e.fullName);
    BucketOf(a + b, e.fullName);
    InsertedMatch(a, d, b, e);
  }

  /** A callsite hears of a dynamic directive exactly when it is filed under the callsite's full name. */
  lemma DynamicAtCallsite(a: seq<Directive>, d: Directive, b: seq<Directive>, c: Callsite)
    requires d.fields != []
    ensures CallsiteInterest(AddAll(EMPTY, a + [d] + b), c)
         == if BucketKey(d) == c.fullName then Sometimes else CallsiteInterest(AddAll(EMPTY, a + b), c)
  {
    hide AddAll, Dynamics, Winner, BucketKey;
    InsertedStatics(a, d, b);
    BucketOf(a + [d] + b, c.fullName);
    BucketOf(a + b, c.fullName);
    InsertedBucket(a, d, b, c.fullName);
    DynamicsConcat(a, b, c.fullName);
  }

  /** A dynamic directive without a target decides no named event, wherever it stands in the spec. */
  lemma TargetlessDynamicInert(a: seq<Directive>, d: Directive, b: seq<Directive>, c: Callsite, e: Event, sev: Severity)
    requires d.target.None? && d.fields != [] && c.fullName != "" && e.fullName != ""
    ensures CallsiteInterest(AddAll(EMPTY, a + [d] + b), c) == CallsiteInterest(AddAll(EMPTY, a + b), c)
    ensures EventAllowed(AddAll(EMPTY, a + [d] + b), e, sev) == EventAllowed(AddAll(EMPTY, a + b), e, sev)
  {
    hide AddAll, CallsiteInterest, EventAllowed;
    DynamicAtCallsite(a, d, b, c);
    DynamicExact(a, d, b, e, sev);
  }

  /** A target that is only a prefix of the full name, which would match as a static directive, is inert too. */
  lemma PrefixTargetInert()
    ensures var d := Directive(Some("myapp.v1"), [("route", "admin")], Warn, false);
            var e := Event("myapp.v1.ObsX", map["route" := "admin"]);
            MatchesSegment(e.fullName, "myapp.v1") && EventAllowed(AddAll(EMPTY, [d]), e, Info)
  {
    var d := Directive(Some("myapp.v1"), [("route", "admin")], Warn, false);
    var e := Event("myapp.v1.ObsX", map["route" := "admin"]);
    assert "myapp.v1.ObsX"[|"myapp.v1"|..] == ".ObsX" && "." <= ".ObsX";
    DynamicExact([], d, [], e, Info);
    assert [] + [d] + [] == [d] && |"myapp.v1"| != |"myapp.v1.ObsX"|;
  }

  // ---- The floor ----

  /** A directive that only sets the floor. */
  predicate SetsFloor(d: Directive) {
    d.target.None? && d.fields == []
  }

  /** The last bare level of a spec, counting only those that are not `off`. */
  ghost predicate LastLevel(ds: seq<Directive>, i: nat) {
    i < |ds| && SetsFloor(ds[i]) && !ds[i].off && forall j :: i < j < |ds| && SetsFloor(ds[j]) ==> ds[j].off
  }

  ghost predicate LastFloor(ds: seq<Directive>, i: nat) {
    i < |ds| && SetsFloor(ds[i]) && forall j :: i < j < |ds| ==> !SetsFloor(ds[j])
  }

  lemma AddLast(ds: seq<Directive>)
    requires ds != []
    ensures AddAll(EMPTY, ds) == Add(AddAll(EMPTY, ds[..|ds| - 1]), ds[|ds| - 1])
  {
    hide Add;
    var init, last := ds[..|ds| - 1], ds[|ds| - 1];
    assert ds == init + [last] && [last][1..] == [];
    AddAllConcat(EMPTY, init, [last]);
  }

  ghost predicate FloorIs(ds: seq<Directive>, level: Severity, off: bool) {
    && (forall i: nat :: LastLevel(ds, i) ==> level == ds[i].level)
    && ((forall i: nat :: !LastLevel(ds, i)) ==> level == Info)
    && (off <==> exists i: nat :: LastFloor(ds, i) && ds[i].off)
  }

  /** The floor of a spec is its last bare level, `info` without one, and is off exactly when its last bare directive is. */
  lemma {:induction false} FloorExact(ds: seq<Directive>)
    ensures FloorIs(ds, AddAll(EMPTY, ds).defaultLevel, AddAll(EMPTY, ds).defaultOff)
    decreases |ds|
  {
    if ds != [] {
      var init, last := ds[..|ds| - 1], ds[|ds| - 1];
      FloorExact(init);
      AddLast(ds);
      hide AddAll, FloorIs;
      var f := AddAll(EMPTY, init);
      if !SetsFloor(last) {
        FloorSame(ds, f.defaultLevel, f.defaultOff);
      } else if last.off {
        FloorOff(ds, f.defaultLevel, f.defaultOff);
      } else {
        FloorSet(ds);
      }
    }
  }

  lemma FloorSame(ds: seq<Directive>, level: Severity, off: bool)
    requires ds != [] && !SetsFloor(ds[|ds| - 1]) && FloorIs(ds[..|ds| - 1], level, off)
    ensures FloorIs(ds, level, off)
  {
    LastOfMore(ds);
    LastBelow(ds[..|ds| - 1]);
    hide LastLevel, LastFloor;
  }

  lemma FloorOff(ds: seq<Directive>, level: Severity, off: bool)
    requires ds != [] && SetsFloor(ds[|ds| - 1]) && ds[|ds| - 1].off && FloorIs(ds[..|ds| - 1], level, off)
    ensures FloorIs(ds, level, true)
  {
    LastOfMore(ds);
    LastBelow(ds[..|ds| - 1]);
    hide LastLevel, LastFloor;
    assert LastFloor(ds, |ds| - 1);
  }

  lemma FloorSet(ds: seq<Directive>)
    requires ds != [] && SetsFloor(ds[|ds| - 1]) && !ds[|ds| - 1].off
    ensures FloorIs(ds, ds[|ds| - 1].level, false)
  {
    LastOfMore(ds);
    hide LastLevel, LastFloor;
    assert LastLevel(ds, |ds| - 1);
  }

  lemma LastBelow(ds: seq<Directive>)
    ensures forall i: nat :: LastLevel(ds, i) || LastFloor(ds, i) ==> i < |ds|
  {}

  lemma LastOfMore(ds: seq<Directive>)
    requires ds != []
    ensures var init, n := ds[..|ds| - 1], |ds| - 1;
            && (forall i: nat :: LastLevel(ds, i) <==> if SetsFloor(ds[n]) && !ds[n].off then i == n else LastLevel(init, i))
            && (forall i: nat :: LastFloor(ds, i) <==> if SetsFloor(ds[n]) then i == n else LastFloor(init, i))
  {
    var init, n := ds[..|ds| - 1], |ds| - 1;
    assert forall j :: 0 <= j < n ==> init[j] == ds[j];
    forall i: nat
      ensures LastLevel(ds, i) <==> if SetsFloor(ds[n]) && !ds[n].off then i == n else LastLevel(init, i)
      ensures LastFloor(ds, i) <==> if SetsFloor(ds[n]) then i == n else LastFloor(init, i)
    {
      hide SetsFloor;
    }
  }

  lemma NoDynamicMatch(ds: seq<Directive>, e: Event)
    requires forall b :: b in ds && b.fields != [] && BucketKey(b) == e.fullName ==> !HoldsOf(b, e)
    ensures FirstMatch(Bucket(AddAll(EMPTY, ds), e.fullName), e.labels).None?
  {
    forall b | b in ds && b.fields != [] && BucketKey(b) == e.fullName
      ensures !FieldsMatch(b.fields, e.labels)
    {
      HoldsIffMatch(b, e);
    }
    hide HoldsOf, FieldsMatch, AddAll, Dynamics, Bucket, BucketKey;
    BucketOf(ds, e.fullName);
    NoMatchIn(ds, e.fullName, e.labels);
  }

  lemma StaticsOf(ds: seq<Directive>)
    ensures AddAll(EMPTY, ds).statics == Statics(ds)
  {
    hide AddAll, Statics;
    BuiltInOrder(EMPTY, ds, "");
    assert [] + Statics(ds) == Statics(ds);
  }

  /** An event that no dynamic directive decides is decided by the winning static directive, or else by the floor. */
  lemma EventExact(ds: seq<Directive>, e: Event, sev: Severity)
    requires forall b :: b in ds && b.fields != [] && BucketKey(b) == e.fullName ==> !HoldsOf(b, e)
    ensures var f := AddAll(EMPTY, ds);
            EventAllowed(f, e, sev)
            == match Winner(Statics(ds), |Statics(ds)|, e.fullName, "")
               case Some(i) => !Statics(ds)[i].off && sev.Rank() >= Statics(ds)[i].level.Rank()
               case None => !f.defaultOff && sev.Rank() >= f.defaultLevel.Rank()
  {
    hide HoldsOf, Winner, AddAll, Statics, BucketKey, Bucket, FirstMatch;
    NoDynamicMatch(ds, e);
    StaticsOf(ds);
  }

  /** A callsite asks per event exactly if a dynamic directive is filed under its full name; otherwise statics or floor decide. */
  lemma CallsiteExact(ds: seq<Directive>, c: Callsite)
    ensures var f, statics := AddAll(EMPTY, ds), Statics(ds);
            var allowed := match Winner(statics, |statics|, c.fullName, c.module_)
                           case Some(i) => !statics[i].off && c.defaultSev.Rank() >= statics[i].level.Rank()
                           case None => !f.defaultOff && c.defaultSev.Rank() >= f.defaultLevel.Rank();
            CallsiteInterest(f, c)
            == if exists d :: d in ds && d.fields != [] && BucketKey(d) == c.fullName then Sometimes
               else if allowed then Always else Never
  {
    hide Winner, AddAll, BucketKey, Bucket;
    hide Dynamics, Statics;
    BucketOf(ds, c.fullName);
    StaticsOf(ds);
    FiledIff(ds, c.fullName);
  }

  lemma {:induction false} FiledIff(ds: seq<Directive>, k: string)
    ensures Dynamics(ds, k) != [] <==> exists d :: d in ds && d.fields != [] && BucketKey(d) == k
    decreases |ds|
  {
    hide BucketKey;
    if ds != [] {
      FiledIff(ds[1..], k);
      assert ds == [ds[0]] + ds[1..];
    }
  }

  /** Severities rank in the order of their names in the schema. */
  lemma RankOrder()
    ensures Unspecified.Rank() < Trace.Rank() < Debug.Rank() < Info.Rank() < Warn.Rank() < Error.Rank() < Fatal.Rank()
  {}
}
