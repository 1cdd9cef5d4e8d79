/** Writing directives down, and reading them back. */
module FilterRender {
  import opened Bytes
  import opened FilterGrammar
  import opened FilterSplit

  // ---- Rendering ----

  predicate All(p: Class, s: string) {
    forall i :: 0 <= i < |s| ==> p(s[i])
  }

  predicate FieldOk(f: (string, string)) {
    f.0 != "" && All(KeyChar, f.0) && All(QuotedChar, f.1)
  }

  predicate WellFormed(d: Directive) {
    && (d.target.Some? ==> d.target.value != "" && All(TargetChar, d.target.value))
    && (forall f :: f in d.fields ==> FieldOk(f))
    && (d.off ==> d.level == Trace)
  }

  function RenderClause(f: (string, string)): string {
    f.0 + ("=\"" + (f.1 + "\""))
  }

  function RenderMore(fs: seq<(string, string)>): string {
    if fs == [] then "" else "," + (RenderClause(fs[0]) + RenderMore(fs[1..]))
  }

  function RenderBlock(fs: seq<(string, string)>): string {
    if fs == [] then "" else "[" + (RenderClause(fs[0]) + (RenderMore(fs[1..]) + "]"))
  }

  function RenderLevel(d: Directive): string {
    if d.off then "off" else d.level.Name()
  }

  function RenderHead(d: Directive): string {
    (if d.target.Some? then d.target.value else "") + RenderBlock(d.fields)
  }

  function Render(d: Directive): string {
    if d.target.None? && d.fields == [] then RenderLevel(d) else RenderHead(d) + ("=" + RenderLevel(d))
  }

  // ---- Spans and spaces ----

  lemma {:induction false} SpanExact(p: Class, a: string, b: string)
    requires All(p, a) && (b == "" || !p(b[0]))
    ensures Span(p, a + b) == |a|
    decreases |a|
  {
    if a == "" {
      assert a + b == b;
    } else {
      assert (a + b)[0] == a[0] && (a + b)[1..] == a[1..] + b;
      SpanExact(p, a[1..], b);
    }
  }

  lemma SpanAll(p: Class, a: string)
    requires All(p, a)
    ensures Span(p, a) == |a|
  {
    assert a + "" == a;
    SpanExact(p, a, "");
  }

  lemma SkipNone(s: string)
    requires s == "" || !SpaceChar(s[0])
    ensures Skip(s) == s
  {}

  lemma TrimNone(s: string)
    requires s == "" || (!WhiteChar(s[0]) && !WhiteChar(s[|s| - 1]))
    ensures Trim(s) == s
  {}

  // ---- Level names ----

  lemma NameShape(v: Severity)
    ensures v.Name() != "" && All(TargetChar, v.Name())
    ensures Lower(v.Name()) == v.Name()
  {
    match v {
      case Unspecified =>
      case Trace =>
      case Debug =>
      case Info =>
      case Warn =>
      case Error =>
      case Fatal =>
    }
  }

  lemma NameReads(v: Severity)
    ensures SeverityOf(v.Name()) == Some(v) && v.Name() != "off"
  {
    hide Lower;
    NameShape(v);
    Initials(v);
  }

  /** First letter and length tell the names apart. */
  lemma Initials(v: Severity)
    ensures v.Name()[0] == ['u', 't', 'd', 'i', 'w', 'e', 'f'][v.Rank()]
    ensures |v.Name()| == [11, 5, 5, 4, 4, 5, 5][v.Rank()]
  {}

  lemma OffShape()
    ensures All(TargetChar, "off") && Lower("off") == "off"
  {}

  // ---- Fields ----

  lemma QuotedReads(v: string, rest: string)
    requires All(QuotedChar, v)
    ensures FieldValue("\"" + (v + ("\"" + rest))) == Ok(v, rest)
  {
    hide Span, Trim;
    var s := "\"" + (v + ("\"" + rest));
    assert s[1..] == v + ("\"" + rest);
    SpanExact(QuotedChar, v, "\"" + rest);
    assert s[1 + |v|..] == "\"" + rest;
    assert s[1..1 + |v|] == v && s[2 + |v|..] == rest;
  }

  lemma KeyThenEquals(k: string, rest: string)
    requires k != "" && All(KeyChar, k)
    ensures var s := k + ("=" + rest); Skip(s) == s && Span(KeyChar, s) == |k| && s[..|k|] == k && s[|k|..] == "=" + rest
  {
    var s := k + ("=" + rest);
    assert s[0] == k[0];
    SkipNone(s);
    SpanExact(KeyChar, k, "=" + rest);
  }

  lemma ClauseReads(f: (string, string), rest: string)
    requires FieldOk(f) && rest != "" && rest[0] in {',', ']'}
    ensures FieldClause(RenderClause(f) + rest) == Ok(f, rest)
  {
    hide Span, Skip, FieldValue;
    var value := "\"" + (f.1 + ("\"" + rest));
    var s := f.0 + ("=" + value);
    assert RenderClause(f) + rest == s;
    KeyThenEquals(f.0, value);
    SkipNone("=" + value);
    SkipNone(value);
    SkipNone(rest);
    QuotedReads(f.1, rest);
    assert ("=" + value)[1..] == value;
  }

  lemma {:induction false} MoreReads(fs: seq<(string, string)>, rest: string)
    requires (forall f :: f in fs ==> FieldOk(f)) && StartsWith(rest, ']')
    ensures MoreClauses(RenderMore(fs) + rest) == (fs, rest)
    decreases |fs|
  {
    hide FieldClause, RenderClause;
    if fs == [] {
      assert RenderMore(fs) + rest == rest;
    } else {
      var tail := RenderMore(fs[1..]) + rest;
      var s := "," + (RenderClause(fs[0]) + tail);
      assert RenderMore(fs) + rest == s;
      assert s[1..] == RenderClause(fs[0]) + tail;
      assert tail[0] == if fs[1..] == [] then rest[0] else ',';
      ClauseReads(fs[0], tail);
      MoreReads(fs[1..], rest);
      assert [fs[0]] + fs[1..] == fs;
    }
  }

  lemma BlockReads(fs: seq<(string, string)>, rest: string)
    requires fs != [] && forall f :: f in fs ==> FieldOk(f)
    ensures FieldBlock(RenderBlock(fs) + rest) == Ok(fs, rest)
  {
    hide FieldClause, MoreClauses, Skip, RenderMore;
    var close := "]" + rest;
    var tail := RenderMore(fs[1..]) + close;
    var inner := RenderClause(fs[0]) + tail;
    assert RenderBlock(fs) + rest == "[" + inner;
    assert ("[" + inner)[1..] == inner;
    MoreStarts(fs[1..]);
    assert tail[0] == if fs[1..] == [] then ']' else ',';
    assert FieldOk(fs[0]);
    assert inner[0] == fs[0].0[0];
    SkipNone(inner);
    ClauseReads(fs[0], tail);
    MoreReads(fs[1..], close);
    SkipNone(close);
    assert [fs[0]] + fs[1..] == fs && close[1..] == rest;
  }

  lemma MoreStarts(fs: seq<(string, string)>)
    ensures if fs == [] then RenderMore(fs) == "" else StartsWith(RenderMore(fs), ',')
  {}

  // ---- Levels and directives ----

  lemma LevelFacts(d: Directive)
    requires WellFormed(d)
    ensures var l := RenderLevel(d);
            && l != "" && All(TargetChar, l)
            && (d.off <==> Lower(l) == "off")
            && (!d.off ==> SeverityOf(l) == Some(d.level))
  {
    hide SeverityOf, Lower;
    OffShape();
    NameShape(d.level);
    NameReads(d.level);
  }

  /** A level token on its own is read whole. */
  lemma TokenWhole(l: string)
    requires l != "" && All(TargetChar, l)
    ensures Skip(l) == l && Span(TargetChar, l) == |l| && l[..|l|] == l && l[|l|..] == ""
  {
    hide Span, Skip, SpaceChar;
    assert TargetChar(l[0]);
    NotSpace(l[0]);
    SkipNone(l);
    SpanAll(TargetChar, l);
  }

  lemma LevelReads(d: Directive)
    requires WellFormed(d)
    ensures LevelOrOff(RenderLevel(d)) == Ok((d.level, d.off), "")
  {
    LevelFacts(d);
    hide SeverityOf, Lower, Span, Skip, RenderLevel, All;
    TokenWhole(RenderLevel(d));
  }

  lemma TailReads(d: Directive)
    requires WellFormed(d)
    ensures Tail("=" + RenderLevel(d)) == Ok((d.level, d.off), "")
  {
    hide LevelOrOff, RenderLevel, WellFormed;
    LevelReads(d);
    assert ("=" + RenderLevel(d))[1..] == RenderLevel(d);
  }

  lemma BareReads(d: Directive)
    requires WellFormed(d) && d.target.None? && d.fields == []
    ensures DirectiveFull(Render(d)) == Ok(d, "")
  {
    hide SeverityOf, Lower, Skip, BareToken, RenderLevel, HeadAndTail;
    var l := RenderLevel(d);
    LevelFacts(d);
    BareTokenWhole(l);
    SkipNone("");
  }

  lemma BareTokenWhole(l: string)
    requires l != "" && All(TargetChar, l)
    ensures Skip(l) == l && BareToken(l) == Some(l) && l[|l|..] == ""
  {
    hide Span, Skip, All;
    TokenWhole(l);
  }

  lemma NotSpace(c: char)
    requires TargetChar(c) || KeyChar(c) || c in {'=', '[', ']', '"', ','}
    ensures !SpaceChar(c) && !WhiteChar(c)
  {}

  /** The head of a rendered directive is never taken for a bare token. */
  lemma HeadFacts(d: Directive)
    requires WellFormed(d) && (d.target.Some? || d.fields != [])
    ensures var t := if d.target.Some? then d.target.value else "";
            var s := Render(d);
            && Skip(s) == s && BareToken(s).None? && Span(TargetChar, s) == |t|
            && s[..|t|] == t && s[|t|..] == RenderBlock(d.fields) + ("=" + RenderLevel(d))
  {
    hide Span, Skip, RenderLevel, RenderClause, RenderMore;
    var t := if d.target.Some? then d.target.value else "";
    var rest := RenderBlock(d.fields) + ("=" + RenderLevel(d));
    var s := Render(d);
    assert s == t + rest;
    assert rest[0] == if d.fields == [] then '=' else '[';
    SpanExact(TargetChar, t, rest);
    assert s[0] == if t == "" then '[' else t[0];
    SkipNone(s);
    assert s[|t|..] == rest;
  }

  lemma HeadReads(d: Directive)
    requires WellFormed(d) && (d.target.Some? || d.fields != [])
    ensures HeadAndTail(Render(d)) == Ok(d, "")
  {
    hide Span, Skip, FieldBlock, Tail, Render, RenderLevel, RenderBlock, SpaceChar, BareToken;
    HeadFacts(d);
    var tail := "=" + RenderLevel(d);
    BlockOrNot(d.fields, tail);
    NotSpace('=');
    SkipNone(tail);
    TailReads(d);
    SkipNone("");
  }

  lemma HeadedReads(d: Directive)
    requires WellFormed(d) && (d.target.Some? || d.fields != [])
    ensures DirectiveFull(Render(d)) == Ok(d, "")
  {
    hide Skip, Render, BareToken, Lower, SeverityOf, HeadAndTail, Span, RenderBlock, RenderLevel, WellFormed;
    HeadFacts(d);
    HeadReads(d);
  }

  lemma DirectiveReads(d: Directive)
    requires WellFormed(d)
    ensures DirectiveFull(Render(d)) == Ok(d, "")
  {
    hide DirectiveFull, Render, WellFormed;
    if d.target.None? && d.fields == [] {
      BareReads(d);
    } else {
      HeadedReads(d);
    }
  }

  lemma BlockOrNot(fs: seq<(string, string)>, tail: string)
    requires (forall f :: f in fs ==> FieldOk(f)) && StartsWith(tail, '=')
    ensures var b := FieldBlock(RenderBlock(fs) + tail);
            if fs == [] then b == Backtrack && RenderBlock(fs) + tail == tail else b == Ok(fs, tail)
  {
    if fs == [] {
      assert RenderBlock(fs) + tail == tail;
    } else {
      BlockReads(fs, tail);
    }
  }

  lemma RenderEnds(d: Directive)
    requires WellFormed(d)
    ensures var s := Render(d); s != "" && !WhiteChar(s[0]) && !WhiteChar(s[|s| - 1])
  {
    hide Lower, SeverityOf, Span, RenderClause, RenderMore, RenderLevel;
    LevelFacts(d);
    var l, s := RenderLevel(d), Render(d);
    assert s[|s| - 1] == l[|l| - 1];
    if d.target.None? && d.fields == [] {
      assert s == l;
    } else if d.target.Some? {
      assert s[0] == d.target.value[0];
    } else {
      assert s[0] == '[';
    }
  }

  /** Any well-formed directive, written down, parses back to itself. */
  lemma DirectiveRoundTrip(d: Directive)
    requires WellFormed(d)
    ensures ParseDirective(Render(d)) == Some(d) && Trim(Render(d)) == Render(d) != ""
  {
    hide DirectiveFull, Render, Trim;
    RenderEnds(d);
    TrimNone(Render(d));
    DirectiveReads(d);
  }

  // ---- Rendered directives are whole pieces ----

  /** Scanning `p` from `s` meets no cut and ends in `t`. */
  ghost predicate Passes(s: Scan, p: string, t: Scan) {
    Uncut(s, p) && ScanAll(s, p) == t
  }

  lemma {:induction false} PassConcat(s: Scan, a: string, m: Scan, b: string, t: Scan)
    requires Passes(s, a, m) && Passes(m, b, t)
    ensures Passes(s, a + b, t)
    decreases |a|
  {
    if a == "" {
      assert a + b == b;
    } else {
      assert (a + b)[0] == a[0] && (a + b)[1..] == a[1..] + b;
      PassConcat(Next(s, a[0]), a[1..], m, b, t);
    }
  }

  lemma PassChar(s: Scan, c: char)
    requires !Cuts(s, c)
    ensures Passes(s, [c], Next(s, c))
  {
    assert [c][1..] == "";
  }

  predicate PlainChar(c: char) {
    c != '"' && c != '[' && c != ']' && c != ','
  }

  lemma {:induction false} PlainPasses(s: Scan, p: string)
    requires forall i :: 0 <= i < |p| ==> PlainChar(p[i])
    ensures Passes(s, p, s)
    decreases |p|
  {
    if p != "" {
      PlainPasses(s, p[1..]);
    }
  }

  const INSIDE := Scan(1, false)
  const QUOTED := Scan(1, true)

  lemma {:induction false} QuotedPasses(v: string)
    requires All(QuotedChar, v)
    ensures Passes(QUOTED, v, QUOTED)
    decreases |v|
  {
    if v != "" {
      assert QuotedChar(v[0]);
      QuotedPasses(v[1..]);
    }
  }

  lemma ClausePasses(f: (string, string))
    requires FieldOk(f)
    ensures Passes(INSIDE, RenderClause(f), INSIDE)
  {
    hide Passes;
    PlainClass(KeyChar, f.0);
    PlainPasses(INSIDE, f.0);
    assert "=\"" == "=" + "\"";
    PlainPasses(INSIDE, "=");
    PassChar(INSIDE, '"');
    PassConcat(INSIDE, "=", INSIDE, "\"", QUOTED);
    QuotedPasses(f.1);
    PassChar(QUOTED, '"');
    PassConcat(QUOTED, f.1, QUOTED, "\"", INSIDE);
    PassConcat(INSIDE, "=\"", QUOTED, f.1 + "\"", INSIDE);
    PassConcat(INSIDE, f.0, INSIDE, "=\"" + (f.1 + "\""), INSIDE);
  }

  lemma PlainClass(p: Class, s: string)
    requires All(p, s) && (p == KeyChar || p == TargetChar)
    ensures forall i :: 0 <= i < |s| ==> PlainChar(s[i])
  {
    forall i | 0 <= i < |s|
      ensures PlainChar(s[i])
    {
      assert p(s[i]);
    }
  }

  lemma {:induction false} MorePasses(fs: seq<(string, string)>)
    requires forall f :: f in fs ==> FieldOk(f)
    ensures Passes(INSIDE, RenderMore(fs), INSIDE)
    decreases |fs|
  {
    if fs != [] {
      hide Passes, RenderClause;
      PassChar(INSIDE, ',');
      ClausePasses(fs[0]);
      MorePasses(fs[1..]);
      PassConcat(INSIDE, RenderClause(fs[0]), INSIDE, RenderMore(fs[1..]), INSIDE);
      PassConcat(INSIDE, ",", INSIDE, RenderClause(fs[0]) + RenderMore(fs[1..]), INSIDE);
    }
  }

  lemma BlockPasses(fs: seq<(string, string)>)
    requires forall f :: f in fs ==> FieldOk(f)
    ensures Passes(START, RenderBlock(fs), START)
  {
    if fs != [] {
      hide Passes, RenderClause, RenderMore;
      PassChar(START, '[');
      ClausePasses(fs[0]);
      MorePasses(fs[1..]);
      PassChar(INSIDE, ']');
      PassConcat(INSIDE, RenderMore(fs[1..]), INSIDE, "]", START);
      PassConcat(INSIDE, RenderClause(fs[0]), INSIDE, RenderMore(fs[1..]) + "]", START);
      PassConcat(START, "[", INSIDE, RenderClause(fs[0]) + (RenderMore(fs[1..]) + "]"), START);
    }
  }

  lemma RenderWhole(d: Directive)
    requires WellFormed(d)
    ensures Whole(Render(d))
  {
    hide RenderBlock, RenderLevel, Lower, SeverityOf, Uncut, ScanAll;
    var l := RenderLevel(d);
    LevelFacts(d);
    PlainClass(TargetChar, l);
    PlainPasses(START, l);
    if d.target.Some? || d.fields != [] {
      var t := if d.target.Some? then d.target.value else "";
      PlainClass(TargetChar, t);
      PlainPasses(START, t);
      BlockPasses(d.fields);
      PassConcat(START, t, START, RenderBlock(d.fields), START);
      PlainPasses(START, "=");
      PassConcat(START, "=", START, l, START);
      PassConcat(START, t + RenderBlock(d.fields), START, "=" + l, START);
    }
  }

  // ---- Whole filters ----

  function RenderAll(ds: seq<Directive>): seq<string> {
    if ds == [] then [] else [Render(ds[0])] + RenderAll(ds[1..])
  }

  /** The directives of a spec: pieces trimmed, empty ones skipped, the first bad one fatal. */
  function ParsePieces(pieces: seq<string>): Option<seq<Directive>>
    decreases |pieces|
  {
    if pieces == [] then Some([])
    else if Trim(pieces[0]) == "" then ParsePieces(pieces[1..])
    else
      match ParseDirective(Trim(pieces[0]))
      case None => None
      case Some(d) =>
        match ParsePieces(pieces[1..])
        case None => None
        case Some(ds) => Some([d] + ds)
  }

  function ParseSpec(spec: string): Option<seq<Directive>> {
    ParsePieces(Pieces(spec))
  }

  lemma {:induction false} PiecesParse(ds: seq<Directive>)
    requires forall d :: d in ds ==> WellFormed(d)
    ensures ParsePieces(RenderAll(ds)) == Some(ds)
    ensures forall p :: p in RenderAll(ds) ==> Whole(p)
    decreases |ds|
  {
    hide ParseDirective, Render, Trim, Whole;
    if ds != [] {
      DirectiveRoundTrip(ds[0]);
      RenderWhole(ds[0]);
      PiecesParse(ds[1..]);
      assert [ds[0]] + ds[1..] == ds;
      assert RenderAll(ds)[1..] == RenderAll(ds[1..]);
    }
  }

  /** Any list of well-formed directives, written down with commas between them, parses back to itself. */
  lemma FilterRoundTrip(ds: seq<Directive>)
    requires forall d :: d in ds ==> WellFormed(d)
    ensures ParseSpec(Join(RenderAll(ds))) == Some(ds)
  {
    hide ParseDirective, Render, Pieces, Join, ParsePieces;
    PiecesParse(ds);
    if ds != [] {
      SplitJoin(RenderAll(ds));
    } else {
      EmptySpec();
    }
  }

  lemma EmptySpec()
    ensures ParsePieces(Pieces(Join([]))) == Some([])
  {
    assert Pieces("") == [""];
    TrimNone("");
    assert [""][1..] == [];
  }

  // ---- Every parsed spec has a normal form ----

  lemma {:induction false} SpanClass(p: Class, s: string)
    ensures All(p, s[..Span(p, s)])
    decreases |s|
  {
    if s != "" && p(s[0]) {
      SpanClass(p, s[1..]);
      assert s[..Span(p, s)] == [s[0]] + s[1..][..Span(p, s[1..])];
    }
  }

  lemma {:induction false} TrimEndClass(p: Class, s: string)
    requires All(p, s)
    ensures All(p, TrimEnd(s))
    decreases |s|
  {
    if s != "" && WhiteChar(s[|s| - 1]) {
      TrimEndClass(p, s[..|s| - 1]);
    }
  }

  lemma TrimClass(p: Class, s: string)
    requires All(p, s)
    ensures All(p, Trim(s))
  {
    hide TrimEnd, Span;
    TrimEndClass(p, TrimStart(s));
  }

  lemma FieldValueOk(s: string)
    ensures FieldValue(s).Ok? ==> All(QuotedChar, FieldValue(s).value)
  {
    hide Span, Trim;
    if StartsWith(s, '"') {
      SpanClass(QuotedChar, s[1..]);
      assert s[1..][..Span(QuotedChar, s[1..])] == s[1..1 + Span(QuotedChar, s[1..])];
    } else {
      var raw := s[..Span(BareValueChar, s)];
      SpanClass(BareValueChar, s);
      assert All(QuotedChar, raw);
      TrimClass(QuotedChar, raw);
    }
  }

  lemma FieldClauseOk(s: string)
    ensures FieldClause(s).Ok? ==> FieldOk(FieldClause(s).value)
  {
    hide Span, Skip, FieldValue, All;
    var s1 := Skip(s);
    var n := Span(KeyChar, s1);
    SpanClass(KeyChar, s1);
    var s2 := Skip(s1[n..]);
    if StartsWith(s2, '=') {
      FieldValueOk(Skip(s2[1..]));
    }
  }

  lemma {:induction false} MoreClausesOk(s: string)
    ensures forall f :: f in MoreClauses(s).0 ==> FieldOk(f)
    decreases |s|
  {
    hide FieldClause, FieldOk;
    if StartsWith(s, ',') {
      FieldClauseOk(s[1..]);
      if FieldClause(s[1..]).Ok? {
        MoreClausesOk(FieldClause(s[1..]).rest);
      }
    }
  }

  lemma FieldBlockOk(s: string)
    ensures FieldBlock(s).Ok? ==> forall f :: f in FieldBlock(s).value ==> FieldOk(f)
  {
    hide FieldClause, FieldOk, MoreClauses, Skip;
    if StartsWith(s, '[') {
      var inner := Skip(s[1..]);
      FieldClauseOk(inner);
      if FieldClause(inner).Ok? {
        MoreClausesOk(FieldClause(inner).rest);
      }
    }
  }

  lemma TailOk(s: string)
    ensures Tail(s).Ok? && Tail(s).value.1 ==> Tail(s).value.0 == Trace
  {
    hide Skip, Span, Lower, SeverityOf;
  }

  /** Whatever directive the grammar accepts is well formed. */
  lemma ParsedWellFormed(raw: string)
    ensures ParseDirective(raw).Some? ==> WellFormed(ParseDirective(raw).value)
  {
    hide Span, Skip, FieldBlock, Tail, BareToken, Lower, SeverityOf, Trim, FieldOk, All;
    var s := Skip(Trim(raw));
    var n := Span(TargetChar, s);
    SpanClass(TargetChar, s);
    FieldBlockOk(s[n..]);
    var block := FieldBlock(s[n..]);
    TailOk(Skip(if block.Ok? then block.rest else s[n..]));
  }

  lemma {:induction false} PiecesWellFormed(pieces: seq<string>)
    ensures ParsePieces(pieces).Some? ==> forall d :: d in ParsePieces(pieces).value ==> WellFormed(d)
    decreases |pieces|
  {
    hide ParseDirective, Trim, WellFormed;
    if pieces != [] {
      ParsedWellFormed(Trim(pieces[0]));
      PiecesWellFormed(pieces[1..]);
    }
  }

  /** Every spec that parses means the same as the text its directives are written back to. */
  lemma NormalForm(spec: string)
    ensures ParseSpec(spec).Some? ==> ParseSpec(Join(RenderAll(ParseSpec(spec).value))) == ParseSpec(spec)
  {
    hide ParsePieces, WellFormed, RenderAll, Join, Pieces;
    PiecesWellFormed(Pieces(spec));
    if ParseSpec(spec).Some? {
      FilterRoundTrip(ParseSpec(spec).value);
    }
  }
}
