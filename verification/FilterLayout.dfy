/**
 * The written forms of a directive: spaces, bare and quoted values, a target alone, and level names
 * in all their spellings. A text is accepted exactly when it is the text of some layout.
 */
module FilterLayout {
  import opened Bytes
  import opened FilterGrammar
  import opened FilterRender
  import opened FilterSplit

  // ---- Level names ----

  /** The letter `w`, or its capital. */
  predicate SameLetter(c: char, w: char) {
    c == w || ('A' <= c <= 'Z' && c as int + 32 == w as int)
  }

  predicate Spells(token: string, word: string) {
    |token| == |word| && forall i :: 0 <= i < |word| ==> SameLetter(token[i], word[i])
  }

  /** The names a level goes by, in any mixture of cases. */
  predicate Names(token: string, v: Severity) {
    || Spells(token, v.Name())
    || Spells(token, "severity_" + v.Name())
    || (v.Warn? && Spells(token, "warning"))
    || (v.Error? && Spells(token, "err"))
  }

  predicate NoCapitals(word: string) {
    forall i :: 0 <= i < |word| ==> !('A' <= word[i] <= 'Z')
  }

  lemma LowerSpells(token: string, word: string)
    requires NoCapitals(word)
    ensures Lower(token) == word <==> Spells(token, word)
  {
    if Spells(token, word) {
      forall i | 0 <= i < |word| ensures Lower(token)[i] == word[i] {
        assert SameLetter(token[i], word[i]);
      }
    }
    if Lower(token) == word {
      forall i | 0 <= i < |word| ensures SameLetter(token[i], word[i]) {
        assert Lower(token)[i] == LowerChar(token[i]);
      }
    }
  }

  /** The first letter of a name, without the prefix some names have. */
  function Mark(l: string): char {
    if |l| > 9 && l[0] == 's' then l[9] else if l == "" then ' ' else l[0]
  }

  predicate LowerNames(l: string, v: Severity) {
    || l == v.Name()
    || l == "severity_" + v.Name()
    || (v.Warn? && l == "warning")
    || (v.Error? && l == "err")
  }

  lemma MarkTells(l: string, v: Severity)
    requires LowerNames(l, v)
    ensures Mark(l) == ['u', 't', 'd', 'i', 'w', 'e', 'f'][v.Rank()]
  {
    Initials(v);
    if l == "severity_" + v.Name() {
      assert l[9] == v.Name()[0];
    }
  }

  lemma PrefixedNames()
    ensures "severity_" + Trace.Name() == "severity_trace" && "severity_" + Debug.Name() == "severity_debug"
    ensures "severity_" + Info.Name() == "severity_info" && "severity_" + Warn.Name() == "severity_warn"
    ensures "severity_" + Error.Name() == "severity_error" && "severity_" + Fatal.Name() == "severity_fatal"
    ensures "severity_" + Unspecified.Name() == "severity_unspecified"
  {}

  lemma SeverityLower(token: string)
    ensures match SeverityOf(token)
            case Some(v) => LowerNames(Lower(token), v)
            case None => forall v :: !LowerNames(Lower(token), v)
  {
    hide Lower;
    PrefixedNames();
  }

  lemma NameLower(v: Severity)
    ensures NoCapitals(v.Name())
  {}

  lemma PrefixLower(v: Severity)
    ensures NoCapitals("severity_" + v.Name())
  {
    NameLower(v);
    var name := v.Name();
    var prefix := "severity_";
    assert NoCapitals(prefix);
    assert NoCapitals(prefix + name);
  }

  /** A token is read as a level exactly when it is one of that level's names. */
  lemma SeverityExact(token: string, v: Severity)
    ensures SeverityOf(token) == Some(v) <==> Names(token, v)
  {
    hide Lower, Spells, Mark, SeverityOf;
    LowerSpells(token, "warning");
    LowerSpells(token, "err");
    NameLower(v);
    PrefixLower(v);
    LowerSpells(token, v.Name());
    LowerSpells(token, "severity_" + v.Name());
    SeverityLower(token);
    if LowerNames(Lower(token), v) {
      MarkTells(Lower(token), v);
      MarkTells(Lower(token), SeverityOf(token).value);
    }
  }

  // ---- Character classes, listed ----

  /** The codes of the digits, the letters, the dot and the underscore. */
  predicate NameCode(n: int) {
    n in {46, 48, 49, 50, 51, 52, 53, 54, 55, 56, 57,
    65, 66, 67, 68, 69, 70, 71, 72, 73, 74, 75, 76, 77, 78, 79, 80, 81, 82, 83, 84, 85, 86, 87, 88, 89, 90, 95,
    97, 98, 99, 100, 101, 102, 103, 104, 105, 106, 107, 108, 109, 110, 111, 112, 113, 114, 115, 116, 117, 118, 119, 120, 121, 122}
  }

  predicate WhiteCode(n: int) {
    n in {0x9, 0xA, 0xB, 0xC, 0xD, 0x20, 0x85, 0xA0, 0x1680, 0x2000, 0x2001, 0x2002, 0x2003,
    0x2004, 0x2005, 0x2006, 0x2007, 0x2008, 0x2009, 0x200A, 0x2028, 0x2029, 0x202F, 0x205F, 0x3000}
  }

  /** Keys are letters, digits, underscores and dots; targets have colons and hyphens besides. */
  lemma ClassesListed(c: char)
    ensures KeyChar(c) <==> NameCode(c as int)
    ensures TargetChar(c) <==> NameCode(c as int) || c == ':' || c == '-'
    ensures WhiteChar(c) <==> WhiteCode(c as int)
    ensures SpaceChar(c) <==> c as int in {9, 10, 13, 32}
    ensures !BareValueChar(c) <==> c == ',' || c == ']' || c == '"'
    ensures !QuotedChar(c) <==> c == '"'
  {}

  // ---- Spaces ----

  lemma {:induction false} SpanJoins(p: Class, a: string, b: string)
    requires All(p, a)
    ensures Span(p, a + b) == |a| + Span(p, b)
    decreases |a|
  {
    if a == "" {
      assert a + b == b;
    } else {
      assert (a + b)[0] == a[0] && (a + b)[1..] == a[1..] + b;
      SpanJoins(p, a[1..], b);
    }
  }

  /** Spaces in front are skipped, and nothing else. */
  lemma SkipSpaces(a: string, b: string)
    requires All(SpaceChar, a)
    ensures Skip(a + b) == Skip(b)
  {
    hide Span;
    SpanJoins(SpaceChar, a, b);
  }

  lemma SkipAll(a: string)
    requires All(SpaceChar, a)
    ensures Skip(a) == ""
  {
    hide Span;
    SpanAll(SpaceChar, a);
  }

  lemma SkipTakes(s: string) returns (a: string)
    ensures All(SpaceChar, a) && s == a + Skip(s)
  {
    hide Span;
    SpanClass(SpaceChar, s);
    a := s[..Span(SpaceChar, s)];
  }

  lemma {:induction false} SpanStops(p: Class, s: string)
    ensures Span(p, s) < |s| ==> !p(s[Span(p, s)])
    decreases |s|
  {
    if s != "" && p(s[0]) {
      SpanStops(p, s[1..]);
    }
  }

  // ---- Trimming ----

  lemma SpacesAreWhite(a: string)
    requires All(SpaceChar, a)
    ensures All(WhiteChar, a)
  {
    forall i | 0 <= i < |a| ensures WhiteChar(a[i]) {
      assert SpaceChar(a[i]);
    }
  }

  predicate Bounded(v: string) {
    v == "" || (!WhiteChar(v[0]) && !WhiteChar(v[|v| - 1]))
  }

  lemma TrimStartJoins(a: string, b: string)
    requires All(WhiteChar, a)
    ensures TrimStart(a + b) == TrimStart(b)
  {
    hide Span;
    SpanJoins(WhiteChar, a, b);
  }

  lemma {:induction false} TrimEndJoins(v: string, b: string)
    requires All(WhiteChar, b) && Bounded(v)
    ensures TrimEnd(v + b) == v
    decreases |b|
  {
    hide WhiteChar;
    if b == "" {
      assert v + b == v;
    } else {
      assert (v + b)[|v + b| - 1] == b[|b| - 1];
      assert (v + b)[..|v + b| - 1] == v + b[..|b| - 1];
      TrimEndJoins(v, b[..|b| - 1]);
    }
  }

  lemma TrimWhite(a: string, v: string, b: string)
    requires All(WhiteChar, a) && All(WhiteChar, b) && Bounded(v)
    ensures Trim(a + (v + b)) == v
  {
    hide Span, TrimEnd, WhiteChar;
    TrimStartJoins(a, v + b);
    if v == "" {
      assert v + b == b && b + "" == b;
      SpanAll(WhiteChar, b);
      TrimEndJoins("", "");
      assert "" + "" == "";
    } else {
      SpanExact(WhiteChar, "", v + b);
      assert "" + (v + b) == v + b;
      TrimEndJoins(v, b);
    }
  }

  lemma {:induction false} TrimEndTakes(s: string) returns (b: string)
    requires s == "" || !WhiteChar(s[0])
    ensures All(WhiteChar, b) && s == TrimEnd(s) + b && Bounded(TrimEnd(s))
    decreases |s|
  {
    hide WhiteChar;
    if s == "" || !WhiteChar(s[|s| - 1]) {
      b := "";
    } else {
      var c := TrimEndTakes(s[..|s| - 1]);
      b := c + [s[|s| - 1]];
      assert s == s[..|s| - 1] + [s[|s| - 1]];
    }
  }

  /** Trimming takes white space off both ends until none is left there. */
  lemma TrimTakes(s: string) returns (a: string, b: string)
    ensures All(WhiteChar, a) && All(WhiteChar, b) && Bounded(Trim(s))
    ensures s == a + (Trim(s) + b)
  {
    hide Span, TrimEnd, WhiteChar, All;
    var n := Span(WhiteChar, s);
    SpanClass(WhiteChar, s);
    SpanStops(WhiteChar, s);
    a := s[..n];
    b := TrimEndTakes(s[n..]);
    assert s == s[..n] + s[n..];
  }

  ghost predicate TrimsTo(s: string, t: string) {
    exists a, b :: All(WhiteChar, a) && All(WhiteChar, b) && s == a + (t + b)
  }

  /** The trimmed text is the one that is left between white space and has none at its own ends. */
  lemma TrimExact(s: string, t: string)
    ensures Trim(s) == t <==> Bounded(t) && TrimsTo(s, t)
  {
    hide Trim, All, Bounded;
    var a, b := TrimTakes(s);
    if Bounded(t) && TrimsTo(s, t) {
      var x, y :| All(WhiteChar, x) && All(WhiteChar, y) && s == x + (t + y);
      TrimWhite(x, t, y);
    }
  }

  // ---- Values ----

  /** A value between quotes, with spaces around them, or a bare value with white space around it. */
  datatype ValueText = Quoted(before: string, value: string, after: string) | Bare(before: string, value: string, after: string) {
    predicate Valid() {
      match this
      case Quoted(a, v, b) => All(SpaceChar, a) && All(QuotedChar, v) && All(SpaceChar, b)
      case Bare(a, v, b) => All(WhiteChar, a) && All(BareValueChar, v) && Bounded(v) && All(WhiteChar, b)
    }

    function Text(): string {
      match this
      case Quoted(a, v, b) => a + ("\"" + (v + ("\"" + b)))
      case Bare(a, v, b) => a + (v + b)
    }
  }

  lemma QuotedTextReads(v: ValueText, rest: string)
    requires v.Valid() && v.Quoted? && rest != "" && rest[0] in {',', ']'}
    ensures var r := FieldValue(Skip(v.Text() + rest)); r.Ok? && r.value == v.value && Skip(r.rest) == rest
  {
    hide Span, Skip, FieldValue, All;
    var s := "\"" + (v.value + ("\"" + (v.after + rest)));
    assert v.Text() + rest == v.before + s;
    SkipSpaces(v.before, s);
    SkipNone(s);
    QuotedReads(v.value, v.after + rest);
    SkipSpaces(v.after, rest);
    SkipNone(rest);
  }

  lemma WhiteIsBare(a: string)
    requires All(WhiteChar, a)
    ensures All(BareValueChar, a)
  {
    forall i | 0 <= i < |a| ensures BareValueChar(a[i]) {
      assert WhiteChar(a[i]);
    }
  }

  lemma AllJoin(p: Class, a: string, b: string)
    requires All(p, a) && All(p, b)
    ensures All(p, a + b)
  {}

  lemma AllPart(p: Class, a: string, b: string)
    requires All(p, a + b)
    ensures All(p, a) && All(p, b)
  {
    forall i | 0 <= i < |a| ensures p(a[i]) {
      assert (a + b)[i] == a[i];
    }
    forall i | 0 <= i < |b| ensures p(b[i]) {
      assert (a + b)[|a| + i] == b[i];
    }
  }

  /** A bare value ends at the first comma, bracket or quote. */
  lemma BareStops(t: string, rest: string)
    requires All(BareValueChar, t) && rest != "" && rest[0] in {',', ']'}
    requires t == "" || !SpaceChar(t[0])
    ensures FieldValue(Skip(t + rest)) == Ok(Trim(t), rest)
  {
    hide Span, Skip, Trim, SpaceChar;
    assert (t + rest)[0] == if t == "" then rest[0] else t[0];
    NotSpace(rest[0]);
    SkipNone(t + rest);
    SpanExact(BareValueChar, t, rest);
    assert (t + rest)[..|t|] == t && (t + rest)[|t|..] == rest;
    if t != "" {
      assert BareValueChar(t[0]);
    }
  }

  lemma BareTextReads(v: ValueText, rest: string)
    requires v.Valid() && v.Bare? && rest != "" && rest[0] in {',', ']'}
    ensures FieldValue(Skip(v.Text() + rest)) == Ok(v.value, rest)
  {
    hide Span, Skip, Trim, TrimStart, FieldValue, All, SpaceChar;
    var t := v.Text();
    WhiteIsBare(v.before);
    WhiteIsBare(v.after);
    AllJoin(BareValueChar, v.value, v.after);
    AllJoin(BareValueChar, v.before, v.value + v.after);
    TrimWhite(v.before, v.value, v.after);
    var a := SkipTakes(t);
    AllPart(BareValueChar, a, Skip(t));
    SkipStops(t);
    BareStops(Skip(t), rest);
    assert t + rest == a + (Skip(t) + rest);
    SkipSpaces(a, Skip(t) + rest);
    SpacesAreWhite(a);
    TrimJoins(a, Skip(t));
  }

  lemma SkipStops(s: string)
    ensures Skip(s) == "" || !SpaceChar(Skip(s)[0])
  {
    hide Span, SpaceChar;
    SpanStops(SpaceChar, s);
  }

  lemma TrimJoins(a: string, b: string)
    requires All(WhiteChar, a)
    ensures Trim(a + b) == Trim(b)
  {
    hide TrimStart, TrimEnd, All;
    TrimStartJoins(a, b);
  }

  lemma ValueReads(v: ValueText, rest: string)
    requires v.Valid() && rest != "" && rest[0] in {',', ']'}
    ensures var r := FieldValue(Skip(v.Text() + rest)); r.Ok? && r.value == v.value && Skip(r.rest) == rest
  {
    if v.Quoted? {
      QuotedTextReads(v, rest);
    } else {
      BareTextReads(v, rest);
      SkipNone(rest);
    }
  }

  lemma QuotedFound(s: string) returns (v: ValueText)
    requires StartsWith(s, '"') && FieldValue(s).Ok?
    ensures v.Valid() && v.Quoted? && v.value == FieldValue(s).value && v.before == ""
    ensures s == v.Text() + Skip(FieldValue(s).rest)
  {
    hide Span, Skip, All;
    var n := Span(QuotedChar, s[1..]);
    SpanClass(QuotedChar, s[1..]);
    assert s[1..][..n] == s[1..1 + n];
    var rest := s[2 + n..];
    var b := SkipTakes(rest);
    v := Quoted("", s[1..1 + n], b);
    NoneAll();
    hide StartsWith, FieldValue;
    assert s == "\"" + (s[1..1 + n] + ("\"" + rest));
    QuotedBefore(v, Skip(rest));
  }

  lemma QuotedBefore(v: ValueText, rest: string)
    requires v.Quoted? && v.before == ""
    ensures v.Text() + rest == "\"" + (v.value + ("\"" + (v.after + rest)))
  {
    var text := "\"" + (v.value + ("\"" + v.after));
    assert "" + text == text;
  }

  lemma NoneAll()
    ensures All(SpaceChar, "") && All(WhiteChar, "") && All(TargetChar, "")
  {}

  lemma BareFound(s: string) returns (v: ValueText)
    requires !StartsWith(s, '"')
    ensures FieldValue(s).Ok? && v.Valid() && v.Bare? && v.value == FieldValue(s).value
    ensures s == v.Text() + Skip(FieldValue(s).rest)
  {
    hide Span, Skip, All, Trim, SpaceChar, Bounded;
    var n := Span(BareValueChar, s);
    SpanClass(BareValueChar, s);
    SpanStops(BareValueChar, s);
    if s[n..] != "" {
      NotSpace(s[n]);
    }
    SkipNone(s[n..]);
    var a, b := TrimTakes(s[..n]);
    v := Bare(a, Trim(s[..n]), b);
    AllPart(BareValueChar, a, Trim(s[..n]) + b);
    AllPart(BareValueChar, Trim(s[..n]), b);
    assert s == s[..n] + s[n..];
  }

  /** Every value the parser reads is the value of some layout. */
  lemma ValueFound(s: string) returns (v: ValueText)
    requires FieldValue(Skip(s)).Ok?
    ensures v.Valid() && v.value == FieldValue(Skip(s)).value && s == v.Text() + Skip(FieldValue(Skip(s)).rest)
  {
    hide Span, Skip, All, FieldValue, SpaceChar, Bounded, ValueText.Text, ValueText.Valid;
    var a := SkipTakes(s);
    var t := Skip(s);
    var rest := Skip(FieldValue(t).rest);
    var w: ValueText;
    if StartsWith(t, '"') {
      w := QuotedFound(t);
    } else {
      w := BareFound(t);
    }
    v := Behind(w, a);
    Assoc(a, w.Text(), rest);
  }

  lemma Behind(w: ValueText, a: string) returns (v: ValueText)
    requires w.Valid() && All(SpaceChar, a) && (w.Quoted? ==> w.before == "")
    ensures v.Valid() && v.value == w.value && v.Text() == a + w.Text()
  {
    hide All, Bounded;
    v := w.(before := a + w.before);
    if w.Quoted? {
      assert a + w.before == a;
      assert "" + ("\"" + (w.value + ("\"" + w.after))) == "\"" + (w.value + ("\"" + w.after));
    } else {
      SpacesAreWhite(a);
      AllJoin(WhiteChar, a, w.before);
      assert a + w.before + (w.value + w.after) == a + (w.before + (w.value + w.after));
    }
  }

  // ---- Clauses ----

  datatype ClauseText = ClauseText(lead: string, key: string, gap: string, value: ValueText) {
    predicate Valid() {
      All(SpaceChar, lead) && key != "" && All(KeyChar, key) && All(SpaceChar, gap) && value.Valid()
    }

    function Text(): string {
      lead + (key + (gap + ("=" + value.Text())))
    }

    function Meaning(): (string, string) {
      (key, value.value)
    }
  }

  lemma KeyReads(c: ClauseText, rest: string)
    requires c.Valid()
    ensures var s1 := Skip(c.Text() + rest); var n := Span(KeyChar, s1);
            && n == |c.key| && s1[..n] == c.key && Skip(s1[n..]) == "=" + (c.value.Text() + rest)
  {
    hide Span, Skip, SpaceChar, KeyChar;
    var value := "=" + (c.value.Text() + rest);
    var s := c.key + (c.gap + value);
    assert c.Text() + rest == c.lead + s;
    SkipSpaces(c.lead, s);
    assert KeyChar(c.key[0]) && s[0] == c.key[0];
    NotSpace(s[0]);
    SkipNone(s);
    GapNotKey(c.gap, value);
    SpanExact(KeyChar, c.key, c.gap + value);
    assert s[..|c.key|] == c.key && s[|c.key|..] == c.gap + value;
    SkipSpaces(c.gap, value);
    NotSpace('=');
    SkipNone(value);
  }

  /** Spaces, then an equals sign: no part of it belongs to the name in front. */
  lemma GapNotKey(gap: string, value: string)
    requires All(SpaceChar, gap) && StartsWith(value, '=')
    ensures !KeyChar((gap + value)[0])
  {
    if gap != "" {
      assert SpaceChar(gap[0]);
    }
  }

  lemma ClauseTextReads(c: ClauseText, rest: string)
    requires c.Valid() && rest != "" && rest[0] in {',', ']'}
    ensures FieldClause(c.Text() + rest) == Ok(c.Meaning(), rest)
  {
    hide Span, Skip, FieldValue, All;
    KeyReads(c, rest);
    ValueReads(c.value, rest);
    assert ("=" + (c.value.Text() + rest))[1..] == c.value.Text() + rest;
  }

  lemma ClauseBefore(c: ClauseText, rest: string)
    ensures c.Text() + rest == c.lead + (c.key + (c.gap + ("=" + (c.value.Text() + rest))))
  {
    hide ValueText.Text;
  }

  lemma ClauseFound(s: string) returns (c: ClauseText)
    requires FieldClause(s).Ok?
    ensures c.Valid() && c.Meaning() == FieldClause(s).value && s == c.Text() + FieldClause(s).rest
  {
    hide Span, Skip, FieldValue, All, ValueText.Text, ValueText.Valid, ClauseText.Text;
    var lead := SkipTakes(s);
    var s1 := Skip(s);
    var n := Span(KeyChar, s1);
    SpanClass(KeyChar, s1);
    var gap := SkipTakes(s1[n..]);
    var s2 := Skip(s1[n..]);
    var v := ValueFound(s2[1..]);
    c := ClauseText(lead, s1[..n], gap, v);
    var rest := FieldClause(s).rest;
    assert s2 == "=" + s2[1..];
    assert s1 == s1[..n] + s1[n..];
    ClauseBefore(c, rest);
  }

  // ---- Blocks ----

  function MoreText(cs: seq<ClauseText>): string {
    if cs == [] then "" else "," + (cs[0].Text() + MoreText(cs[1..]))
  }

  function Meanings(cs: seq<ClauseText>): seq<(string, string)> {
    if cs == [] then [] else [cs[0].Meaning()] + Meanings(cs[1..])
  }

  predicate AllValid(cs: seq<ClauseText>) {
    forall i :: 0 <= i < |cs| ==> cs[i].Valid()
  }

  datatype BlockText = NoClause(pad: string) | SomeClauses(first: ClauseText, more: seq<ClauseText>) {
    predicate Valid() {
      match this
      case NoClause(pad) => All(SpaceChar, pad)
      case SomeClauses(first, more) => first.Valid() && AllValid(more)
    }

    function Text(): string {
      match this
      case NoClause(pad) => "[" + (pad + "]")
      case SomeClauses(first, more) => "[" + (first.Text() + (MoreText(more) + "]"))
    }

    function Meaning(): seq<(string, string)> {
      match this
      case NoClause(_) => []
      case SomeClauses(first, more) => [first.Meaning()] + Meanings(more)
    }
  }

  lemma MoreTextStarts(cs: seq<ClauseText>, rest: string)
    requires StartsWith(rest, ']')
    ensures var s := MoreText(cs) + rest; s != "" && s[0] in {',', ']'}
  {}

  lemma {:induction false} MoreTextReads(cs: seq<ClauseText>, rest: string)
    requires AllValid(cs) && StartsWith(rest, ']')
    ensures MoreClauses(MoreText(cs) + rest) == (Meanings(cs), rest)
    decreases |cs|
  {
    hide FieldClause;
    if cs == [] {
      assert MoreText(cs) + rest == rest;
    } else {
      var tail := MoreText(cs[1..]) + rest;
      var s := "," + (cs[0].Text() + tail);
      assert MoreText(cs) + rest == s;
      assert s[1..] == cs[0].Text() + tail;
      MoreTextStarts(cs[1..], rest);
      ClauseTextReads(cs[0], tail);
      MoreTextReads(cs[1..], rest);
    }
  }

  lemma ClauseSkips(s: string)
    ensures FieldClause(Skip(s)) == FieldClause(s)
  {
    hide Span, Skip, FieldValue;
    SkipTwice(s);
  }

  lemma SkipTwice(s: string)
    ensures Skip(Skip(s)) == Skip(s)
  {
    hide Skip, SpaceChar;
    SkipStops(s);
    SkipNone(Skip(s));
  }

  lemma BlockTextReads(b: BlockText, rest: string)
    requires b.Valid()
    ensures FieldBlock(b.Text() + rest) == Ok(b.Meaning(), rest)
  {
    if b.NoClause? {
      NoClauseReads(b.pad, rest);
    } else {
      SomeClausesRead(b, rest);
    }
  }

  lemma NoClauseReads(pad: string, rest: string)
    requires All(SpaceChar, pad)
    ensures FieldBlock("[" + (pad + "]") + rest) == Ok([], rest)
  {
    hide Skip, FieldValue, MoreClauses, All;
    var close := "]" + rest;
    var s := "[" + (pad + "]") + rest;
    assert s[1..] == pad + close;
    SkipSpaces(pad, close);
    SkipNone(close);
    assert close[1..] == rest;
  }

  lemma SomeClausesRead(b: BlockText, rest: string)
    requires b.Valid() && b.SomeClauses?
    ensures FieldBlock(b.Text() + rest) == Ok(b.Meaning(), rest)
  {
    hide FieldClause, MoreClauses, Skip, MoreText, ClauseText.Text, ClauseText.Valid, ClauseText.Meaning;
    var close := "]" + rest;
    var tail := MoreText(b.more) + close;
    var inner := b.first.Text() + tail;
    var s := b.Text() + rest;
    assert s == "[" + inner;
    assert s[1..] == inner;
    MoreTextStarts(b.more, close);
    ClauseSkips(inner);
    ClauseTextReads(b.first, tail);
    MoreTextReads(b.more, close);
    SkipNone(close);
    assert close[1..] == rest;
  }

  lemma BlockBefore(b: BlockText, rest: string)
    requires b.SomeClauses?
    ensures b.Text() + rest == "[" + (b.first.Text() + (MoreText(b.more) + ("]" + rest)))
  {
    hide ClauseText.Text, MoreText;
  }

  lemma NoClauses()
    ensures MoreText([]) == "" && Meanings([]) == [] && AllValid([])
  {}

  lemma ConsText(c: ClauseText, more: seq<ClauseText>, rest: string)
    ensures MoreText([c] + more) + rest == "," + (c.Text() + (MoreText(more) + rest))
    ensures Meanings([c] + more) == [c.Meaning()] + Meanings(more)
    ensures c.Valid() && AllValid(more) ==> AllValid([c] + more)
  {
    hide ClauseText.Text, ClauseText.Valid, ClauseText.Meaning;
    assert ([c] + more)[1..] == more;
    Assoc(c.Text(), MoreText(more), rest);
    Assoc(",", c.Text() + MoreText(more), rest);
  }

  lemma {:induction false} MoreFound(s: string) returns (cs: seq<ClauseText>)
    ensures AllValid(cs) && Meanings(cs) == MoreClauses(s).0 && s == MoreText(cs) + MoreClauses(s).1
    decreases |s|
  {
    hide FieldClause, ClauseText.Text, ClauseText.Valid, ClauseText.Meaning, MoreText, Meanings, AllValid;
    NoClauses();
    cs := [];
    if StartsWith(s, ',') && FieldClause(s[1..]).Ok? {
      var c := ClauseFound(s[1..]);
      var rest := FieldClause(s[1..]).rest;
      var more := MoreFound(rest);
      cs := [c] + more;
      assert s == "," + (c.Text() + rest);
      ConsText(c, more, MoreClauses(rest).1);
    }
  }

  lemma ClauseSettled(s: string)
    requires FieldClause(s).Ok?
    ensures Skip(FieldClause(s).rest) == FieldClause(s).rest
  {
    hide Span, Skip, FieldValue;
    SkipTwice(FieldValue(Skip(Skip(Skip(s)[Span(KeyChar, Skip(s))..])[1..])).rest);
  }

  /** No spaces are left between the last clause and what follows it. */
  lemma {:induction false} MoreSettled(s: string)
    requires Skip(s) == s
    ensures Skip(MoreClauses(s).1) == MoreClauses(s).1
    decreases |s|
  {
    hide FieldClause, Skip;
    if StartsWith(s, ',') && FieldClause(s[1..]).Ok? {
      ClauseSettled(s[1..]);
      MoreSettled(FieldClause(s[1..]).rest);
    }
  }

  lemma BlockFound(s: string) returns (b: BlockText)
    requires FieldBlock(s).Ok?
    ensures b.Valid() && b.Meaning() == FieldBlock(s).value && s == b.Text() + FieldBlock(s).rest
  {
    hide FieldClause, MoreClauses, Skip, MoreText, All, ClauseText.Text, ClauseText.Valid, ClauseText.Meaning;
    var inner := Skip(s[1..]);
    var pad := SkipTakes(s[1..]);
    ClauseSkips(s[1..]);
    var rest := FieldBlock(s).rest;
    if FieldClause(inner).Ok? {
      var c := ClauseFound(s[1..]);
      var after := FieldClause(inner).rest;
      var more := MoreFound(after);
      ClauseSettled(inner);
      MoreSettled(after);
      b := SomeClauses(c, more);
      var close := MoreClauses(after).1;
      assert close == "]" + rest;
      assert s == "[" + s[1..];
      BlockBefore(b, rest);
    } else {
      SkipTwice(s[1..]);
      b := NoClause(pad);
      assert inner == "]" + rest;
      assert s == "[" + s[1..];
      Assoc(pad, "]", rest);
      Assoc("[", pad + "]", rest);
    }
  }

  // ---- Directives ----

  /** A written level: a word and what it stands for. */
  datatype LevelText = LevelText(word: string, level: Severity, off: bool) {
    predicate Valid() {
      if off then Spells(word, "off") && level == Trace else Names(word, level)
    }
  }

  /** A word that on its own would be read as a level, or as `off`. */
  predicate LevelWord(word: string) {
    Spells(word, "off") || exists v :: Names(word, v)
  }

  /** A level alone, or a target, a block and a level, all three of them optional. */
  datatype Layout =
    | Alone(lead: string, word: LevelText, trail: string)
    | Headed(lead: string, target: string, block: Option<BlockText>, gap: string, level: Option<(string, LevelText)>, trail: string)
  {
    /** A target without a block must not itself read as a level, unless `=` follows at once. */
    predicate Valid() {
      match this
      case Alone(lead, word, trail) => All(SpaceChar, lead) && word.Valid() && All(SpaceChar, trail)
      case Headed(lead, target, block, gap, level, trail) =>
        && All(SpaceChar, lead) && All(TargetChar, target) && All(SpaceChar, gap) && All(SpaceChar, trail)
        && (block.Some? ==> block.value.Valid())
        && (level.Some? ==> All(SpaceChar, level.value.0) && level.value.1.Valid())
        && (target == "" && block.None? ==> gap == "" && (level.None? ==> trail == ""))
        && (block.None? && (gap != "" || level.None?) ==> !LevelWord(target))
    }

    function BlockPart(): string
      requires Headed?
    {
      if block.Some? then block.value.Text() else ""
    }

    function LevelPart(): string
      requires Headed?
    {
      if level.Some? then "=" + (level.value.0 + level.value.1.word) else ""
    }

    function Text(): string {
      match this
      case Alone(lead, word, trail) => lead + (word.word + trail)
      case Headed(lead, target, _, gap, _, trail) => lead + (target + (BlockPart() + (gap + (LevelPart() + trail))))
    }

    function Meaning(): Directive {
      match this
      case Alone(_, word, _) => Directive(None, [], word.level, word.off)
      case Headed(_, target, block, _, level, _) =>
        Directive(
          if target == "" then None else Some(target),
          if block.Some? then block.value.Meaning() else [],
          if level.Some? then level.value.1.level else Trace,
          level.Some? && level.value.1.off)
    }
  }

  lemma WordRead(w: LevelText)
    requires w.Valid()
    ensures (Lower(w.word) == "off" <==> w.off) && (w.off ==> w.level == Trace)
    ensures !w.off ==> SeverityOf(w.word) == Some(w.level)
  {
    hide Lower, Spells, SeverityOf, Names;
    LowerSpells(w.word, "off");
    SeverityExact(w.word, w.level);
    if !w.off && Lower(w.word) == "off" {
      NotAName(w.word);
    }
  }

  lemma NotAName(word: string)
    requires Lower(word) == "off"
    ensures SeverityOf(word) == None
  {
    hide Lower;
    assert "off"[0] == 'o';
  }

  lemma WordFound(word: string) returns (w: LevelText)
    requires Lower(word) == "off" || SeverityOf(word).Some?
    ensures w.Valid() && w.word == word && (w.off <==> Lower(word) == "off")
    ensures !w.off ==> SeverityOf(word) == Some(w.level)
  {
    hide Lower, Spells, SeverityOf, Names;
    if Lower(word) == "off" {
      LowerSpells(word, "off");
      w := LevelText(word, Trace, true);
    } else {
      w := LevelText(word, SeverityOf(word).value, false);
      SeverityExact(word, w.level);
    }
  }

  lemma LevelWordExact(word: string)
    ensures LevelWord(word) <==> Lower(word) == "off" || SeverityOf(word).Some?
  {
    hide Lower, Spells, SeverityOf, Names;
    LowerSpells(word, "off");
    if SeverityOf(word).Some? {
      SeverityExact(word, SeverityOf(word).value);
    }
    forall v | Names(word, v) ensures SeverityOf(word).Some? {
      SeverityExact(word, v);
    }
  }

  lemma LetterIsTarget(c: char, w: char)
    requires SameLetter(c, w) && ('a' <= w <= 'z' || w == '_')
    ensures TargetChar(c)
  {}

  lemma SpellsTarget(token: string, word: string)
    requires Spells(token, word) && forall i :: 0 <= i < |word| ==> 'a' <= word[i] <= 'z' || word[i] == '_'
    ensures All(TargetChar, token) && (word != "" ==> token != "")
  {
    hide TargetChar, SameLetter;
    forall i | 0 <= i < |token| ensures TargetChar(token[i]) {
      LetterIsTarget(token[i], word[i]);
    }
  }

  lemma WordTarget(w: LevelText)
    requires w.Valid()
    ensures w.word != "" && All(TargetChar, w.word)
  {
    hide All, TargetChar, Spells;
    if Spells(w.word, "off") {
      SpellsTarget(w.word, "off");
    } else if Spells(w.word, "warning") {
      SpellsTarget(w.word, "warning");
    } else if Spells(w.word, "err") {
      SpellsTarget(w.word, "err");
    } else if Spells(w.word, w.level.Name()) {
      SpellsTarget(w.word, w.level.Name());
    } else {
      SpellsTarget(w.word, "severity_" + w.level.Name());
    }
  }

  lemma LevelTextReads(pad: string, w: LevelText, trail: string)
    requires All(SpaceChar, pad) && w.Valid() && All(SpaceChar, trail)
    ensures LevelOrOff(pad + (w.word + trail)) == Ok((w.level, w.off), trail)
  {
    WordRead(w);
    WordTarget(w);
    hide Lower, Names, Spells, SeverityOf, Span, Skip, SpaceChar, TargetChar;
    SkipSpaces(pad, w.word + trail);
    assert TargetChar((w.word + trail)[0]);
    NotSpace((w.word + trail)[0]);
    SkipNone(w.word + trail);
    TargetThenSpaces(w.word, trail);
  }

  lemma TargetThenSpaces(t: string, trail: string)
    requires All(TargetChar, t) && All(SpaceChar, trail)
    ensures var s := t + trail; Span(TargetChar, s) == |t| && s[..|t|] == t && s[|t|..] == trail
  {
    hide Span, SpaceChar, TargetChar;
    if trail != "" {
      assert SpaceChar(trail[0]);
      if TargetChar(trail[0]) {
        NotSpace(trail[0]);
      }
    }
    SpanExact(TargetChar, t, trail);
  }

  lemma AloneToken(word: string, trail: string)
    requires word != "" && All(TargetChar, word) && All(SpaceChar, trail)
    ensures var s := word + trail; Skip(s) == s && BareToken(s) == Some(word) && Skip(s[|word|..]) == ""
  {
    hide Span, Skip, SpaceChar, TargetChar;
    var s := word + trail;
    assert TargetChar(s[0]);
    NotSpace(s[0]);
    SkipNone(s);
    TargetThenSpaces(word, trail);
    if trail != "" {
      assert SpaceChar(trail[0]);
      NotSpace('=');
      NotSpace('[');
    }
    SkipAll(trail);
  }

  /** A level alone. */
  lemma AloneReads(l: Layout)
    requires l.Valid() && l.Alone?
    ensures DirectiveFull(l.Text()) == Ok(l.Meaning(), "")
  {
    WordRead(l.word);
    WordTarget(l.word);
    hide Lower, SeverityOf, Skip, HeadAndTail, BareToken, LevelText.Valid, All;
    SkipSpaces(l.lead, l.word.word + l.trail);
    AloneToken(l.word.word, l.trail);
  }

  // ---- A head and what follows it ----

  /** What stands behind the target and the block. */
  function After(l: Layout): string
    requires l.Headed?
  {
    l.gap + (l.LevelPart() + l.trail)
  }

  predicate LevelsValid(l: Layout)
    requires l.Headed?
  {
    && All(SpaceChar, l.gap) && All(SpaceChar, l.trail)
    && (l.level.Some? ==> All(SpaceChar, l.level.value.0) && l.level.value.1.Valid())
  }

  lemma AfterReads(l: Layout)
    requires l.Headed? && LevelsValid(l)
    ensures var t := Tail(Skip(After(l)));
            && t.Ok? && t.value == (l.Meaning().level, l.Meaning().off) && Skip(t.rest) == ""
  {
    hide All, Skip, LevelOrOff, SpaceChar, BlockText.Meaning, LevelText.Valid;
    SkipAll(l.trail);
    if l.level.Some? {
      var (pad, w) := l.level.value;
      var s := "=" + (pad + (w.word + l.trail));
      assert l.LevelPart() + l.trail == s;
      SkipSpaces(l.gap, s);
      NotSpace('=');
      SkipNone(s);
      assert s[1..] == pad + (w.word + l.trail);
      LevelTextReads(pad, w, l.trail);
    } else {
      assert l.LevelPart() + l.trail == l.trail;
      SkipSpaces(l.gap, l.trail);
      SkipNone("");
    }
  }

  lemma AfterStarts(l: Layout)
    requires l.Headed? && LevelsValid(l) && After(l) != ""
    ensures var c := After(l)[0]; !TargetChar(c) && c != '[' && (c == '=' <==> l.gap == "" && l.level.Some?)
  {
    hide TargetChar, LevelText.Valid;
    var c := After(l)[0];
    if l.gap != "" || l.level.None? {
      assert c == if l.gap != "" then l.gap[0] else l.trail[0];
      assert SpaceChar(c);
      if TargetChar(c) {
        NotSpace(c);
      }
    } else {
      assert c == '=';
      EqualsEnds();
    }
  }

  lemma EqualsEnds()
    ensures !TargetChar('=') && !TargetChar('[')
  {}

  /** The target ends where the block, the spaces or the equals sign begin. */
  lemma TargetEnds(l: Layout)
    requires l.Headed? && l.Valid()
    ensures var rest := l.BlockPart() + After(l); var s := l.target + rest;
            Span(TargetChar, s) == |l.target| && s[..|l.target|] == l.target && s[|l.target|..] == rest
  {
    hide TargetChar, Span, After, SpaceChar, LevelText.Valid, BlockText.Valid;
    var rest := l.BlockPart() + After(l);
    BlockStarts(l);
    EqualsEnds();
    if After(l) != "" {
      AfterStarts(l);
    }
    SpanExact(TargetChar, l.target, rest);
  }

  lemma BlockStarts(l: Layout)
    requires l.Headed?
    ensures l.block.Some? ==> StartsWith(l.BlockPart() + After(l), '[')
    ensures l.block.None? ==> l.BlockPart() + After(l) == After(l)
  {
    hide After, MoreText, ClauseText.Text;
  }

  lemma HeadReads(l: Layout)
    requires l.Headed? && l.Valid()
    ensures HeadAndTail(l.target + (l.BlockPart() + After(l))) == Ok(l.Meaning(), "")
  {
    hide TargetChar, Span, Skip, After, All, SpaceChar, Tail, FieldBlock, LevelWord,
      LevelText.Valid, BlockText.Valid, BlockText.Text, BlockText.Meaning;
    TargetEnds(l);
    AfterReads(l);
    if l.block.Some? {
      BlockTextReads(l.block.value, After(l));
    } else {
      BlockStarts(l);
      if After(l) != "" {
        AfterStarts(l);
      }
      NoBlock(After(l));
    }
  }

  lemma NoBlock(s: string)
    requires !StartsWith(s, '[')
    ensures FieldBlock(s) == Backtrack
  {}

  lemma NotBare(l: Layout)
    requires l.Headed? && l.Valid()
    ensures var token := BareToken(l.target + (l.BlockPart() + After(l))); token.Some? ==> !LevelWord(token.value)
  {
    hide TargetChar, Span, After, All, SpaceChar, LevelWord, LevelText.Valid, BlockText.Valid, BlockText.Text;
    TargetEnds(l);
    BlockStarts(l);
    if After(l) != "" {
      AfterStarts(l);
    } else {
      AfterNone(l);
    }
  }

  lemma AfterNone(l: Layout)
    requires l.Headed? && After(l) == ""
    ensures l.level.None?
  {
    assert |After(l)| >= |l.LevelPart()|;
  }

  lemma HeadSettled(l: Layout)
    requires l.Headed? && l.Valid()
    ensures var s := l.target + (l.BlockPart() + After(l)); Skip(s) == s
  {
    hide TargetChar, All, SpaceChar, Span, LevelWord, After, LevelText.Valid, BlockText.Valid, BlockText.Text;
    var rest := l.BlockPart() + After(l);
    var s := l.target + rest;
    BlockStarts(l);
    NotSpace('[');
    NotSpace('=');
    if l.target != "" {
      FirstOf(TargetChar, l.target);
      NotSpace(l.target[0]);
      assert s[0] == l.target[0];
    } else {
      assert s == rest;
      if l.block.None? {
        AfterEmpty(l);
      }
    }
    SkipNone(s);
  }

  lemma FirstOf(p: Class, s: string)
    requires All(p, s) && s != ""
    ensures p(s[0])
  {}

  lemma AfterEmpty(l: Layout)
    requires l.Headed? && l.gap == "" && (l.level.None? ==> l.trail == "")
    ensures After(l) == "" || After(l)[0] == '='
  {}

  lemma HeadedReads(l: Layout)
    requires l.Valid() && l.Headed?
    ensures DirectiveFull(l.Text()) == Ok(l.Meaning(), "")
  {
    hide Lower, SeverityOf, Skip, HeadAndTail, BareToken, All, LevelWord,
      LevelText.Valid, BlockText.Valid, BlockText.Text, BlockText.Meaning, Layout.BlockPart, Layout.LevelPart;
    var s := l.target + (l.BlockPart() + After(l));
    assert l.Text() == l.lead + s;
    SkipSpaces(l.lead, s);
    HeadSettled(l);
    HeadReads(l);
    NotBare(l);
    if BareToken(s).Some? {
      LevelWordExact(BareToken(s).value);
    }
  }

  // ---- Every accepted text has a layout ----

  lemma AfterFound(s: string) returns (l: Layout)
    requires var t := Tail(Skip(s)); t.Ok? && Skip(t.rest) == ""
    ensures l.Headed? && l.lead == "" && l.target == "" && l.block.None? && LevelsValid(l) && After(l) == s
    ensures Tail(Skip(s)).value == (l.Meaning().level, l.Meaning().off)
    ensures l.level.None? ==> l.gap == ""
  {
    hide Skip, All, LevelOrOff, LevelText.Valid;
    NoneAll();
    var gap := SkipTakes(s);
    var t := Tail(Skip(s));
    if StartsWith(Skip(s), '=') && LevelOrOff(Skip(s)[1..]).Ok? {
      var pad, w, trail := LevelFound(Skip(s)[1..]);
      l := Headed("", "", None, gap, Some((pad, w)), trail);
      assert Skip(s) == "=" + Skip(s)[1..];
      Assoc(pad, w.word, trail);
      Assoc("=", pad + w.word, trail);
    } else {
      assert t.rest == Skip(s);
      SkipTwice(s);
      assert s == gap;
      l := Headed("", "", None, "", None, gap);
      assert "" + ("" + gap) == gap;
    }
  }

  lemma LevelFound(s: string) returns (pad: string, w: LevelText, trail: string)
    requires LevelOrOff(s).Ok? && Skip(LevelOrOff(s).rest) == ""
    ensures All(SpaceChar, pad) && w.Valid() && All(SpaceChar, trail) && s == pad + (w.word + trail)
    ensures LevelOrOff(s).value == (w.level, w.off)
  {
    hide Skip, All, Span, Lower, SeverityOf, TargetChar;
    pad := SkipTakes(s);
    var s1 := Skip(s);
    var n := Span(TargetChar, s1);
    w := WordFound(s1[..n]);
    trail := SkipTakes(s1[n..]);
    assert trail + "" == trail;
    assert s1 == s1[..n] + s1[n..];
  }

  lemma Settles(l: Layout)
    requires l.Headed? && LevelsValid(l) && Skip(After(l)) == After(l) && (l.level.None? ==> l.gap == "")
    ensures l.gap == "" && (l.level.None? ==> l.trail == "")
  {
    hide All, Skip, LevelText.Valid;
    SkipSpaces(l.gap, l.LevelPart() + l.trail);
    if l.level.None? {
      assert After(l) == l.trail;
      SkipAll(l.trail);
    }
  }

  lemma NotALevel(s: string)
    requires s == ""
    ensures !LevelWord(s)
  {}

  /** A target without a block, and no `=` at once behind it, stands as a bare token. */
  lemma StandsAlone(l: Layout, s: string)
    requires l.Headed? && LevelsValid(l) && All(TargetChar, l.target) && l.target != "" && s == l.target + After(l)
    requires l.gap != "" || l.level.None?
    ensures BareToken(s) == Some(l.target)
  {
    hide All, Span, TargetChar, After, LevelText.Valid;
    if After(l) != "" {
      AfterStarts(l);
    }
    SpanExact(TargetChar, l.target, After(l));
    assert s[..|l.target|] == l.target && s[|l.target|..] == After(l);
  }

  /** A head with a block. */
  lemma BlockHead(a: Layout, target: string, b: BlockText) returns (l: Layout)
    requires a.Headed? && a.lead == "" && a.target == "" && a.block.None? && LevelsValid(a)
    requires All(TargetChar, target) && b.Valid()
    ensures l.Headed? && l.lead == "" && l.Valid() && l.Text() == target + (b.Text() + After(a))
    ensures l.Meaning() == a.Meaning().(target := if target == "" then None else Some(target), fields := b.Meaning())
  {
    hide All, LevelWord, LevelText.Valid, BlockText.Valid, BlockText.Text, BlockText.Meaning, TargetChar;
    NoneAll();
    l := a.(target := target, block := Some(b));
    assert l.LevelPart() == a.LevelPart();
    assert l.Text() == "" + (target + (b.Text() + After(a)));
    assert "" + (target + (b.Text() + After(a))) == target + (b.Text() + After(a));
  }

  /** A head without a block. */
  lemma PlainHead(a: Layout, target: string) returns (l: Layout)
    requires a.Headed? && a.lead == "" && a.target == "" && a.block.None? && LevelsValid(a)
    requires All(TargetChar, target) && (a.level.None? ==> a.gap == "")
    requires var s := target + After(a); Skip(s) == s && (BareToken(s).Some? ==> !LevelWord(BareToken(s).value))
    ensures l.Headed? && l.lead == "" && l.Valid() && l.Text() == target + After(a)
    ensures l.Meaning() == a.Meaning().(target := if target == "" then None else Some(target))
  {
    hide All, LevelWord, LevelText.Valid, TargetChar, Skip, BareToken;
    NoneAll();
    l := a.(target := target);
    SameAfter(a, l);
    if target == "" {
      NotALevel(target);
      assert target + After(a) == After(a);
      Settles(a);
    } else if l.gap != "" || l.level.None? {
      StandsAlone(l, target + After(a));
    }
    assert l.Text() == "" + (target + ("" + After(a)));
    assert "" + (target + ("" + After(a))) == target + After(a);
  }

  lemma SameAfter(a: Layout, l: Layout)
    requires a.Headed? && l.Headed? && a.gap == l.gap && a.level == l.level && a.trail == l.trail
    ensures After(a) == After(l) && LevelsValid(a) == LevelsValid(l)
  {}

  /** A head that is not taken for a bare level, from its beginning to the end of the text. */
  lemma HeadFound(s: string) returns (l: Layout)
    requires HeadAndTail(s).Ok? && HeadAndTail(s).rest == "" && Skip(s) == s
    requires BareToken(s).Some? ==> !LevelWord(BareToken(s).value)
    ensures l.Headed? && l.lead == "" && l.Valid() && l.Text() == s && l.Meaning() == HeadAndTail(s).value
  {
    hide Skip, All, Span, TargetChar, FieldBlock, Tail, After, LevelWord, BareToken, LevelsValid,
      LevelText.Valid, BlockText.Valid, BlockText.Text, BlockText.Meaning, Layout.Valid, Layout.Text;
    var n := Span(TargetChar, s);
    SpanClass(TargetChar, s);
    var block := FieldBlock(s[n..]);
    var a := AfterFound(if block.Ok? then block.rest else s[n..]);
    assert s == s[..n] + s[n..];
    if block.Ok? {
      var b := BlockFound(s[n..]);
      l := BlockHead(a, s[..n], b);
    } else {
      l := PlainHead(a, s[..n]);
    }
  }

  // ---- The language of directives ----

  /** `s` is the text of a layout that means `d`. */
  ghost predicate Written(s: string, d: Directive) {
    exists l: Layout :: l.Valid() && l.Text() == s && l.Meaning() == d
  }

  lemma AloneFound(s: string) returns (l: Layout)
    requires BareToken(s).Some? && LevelWord(BareToken(s).value) && Skip(s[|BareToken(s).value|..]) == ""
    ensures l.Alone? && l.lead == "" && l.Valid() && l.Text() == s
    ensures l.word.word == BareToken(s).value
  {
    hide Skip, All, Span, TargetChar, LevelText.Valid, Lower, SeverityOf, LevelWord;
    NoneAll();
    var word := BareToken(s).value;
    LevelWordExact(word);
    var w := WordFound(word);
    var trail := SkipTakes(s[|word|..]);
    assert trail + "" == trail;
    l := Alone("", w, trail);
    assert s == word + trail;
    assert "" + (word + trail) == word + trail;
  }

  lemma Led(l: Layout, lead: string)
    requires l.Valid() && l.lead == "" && All(SpaceChar, lead)
    ensures l.(lead := lead).Valid() && l.(lead := lead).Text() == lead + l.Text() && l.(lead := lead).Meaning() == l.Meaning()
  {
    hide All, LevelText.Valid, BlockText.Valid, BlockText.Text, BlockText.Meaning, LevelWord;
    var k := l.(lead := lead);
    if l.Headed? {
      assert k.LevelPart() == l.LevelPart() && k.BlockPart() == l.BlockPart();
      var body := l.target + (l.BlockPart() + (l.gap + (l.LevelPart() + l.trail)));
      assert "" + body == body;
    } else {
      assert "" + (l.word.word + l.trail) == l.word.word + l.trail;
    }
  }

  lemma DirectiveFound(s: string) returns (l: Layout)
    requires DirectiveFull(s).Ok? && DirectiveFull(s).rest == ""
    ensures l.Valid() && l.Text() == s && l.Meaning() == DirectiveFull(s).value
  {
    hide Skip, All, BareToken, HeadAndTail, LevelWord, Lower, SeverityOf, LevelText.Valid, Layout.Valid, Layout.Text;
    var lead := SkipTakes(s);
    SkipTwice(s);
    var s1 := Skip(s);
    var token := BareToken(s1);
    if token.Some? {
      LevelWordExact(token.value);
    }
    if token.Some? && LevelWord(token.value) {
      l := AloneFound(s1);
      AloneReads(l);
    } else {
      l := HeadFound(s1);
    }
    Led(l, lead);
    l := l.(lead := lead);
  }

  /**
   * The grammar, exactly: a text is read as a directive if and only if it is, white space at both
   * ends aside, the text of a layout that means that directive.
   */
  lemma DirectiveExact(raw: string, d: Directive)
    ensures ParseDirective(raw) == Some(d) <==> Written(Trim(raw), d)
  {
    hide Trim, DirectiveFull, Layout.Valid, Layout.Text, Layout.Meaning;
    var s := Trim(raw);
    if ParseDirective(raw) == Some(d) {
      var l := DirectiveFound(s);
    }
    if Written(s, d) {
      var l: Layout :| l.Valid() && l.Text() == s && l.Meaning() == d;
      LayoutReads(l);
    }
  }

  lemma LayoutReads(l: Layout)
    requires l.Valid()
    ensures DirectiveFull(l.Text()) == Ok(l.Meaning(), "")
  {
    hide DirectiveFull, Layout.Valid, Layout.Text, Layout.Meaning;
    if l.Alone? {
      AloneReads(l);
    } else {
      HeadedReads(l);
    }
  }

  // ---- Whole specs ----

  predicate Blank(p: string) {
    All(WhiteChar, p)
  }

  lemma BlankTrims(p: string)
    ensures Trim(p) == "" <==> Blank(p)
  {
    hide Trim, WhiteChar;
    var a, b := TrimTakes(p);
    if Trim(p) == "" {
      assert p == a + b;
      AllJoin(WhiteChar, a, b);
    }
    if Blank(p) {
      assert All(WhiteChar, "");
      assert p + ("" + "") == p;
      TrimWhite(p, "", "");
    }
  }

  lemma TrimTwice(s: string)
    ensures Trim(Trim(s)) == Trim(s)
  {
    hide TrimStart, TrimEnd, WhiteChar;
    var a, b := TrimTakes(s);
    TrimNone(Trim(s));
  }

  /** `ds` are the directives written in the pieces that are not blank, in the order of the pieces. */
  ghost predicate Listed(pieces: seq<string>, ds: seq<Directive>)
    decreases |pieces|
  {
    if pieces == [] then ds == []
    else if Blank(pieces[0]) then Listed(pieces[1..], ds)
    else ds != [] && Written(Trim(pieces[0]), ds[0]) && Listed(pieces[1..], ds[1..])
  }

  lemma {:induction false} PiecesExact(pieces: seq<string>, ds: seq<Directive>)
    ensures ParsePieces(pieces) == Some(ds) <==> Listed(pieces, ds)
    decreases |pieces|
  {
    hide ParseDirective, Trim, Written, Blank;
    if pieces != [] {
      BlankTrims(pieces[0]);
      if Blank(pieces[0]) {
        PiecesExact(pieces[1..], ds);
      } else {
        TrimTwice(pieces[0]);
        if ds != [] {
          DirectiveExact(Trim(pieces[0]), ds[0]);
          PiecesExact(pieces[1..], ds[1..]);
          assert [ds[0]] + ds[1..] == ds;
        }
      }
    }
  }

  /** A spec parses exactly when each of its pieces is blank or a directive; one bad piece refuses the whole spec. */
  lemma SpecExact(spec: string, ds: seq<Directive>)
    ensures ParseSpec(spec) == Some(ds) <==> Listed(Pieces(spec), ds)
  {
    hide Listed, ParsePieces, Pieces;
    PiecesExact(Pieces(spec), ds);
  }
}
