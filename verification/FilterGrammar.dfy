/** The directive grammar of the filter DSL (crates/obs-core/src/filter.rs, module `grammar`). */
module FilterGrammar {
  import opened Bytes

  // ---- Severities (crates/obs-proto/src/ext.rs) ----

  datatype Severity = Unspecified | Trace | Debug | Info | Warn | Error | Fatal {
    function Rank(): nat {
      match this
      case Unspecified => 0
      case Trace => 1
      case Debug => 2
      case Info => 3
      case Warn => 4
      case Error => 5
      case Fatal => 6
    }

    function Name(): string {
      match this
      case Unspecified => "unspecified"
      case Trace => "trace"
      case Debug => "debug"
      case Info => "info"
      case Warn => "warn"
      case Error => "error"
      case Fatal => "fatal"
    }
  }

  function LowerChar(c: char): char {
    if 'A' <= c <= 'Z' then ((c as int - 'A' as int) + 'a' as int) as char else c
  }

  function Lower(s: string): (l: string)
    ensures |l| == |s|
  {
    seq(|s|, i requires 0 <= i < |s| => LowerChar(s[i]))
  }

  function SeverityOf(token: string): Option<Severity> {
    var l := Lower(token);
    if l in {"trace", "severity_trace"} then Some(Trace)
    else if l in {"debug", "severity_debug"} then Some(Debug)
    else if l in {"info", "severity_info"} then Some(Info)
    else if l in {"warn", "warning", "severity_warn"} then Some(Warn)
    else if l in {"error", "err", "severity_error"} then Some(Error)
    else if l in {"fatal", "severity_fatal"} then Some(Fatal)
    else if l in {"unspecified", "severity_unspecified"} then Some(Unspecified)
    else None
  }

  datatype Directive = Directive(target: Option<string>, fields: seq<(string, string)>, level: Severity, off: bool)

  // ---- Character classes ----

  predicate TargetChar(c: char) {
    'a' <= c <= 'z' || 'A' <= c <= 'Z' || '0' <= c <= '9' || c in {'_', ':', '.', '-'}
  }

  predicate KeyChar(c: char) {
    'a' <= c <= 'z' || 'A' <= c <= 'Z' || '0' <= c <= '9' || c in {'_', '.'}
  }

  predicate BareValueChar(c: char) {
    c != ',' && c != ']' && c != '"'
  }

  predicate QuotedChar(c: char) {
    c != '"'
  }

  predicate SpaceChar(c: char) {
    c in {' ', '\t', '\r', '\n'}
  }

  /** The characters `str::trim` removes. */
  predicate WhiteChar(c: char) {
    var n := c as int;
    9 <= n <= 13 || n in {0x20, 0x85, 0xA0, 0x1680, 0x2028, 0x2029, 0x202F, 0x205F, 0x3000} || 0x2000 <= n <= 0x200A
  }

  type Class = char -> bool

  // ---- Primitive parsers ----

  /** The length of the longest run of `p` at the front of `s`. */
  function Span(p: Class, s: string): (n: nat)
    ensures n <= |s|
    decreases |s|
  {
    if s == "" || !p(s[0]) then 0 else 1 + Span(p, s[1..])
  }

  function Skip(s: string): (r: string)
    ensures |r| <= |s|
  {
    s[Span(SpaceChar, s)..]
  }

  function TrimStart(s: string): string {
    s[Span(WhiteChar, s)..]
  }

  function TrimEnd(s: string): string
    decreases |s|
  {
    if s == "" || !WhiteChar(s[|s| - 1]) then s else TrimEnd(s[..|s| - 1])
  }

  function Trim(s: string): string {
    TrimEnd(TrimStart(s))
  }

  predicate StartsWith(s: string, c: char) {
    s != "" && s[0] == c
  }

  /** A parser result: a value and the unread input, or a failure that may or may not be retried. */
  datatype Parsed<T> = Ok(value: T, rest: string) | Backtrack | Fail

  // ---- Fields ----

  function FieldValue(s: string): (r: Parsed<string>)
    ensures r.Ok? ==> |r.rest| <= |s|
  {
    if StartsWith(s, '"') then
      var n := Span(QuotedChar, s[1..]);
      if StartsWith(s[1 + n..], '"') then Ok(s[1..1 + n], s[2 + n..]) else Backtrack
    else
      var n := Span(BareValueChar, s);
      Ok(Trim(s[..n]), s[n..])
  }

  function FieldClause(s: string): (r: Parsed<(string, string)>)
    ensures r.Ok? ==> |r.rest| < |s|
  {
    var s1 := Skip(s);
    var n := Span(KeyChar, s1);
    var s2 := Skip(s1[n..]);
    if n == 0 || !StartsWith(s2, '=') then Backtrack
    else
      var v := FieldValue(Skip(s2[1..]));
      if v.Ok? then Ok((s1[..n], v.value), Skip(v.rest)) else Backtrack
  }

  /** The clauses after the first: a comma that no clause follows is left unread. */
  function MoreClauses(s: string): (r: (seq<(string, string)>, string))
    ensures |r.1| <= |s|
    decreases |s|
  {
    if !StartsWith(s, ',') then ([], s)
    else
      match FieldClause(s[1..])
      case Ok(f, rest) =>
        var more := MoreClauses(rest);
        ([f] + more.0, more.1)
      case Backtrack => ([], s)
      case Fail => ([], s)
  }

  function Clauses(s: string): (seq<(string, string)>, string) {
    match FieldClause(s)
    case Ok(f, rest) =>
      var more := MoreClauses(rest);
      ([f] + more.0, more.1)
    case Backtrack => ([], s)
    case Fail => ([], s)
  }

  function FieldBlock(s: string): Parsed<seq<(string, string)>> {
    if !StartsWith(s, '[') then Backtrack
    else
      var (fields, rest) := Clauses(Skip(s[1..]));
      var close := Skip(rest);
      if StartsWith(close, ']') then Ok(fields, close[1..]) else Backtrack
  }

  // ---- Directives ----

  /** `off` or a level on its own: the token must not go on as `token=` or `token[`. */
  function BareToken(s: string): Option<string> {
    var n := Span(TargetChar, s);
    if n == 0 || StartsWith(s[n..], '=') || StartsWith(s[n..], '[') then None else Some(s[..n])
  }

  function LevelOrOff(s: string): Parsed<(Severity, bool)> {
    var s1 := Skip(s);
    var n := Span(TargetChar, s1);
    if n == 0 then Backtrack
    else if Lower(s1[..n]) == "off" then Ok((Trace, true), s1[n..])
    else
      match SeverityOf(s1[..n])
      case Some(level) => Ok((level, false), s1[n..])
      case None => Fail
  }

  /** What follows the head: `=level`, `=off`, or nothing, which stands for `trace`. */
  function Tail(s: string): Parsed<(Severity, bool)> {
    if !StartsWith(s, '=') then Ok((Trace, false), s)
    else
      match LevelOrOff(s[1..])
      case Ok(v, rest) => Ok(v, rest)
      case Backtrack => Ok((Trace, false), s)
      case Fail => Fail
  }

  function HeadAndTail(s: string): Parsed<Directive> {
    var n := Span(TargetChar, s);
    var target := if n == 0 then None else Some(s[..n]);
    var block := FieldBlock(s[n..]);
    var fields := if block.Ok? then block.value else [];
    var rest := if block.Ok? then block.rest else s[n..];
    match Tail(Skip(rest))
    case Ok(v, unread) => Ok(Directive(target, fields, v.0, v.1), Skip(unread))
    case Backtrack => Backtrack
    case Fail => Fail
  }

  function DirectiveFull(s: string): Parsed<Directive> {
    var s1 := Skip(s);
    var token := BareToken(s1);
    if token.Some? && Lower(token.value) == "off" then
      Ok(Directive(None, [], Trace, true), Skip(s1[|token.value|..]))
    else if token.Some? && SeverityOf(token.value).Some? then
      Ok(Directive(None, [], SeverityOf(token.value).value, false), Skip(s1[|token.value|..]))
    else HeadAndTail(s1)
  }

  /** One whole directive; nothing may be left unread. */
  function ParseDirective(raw: string): Option<Directive> {
    match DirectiveFull(Trim(raw))
    case Ok(d, rest) => if rest == "" then Some(d) else None
    case Backtrack => None
    case Fail => None
  }
}
