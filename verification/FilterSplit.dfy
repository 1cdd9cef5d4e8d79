/** Cutting a filter spec into directives: `split_directives` (crates/obs-core/src/filter.rs). */
module FilterSplit {
  import opened Bytes

  const I32_MIN := -0x8000_0000
  const I32_MAX := 0x7FFF_FFFF

  /**
   * Bracket depth and quotation while scanning. A stray `]` takes the depth below zero, where it
   * saturates; at the other end it wraps, as in a build without overflow checks.
   */
  datatype Scan = Scan(depth: int, quoted: bool)

  const START := Scan(0, false)

  function Next(s: Scan, c: char): Scan {
    if c == '"' && s.depth > 0 then s.(quoted := !s.quoted)
    else if c == '[' && !s.quoted then s.(depth := if s.depth < I32_MAX then s.depth + 1 else I32_MIN)
    else if c == ']' && !s.quoted then s.(depth := if s.depth > I32_MIN then s.depth - 1 else I32_MIN)
    else s
  }

  predicate Cuts(s: Scan, c: char) {
    c == ',' && s == START
  }

  /** The pieces of `rest`, the first of them continuing `piece`. */
  function Split(rest: string, s: Scan, piece: string): (pieces: seq<string>)
    ensures |pieces| >= 1
    decreases |rest|
  {
    if rest == "" then [piece]
    else if Cuts(s, rest[0]) then [piece] + Split(rest[1..], s, "")
    else Split(rest[1..], Next(s, rest[0]), piece + [rest[0]])
  }

  function Pieces(spec: string): seq<string> {
    Split(spec, START, "")
  }

  method SplitDirectives(spec: string) returns (out: seq<string>)
    ensures out == Pieces(spec)
  {
    ghost var goal := Pieces(spec);
    out := [];
    var depth, quoted, start := 0, false, 0;
    var i := 0;
    assert spec[0..] == spec;
    while i < |spec|
      invariant 0 <= start <= i <= |spec|
      invariant goal == out + Split(spec[i..], Scan(depth, quoted), spec[start..i])
    {
      var c := spec[i];
      ghost var rest, piece := spec[i..], spec[start..i];
      assert rest[1..] == spec[i + 1..] && piece + [c] == spec[start..i + 1];
      if c == '"' && depth > 0 {
        quoted := !quoted;
      } else if c == '[' && !quoted {
        depth := if depth < I32_MAX then depth + 1 else I32_MIN;
      } else if c == ']' && !quoted {
        depth := if depth > I32_MIN then depth - 1 else I32_MIN;
      } else if c == ',' && depth == 0 && !quoted {
        ghost var tail := Split(spec[i + 1..], START, "");
        assert out + ([piece] + tail) == out + [piece] + tail;
        out := out + [spec[start..i]];
        start := i + 1;
        assert spec[start..i + 1] == "";
      }
      i := i + 1;
    }
    assert spec[i..] == "" && spec[start..i] == spec[start..];
    out := out + [spec[start..]];
  }

  // ---- Nothing is lost ----

  function Join(pieces: seq<string>): string {
    if pieces == [] then ""
    else if |pieces| == 1 then pieces[0]
    else pieces[0] + "," + Join(pieces[1..])
  }

  lemma {:induction false} JoinSplit(rest: string, s: Scan, piece: string)
    ensures Join(Split(rest, s, piece)) == piece + rest
    decreases |rest|
  {
    if rest != "" {
      assert rest == [rest[0]] + rest[1..];
      if Cuts(s, rest[0]) {
        var tail := Split(rest[1..], s, "");
        JoinSplit(rest[1..], s, "");
        assert ([piece] + tail)[1..] == tail;
      } else {
        JoinSplit(rest[1..], Next(s, rest[0]), piece + [rest[0]]);
      }
    }
  }

  /** Joining the pieces of any spec with commas gives the spec back. */
  lemma PiecesRejoin(spec: string)
    ensures Join(Pieces(spec)) == spec
  {
    JoinSplit(spec, START, "");
    assert "" + spec == spec;
  }

  // ---- Where the cuts fall ----

  function ScanAll(s: Scan, p: string): Scan
    decreases |p|
  {
    if p == "" then s else ScanAll(Next(s, p[0]), p[1..])
  }

  /** No comma of `p` cuts when it is scanned from `s`. */
  predicate Uncut(s: Scan, p: string)
    decreases |p|
  {
    p == "" || (!Cuts(s, p[0]) && Uncut(Next(s, p[0]), p[1..]))
  }

  /** A piece read whole, then a cutting comma or the end. */
  lemma {:induction false} SplitPiece(p: string, rest: string, s: Scan, piece: string)
    requires Uncut(s, p)
    ensures Split(p + rest, s, piece) == Split(rest, ScanAll(s, p), piece + p)
    decreases |p|
  {
    if p == "" {
      assert p + rest == rest && piece + p == piece;
    } else {
      assert (p + rest)[0] == p[0] && (p + rest)[1..] == p[1..] + rest;
      SplitPiece(p[1..], rest, Next(s, p[0]), piece + [p[0]]);
      assert piece + [p[0]] + p[1..] == piece + p;
    }
  }

  /** A piece that starts and ends outside brackets and quotes and is not cut inside. */
  predicate Whole(p: string) {
    Uncut(START, p) && ScanAll(START, p) == START
  }

  lemma WholeAlone(p: string)
    requires Whole(p)
    ensures Pieces(p) == [p]
  {
    SplitPiece(p, "", START, "");
    assert p + "" == p && "" + p == p;
  }

  lemma WholeThen(p: string, b: string)
    requires Whole(p)
    ensures Pieces(p + ("," + b)) == [p] + Pieces(b)
  {
    hide Uncut, ScanAll;
    SplitPiece(p, "," + b, START, "");
    assert "" + p == p && ("," + b)[1..] == b;
  }

  /** Any list of whole pieces is what its own comma-joined text splits into. */
  lemma {:induction false} SplitJoin(pieces: seq<string>)
    requires pieces != [] && forall p :: p in pieces ==> Whole(p)
    ensures Pieces(Join(pieces)) == pieces
    decreases |pieces|
  {
    hide Pieces, Whole;
    var p := pieces[0];
    if |pieces| == 1 {
      WholeAlone(p);
    } else {
      var b := Join(pieces[1..]);
      assert Join(pieces) == p + ("," + b);
      WholeThen(p, b);
      SplitJoin(pieces[1..]);
      assert [p] + pieces[1..] == pieces;
    }
  }

  lemma {:induction false} UncutPieces(rest: string, s: Scan, piece: string, q: string)
    requires q in Split(rest, s, piece)
    requires Uncut(START, piece) && ScanAll(START, piece) == s
    ensures Uncut(START, q)
    decreases |rest|
  {
    if rest != "" {
      if Cuts(s, rest[0]) {
        if q != piece {
          UncutPieces(rest[1..], s, "", q);
        }
      } else {
        UncutSnoc(START, piece, rest[0]);
        UncutPieces(rest[1..], Next(s, rest[0]), piece + [rest[0]], q);
      }
    }
  }

  lemma {:induction false} UncutSnoc(s: Scan, p: string, c: char)
    ensures ScanAll(s, p + [c]) == Next(ScanAll(s, p), c)
    ensures Uncut(s, p) && !Cuts(ScanAll(s, p), c) ==> Uncut(s, p + [c])
    decreases |p|
  {
    if p == "" {
      assert p + [c] == [c] && [c][1..] == "";
    } else {
      assert (p + [c])[0] == p[0] && (p + [c])[1..] == p[1..] + [c];
      UncutSnoc(Next(s, p[0]), p[1..], c);
    }
  }

  /** No piece has a cut left in it: splitting any piece again changes nothing. */
  lemma PiecesAreFinal(spec: string, q: string)
    requires q in Pieces(spec)
    ensures Pieces(q) == [q]
  {
    UncutPieces(spec, START, "", q);
    SplitPiece(q, "", START, "");
    assert q + "" == q && "" + q == q;
  }

  /** One unmatched `]` at top level switches splitting off for the rest of the spec, unless a `[` follows. */
  lemma {:induction false} StrayBracketDisablesSplit(rest: string, depth: int, piece: string)
    requires depth < 0 && '[' !in rest
    ensures Split(rest, Scan(depth, false), piece) == [piece + rest]
    decreases |rest|
  {
    if rest == "" {
      assert piece + rest == piece;
    } else {
      assert piece + [rest[0]] + rest[1..] == piece + rest;
      StrayBracketDisablesSplit(rest[1..], Next(Scan(depth, false), rest[0]).depth, piece + [rest[0]]);
    }
  }

  // ---- Which commas cut ----

  /** Splitting resumes after `a` with the state and the unfinished piece that `a` leaves. */
  lemma {:induction false} SplitResumes(a: string, rest: string, s: Scan, piece: string)
    ensures var p := Split(a, s, piece);
            Split(a + rest, s, piece) == p[..|p| - 1] + Split(rest, ScanAll(s, a), p[|p| - 1])
    decreases |a|
  {
    if a == "" {
      assert a + rest == rest;
    } else {
      assert (a + rest)[0] == a[0] && (a + rest)[1..] == a[1..] + rest;
      if Cuts(s, a[0]) {
        var q := Split(a[1..], s, "");
        var tail := Split(rest, ScanAll(s, a), q[|q| - 1]);
        SplitResumes(a[1..], rest, s, "");
        assert ([piece] + q)[..|q|] == [piece] + q[..|q| - 1];
        Assoc([piece], q[..|q| - 1], tail);
      } else {
        SplitResumes(a[1..], rest, Next(s, a[0]), piece + [a[0]]);
      }
    }
  }

  lemma {:induction false} FirstPieceContinues(rest: string, s: Scan, piece: string)
    ensures piece <= Split(rest, s, piece)[0]
    decreases |rest|
  {
    if rest != "" && !Cuts(s, rest[0]) {
      FirstPieceContinues(rest[1..], Next(s, rest[0]), piece + [rest[0]]);
    }
  }

  /**
   * A comma separates what stands before it from what stands after it exactly when the text before
   * it closes all its brackets and quotes, no more and no less.
   */
  lemma CutExact(a: string, b: string)
    ensures Pieces(a + ("," + b)) == Pieces(a) + Pieces(b) <==> ScanAll(START, a) == START
  {
    var p, rest := Pieces(a), "," + b;
    var init, last := p[..|p| - 1], p[|p| - 1];
    assert p == init + [last];
    SplitResumes(a, rest, START, "");
    assert rest[0] == ',' && rest[1..] == b;
    var s := ScanAll(START, a);
    if s == START {
      assert Split(rest, s, last) == [last] + Pieces(b);
      Assoc(init, [last], Pieces(b));
    } else {
      var q := Split(b, s, last + ",");
      assert Split(rest, s, last) == q;
      FirstPieceContinues(b, s, last + ",");
      assert (init + q)[|init|] == q[0];
      assert (p + Pieces(b))[|init|] == last;
      assert |q[0]| > |last|;
    }
  }

  // ---- Balanced text ----

  /** Text inside a clause: plain characters, quoted text, and clauses again. */
  datatype Part = Chars(text: string) | Quotes(text: string) | Brackets(inner: seq<Part>) {
    predicate Valid() {
      match this
      case Chars(t) => '[' !in t && ']' !in t && '"' !in t
      case Quotes(t) => '"' !in t
      case Brackets(inner) => forall p :: p in inner ==> p.Valid()
    }

    function Text(): string {
      match this
      case Chars(t) => t
      case Quotes(t) => "\"" + (t + "\"")
      case Brackets(inner) => "[" + (Texts(inner) + "]")
    }

    /** How many clauses lie in each other. */
    function Height(): nat {
      match this
      case Chars(_) => 0
      case Quotes(_) => 0
      case Brackets(inner) => 1 + HeightOf(inner)
    }
  }

  function Texts(ps: seq<Part>): string {
    if ps == [] then "" else ps[0].Text() + Texts(ps[1..])
  }

  function HeightOf(ps: seq<Part>): nat {
    if ps == [] then 0 else
      var rest := HeightOf(ps[1..]);
      if ps[0].Height() > rest then ps[0].Height() else rest
  }

  lemma {:induction false} ScanConcat(s: Scan, a: string, b: string)
    ensures ScanAll(s, a + b) == ScanAll(ScanAll(s, a), b)
    decreases |a|
  {
    if a == "" {
      assert a + b == b;
    } else {
      assert (a + b)[0] == a[0] && (a + b)[1..] == a[1..] + b;
      ScanConcat(Next(s, a[0]), a[1..], b);
    }
  }

  lemma ScanOne(s: Scan, c: char)
    ensures ScanAll(s, [c]) == Next(s, c)
  {
    assert [c][1..] == "";
  }

  /** Outside brackets only brackets count: quotes and everything else leave the state alone. */
  lemma {:induction false} OutsideText(a: string)
    requires '[' !in a && ']' !in a
    ensures ScanAll(START, a) == START
    decreases |a|
  {
    if a != "" {
      assert a[0] in a;
      OutsideText(a[1..]);
    }
  }

  /** The depth stays a 32-bit number: it saturates below and wraps above. */
  lemma {:induction false} DepthBounded(s: Scan, a: string)
    requires -0x8000_0000 <= s.depth < 0x8000_0000
    ensures -0x8000_0000 <= ScanAll(s, a).depth < 0x8000_0000
    decreases |a|
  {
    if a != "" {
      DepthBounded(Next(s, a[0]), a[1..]);
    }
  }

  /** In a clause, outside quotes. */
  lemma {:induction false} InsideText(depth: int, a: string)
    requires depth > 0 && '[' !in a && ']' !in a && '"' !in a
    ensures ScanAll(Scan(depth, false), a) == Scan(depth, false)
    decreases |a|
  {
    if a != "" {
      assert a[0] in a;
      InsideText(depth, a[1..]);
    }
  }

  /** In a clause, inside quotes: brackets do not count. */
  lemma {:induction false} QuotedText(depth: int, a: string)
    requires depth > 0 && '"' !in a
    ensures ScanAll(Scan(depth, true), a) == Scan(depth, true)
    decreases |a|
  {
    if a != "" {
      assert a[0] in a;
      QuotedText(depth, a[1..]);
    }
  }

  /** A first character, a middle and a last character. */
  lemma ScanFramed(s: Scan, a: char, text: string, b: char)
    ensures ScanAll(s, [a] + (text + [b])) == Next(ScanAll(Next(s, a), text), b)
  {
    hide Next;
    ScanConcat(s, [a], text + [b]);
    ScanOne(s, a);
    ScanConcat(Next(s, a), text, [b]);
    ScanOne(ScanAll(Next(s, a), text), b);
  }

  lemma {:induction false} PartScan(depth: int, p: Part)
    requires depth > 0 && p.Valid() && depth + p.Height() <= I32_MAX
    ensures ScanAll(Scan(depth, false), p.Text()) == Scan(depth, false)
    decreases p, 0
  {
    hide ScanAll;
    match p {
      case Chars(t) => InsideText(depth, t);
      case Quotes(t) =>
        QuotedText(depth, t);
        ScanFramed(Scan(depth, false), '"', t, '"');
      case Brackets(inner) =>
        PartsScan(depth + 1, inner);
        ScanFramed(Scan(depth, false), '[', Texts(inner), ']');
    }
  }

  lemma {:induction false} PartsScan(depth: int, ps: seq<Part>)
    requires depth > 0 && (forall p :: p in ps ==> p.Valid()) && depth + HeightOf(ps) <= I32_MAX
    ensures ScanAll(Scan(depth, false), Texts(ps)) == Scan(depth, false)
    decreases ps, 1
  {
    if ps != [] {
      PartScan(depth, ps[0]);
      PartsScan(depth, ps[1..]);
      ScanConcat(Scan(depth, false), ps[0].Text(), Texts(ps[1..]));
    }
  }

  /** Text outside brackets with a closed clause behind it. */
  lemma ClosedClause(a: string, ps: seq<Part>)
    requires ScanAll(START, a) == START && (forall p :: p in ps ==> p.Valid()) && 1 + HeightOf(ps) <= I32_MAX
    ensures ScanAll(START, a + ("[" + (Texts(ps) + "]"))) == START
  {
    hide ScanAll;
    ScanConcat(START, a, "[" + (Texts(ps) + "]"));
    ScanFramed(START, '[', Texts(ps), ']');
    PartsScan(1, ps);
  }

  /** Balanced text: text without brackets, then closed clauses, each with such text behind it. */
  predicate Balanced(clauses: seq<(seq<Part>, string)>) {
    forall k :: 0 <= k < |clauses| ==>
      && (forall p :: p in clauses[k].0 ==> p.Valid()) && HeightOf(clauses[k].0) < I32_MAX
      && '[' !in clauses[k].1 && ']' !in clauses[k].1
  }

  function BalancedText(first: string, clauses: seq<(seq<Part>, string)>): string {
    if clauses == [] then first
    else BalancedText(first, clauses[..|clauses| - 1]) + ("[" + (Texts(clauses[|clauses| - 1].0) + "]")) + clauses[|clauses| - 1].1
  }

  lemma {:induction false} BalancedScan(first: string, clauses: seq<(seq<Part>, string)>)
    requires '[' !in first && ']' !in first && Balanced(clauses)
    ensures ScanAll(START, BalancedText(first, clauses)) == START
    decreases |clauses|
  {
    hide ScanAll;
    if clauses == [] {
      OutsideText(first);
    } else {
      var (ps, text) := clauses[|clauses| - 1];
      var before := BalancedText(first, clauses[..|clauses| - 1]);
      BalancedScan(first, clauses[..|clauses| - 1]);
      ClosedClause(before, ps);
      ScanConcat(START, before + ("[" + (Texts(ps) + "]")), text);
      OutsideText(text);
    }
  }

  /** A comma behind balanced text separates, whatever follows it. */
  lemma CommaOutside(first: string, clauses: seq<(seq<Part>, string)>, b: string)
    requires '[' !in first && ']' !in first && Balanced(clauses)
    ensures var a := BalancedText(first, clauses); Pieces(a + ("," + b)) == Pieces(a) + Pieces(b)
  {
    hide ScanAll, Pieces;
    BalancedScan(first, clauses);
    CutExact(BalancedText(first, clauses), b);
  }

  /** A comma in a clause does not, be it between quotes or not, and whether the clause is ever closed or not. */
  lemma CommaInside(first: string, clauses: seq<(seq<Part>, string)>, ps: seq<Part>, quoted: string, b: string)
    requires '[' !in first && ']' !in first && Balanced(clauses)
    requires (forall p :: p in ps ==> p.Valid()) && HeightOf(ps) < I32_MAX && '"' !in quoted
    ensures var a := BalancedText(first, clauses) + ("[" + Texts(ps)); Pieces(a + ("," + b)) != Pieces(a) + Pieces(b)
    ensures var a := BalancedText(first, clauses) + ("[" + Texts(ps)) + ("\"" + quoted);
            Pieces(a + ("," + b)) != Pieces(a) + Pieces(b)
  {
    hide ScanAll, Pieces;
    var before := BalancedText(first, clauses);
    BalancedScan(first, clauses);
    ScanConcat(START, before, "[" + Texts(ps));
    ScanConcat(START, "[", Texts(ps));
    ScanOne(START, '[');
    PartsScan(1, ps);
    CutExact(before + ("[" + Texts(ps)), b);
    ScanConcat(START, before + ("[" + Texts(ps)), "\"" + quoted);
    ScanConcat(Scan(1, false), "\"", quoted);
    ScanOne(Scan(1, false), '"');
    QuotedText(1, quoted);
    CutExact(before + ("[" + Texts(ps)) + ("\"" + quoted), b);
  }

  lemma StrayPrefix()
    ensures Uncut(START, "a]") && ScanAll(START, "a]") == Scan(-1, false)
  {
    assert "a]"[1..] == "]" && "]"[1..] == "";
  }

  lemma ClausePrefix()
    ensures Uncut(Scan(-1, false), ",b[k") && ScanAll(Scan(-1, false), ",b[k") == START
  {
    assert ",b[k"[1..] == "b[k" && "b[k"[1..] == "[k" && "[k"[1..] == "k" && "k"[1..] == "";
  }

  lemma ClauseRest(piece: string)
    ensures Split(",j]", START, piece) == [piece, "j]"]
  {
    StrayTail();
    assert ",j]"[1..] == "j]";
  }

  lemma StrayTail()
    ensures Split("j]", START, "") == ["j]"]
  {
    assert "j]"[1..] == "]" && "]"[1..] == "" && "" + "j" == "j" && "j" + "]" == "j]";
  }

  /** After a stray `]` a comma outside brackets no longer cuts, and one inside a later clause does. */
  lemma StrayBracketExample()
    ensures Pieces("a],b") == ["a],b"]
    ensures Pieces("a],b[k,j]") == ["a],b[k", "j]"]
  {
    hide Split, ScanAll, Uncut;
    StrayPrefix();
    SplitPiece("a]", ",b", START, "");
    StrayBracketDisablesSplit(",b", -1, "a]");
    assert "a]" + ",b" == "a],b" && "" + "a]" == "a]";
    SplitPiece("a]", ",b[k,j]", START, "");
    assert "a]" + ",b[k,j]" == "a],b[k,j]" && ",b[k" + ",j]" == ",b[k,j]" && "a]" + ",b[k" == "a],b[k";
    ClausePrefix();
    SplitPiece(",b[k", ",j]", Scan(-1, false), "a]");
    ClauseRest("a],b[k");
  }
}
