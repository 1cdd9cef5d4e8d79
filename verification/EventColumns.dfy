/**
 * The sparse per-event struct columns of the Parquet writer
 * (crates/obs-parquet/src/event_columns.rs, writer.rs).
 */
module EventColumns {
  import opened Bytes
  import opened Unicode

  datatype Leaf = Utf8 | DictUtf8 | Int64 | UInt64 | Float64 | Bool | Binary | TimestampNs
  datatype Field = Field(name: string, leaf: Leaf)

  /** What a decoder passes to the typed `append_*` calls; text is given by its UTF-8 bytes. */
  datatype Value = Str(utf8: seq<byte>) | I64(i: int) | U64(u: nat) | F64(f: real) | Flag(b: bool) | Raw(raw: seq<byte>) | FieldNull

  /** One call of a decoder: a typed append to a named field, or a null across the whole struct. */
  datatype Write = Put(name: string, value: Value) | WholeNull

  datatype Cell = Null | Octets(bytes: seq<byte>) | Whole(n: int) | Fraction(x: real) | Truth(t: bool)

  // ---- Leaf conversions ----

  const I64_MAX := 0x7FFF_FFFF_FFFF_FFFF
  const U64_SPAN := 0x1_0000_0000_0000_0000

  function AsI64(n: int): int {
    var u := n % U64_SPAN;
    if u <= I64_MAX then u else u - U64_SPAN
  }

  /** A float cast to an integer type truncates toward zero and saturates. */
  function Saturated(x: real, low: int, high: int): int {
    var t := if x >= 0.0 then x.Floor else -(-x).Floor;
    if t < low then low else if t > high then high else t
  }

  function Converted(leaf: Leaf, v: Value): Cell {
    match v
    case Str(s) => if leaf in {Utf8, DictUtf8, Binary} then Octets(s) else Null
    case I64(i) =>
      if leaf in {Int64, TimestampNs} then Whole(i) else if leaf == UInt64 then Whole(i % U64_SPAN)
      else if leaf == Float64 then Fraction(i as real) else Null
    case U64(u) =>
      if leaf in {Int64, TimestampNs} then Whole(AsI64(u)) else if leaf == UInt64 then Whole(u)
      else if leaf == Float64 then Fraction(u as real) else Null
    case F64(x) =>
      if leaf == Float64 then Fraction(x) else if leaf == Int64 then Whole(Saturated(x, -I64_MAX - 1, I64_MAX))
      else if leaf == UInt64 then Whole(Saturated(x, 0, U64_SPAN - 1)) else Null
    case Flag(b) => if leaf == Bool then Truth(b) else Null
    case Raw(s) => if leaf == Binary || (leaf in {Utf8, DictUtf8} && IsUtf8(s)) then Octets(s) else Null
    case FieldNull => Null
  }

  /** `n` is `x` truncated toward zero. */
  predicate Truncates(x: real, n: int) {
    if x >= 0.0 then n as real <= x < (n + 1) as real else (n - 1) as real < x <= n as real
  }

  /** `n` is `x` truncated toward zero, or the nearer bound if that lies outside. */
  ghost predicate TruncatesWithin(x: real, low: int, high: int, n: int) {
    exists t :: Truncates(x, t) && n == if t < low then low else if t > high then high else t
  }

  /** `n` has the 64 bits of `m`. */
  predicate SameBits(m: int, n: int) {
    (m - n) % U64_SPAN == 0
  }

  /** What a value means in a column of a leaf type; any other combination is null. */
  ghost predicate Means(leaf: Leaf, v: Value, c: Cell) {
    match leaf
    case Utf8 => if v.Str? then c == Octets(v.utf8) else if v.Raw? && IsUtf8(v.raw) then c == Octets(v.raw) else c == Null
    case DictUtf8 => if v.Str? then c == Octets(v.utf8) else if v.Raw? && IsUtf8(v.raw) then c == Octets(v.raw) else c == Null
    case Binary => if v.Str? then c == Octets(v.utf8) else if v.Raw? then c == Octets(v.raw) else c == Null
    case Bool => if v.Flag? then c == Truth(v.b) else c == Null
    case Int64 =>
      if v.I64? then c == Whole(v.i)
      else if v.U64? then c.Whole? && -0x8000_0000_0000_0000 <= c.n < 0x8000_0000_0000_0000 && SameBits(v.u, c.n)
      else if v.F64? then c.Whole? && TruncatesWithin(v.f, -0x8000_0000_0000_0000, 0x7FFF_FFFF_FFFF_FFFF, c.n)
      else c == Null
    case TimestampNs =>
      if v.I64? then c == Whole(v.i)
      else if v.U64? then c.Whole? && -0x8000_0000_0000_0000 <= c.n < 0x8000_0000_0000_0000 && SameBits(v.u, c.n)
      else c == Null
    case UInt64 =>
      if v.U64? then c == Whole(v.u)
      else if v.I64? then c.Whole? && 0 <= c.n < 0x1_0000_0000_0000_0000 && SameBits(v.i, c.n)
      else if v.F64? then c.Whole? && TruncatesWithin(v.f, 0, 0xFFFF_FFFF_FFFF_FFFF, c.n)
      else c == Null
    case Float64 =>
      if v.F64? then c == Fraction(v.f)
      else if v.I64? then c == Fraction(v.i as real)
      else if v.U64? then c == Fraction(v.u as real)
      else c == Null
  }

  lemma TruncatedIs(x: real, low: int, high: int)
    ensures TruncatesWithin(x, low, high, Saturated(x, low, high))
    ensures forall t, u :: Truncates(x, t) && Truncates(x, u) ==> t == u
  {
    var t := if x >= 0.0 then x.Floor else -(-x).Floor;
    assert Truncates(x, t);
  }

  lemma SameBitsOnce(m: int, a: int, b: int)
    requires SameBits(m, a) && SameBits(m, b) && -U64_SPAN < a - b < U64_SPAN
    ensures a == b
  {
    var p, q := (m - a) / U64_SPAN, (m - b) / U64_SPAN;
    assert m - a == U64_SPAN * p && m - b == U64_SPAN * q;
  }

  lemma BitsKept(m: int)
    ensures SameBits(m, m % U64_SPAN) && SameBits(m, AsI64(m))
    ensures -0x8000_0000_0000_0000 <= AsI64(m) < 0x8000_0000_0000_0000
  {
    var q, r := m / U64_SPAN, m % U64_SPAN;
    assert m == U64_SPAN * q + r;
    assert m - r == U64_SPAN * q;
    assert m - (r - U64_SPAN) == U64_SPAN * (q + 1);
  }

  /** A cell is what its value means in its column, and that is only one cell. */
  lemma ConvertedExact(leaf: Leaf, v: Value, c: Cell)
    ensures c == Converted(leaf, v) <==> Means(leaf, v, c)
  {
    hide IsUtf8, Truncates, Saturated, SameBits, AsI64;
    match v
    case I64(i) =>
      BitsKept(i);
      if c.Whole? && SameBits(i, c.n) && 0 <= c.n < U64_SPAN { SameBitsOnce(i, c.n, i % U64_SPAN); }
    case U64(u) =>
      BitsKept(u);
      if c.Whole? && SameBits(u, c.n) && -0x8000_0000_0000_0000 <= c.n < 0x8000_0000_0000_0000 { SameBitsOnce(u, c.n, AsI64(u)); }
    case F64(x) =>
      TruncatedIs(x, -I64_MAX - 1, I64_MAX);
      TruncatedIs(x, 0, U64_SPAN - 1);
    case _ =>
  }

  // ---- One column, as a value ----

  /** Child builders, parent validity, and which children the row in progress has written. */
  datatype Column = Column(children: seq<seq<Cell>>, validity: seq<bool>, seen: seq<bool>)

  ghost predicate Shaped(fields: seq<Field>, c: Column) {
    |c.children| == |fields| == |c.seen|
  }

  /** The child a name writes to: when a name is declared twice, the later declaration. */
  function Target(fields: seq<Field>, name: string): (r: Option<nat>)
    ensures r.Some? ==> r.value < |fields| && fields[r.value].name == name
  {
    if fields == [] then None
    else if fields[|fields| - 1].name == name then Some(|fields| - 1)
    else Target(fields[..|fields| - 1], name)
  }

  ghost predicate AtRowStart(c: Column) {
    forall i :: 0 <= i < |c.seen| ==> !c.seen[i]
  }

  function Empty(fields: seq<Field>): Column {
    Column(seq(|fields|, i => []), [], seq(|fields|, i => false))
  }

  /** A null to every child, an invalid parent, a new row. */
  function Unmatched(c: Column): Column {
    Column(seq(|c.children|, i requires 0 <= i < |c.children| => c.children[i] + [Null]),
           c.validity + [false], seq(|c.seen|, i => false))
  }

  /** A null to every child the row has not written, a valid parent, a new row. */
  function FinishRow(c: Column): Column
    requires |c.seen| == |c.children|
  {
    Column(seq(|c.children|, i requires 0 <= i < |c.children| => if c.seen[i] then c.children[i] else c.children[i] + [Null]),
           c.validity + [true], seq(|c.seen|, i => false))
  }

  function Apply(fields: seq<Field>, c: Column, w: Write): (r: Column)
    requires Shaped(fields, c)
    ensures Shaped(fields, r)
  {
    match w
    case WholeNull => Unmatched(c)
    case Put(name, v) =>
      match Target(fields, name)
      case None => c
      case Some(i) => Column(c.children[i := c.children[i] + [Converted(fields[i].leaf, v)]], c.validity, c.seen[i := true])
  }

  function ApplyAll(fields: seq<Field>, c: Column, ws: seq<Write>): (r: Column)
    requires Shaped(fields, c)
    ensures Shaped(fields, r)
  {
    if ws == [] then c else Apply(fields, ApplyAll(fields, c, ws[..|ws| - 1]), ws[|ws| - 1])
  }

  /** What one envelope means to one column: not its event, or its event with the decoder's calls and verdict. */
  datatype Row = Skip | Decode(writes: seq<Write>, ok: bool)

  function ApplyRow(fields: seq<Field>, c: Column, row: Row): (r: Column)
    requires Shaped(fields, c)
    ensures Shaped(fields, r) && AtRowStart(r)
  {
    match row
    case Skip => Unmatched(c)
    case Decode(ws, ok) =>
      var written := ApplyAll(fields, c, ws);
      if ok then FinishRow(written) else Unmatched(written)
  }

  function Run(fields: seq<Field>, rows: seq<Row>): (r: Column)
    ensures Shaped(fields, r) && AtRowStart(r)
  {
    if rows == [] then Empty(fields) else ApplyRow(fields, Run(fields, rows[..|rows| - 1]), rows[|rows| - 1])
  }

  // ---- The column in place ----

  /** The struct array, or the length mismatch that building it reports. */
  datatype Finished = Array(cells: seq<seq<Cell>>, parent: seq<bool>) | Ragged

  ghost predicate SameLengths(c: Column) {
    forall i :: 0 <= i < |c.children| ==> |c.children[i]| == |c.validity|
  }

  class EventColumn {
    const fields: seq<Field>
    var fieldIndex: map<string, nat>
    var children: seq<seq<Cell>>
    var validity: seq<bool>
    var rowSeen: seq<bool>

    ghost function View(): Column reads this {
      Column(children, validity, rowSeen)
    }

    ghost predicate Valid() reads this {
      && Shaped(fields, View())
      && forall name :: Target(fields, name) == if name in fieldIndex then Some(fieldIndex[name]) else None
    }

    constructor (fields: seq<Field>)
      ensures this.fields == fields && Valid() && View() == Empty(fields)
    {
      this.fields := fields;
      var index: map<string, nat> := map[];
      for i := 0 to |fields|
        invariant forall name :: Target(fields[..i], name) == if name in index then Some(index[name]) else None
      {
        assert fields[..i + 1][..i] == fields[..i];
        index := index[fields[i].name := i];
      }
      assert fields[..|fields|] == fields;
      fieldIndex, validity := index, [];
      children, rowSeen := seq(|fields|, i => []), seq(|fields|, i => false);
    }

    method AppendUnmatched()
      requires Valid()
      modifies this`children, this`validity, this`rowSeen
      ensures Valid() && View() == Unmatched(old(View()))
    {
      for i := 0 to |children|
        invariant Valid() && |children| == |old(children)| && validity == old(validity) && rowSeen == old(rowSeen)
        invariant forall k :: 0 <= k < |children| ==> children[k] == if k < i then old(children)[k] + [Null] else old(children)[k]
      {
        children := children[i := children[i] + [Null]];
      }
      validity := validity + [false];
      rowSeen := seq(|rowSeen|, i => false);
    }

    method FinishMatchedRow()
      requires Valid()
      modifies this`children, this`validity, this`rowSeen
      ensures Valid() && View() == FinishRow(old(View()))
    {
      for i := 0 to |rowSeen|
        invariant Valid() && |children| == |old(children)| && validity == old(validity) && rowSeen == old(rowSeen)
        invariant forall k :: 0 <= k < |children| ==>
          children[k] == if k < i && !rowSeen[k] then old(children)[k] + [Null] else old(children)[k]
      {
        if !rowSeen[i] { children := children[i := children[i] + [Null]]; }
      }
      validity := validity + [true];
      rowSeen := seq(|rowSeen|, i => false);
    }

    /** The typed `append_*` calls; a name that is not a field is ignored. */
    method Append(w: Write)
      requires Valid()
      modifies this`children, this`validity, this`rowSeen
      ensures Valid() && View() == Apply(fields, old(View()), w)
    {
      match w
      case WholeNull => AppendUnmatched();
      case Put(name, v) =>
        if name in fieldIndex {
          var i := fieldIndex[name];
          assert Target(fields, name) == Some(i);
          children := children[i := children[i] + [Converted(fields[i].leaf, v)]];
          rowSeen := rowSeen[i := true];
        }
    }

    method DecodeInto(ws: seq<Write>)
      requires Valid()
      modifies this`children, this`validity, this`rowSeen
      ensures Valid() && View() == ApplyAll(fields, old(View()), ws)
    {
      for n := 0 to |ws|
        invariant Valid() && View() == ApplyAll(fields, old(View()), ws[..n])
      {
        assert ws[..n + 1][..n] == ws[..n];
        Append(ws[n]);
      }
      assert ws[..|ws|] == ws;
    }

    /** Empties the builders and builds the array, which succeeds exactly when all lengths agree. */
    method Finish() returns (r: Finished)
      requires Valid()
      modifies this`children, this`validity
      ensures Valid() && children == seq(|fields|, i => []) && validity == []
      ensures r == if old(SameLengths(View())) then Array(old(children), old(validity)) else Ragged
    {
      var even := true;
      for i := 0 to |children|
        invariant even == forall k :: 0 <= k < i ==> |children[k]| == |validity|
      {
        even := even && |children[i]| == |validity|;
      }
      r := if even then Array(children, validity) else Ragged;
      children, validity := seq(|fields|, i => []), [];
    }
  }

  // ---- Alignment ----

  function Hits(fields: seq<Field>, ws: seq<Write>, i: nat): nat {
    if ws == [] then 0
    else
      var last := ws[|ws| - 1];
      Hits(fields, ws[..|ws| - 1], i) + if last.Put? && Target(fields, last.name) == Some(i) then 1 else 0
  }

  function WholeNulls(ws: seq<Write>): nat {
    if ws == [] then 0 else WholeNulls(ws[..|ws| - 1]) + if ws[|ws| - 1].WholeNull? then 1 else 0
  }

  /** Whether field `i` is written after the last null of the whole struct. */
  predicate WrittenSinceNull(fields: seq<Field>, ws: seq<Write>, i: nat) {
    if ws == [] then false
    else
      match ws[|ws| - 1]
      case WholeNull => false
      case Put(name, _) => Target(fields, name) == Some(i) || WrittenSinceNull(fields, ws[..|ws| - 1], i)
  }

  ghost predicate CleanAt(fields: seq<Field>, row: Row, i: nat) {
    row.Decode? ==> WholeNulls(row.writes) == 0 && Hits(fields, row.writes, i) <= if row.ok then 1 else 0
  }

  /** A successful decode writes each field at most once, a failing one writes none, and neither nulls the struct. */
  ghost predicate Clean(fields: seq<Field>, row: Row) {
    && (row.Decode? ==> WholeNulls(row.writes) == 0)
    && forall i :: 0 <= i < |fields| ==> CleanAt(fields, row, i)
  }

  ghost predicate OneEntryPerRow(c: Column, rows: nat) {
    |c.validity| == rows && forall i :: 0 <= i < |c.children| ==> |c.children[i]| == rows
  }

  lemma {:induction false} WritesCounted(fields: seq<Field>, c: Column, ws: seq<Write>, i: nat)
    requires Shaped(fields, c) && AtRowStart(c) && i < |fields|
    ensures var r := ApplyAll(fields, c, ws);
            && |r.children[i]| == |c.children[i]| + Hits(fields, ws, i) + WholeNulls(ws)
            && |r.validity| == |c.validity| + WholeNulls(ws)
            && r.seen[i] == WrittenSinceNull(fields, ws, i)
            && (r.seen[i] ==> Hits(fields, ws, i) > 0)
            && (WholeNulls(ws) == 0 && Hits(fields, ws, i) > 0 ==> r.seen[i])
    decreases |ws|
  {
    hide Target, Converted;
    if ws != [] {
      WritesCounted(fields, c, ws[..|ws| - 1], i);
    }
  }

  lemma {:induction false} ValidityCounted(fields: seq<Field>, c: Column, ws: seq<Write>)
    requires Shaped(fields, c)
    ensures |ApplyAll(fields, c, ws).validity| == |c.validity| + WholeNulls(ws)
    decreases |ws|
  {
    hide Target, Converted;
    if ws != [] {
      ValidityCounted(fields, c, ws[..|ws| - 1]);
    }
  }

  /** A row adds at least one entry to a child, and one exactly when it treats that child cleanly. */
  lemma RowGain(fields: seq<Field>, c: Column, row: Row, i: nat)
    requires Shaped(fields, c) && AtRowStart(c) && i < |fields|
    ensures var gain := |ApplyRow(fields, c, row).children[i]| - |c.children[i]|;
            gain >= 1 && (gain == 1 <==> CleanAt(fields, row, i))
  {
    hide ApplyAll, Hits, WholeNulls, WrittenSinceNull;
    if row.Decode? {
      WritesCounted(fields, c, row.writes, i);
    }
  }

  lemma ValidityGain(fields: seq<Field>, c: Column, row: Row)
    requires Shaped(fields, c)
    ensures |ApplyRow(fields, c, row).validity| == |c.validity| + 1 + if row.Decode? then WholeNulls(row.writes) else 0
  {
    hide ApplyAll, WholeNulls;
    if row.Decode? {
      ValidityCounted(fields, c, row.writes);
    }
  }

  lemma {:induction false} ValidityExcess(fields: seq<Field>, rows: seq<Row>)
    ensures var n := |Run(fields, rows).validity|;
            && n >= |rows|
            && (n == |rows| <==> forall r :: 0 <= r < |rows| && rows[r].Decode? ==> WholeNulls(rows[r].writes) == 0)
    decreases |rows|
  {
    hide ApplyRow, WholeNulls;
    if rows != [] {
      var init := rows[..|rows| - 1];
      ValidityExcess(fields, init);
      ValidityGain(fields, Run(fields, init), rows[|rows| - 1]);
      assert forall r :: 0 <= r < |init| ==> rows[r] == init[r];
    }
  }

  lemma {:induction false} ChildExcess(fields: seq<Field>, rows: seq<Row>, i: nat)
    requires i < |fields|
    ensures var n := |Run(fields, rows).children[i]|;
            n >= |rows| && (n == |rows| <==> forall r :: 0 <= r < |rows| ==> CleanAt(fields, rows[r], i))
    decreases |rows|
  {
    hide ApplyRow, CleanAt;
    if rows != [] {
      var init := rows[..|rows| - 1];
      ChildExcess(fields, init, i);
      RowGain(fields, Run(fields, init), rows[|rows| - 1], i);
      assert forall r :: 0 <= r < |init| ==> rows[r] == init[r];
    }
  }

  /**
   * Row alignment. Every child and the validity have one entry per row exactly when every row was
   * clean: surplus entries are never made up for by a later row.
   */
  lemma RowAlignment(fields: seq<Field>, rows: seq<Row>)
    ensures OneEntryPerRow(Run(fields, rows), |rows|) <==> forall r :: 0 <= r < |rows| ==> Clean(fields, rows[r])
  {
    hide Run, CleanAt, WholeNulls;
    ValidityExcess(fields, rows);
    var c := Run(fields, rows);
    if forall r :: 0 <= r < |rows| ==> Clean(fields, rows[r]) {
      forall i | 0 <= i < |fields| ensures |c.children[i]| == |rows| {
        ChildExcess(fields, rows, i);
      }
    }
    if OneEntryPerRow(c, |rows|) {
      forall i, r | 0 <= i < |fields| && 0 <= r < |rows| ensures CleanAt(fields, rows[r], i) {
        ChildExcess(fields, rows, i);
        assert |c.children[i]| == |rows|;
      }
    }
  }

  /** A row leaves child `i` as far ahead of the validity as it was. */
  ghost predicate EvenAt(fields: seq<Field>, row: Row, i: nat) {
    row.Decode? ==> Hits(fields, row.writes, i) == if row.ok && WrittenSinceNull(fields, row.writes, i) then 1 else 0
  }

  lemma RowDrift(fields: seq<Field>, c: Column, row: Row, i: nat)
    requires Shaped(fields, c) && AtRowStart(c) && i < |fields|
    ensures var r := ApplyRow(fields, c, row);
            var drift := (|r.children[i]| - |r.validity|) - (|c.children[i]| - |c.validity|);
            drift >= 0 && (drift == 0 <==> EvenAt(fields, row, i))
  {
    hide ApplyAll, Hits, WholeNulls, WrittenSinceNull;
    if row.Decode? {
      WritesCounted(fields, c, row.writes, i);
    }
  }

  lemma {:induction false} ChildDrift(fields: seq<Field>, rows: seq<Row>, i: nat)
    requires i < |fields|
    ensures var c := Run(fields, rows);
            && |c.children[i]| >= |c.validity|
            && (|c.children[i]| == |c.validity| <==> forall r :: 0 <= r < |rows| ==> EvenAt(fields, rows[r], i))
    decreases |rows|
  {
    hide ApplyRow, EvenAt;
    if rows != [] {
      var init := rows[..|rows| - 1];
      ChildDrift(fields, init, i);
      RowDrift(fields, Run(fields, init), rows[|rows| - 1], i);
      assert forall r :: 0 <= r < |init| ==> rows[r] == init[r];
    }
  }

  /**
   * Building the array succeeds exactly when every failing decode wrote no field and every successful
   * one wrote each field at most once, after any null of the whole struct.
   */
  lemma FinishSucceedsIff(fields: seq<Field>, rows: seq<Row>)
    ensures SameLengths(Run(fields, rows))
       <==> forall i, r :: 0 <= i < |fields| && 0 <= r < |rows| ==> EvenAt(fields, rows[r], i)
  {
    hide Run, EvenAt;
    var c := Run(fields, rows);
    if forall i, r :: 0 <= i < |fields| && 0 <= r < |rows| ==> EvenAt(fields, rows[r], i) {
      forall i | 0 <= i < |fields| ensures |c.children[i]| == |c.validity| {
        ChildDrift(fields, rows, i);
      }
    }
    if SameLengths(c) {
      forall i, r | 0 <= i < |fields| && 0 <= r < |rows| ensures EvenAt(fields, rows[r], i) {
        ChildDrift(fields, rows, i);
        assert |c.children[i]| == |c.validity|;
      }
    }
  }

  // ---- Contents ----

  /** The value a decoder gave field `i`, converted to its leaf type; null if it gave none. */
  function Written(fields: seq<Field>, ws: seq<Write>, i: nat): Cell
    requires i < |fields|
  {
    if ws == [] then Null
    else
      var last := ws[|ws| - 1];
      if last.Put? && Target(fields, last.name) == Some(i) then Converted(fields[i].leaf, last.value)
      else Written(fields, ws[..|ws| - 1], i)
  }

  predicate Typed(row: Row) {
    row.Decode? && row.ok
  }

  function CellOf(fields: seq<Field>, row: Row, i: nat): Cell
    requires i < |fields|
  {
    if Typed(row) then Written(fields, row.writes, i) else Null
  }

  lemma {:induction false} WrittenOnce(fields: seq<Field>, c: Column, ws: seq<Write>, i: nat)
    requires Shaped(fields, c) && AtRowStart(c) && i < |fields|
    requires WholeNulls(ws) == 0 && Hits(fields, ws, i) <= 1
    ensures var r := ApplyAll(fields, c, ws);
            && r.validity == c.validity
            && r.seen[i] == (Hits(fields, ws, i) == 1)
            && r.children[i] == c.children[i] + (if r.seen[i] then [Written(fields, ws, i)] else [])
            && (!r.seen[i] ==> Written(fields, ws, i) == Null)
    decreases |ws|
  {
    hide Target, Converted;
    if ws != [] {
      WrittenOnce(fields, c, ws[..|ws| - 1], i);
    }
  }

  lemma CleanRow(fields: seq<Field>, c: Column, row: Row, i: nat)
    requires Shaped(fields, c) && AtRowStart(c) && i < |fields| && CleanAt(fields, row, i)
    ensures ApplyRow(fields, c, row).children[i] == c.children[i] + [CellOf(fields, row, i)]
  {
    hide ApplyAll, Hits, WholeNulls, Written;
    if row.Decode? {
      WrittenOnce(fields, c, row.writes, i);
    }
  }

  lemma CleanValidity(fields: seq<Field>, c: Column, row: Row)
    requires Shaped(fields, c) && Clean(fields, row)
    ensures ApplyRow(fields, c, row).validity == c.validity + [Typed(row)]
  {
    hide ApplyAll, Hits, WholeNulls, WrittenSinceNull;
    if row.Decode? {
      NoWholeNulls(fields, c, row.writes);
    }
  }

  lemma {:induction false} NoWholeNulls(fields: seq<Field>, c: Column, ws: seq<Write>)
    requires Shaped(fields, c) && WholeNulls(ws) == 0
    ensures ApplyAll(fields, c, ws).validity == c.validity
    decreases |ws|
  {
    hide Target, Converted;
    if ws != [] {
      NoWholeNulls(fields, c, ws[..|ws| - 1]);
    }
  }

  /** After clean rows every cell is what its own row wrote, and the parent is valid exactly on typed rows. */
  lemma {:induction false} ColumnContents(fields: seq<Field>, rows: seq<Row>)
    requires forall r :: 0 <= r < |rows| ==> Clean(fields, rows[r])
    ensures var c := Run(fields, rows);
            && OneEntryPerRow(c, |rows|)
            && (forall r :: 0 <= r < |rows| ==> c.validity[r] == Typed(rows[r]))
            && forall i, r :: 0 <= i < |fields| && 0 <= r < |rows| ==> c.children[i][r] == CellOf(fields, rows[r], i)
    decreases |rows|
  {
    hide ApplyRow, CellOf, Typed;
    if rows != [] {
      var init, last := rows[..|rows| - 1], rows[|rows| - 1];
      assert forall r :: 0 <= r < |init| ==> rows[r] == init[r];
      ColumnContents(fields, init);
      CleanValidity(fields, Run(fields, init), last);
      forall i | 0 <= i < |fields|
        ensures Run(fields, rows).children[i] == Run(fields, init).children[i] + [CellOf(fields, last, i)]
      {
        CleanRow(fields, Run(fields, init), last, i);
      }
    }
  }

  // ---- All columns ----

  /** One envelope as the writer sees it: the column of its event if any, whether the schema is registered, and its decode. */
  datatype Dispatch = Dispatch(matched: Option<nat>, registered: bool, writes: seq<Write>, ok: bool)

  function RowFor(d: Dispatch, column: nat): Row {
    if d.matched == Some(column) && d.registered then Decode(d.writes, d.ok) else Skip
  }

  function RowsFor(ds: seq<Dispatch>, column: nat): seq<Row> {
    seq(|ds|, r requires 0 <= r < |ds| => RowFor(ds[r], column))
  }

  /** The per-envelope dispatch loop over the event columns. */
  method DispatchRow(cols: seq<EventColumn>, d: Dispatch)
    requires forall a :: 0 <= a < |cols| ==> cols[a].Valid()
    requires forall a, b :: 0 <= a < b < |cols| ==> cols[a] != cols[b]
    modifies cols
    ensures forall a :: 0 <= a < |cols| ==>
      && cols[a].Valid() && Shaped(cols[a].fields, old(cols[a].View()))
      && cols[a].View() == ApplyRow(cols[a].fields, old(cols[a].View()), RowFor(d, a))
  {
    hide ApplyAll, Unmatched, FinishRow;
    for k := 0 to |cols|
      invariant forall a :: 0 <= a < |cols| ==> cols[a].Valid()
      invariant forall a :: 0 <= a < |cols| ==>
        cols[a].View() == if a < k then ApplyRow(cols[a].fields, old(cols[a].View()), RowFor(d, a)) else old(cols[a].View())
    {
      if d.matched == Some(k) {
        if !d.registered {
          cols[k].AppendUnmatched();
        } else {
          cols[k].DecodeInto(d.writes);
          if d.ok { cols[k].FinishMatchedRow(); } else { cols[k].AppendUnmatched(); }
        }
      } else {
        cols[k].AppendUnmatched();
      }
    }
  }

  /** The whole batch: each column ends as its own run over the batch. */
  method BuildColumns(cols: seq<EventColumn>, ds: seq<Dispatch>)
    requires forall a :: 0 <= a < |cols| ==> cols[a].Valid() && cols[a].View() == Empty(cols[a].fields)
    requires forall a, b :: 0 <= a < b < |cols| ==> cols[a] != cols[b]
    modifies cols
    ensures forall a :: 0 <= a < |cols| ==> cols[a].Valid() && cols[a].View() == Run(cols[a].fields, RowsFor(ds, a))
  {
    hide ApplyRow, Run, RowsFor, RowFor;
    assert ds[..0] == [];
    NoRows();
    for n := 0 to |ds|
      invariant forall a :: 0 <= a < |cols| ==> cols[a].Valid() && cols[a].View() == Run(cols[a].fields, RowsFor(ds[..n], a))
    {
      DispatchRow(cols, ds[n]);
      forall a | 0 <= a < |cols|
        ensures cols[a].View() == Run(cols[a].fields, RowsFor(ds[..n + 1], a))
      {
        RowsForSnoc(cols[a].fields, ds, n, a);
      }
    }
    assert ds[..|ds|] == ds;
  }

  lemma NoRows()
    ensures forall fields, a :: Run(fields, RowsFor([], a)) == Empty(fields)
  {}

  lemma RowsForSnoc(fields: seq<Field>, ds: seq<Dispatch>, n: nat, a: nat)
    requires n < |ds|
    ensures Run(fields, RowsFor(ds[..n + 1], a)) == ApplyRow(fields, Run(fields, RowsFor(ds[..n], a)), RowFor(ds[n], a))
  {
    hide ApplyRow, RowFor;
    var rows := RowsFor(ds[..n + 1], a);
    assert rows[..n] == RowsFor(ds[..n], a) && rows[n] == RowFor(ds[n], a);
  }

  /** A batch is aligned in every column exactly when every dispatched decode was clean for its column. */
  lemma TableAlignment(schemas: seq<seq<Field>>, ds: seq<Dispatch>)
    ensures (forall a :: 0 <= a < |schemas| ==> OneEntryPerRow(Run(schemas[a], RowsFor(ds, a)), |ds|))
       <==> (forall r :: 0 <= r < |ds| && ds[r].registered && ds[r].matched.Some? && ds[r].matched.value < |schemas| ==>
               Clean(schemas[ds[r].matched.value], Decode(ds[r].writes, ds[r].ok)))
  {
    hide Run, Clean, OneEntryPerRow;
    forall a | 0 <= a < |schemas|
      ensures OneEntryPerRow(Run(schemas[a], RowsFor(ds, a)), |ds|)
         <==> forall r :: 0 <= r < |ds| ==> Clean(schemas[a], RowFor(ds[r], a))
    {
      RowAlignment(schemas[a], RowsFor(ds, a));
      assert forall r :: 0 <= r < |ds| ==> RowsFor(ds, a)[r] == RowFor(ds[r], a);
    }
    assert forall a, r :: 0 <= a < |schemas| && 0 <= r < |ds| && RowFor(ds[r], a) == Skip ==> Clean(schemas[a], RowFor(ds[r], a)) by {
      SkipIsClean();
    }
    assert forall r :: 0 <= r < |ds| && ds[r].registered && ds[r].matched.Some? ==>
      RowFor(ds[r], ds[r].matched.value) == Decode(ds[r].writes, ds[r].ok);
  }

  lemma SkipIsClean()
    ensures forall fields :: Clean(fields, Skip)
  {}

  /** In an aligned batch at most one column is non-null per row: the column of the row's event, if its decode succeeded. */
  lemma AtMostOneTyped(schemas: seq<seq<Field>>, ds: seq<Dispatch>, a: nat, r: nat)
    requires a < |schemas| && r < |ds|
    requires OneEntryPerRow(Run(schemas[a], RowsFor(ds, a)), |ds|)
    ensures Run(schemas[a], RowsFor(ds, a)).validity[r] <==> ds[r].matched == Some(a) && ds[r].registered && ds[r].ok
    ensures forall i :: 0 <= i < |schemas[a]| ==>
      Run(schemas[a], RowsFor(ds, a)).children[i][r]
      == if ds[r].matched == Some(a) && ds[r].registered && ds[r].ok then Written(schemas[a], ds[r].writes, i) else Null
  {
    hide Run, Clean, Written;
    RowAlignment(schemas[a], RowsFor(ds, a));
    ColumnContents(schemas[a], RowsFor(ds, a));
    assert RowsFor(ds, a)[r] == RowFor(ds[r], a);
  }
}
