/**
 * The Protocol Buffers wire-format scanner that reads schema options
 * (crates/obs-build/src/options.rs). Bit operations on `u64` are stated arithmetically:
 * the source only ever ORs together bits that do not overlap.
 */
module WireScanner {
  import opened Bytes

  const U64_SPAN := 0x1_0000_0000_0000_0000

  // ---- Base-128 varints ----

  function EncodeVarint(v: nat): (e: seq<byte>)
    ensures |e| >= 1
  {
    if v < 128 then [v] else [128 + v % 128] + EncodeVarint(v / 128)
  }

  function Pow128(n: nat): (p: nat)
    ensures p >= 1
  {
    if n == 0 then 1 else 128 * Pow128(n - 1)
  }

  datatype VarintResult = Read(v: nat, consumed: nat) | TooLong

  /** The reader with `idx` bytes behind it and `v` accumulated; the shift drops bits past the 64th. */
  function ScanVarint(bytes: seq<byte>, idx: nat, v: nat): (r: VarintResult)
    ensures r.Read? ==> idx < r.consumed <= idx + |bytes|
    decreases |bytes|
  {
    if bytes == [] || idx >= 10 then TooLong
    else
      var v' := v + (bytes[0] % 128) * Pow128(idx) % U64_SPAN;
      if bytes[0] < 128 then Read(v', idx + 1) else ScanVarint(bytes[1..], idx + 1, v')
  }

  method ReadVarint(bytes: seq<byte>) returns (r: VarintResult)
    ensures r == ScanVarint(bytes, 0, 0)
  {
    var v: nat, weight, idx := 0, 1, 0;
    while idx < |bytes| && idx < 10
      invariant 0 <= idx <= |bytes| && weight == Pow128(idx)
      invariant ScanVarint(bytes, 0, 0) == ScanVarint(bytes[idx..], idx, v)
    {
      var b := bytes[idx];
      assert bytes[idx..][1..] == bytes[idx + 1..];
      v := v + (b % 128) * weight % U64_SPAN;
      if b < 128 {
        return Read(v, idx + 1);
      }
      weight, idx := 128 * weight, idx + 1;
    }
    return TooLong;
  }

  /** A product the solver is not to multiply out. */
  function Times(a: nat, p: nat): nat {
    a * p
  }

  lemma TimesSplit(w: nat, p: nat)
    ensures Times(w, p) == Times(w % 128, p) + Times(w / 128, 128 * p)
  {
    var d, q := w % 128, w / 128;
    assert w == d + 128 * q;
    assert (d + 128 * q) * p == d * p + q * (128 * p);
  }

  lemma TimesGrows(a: nat, b: nat, p: nat)
    requires a <= b
    ensures Times(a, p) <= Times(b, p)
  {
    assert (b - a) * p >= 0;
    assert b * p == a * p + (b - a) * p;
  }

  lemma TimesOne(a: nat)
    ensures Times(a, 1) == a && Times(1, a) == a
  {}

  /** The first byte of an encoding is the lowest digit, and tells whether more follow. */
  lemma EncodeFirst(w: nat, rest: seq<byte>)
    ensures var e := EncodeVarint(w) + rest;
            && e[0] % 128 == w % 128 && (e[0] < 128 <==> w < 128)
            && (w < 128 ==> |EncodeVarint(w)| == 1)
            && (w >= 128 ==> e[1..] == EncodeVarint(w / 128) + rest && |EncodeVarint(w)| == 1 + |EncodeVarint(w / 128)|)
  {}

  lemma {:induction false} ScanEncoded(w: nat, rest: seq<byte>, idx: nat, v: nat)
    requires v + Times(w, Pow128(idx)) < U64_SPAN && (w > 0 || idx == 0)
    ensures ScanVarint(EncodeVarint(w) + rest, idx, v) == Read(v + Times(w, Pow128(idx)), idx + |EncodeVarint(w)|)
    decreases w
  {
    hide Times, EncodeVarint, ScanVarint, Pow128;
    var p := Pow128(idx);
    ShiftBound(w, idx);
    EncodeFirst(w, rest);
    TimesGrows(w % 128, w, p);
    ScanByte(EncodeVarint(w) + rest, idx, v);
    if w >= 128 {
      TimesSplit(w, p);
      PowNext(idx);
      ScanEncoded(w / 128, rest, idx + 1, v + Times(w % 128, p));
    }
  }

  lemma ScanByte(bytes: seq<byte>, idx: nat, v: nat)
    requires bytes != [] && idx < 10 && Times(bytes[0] % 128, Pow128(idx)) < U64_SPAN
    ensures var v' := v + Times(bytes[0] % 128, Pow128(idx));
            ScanVarint(bytes, idx, v) == if bytes[0] < 128 then Read(v', idx + 1) else ScanVarint(bytes[1..], idx + 1, v')
  {
    hide Pow128;
    Small(Times(bytes[0] % 128, Pow128(idx)));
  }

  lemma Small(n: nat)
    requires n < U64_SPAN
    ensures n % U64_SPAN == n
  {}

  lemma PowNext(idx: nat)
    ensures Pow128(idx + 1) == 128 * Pow128(idx)
  {}

  /** A value below 2^64 has no digit past the tenth. */
  lemma ShiftBound(w: nat, idx: nat)
    requires Times(w, Pow128(idx)) < U64_SPAN && (w > 0 || idx == 0)
    ensures idx < 10
  {
    hide Times, Pow128;
    if idx >= 10 {
      Pow128Grows(10, idx);
      PowTen();
      TimesGrows(1, w, Pow128(idx));
      TimesOne(Pow128(idx));
    }
  }

  lemma PowTen()
    ensures Pow128(10) == 0x40_0000_0000_0000_0000
  {
    assert Pow128(2) == 0x4000;
    assert Pow128(4) == 0x1000_0000;
    assert Pow128(6) == 0x400_0000_0000;
    assert Pow128(8) == 0x100_0000_0000_0000;
  }

  lemma {:induction false} Pow128Grows(m: nat, n: nat)
    requires m <= n
    ensures Pow128(m) <= Pow128(n)
    decreases n
  {
    if m < n {
      Pow128Grows(m, n - 1);
    }
  }

  /** `read_varint` inverts the base-128 encoding of every `u64`, whatever bytes follow. */
  lemma VarintRoundTrip(v: nat, rest: seq<byte>)
    requires v < U64_SPAN
    ensures ScanVarint(EncodeVarint(v) + rest, 0, 0) == Read(v, |EncodeVarint(v)|)
  {
    hide Times, EncodeVarint, ScanVarint;
    TimesOne(v);
    ScanEncoded(v, rest, 0, 0);
  }

  /** Every proper prefix of an encoded varint is refused. */
  lemma {:induction false} VarintTruncated(w: nat, cut: nat, idx: nat, v: nat)
    requires cut < |EncodeVarint(w)|
    ensures ScanVarint(EncodeVarint(w)[..cut], idx, v) == TooLong
    decreases w
  {
    if cut > 0 && idx < 10 {
      var bytes := EncodeVarint(w)[..cut];
      assert bytes[1..] == EncodeVarint(w / 128)[..cut - 1];
      VarintTruncated(w / 128, cut - 1, idx + 1, v + (bytes[0] % 128) * Pow128(idx) % U64_SPAN);
    }
  }

  // ---- Fields ----

  datatype WireValue = Varint(v: nat) | Fixed64(bytes: seq<byte>) | Length(bytes: seq<byte>) | Fixed32(bytes: seq<byte>)
  datatype Field = Field(number: nat, value: WireValue)

  predicate ValidField(f: Field) {
    && f.number < U32_SPAN
    && match f.value
       case Varint(v) => v < U64_SPAN
       case Fixed64(b) => |b| == 8
       case Length(b) => |b| < U64_SPAN
       case Fixed32(b) => |b| == 4
  }

  predicate ValidFields(fs: seq<Field>) {
    forall f :: f in fs ==> ValidField(f)
  }

  function WireType(value: WireValue): nat {
    match value
    case Varint(_) => 0
    case Fixed64(_) => 1
    case Length(_) => 2
    case Fixed32(_) => 5
  }

  function EncodeValue(value: WireValue): seq<byte> {
    match value
    case Varint(v) => EncodeVarint(v)
    case Length(b) => EncodeVarint(|b|) + b
    case Fixed64(b) => b
    case Fixed32(b) => b
  }

  function EncodeField(f: Field): seq<byte> {
    EncodeVarint(8 * f.number + WireType(f.value)) + EncodeValue(f.value)
  }

  function EncodeFields(fs: seq<Field>): seq<byte> {
    if fs == [] then [] else EncodeField(fs[0]) + EncodeFields(fs[1..])
  }

  datatype ValueResult = Value(value: WireValue, size: nat) | BadValue(error: string)

  /** The value of wire type `wire` at the front of `p`. */
  function NextValue(wire: nat, p: seq<byte>): (r: ValueResult)
    ensures r.Value? ==> r.size <= |p|
  {
    if wire == 0 then
      match ScanVarint(p, 0, 0)
      case Read(v, n) => Value(Varint(v), n)
      case TooLong => BadValue("invalid value varint")
    else if wire == 1 then
      if |p| < 8 then BadValue("truncated fixed64") else Value(Fixed64(p[..8]), 8)
    else if wire == 2 then
      match ScanVarint(p, 0, 0)
      case TooLong => BadValue("invalid LEN varint")
      case Read(len, n) =>
        if n + len > |p| then BadValue("truncated LEN payload") else Value(Length(p[n..n + len]), n + len)
    else if wire == 5 then
      if |p| < 4 then BadValue("truncated fixed32") else Value(Fixed32(p[..4]), 4)
    else BadValue("unknown wire type")
  }

  datatype Walked = Walked(visited: seq<Field>, error: Option<string>)

  /** What `walk_message` visits, and the error it stops on, if any. */
  function Walk(p: seq<byte>): Walked
    decreases |p|
  {
    if p == [] then Walked([], None)
    else
      match ScanVarint(p, 0, 0)
      case TooLong => Walked([], Some("invalid tag varint"))
      case Read(tag, n) =>
        match NextValue(tag % 8, p[n..])
        case BadValue(e) => Walked([], Some(e))
        case Value(value, size) =>
          var rest := Walk(p[n + size..]);
          rest.(visited := [Field(tag / 8 % U32_SPAN, value)] + rest.visited)
  }

  method WalkMessage(payload: seq<byte>) returns (r: Walked)
    ensures r == Walk(payload)
  {
    ghost var goal := Walk(payload);
    r := WalkLoop(payload, goal);
  }

  method WalkLoop(payload: seq<byte>, ghost goal: Walked) returns (r: Walked)
    requires goal == Walk(payload)
    ensures r == goal
  {
    hide ScanVarint, NextValue, Walk;
    var visited: seq<Field>, i := [], 0;
    assert payload[0..] == payload && [] + goal.visited == goal.visited;
    while i < |payload|
      invariant 0 <= i <= |payload|
      invariant goal == Walked(visited + Walk(payload[i..]).visited, Walk(payload[i..]).error)
    {
      ghost var rest := payload[i..];
      var tag := ReadVarint(payload[i..]);
      if tag.TooLong? {
        WalkStops(rest);
        assert visited + [] == visited;
        return Walked(visited, Some("invalid tag varint"));
      }
      i := i + tag.consumed;
      assert rest[tag.consumed..] == payload[i..];
      var value := ReadValue(tag.v % 8, payload, i);
      if value.BadValue? {
        WalkStops(rest);
        assert visited + [] == visited;
        return Walked(visited, Some(value.error));
      }
      i := i + value.size;
      assert rest[tag.consumed + value.size..] == payload[i..];
      var field := Field(tag.v / 8 % U32_SPAN, value.value);
      WalkStep(rest, tag.v, tag.consumed, value.value, value.size);
      Assoc(visited, [field], Walk(payload[i..]).visited);
      visited := visited + [field];
    }
    WalkEmpty();
    assert payload[i..] == [] && visited + [] == visited;
    r := Walked(visited, None);
  }

  /** The body of the match on the wire type. */
  method ReadValue(wire: nat, payload: seq<byte>, i: nat) returns (r: ValueResult)
    requires i <= |payload|
    ensures r == NextValue(wire, payload[i..])
  {
    hide ScanVarint;
    if wire == 0 {
      var v := ReadVarint(payload[i..]);
      if v.TooLong? {
        return BadValue("invalid value varint");
      }
      return Value(Varint(v.v), v.consumed);
    } else if wire == 1 {
      if i + 8 > |payload| {
        return BadValue("truncated fixed64");
      }
      return Value(Fixed64(payload[i..][..8]), 8);
    } else if wire == 2 {
      var len := ReadVarint(payload[i..]);
      if len.TooLong? {
        return BadValue("invalid LEN varint");
      }
      var start := len.consumed;
      if i + start + len.v > |payload| {
        return BadValue("truncated LEN payload");
      }
      return Value(Length(payload[i..][start..start + len.v]), start + len.v);
    } else if wire == 5 {
      if i + 4 > |payload| {
        return BadValue("truncated fixed32");
      }
      return Value(Fixed32(payload[i..][..4]), 4);
    }
    return BadValue("unknown wire type");
  }

  // ---- What the walk finds ----

  lemma ValueRoundTrip(value: WireValue, rest: seq<byte>)
    requires ValidField(Field(0, value))
    ensures NextValue(WireType(value), EncodeValue(value) + rest) == Value(value, |EncodeValue(value)|)
  {
    hide EncodeVarint, ScanVarint;
    match value {
      case Varint(v) =>
        VarintRoundTrip(v, rest);
      case Length(b) =>
        var head := EncodeVarint(|b|);
        assert head + b + rest == head + (b + rest);
        VarintRoundTrip(|b|, b + rest);
      case Fixed64(b) =>
      case Fixed32(b) =>
    }
  }

  lemma WalkStops(p: seq<byte>)
    requires p != []
    ensures var t := ScanVarint(p, 0, 0);
            if t.TooLong? then Walk(p) == Walked([], Some("invalid tag varint"))
            else var v := NextValue(t.v % 8, p[t.consumed..]); v.BadValue? ==> Walk(p) == Walked([], Some(v.error))
  {
    hide ScanVarint, NextValue;
  }

  lemma WalkStep(p: seq<byte>, tag: nat, n: nat, value: WireValue, size: nat)
    requires ScanVarint(p, 0, 0) == Read(tag, n) && NextValue(tag % 8, p[n..]) == Value(value, size)
    ensures Walk(p) == Walked([Field(tag / 8 % U32_SPAN, value)] + Walk(p[n + size..]).visited, Walk(p[n + size..]).error)
  {
    hide ScanVarint, NextValue;
  }

  /** One encoded field is visited first, whatever bytes follow. */
  lemma WalkField(f: Field, rest: seq<byte>)
    requires ValidField(f)
    ensures Walk(EncodeField(f) + rest) == Walked([f] + Walk(rest).visited, Walk(rest).error)
  {
    hide EncodeVarint, ScanVarint, NextValue, EncodeValue, Walk;
    var tag := 8 * f.number + WireType(f.value);
    var head, body := EncodeVarint(tag), EncodeValue(f.value);
    var p := EncodeField(f) + rest;
    assert p == head + (body + rest);
    VarintRoundTrip(tag, body + rest);
    assert p[|head|..] == body + rest;
    ValueRoundTrip(f.value, rest);
    WalkStep(p, tag, |head|, f.value, |body|);
    assert p[|head| + |body|..] == rest;
  }

  /** Walking an encoded message visits exactly its fields, in order. */
  lemma {:induction false} WalkEncoded(fs: seq<Field>)
    requires ValidFields(fs)
    ensures Walk(EncodeFields(fs)) == Walked(fs, None)
  {
    hide EncodeField;
    if fs != [] {
      WalkField(fs[0], EncodeFields(fs[1..]));
      WalkEncoded(fs[1..]);
    }
  }

  lemma ValueTruncated(value: WireValue, cut: nat)
    requires ValidField(Field(0, value)) && cut < |EncodeValue(value)|
    ensures NextValue(WireType(value), EncodeValue(value)[..cut]).BadValue?
  {
    match value {
      case Varint(v) =>
        VarintTruncated(v, cut, 0, 0);
      case Length(b) =>
        var head := EncodeVarint(|b|);
        if cut < |head| {
          assert (head + b)[..cut] == head[..cut];
          VarintTruncated(|b|, cut, 0, 0);
        } else {
          assert (head + b)[..cut] == head + b[..cut - |head|];
          VarintRoundTrip(|b|, b[..cut - |head|]);
        }
      case Fixed64(b) =>
      case Fixed32(b) =>
    }
  }

  lemma FieldTruncated(f: Field, cut: nat)
    requires ValidField(f) && 0 < cut < |EncodeField(f)|
    ensures var w := Walk(EncodeField(f)[..cut]); w.visited == [] && w.error.Some?
  {
    hide EncodeVarint, ScanVarint, NextValue, EncodeValue;
    var tag := 8 * f.number + WireType(f.value);
    var head, body := EncodeVarint(tag), EncodeValue(f.value);
    if cut < |head| {
      assert EncodeField(f)[..cut] == head[..cut];
      VarintTruncated(tag, cut, 0, 0);
    } else {
      var p := head + body[..cut - |head|];
      assert EncodeField(f)[..cut] == p;
      VarintRoundTrip(tag, body[..cut - |head|]);
      assert p[|head|..] == body[..cut - |head|];
      ValueTruncated(f.value, cut - |head|);
    }
  }

  /** How many fields end at or before byte `cut`. */
  ghost function WholeFields(fs: seq<Field>, cut: nat): (k: nat)
    ensures k <= |fs|
  {
    if fs == [] || cut < |EncodeField(fs[0])| then 0 else 1 + WholeFields(fs[1..], cut - |EncodeField(fs[0])|)
  }

  /**
   * A message cut at any byte: the walk visits the fields that end before the cut and then
   * reports an error, unless the cut falls between two fields.
   */
  lemma {:induction false} WalkTruncated(fs: seq<Field>, cut: nat)
    requires ValidFields(fs) && cut <= |EncodeFields(fs)|
    ensures var w := Walk(EncodeFields(fs)[..cut]);
            && w.visited == fs[..WholeFields(fs, cut)]
            && (w.error.None? <==> cut == |EncodeFields(fs[..WholeFields(fs, cut)])|)
    decreases |fs|
  {
    hide EncodeField, Walk;
    WalkEmpty();
    if fs != [] {
      var first := |EncodeField(fs[0])|;
      if cut < first {
        assert EncodeFields(fs)[..cut] == EncodeField(fs[0])[..cut];
        assert fs[..0] == [] && EncodeFields([]) == [];
        if cut > 0 {
          FieldTruncated(fs[0], cut);
        }
      } else {
        var rest := EncodeFields(fs[1..])[..cut - first];
        assert EncodeFields(fs)[..cut] == EncodeField(fs[0]) + rest;
        WalkField(fs[0], rest);
        WalkTruncated(fs[1..], cut - first);
        var k := WholeFields(fs[1..], cut - first);
        assert fs[..k + 1] == [fs[0]] + fs[1..][..k];
        assert fs[..k + 1][1..] == fs[1..][..k];
      }
    }
  }

  lemma WalkEmpty()
    ensures Walk([]) == Walked([], None)
  {}

  // ---- Any bytes at all ----

  /** Byte `j` is the first under 128. */
  ghost predicate EndsAt(bytes: seq<byte>, j: nat) {
    j < |bytes| && bytes[j] < 128 && forall i :: 0 <= i < j ==> bytes[i] >= 128
  }

  /** The number whose base-128 digits are the low seven bits of the bytes, lowest first. */
  ghost function Digits(bytes: seq<byte>): nat {
    if bytes == [] then 0 else bytes[0] % 128 + 128 * Digits(bytes[1..])
  }

  ghost predicate Congruent(a: int, b: int) {
    exists q :: a == b + U64_SPAN * q
  }

  lemma CongruentVia(a: int, b: int, c: int)
    requires Congruent(a, b) && Congruent(b, c)
    ensures Congruent(a, c)
  {
    var p :| a == b + U64_SPAN * p;
    var q :| b == c + U64_SPAN * q;
    assert a == c + U64_SPAN * (p + q);
  }

  lemma RemainderCongruent(v: int, n: nat, rest: int)
    ensures Congruent(v + n % U64_SPAN + rest, v + n + rest)
  {
    var q := n / U64_SPAN;
    assert n == n % U64_SPAN + U64_SPAN * q;
    assert v + n % U64_SPAN + rest == v + n + rest + U64_SPAN * (-q);
  }

  lemma TimesDigits(d: nat, h: nat, p: nat)
    ensures Times(d + 128 * h, p) == Times(d, p) + Times(h, 128 * p)
  {
    assert (d + 128 * h) * p == d * p + h * (128 * p);
  }

  /** From byte `idx` of a varint on: the read ends at the first byte under 128, if that is one of the first ten. */
  lemma {:induction false} ScanAny(bytes: seq<byte>, idx: nat, v: nat, j: nat)
    requires EndsAt(bytes, j)
    ensures var r := ScanVarint(bytes, idx, v);
            if idx + j >= 10 then r == TooLong
            else r.Read? && r.consumed == idx + j + 1 && Congruent(r.v, v + Times(Digits(bytes[..j + 1]), Pow128(idx)))
    decreases |bytes|
  {
    var d: nat, p := bytes[0] % 128, Pow128(idx);
    var v' := v + Times(d, p) % U64_SPAN;
    FirstDigit(bytes, j);
    PowNext(idx);
    if j == 0 {
      assert Digits(bytes[..1]) == d;
      RemainderCongruent(v, Times(d, p), 0);
      assert idx < 10 ==> ScanVarint(bytes, idx, v) == Read(v', idx + 1);
    } else {
      var h := Digits(bytes[1..][..j]);
      assert EndsAt(bytes[1..], j - 1);
      ScanAny(bytes[1..], idx + 1, v', j - 1);
      assert idx < 10 ==> ScanVarint(bytes, idx, v) == ScanVarint(bytes[1..], idx + 1, v');
      TimesDigits(d, h, p);
      RemainderCongruent(v, Times(d, p), Times(h, 128 * p));
      if idx + j < 10 {
        CongruentVia(ScanVarint(bytes, idx, v).v, v' + Times(h, 128 * p), v + Times(d, p) + Times(h, 128 * p));
      }
    }
  }

  lemma FirstDigit(bytes: seq<byte>, j: nat)
    requires j < |bytes|
    ensures Digits(bytes[..j + 1]) == bytes[0] % 128 + 128 * Digits(bytes[1..][..j])
  {
    assert bytes[..j + 1][0] == bytes[0] && bytes[..j + 1][1..] == bytes[1..][..j];
  }

  lemma {:induction false} ScanEndless(bytes: seq<byte>, idx: nat, v: nat)
    requires forall i :: 0 <= i < |bytes| ==> bytes[i] >= 128
    ensures ScanVarint(bytes, idx, v) == TooLong
    decreases |bytes|
  {
    hide Pow128;
    if bytes != [] && idx < 10 {
      ScanEndless(bytes[1..], idx + 1, v + (bytes[0] % 128) * Pow128(idx) % U64_SPAN);
    }
  }

  /**
   * Whatever bytes there are: the varint ends at the first byte under 128, if that is one of the first
   * ten, and is its base-128 digits modulo 2^64; otherwise it is refused.
   */
  lemma VarintExact(bytes: seq<byte>)
    ensures forall j: nat :: EndsAt(bytes, j) ==>
              var r := ScanVarint(bytes, 0, 0);
              if j >= 10 then r == TooLong else r.Read? && r.consumed == j + 1 && Congruent(r.v, Digits(bytes[..j + 1]))
    ensures (forall j: nat :: !EndsAt(bytes, j)) ==> ScanVarint(bytes, 0, 0) == TooLong
  {
    forall j: nat | EndsAt(bytes, j)
      ensures var r := ScanVarint(bytes, 0, 0);
              if j >= 10 then r == TooLong else r.Read? && r.consumed == j + 1 && Congruent(r.v, Digits(bytes[..j + 1]))
    {
      ScanAny(bytes, 0, 0, j);
      TimesOne(Digits(bytes[..j + 1]));
      hide ScanVarint, Digits, Times;
    }
    if i :| 0 <= i < |bytes| && bytes[i] < 128 {
      var j := FirstSmall(bytes, i);
    } else {
      ScanEndless(bytes, 0, 0);
    }
  }

  lemma {:induction false} FirstSmall(bytes: seq<byte>, i: nat) returns (j: nat)
    requires i < |bytes| && bytes[i] < 128
    ensures EndsAt(bytes, j)
    decreases i
  {
    if k :| 0 <= k < i && bytes[k] < 128 {
      j := FirstSmall(bytes, k);
    } else {
      j := i;
    }
  }

  /** Whatever the tag: the field number is what its upper bits are modulo 2^32. */
  lemma WalkAnyTag(tag: nat, value: WireValue, rest: seq<byte>) returns (number: nat)
    requires tag < U64_SPAN && ValidField(Field(0, value)) && tag % 8 == WireType(value)
    ensures number < 0x1_0000_0000 && (tag / 8 - number) % 0x1_0000_0000 == 0
    ensures Walk(EncodeVarint(tag) + (EncodeValue(value) + rest)) == Walked([Field(number, value)] + Walk(rest).visited, Walk(rest).error)
  {
    hide EncodeVarint, ScanVarint, NextValue, EncodeValue, Walk;
    number := tag / 8 % U32_SPAN;
    Narrowed(tag / 8);
    var head, body := EncodeVarint(tag), EncodeValue(value);
    var p := head + (body + rest);
    VarintRoundTrip(tag, body + rest);
    assert p[|head|..] == body + rest;
    ValueRoundTrip(value, rest);
    WalkStep(p, tag, |head|, value, |body|);
    assert p[|head| + |body|..] == rest;
  }

  lemma Narrowed(n: nat)
    ensures (n - n % U32_SPAN) % U32_SPAN == 0
  {
    assert n - n % U32_SPAN == U32_SPAN * (n / U32_SPAN);
  }

  /** A wire type that is not 0, 1, 2 or 5 ends the walk with an error. */
  lemma WalkUnknown(tag: nat, rest: seq<byte>)
    requires tag < U64_SPAN && tag % 8 in {3, 4, 6, 7}
    ensures Walk(EncodeVarint(tag) + rest) == Walked([], Some("unknown wire type"))
  {
    hide EncodeVarint, ScanVarint, Walk;
    var p := EncodeVarint(tag) + rest;
    VarintRoundTrip(tag, rest);
    WalkStops(p);
  }
}
