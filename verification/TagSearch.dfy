/**
 * Finding an option message by its tag bytes, and reading it (crates/obs-build/src/options.rs):
 * a search over bytes, where the wire format has fields.
 */
module TagSearch {
  import opened Bytes
  import opened Unicode
  import opened WireScanner

  // ---- The search ----

  predicate Occurs(bytes: seq<byte>, tag: seq<byte>, i: nat) {
    i + |tag| <= |bytes| && bytes[i..i + |tag|] == tag
  }

  /** The length-delimited payload at the front of `rest`. */
  function PayloadOf(rest: seq<byte>): Option<seq<byte>> {
    match ScanVarint(rest, 0, 0)
    case TooLong => None
    case Read(len, n) => if n + len > |rest| then None else Some(rest[n..n + len])
  }

  function FindTag(bytes: seq<byte>, tag: seq<byte>, i: nat): Option<seq<byte>>
    decreases |bytes| - i
  {
    if i + |tag| > |bytes| then None
    else if Occurs(bytes, tag, i) then PayloadOf(bytes[i + |tag|..])
    else FindTag(bytes, tag, i + 1)
  }

  method FindTagPayload(bytes: seq<byte>, tag: seq<byte>) returns (r: Option<seq<byte>>)
    ensures r == FindTag(bytes, tag, 0)
  {
    hide ScanVarint;
    var i := 0;
    while i + |tag| <= |bytes|
      invariant FindTag(bytes, tag, 0) == FindTag(bytes, tag, i)
      decreases |bytes| - i
    {
      if bytes[i..i + |tag|] == tag {
        var j := i + |tag|;
        var len := ReadVarint(bytes[j..]);
        if len.TooLong? {
          return None;
        }
        var start := j + len.consumed;
        if start + len.v > |bytes| {
          return None;
        }
        assert bytes[j..][len.consumed..len.consumed + len.v] == bytes[start..start + len.v];
        return Some(bytes[start..start + len.v]);
      }
      i := i + 1;
    }
    return None;
  }

  /** The first occurrence of the tag bytes at or after `i`. */
  ghost predicate FirstAt(bytes: seq<byte>, tag: seq<byte>, i: nat, at: nat) {
    i <= at && Occurs(bytes, tag, at) && forall k :: i <= k < at ==> !Occurs(bytes, tag, k)
  }

  lemma {:induction false} FindTagFirst(bytes: seq<byte>, tag: seq<byte>, i: nat, at: nat)
    requires FirstAt(bytes, tag, i, at)
    ensures at + |tag| <= |bytes| && FindTag(bytes, tag, i) == PayloadOf(bytes[at + |tag|..])
    decreases at - i
  {
    hide PayloadOf;
    if i < at {
      assert !Occurs(bytes, tag, i) && FirstAt(bytes, tag, i + 1, at);
      FindTagFirst(bytes, tag, i + 1, at);
    }
  }

  /** The search finds nothing exactly when the tag bytes do not occur, or their first occurrence has no readable payload. */
  lemma FindTagNone(bytes: seq<byte>, tag: seq<byte>, i: nat)
    ensures FindTag(bytes, tag, i).None?
       <==> forall at: nat :: FirstAt(bytes, tag, i, at) && at + |tag| <= |bytes| ==> PayloadOf(bytes[at + |tag|..]).None?
  {
    var at := Search(bytes, tag, i);
    if at.None? {
      forall b: nat ensures !FirstAt(bytes, tag, i, b) {}
    }
    hide PayloadOf, FindTag, FirstAt;
    if at.Some? {
      FindTagFirst(bytes, tag, i, at.value);
      forall b: nat | FirstAt(bytes, tag, i, b) ensures b == at.value {
        FirstUnique(bytes, tag, i, at.value, b);
      }
    }
  }

  lemma FirstUnique(bytes: seq<byte>, tag: seq<byte>, i: nat, a: nat, b: nat)
    requires FirstAt(bytes, tag, i, a) && FirstAt(bytes, tag, i, b)
    ensures a == b
  {
    hide Occurs;
  }

  /** There is a first occurrence, or none and nothing to find. */
  lemma {:induction false} Search(bytes: seq<byte>, tag: seq<byte>, i: nat) returns (at: Option<nat>)
    ensures at.Some? ==> FirstAt(bytes, tag, i, at.value)
    ensures at.None? ==> FindTag(bytes, tag, i).None? && forall k :: k >= i ==> !Occurs(bytes, tag, k)
    decreases |bytes| - i
  {
    hide PayloadOf;
    if i + |tag| > |bytes| {
      at := None;
    } else if Occurs(bytes, tag, i) {
      at := Some(i);
    } else {
      hide Occurs;
      at := Search(bytes, tag, i + 1);
    }
  }

  /** Without the tag bytes a message has no event options. */
  lemma NoTagNoOptions(bytes: seq<byte>)
    requires forall at: nat :: !Occurs(bytes, EVENT_TAG, at)
    ensures ReadEventOptions(bytes) == Absent
  {
    hide FindTag, Occurs;
    FindTagNone(bytes, EVENT_TAG, 0);
  }

  function LenTag(number: nat): (tag: seq<byte>)
    ensures tag != []
  {
    EncodeVarint(8 * number + 2)
  }

  lemma {:induction false} EncodeFieldsConcat(a: seq<Field>, b: seq<Field>)
    ensures EncodeFields(a + b) == EncodeFields(a) + EncodeFields(b)
  {
    hide EncodeField;
    if a == [] {
      assert a + b == b;
    } else {
      EncodeFieldsConcat(a[1..], b);
      assert (a + b)[1..] == a[1..] + b && (a + b)[0] == a[0];
      Assoc(EncodeField(a[0]), EncodeFields(a[1..]), EncodeFields(b));
    }
  }

  // ---- When the bytes found are the field's ----

  /** Only the last byte of a varint is under 128. */
  lemma {:induction false} EndsVarint(v: nat, j: nat)
    requires j < |EncodeVarint(v)|
    ensures EncodeVarint(v)[j] < 128 <==> j == |EncodeVarint(v)| - 1
    decreases v
  {
    if v >= 128 && j > 0 {
      EndsVarint(v / 128, j - 1);
    }
  }

  /** So an occurrence of a tag that begins before the tag ends before it. */
  lemma NoStraddling(pre: seq<byte>, v: nat, post: seq<byte>, at: nat)
    requires at < |pre| && Occurs(pre + (EncodeVarint(v) + post), EncodeVarint(v), at)
    ensures Occurs(pre, EncodeVarint(v), at)
  {
    var tag := EncodeVarint(v);
    var bytes := pre + (tag + post);
    var last := |tag| - 1;
    hide EncodeVarint;
    assert bytes[at..at + |tag|][last] == bytes[at + last] == tag[last];
    if at + last >= |pre| {
      var j := at + last - |pre|;
      assert bytes[at + last] == tag[j];
      EndsVarint(v, j);
      EndsVarint(v, last);
    } else {
      assert bytes[at..at + |tag|] == pre[at..at + |tag|];
    }
  }

  lemma OccursBefore(pre: seq<byte>, rest: seq<byte>, tag: seq<byte>, at: nat)
    requires Occurs(pre, tag, at)
    ensures Occurs(pre + rest, tag, at)
  {
    assert (pre + rest)[at..at + |tag|] == pre[at..at + |tag|];
  }

  /** Reading a varint does not look past a byte under 128. */
  lemma {:induction false} ScanStops(p: seq<byte>, j: nat, rest: seq<byte>, idx: nat, v: nat)
    requires j < |p| && p[j] < 128
    ensures ScanVarint(p + rest, idx, v) == ScanVarint(p, idx, v)
    decreases |p|
  {
    hide Pow128;
    assert (p + rest)[0] == p[0] && (p + rest)[1..] == p[1..] + rest;
    if p[0] >= 128 && idx < 10 {
      ScanStops(p[1..], j - 1, rest, idx + 1, v + (p[0] % 128) * Pow128(idx) % U64_SPAN);
    }
  }

  /** The message with a length-delimited field between `pre` and `post`. */
  ghost function Around(pre: seq<byte>, number: nat, body: seq<byte>, post: seq<byte>): seq<byte> {
    pre + (LenTag(number) + (EncodeVarint(|body|) + body + post))
  }

  lemma FoundWhenFirst(pre: seq<byte>, number: nat, body: seq<byte>, post: seq<byte>)
    requires |body| < U64_SPAN && forall at :: 0 <= at < |pre| ==> !Occurs(pre, LenTag(number), at)
    ensures FindTag(Around(pre, number, body, post), LenTag(number), 0) == Some(body)
  {
    var tag, rest := LenTag(number), EncodeVarint(|body|) + body + post;
    var bytes := pre + (tag + rest);
    forall at | 0 <= at < |pre| ensures !Occurs(bytes, tag, at) {
      if Occurs(bytes, tag, at) {
        NoStraddling(pre, 8 * number + 2, rest, at);
      }
    }
    hide EncodeVarint, Occurs, FindTag, PayloadOf;
    TagHere(bytes, pre, tag, rest);
    FindTagFirst(bytes, tag, 0, |pre|);
    assert bytes[|pre| + |tag|..] == rest;
    PayloadHere(body, post);
  }

  /** What is read at an earlier occurrence: bytes before the field, then its tag, then the rest. */
  lemma EarlierWins(pre: seq<byte>, tag: seq<byte>, rest: seq<byte>, at: nat)
    requires FirstAt(pre, tag, 0, at)
    ensures at + |tag| <= |pre| && FindTag(pre + (tag + rest), tag, 0) == PayloadOf((pre[at + |tag|..] + tag) + rest)
  {
    FirstEnds(pre, tag, at);
    hide FirstAt, FindTag, PayloadOf;
    var bytes, from := pre + (tag + rest), at + |tag|;
    StaysFirst(pre, tag + rest, tag, at);
    FindTagFirst(bytes, tag, 0, at);
    assert bytes[from..] == (pre[from..] + tag) + rest;
  }

  lemma FirstEnds(pre: seq<byte>, tag: seq<byte>, at: nat)
    requires FirstAt(pre, tag, 0, at)
    ensures at + |tag| <= |pre|
  {}

  /** Its length is settled before the body begins. */
  lemma LengthSettled(before: seq<byte>, number: nat, rest: seq<byte>)
    ensures var fixed := before + LenTag(number);
            PayloadOf(fixed + rest).Some? ==>
              ScanVarint(fixed, 0, 0).Read? && |PayloadOf(fixed + rest).value| == ScanVarint(fixed, 0, 0).v
  {
    hide ScanVarint, LenTag, PayloadOf;
    var fixed := before + LenTag(number);
    TagEnds(number, before);
    ScanStops(fixed, |fixed| - 1, rest, 0, 0);
    PayloadSize(fixed + rest);
  }

  /** An earlier occurrence has a payload whose length the body does not influence, so some body is missed. */
  lemma MissedWhenNot(pre: seq<byte>, number: nat, post: seq<byte>, at: nat) returns (body: seq<byte>)
    requires Occurs(pre, LenTag(number), at)
    ensures |body| < U64_SPAN && FindTag(Around(pre, number, body, post), LenTag(number), 0) != Some(body)
  {
    hide EncodeVarint, FindTag, Occurs, LenTag, FirstAt, ScanVarint, PayloadOf;
    var tag := LenTag(number);
    var first := Search(pre, tag, 0);
    FirstEnds(pre, tag, first.value);
    var before := pre[first.value + |tag|..];
    var len := ScanVarint(before + tag, 0, 0);
    body := if len.Read? && len.v == 0 then [0] else [];
    var rest := EncodeVarint(|body|) + body + post;
    EarlierWins(pre, tag, rest, first.value);
    LengthSettled(before, number, rest);
  }

  lemma PayloadSize(rest: seq<byte>)
    ensures PayloadOf(rest).Some? ==> ScanVarint(rest, 0, 0).Read? && |PayloadOf(rest).value| == ScanVarint(rest, 0, 0).v
  {
    hide ScanVarint;
  }

  lemma StaysFirst(pre: seq<byte>, rest: seq<byte>, tag: seq<byte>, at: nat)
    requires FirstAt(pre, tag, 0, at)
    ensures FirstAt(pre + rest, tag, 0, at)
  {
    OccursBefore(pre, rest, tag, at);
    forall k | 0 <= k < at ensures !Occurs(pre + rest, tag, k) {
      assert (pre + rest)[k..k + |tag|] == pre[k..k + |tag|];
      assert !Occurs(pre, tag, k);
    }
  }

  lemma TagEnds(number: nat, before: seq<byte>)
    ensures var fixed := before + LenTag(number); fixed[|fixed| - 1] < 128
  {
    EndsVarint(8 * number + 2, |LenTag(number)| - 1);
  }

  /**
   * `find_tag_payload` searches bytes, not fields. Whatever stands around a length-delimited field,
   * the search finds its payload, for every payload, exactly when the field's tag bytes do not
   * occur in what stands before it.
   */
  lemma FindTagExact(pre: seq<byte>, number: nat, post: seq<byte>)
    ensures (forall body: seq<byte> :: |body| < U64_SPAN ==> FindTag(Around(pre, number, body, post), LenTag(number), 0) == Some(body))
       <==> (forall at :: 0 <= at < |pre| ==> !Occurs(pre, LenTag(number), at))
  {
    hide FindTag, Occurs, LenTag, Around;
    if forall at :: 0 <= at < |pre| ==> !Occurs(pre, LenTag(number), at) {
      forall body: seq<byte> | |body| < U64_SPAN
        ensures FindTag(Around(pre, number, body, post), LenTag(number), 0) == Some(body)
      {
        FoundWhenFirst(pre, number, body, post);
      }
    } else {
      var at :| 0 <= at < |pre| && Occurs(pre, LenTag(number), at);
      var body := MissedWhenNot(pre, number, post, at);
    }
  }

  /** In a message of whole fields: the payload of field `k`, when its tag bytes do not occur in the fields before it. */
  lemma FindTagAgrees(fs: seq<Field>, k: nat)
    requires ValidFields(fs) && k < |fs| && fs[k].value.Length?
    requires forall at :: 0 <= at < |EncodeFields(fs[..k])| ==> !Occurs(EncodeFields(fs[..k]), LenTag(fs[k].number), at)
    ensures FindTag(EncodeFields(fs), LenTag(fs[k].number), 0) == Some(fs[k].value.bytes)
  {
    hide EncodeVarint, Occurs, FindTag, EncodeFields, LenTag;
    EncodedAround(fs, k);
    assert ValidField(fs[k]);
    FindTagExact(EncodeFields(fs[..k]), fs[k].number, EncodeFields(fs[k + 1..]));
    assert EncodeFields(fs) == Around(EncodeFields(fs[..k]), fs[k].number, fs[k].value.bytes, EncodeFields(fs[k + 1..]));
  }

  lemma EncodedAround(fs: seq<Field>, k: nat)
    requires k < |fs| && fs[k].value.Length?
    ensures var body := fs[k].value.bytes;
            EncodeFields(fs) == EncodeFields(fs[..k]) +
              (LenTag(fs[k].number) + (EncodeVarint(|body|) + body + EncodeFields(fs[k + 1..])))
  {
    hide EncodeVarint;
    var f, pre, post := fs[k], fs[..k], fs[k + 1..];
    var tag, value := LenTag(f.number), EncodeValue(f.value);
    assert EncodeField(f) == tag + value;
    hide EncodeField, EncodeValue, LenTag;
    assert fs == pre + ([f] + post);
    EncodeFieldsConcat(pre, [f] + post);
    assert ([f] + post)[1..] == post;
    Assoc(tag, value, EncodeFields(post));
  }

  lemma PayloadHere(body: seq<byte>, tail: seq<byte>)
    requires |body| < U64_SPAN
    ensures PayloadOf(EncodeVarint(|body|) + body + tail) == Some(body)
  {
    hide EncodeVarint, ScanVarint;
    ValueRoundTrip(Length(body), tail);
  }

  lemma TagHere(bytes: seq<byte>, pre: seq<byte>, tag: seq<byte>, post: seq<byte>)
    requires bytes == pre + (tag + post)
    ensures Occurs(bytes, tag, |pre|)
  {}

  const EVENT_TAG: seq<byte> := [0x8A, 0x88, 0x27]

  lemma EventTagIsField80001()
    ensures EVENT_TAG == LenTag(80001)
  {
    assert EncodeVarint(640010) == [0x8A] + EncodeVarint(5000);
    assert EncodeVarint(5000) == [0x88] + EncodeVarint(39);
  }

  /** Without that condition the search can stop inside an earlier field's payload. */
  lemma FindTagFooled()
    ensures var fs := [Field(1, Length(EVENT_TAG + [0])), Field(80001, Length([8, 1]))];
            FindTag(EncodeFields(fs), EVENT_TAG, 0) == Some([])
  {
    var fs := [Field(1, Length(EVENT_TAG + [0])), Field(80001, Length([8, 1]))];
    var bytes, tail := EncodeFields(fs), EncodeFields(fs[1..]);
    OneByte(10);
    OneByte(4);
    OneByte(0);
    hide ScanVarint, EncodeVarint, FindTag, PayloadOf, EncodeFields, Occurs;
    EncodedAround(fs, 0);
    EncodedNone();
    assert fs[..0] == [] && fs[0].value.bytes == EVENT_TAG + [0];
    Regroup(bytes, EVENT_TAG, tail);
    SecondByteOn(bytes, tail);
    FindTagFirst(bytes, EVENT_TAG, 0, 2);
    PayloadHere([], tail);
    assert bytes[5..] == [0] + [] + tail;
  }

  lemma SecondByteOn(bytes: seq<byte>, tail: seq<byte>)
    requires bytes == [10, 4] + (EVENT_TAG + ([0] + [] + tail))
    ensures FirstAt(bytes, EVENT_TAG, 0, 2)
  {
    TagHere(bytes, [10, 4], EVENT_TAG, [0] + [] + tail);
    NotHere(bytes, EVENT_TAG, 0);
    NotHere(bytes, EVENT_TAG, 1);
    hide Occurs;
    assert !Occurs(bytes, EVENT_TAG, 0) && !Occurs(bytes, EVENT_TAG, 1);
  }

  lemma NotHere(bytes: seq<byte>, tag: seq<byte>, i: nat)
    requires i < |bytes| && tag != [] && bytes[i] != tag[0]
    ensures !Occurs(bytes, tag, i)
  {
    if i + |tag| <= |bytes| {
      assert bytes[i..i + |tag|][0] == bytes[i];
    }
  }

  lemma Regroup(bytes: seq<byte>, t: seq<byte>, tail: seq<byte>)
    requires bytes == [] + ([10] + ([4] + (t + [0]) + tail))
    ensures bytes == [10, 4] + (t + ([0] + [] + tail))
  {}

  lemma OneByte(v: nat)
    requires v < 128
    ensures EncodeVarint(v) == [v]
  {}

  lemma EncodedNone()
    ensures EncodeFields([]) == []
  {}

  // ---- Event options ----

  datatype Tier = TierUnspecified | Log | Metric | Trace | Audit
  datatype Severity = SeverityUnspecified | TraceSev | Debug | Info | Warn | Error | Fatal
  datatype EventOptions = EventOptions(tier: Option<Tier>, defaultSev: Option<Severity>, pairedWith: Option<seq<byte>>)

  /** `v as i32`. */
  function AsI32(v: nat): int {
    var low := v % U32_SPAN;
    if low < 0x8000_0000 then low else low - U32_SPAN
  }

  function DecodeTier(i: int): Tier {
    if i == 1 then Log else if i == 2 then Metric else if i == 3 then Trace else if i == 4 then Audit else TierUnspecified
  }

  function DecodeSeverity(i: int): Severity {
    if i == 1 then TraceSev else if i == 2 then Debug else if i == 3 then Info
    else if i == 4 then Warn else if i == 5 then Error else if i == 6 then Fatal
    else SeverityUnspecified
  }

  /** The visitor: later fields overwrite earlier ones, anything unknown is skipped. */
  function Apply(o: EventOptions, f: Field): EventOptions {
    match f.value
    case Varint(v) =>
      if f.number == 1 then o.(tier := Some(DecodeTier(AsI32(v))))
      else if f.number == 2 then o.(defaultSev := Some(DecodeSeverity(AsI32(v))))
      else o
    case Length(b) => if f.number == 3 && IsUtf8(b) then o.(pairedWith := Some(b)) else o
    case Fixed64(_) => o
    case Fixed32(_) => o
  }

  function ApplyAll(o: EventOptions, fs: seq<Field>): EventOptions
    decreases |fs|
  {
    if fs == [] then o else ApplyAll(Apply(o, fs[0]), fs[1..])
  }

  datatype OptionsResult = Absent | Present(options: EventOptions) | DecodeError(detail: string)

  function ReadEventOptions(bytes: seq<byte>): OptionsResult {
    match FindTag(bytes, EVENT_TAG, 0)
    case None => Absent
    case Some(payload) =>
      var w := Walk(payload);
      if w.error.Some? then DecodeError(w.error.value)
      else Present(ApplyAll(EventOptions(None, None, None), w.visited))
  }

  /**
   * The options of an event survive the trip through the descriptor's unknown fields: whatever
   * fields the option message carries are the ones applied, in order.
   */
  lemma EventOptionsRoundTrip(fs: seq<Field>, k: nat, inner: seq<Field>)
    requires ValidFields(fs) && ValidFields(inner) && k < |fs|
    requires fs[k] == Field(80001, Length(EncodeFields(inner)))
    requires forall at :: 0 <= at < |EncodeFields(fs[..k])| ==> !Occurs(EncodeFields(fs[..k]), EVENT_TAG, at)
    ensures ReadEventOptions(EncodeFields(fs)) == Present(ApplyAll(EventOptions(None, None, None), inner))
  {
    hide FindTag, Walk, Occurs, EncodeFields;
    EventTagIsField80001();
    FindTagAgrees(fs, k);
    WalkEncoded(inner);
  }

  // ---- What the options say ----

  /** Field `i` is the last with this number whose value is of the kind the option reads. */
  ghost predicate LastVarint(fs: seq<Field>, number: nat, i: nat) {
    i < |fs| && fs[i].number == number && fs[i].value.Varint?
    && forall j :: i < j < |fs| ==> !(fs[j].number == number && fs[j].value.Varint?)
  }

  ghost predicate LastText(fs: seq<Field>, number: nat, i: nat) {
    i < |fs| && fs[i].number == number && fs[i].value.Length? && IsUtf8(fs[i].value.bytes)
    && forall j :: i < j < |fs| ==> !(fs[j].number == number && fs[j].value.Length? && IsUtf8(fs[j].value.bytes))
  }

  const NO_OPTIONS := EventOptions(None, None, None)

  /** The number of a tier or severity in the schema; a number outside the list stands for none. */
  function TierNumber(t: Tier): nat {
    match t
    case TierUnspecified => 0
    case Log => 1
    case Metric => 2
    case Trace => 3
    case Audit => 4
  }

  function SeverityNumber(s: Severity): nat {
    match s
    case SeverityUnspecified => 0
    case TraceSev => 1
    case Debug => 2
    case Info => 3
    case Warn => 4
    case Error => 5
    case Fatal => 6
  }

  /** A 64-bit value names the tier or severity whose number its low 32 bits are, and none if they are no number in the list. */
  lemma NumbersExact(v: nat, t: Tier, s: Severity)
    ensures DecodeTier(AsI32(v)) == t <==>
            if t == TierUnspecified then !(1 <= v % 0x1_0000_0000 <= 4) else v % 0x1_0000_0000 == TierNumber(t)
    ensures DecodeSeverity(AsI32(v)) == s
       <==> (if s == SeverityUnspecified then !(1 <= v % 0x1_0000_0000 <= 6) else v % 0x1_0000_0000 == SeverityNumber(s))
  {}

  lemma ApplyLast(fs: seq<Field>, o: EventOptions)
    requires fs != []
    ensures ApplyAll(o, fs) == Apply(ApplyAll(o, fs[..|fs| - 1]), fs[|fs| - 1])
    decreases |fs|
  {
    hide Apply;
    if |fs| == 1 {
      assert fs[..0] == [] && fs[1..] == [];
    } else {
      ApplyLast(fs[1..], Apply(o, fs[0]));
      assert fs[1..][..|fs| - 2] == fs[..|fs| - 1][1..] && fs[1..][|fs| - 2] == fs[|fs| - 1];
    }
  }

  ghost predicate SaysTier(fs: seq<Field>, tier: Option<Tier>) {
    && (forall i: nat :: LastVarint(fs, 1, i) ==> tier == Some(DecodeTier(AsI32(fs[i].value.v))))
    && ((forall i: nat :: !LastVarint(fs, 1, i)) ==> tier == None)
  }

  ghost predicate SaysSeverity(fs: seq<Field>, sev: Option<Severity>) {
    && (forall i: nat :: LastVarint(fs, 2, i) ==> sev == Some(DecodeSeverity(AsI32(fs[i].value.v))))
    && ((forall i: nat :: !LastVarint(fs, 2, i)) ==> sev == None)
  }

  ghost predicate SaysSibling(fs: seq<Field>, sibling: Option<seq<byte>>) {
    && (forall i: nat :: LastText(fs, 3, i) ==> sibling == Some(fs[i].value.bytes))
    && ((forall i: nat :: !LastText(fs, 3, i)) ==> sibling == None)
  }

  lemma LastOfMore(fs: seq<Field>, number: nat)
    requires fs != []
    ensures var init, n := fs[..|fs| - 1], |fs| - 1;
            && (forall i: nat :: LastVarint(fs, number, i)
                            <==> if fs[n].number == number && fs[n].value.Varint? then i == n else LastVarint(init, number, i))
            && (forall i: nat :: LastText(fs, number, i)
                            <==> if fs[n].number == number && fs[n].value.Length? && IsUtf8(fs[n].value.bytes) then i == n
                                 else LastText(init, number, i))
            && forall i: nat :: LastVarint(init, number, i) || LastText(init, number, i) ==> i < n && init[i] == fs[i]
  {
    hide IsUtf8;
    var init, n := fs[..|fs| - 1], |fs| - 1;
    assert forall j :: 0 <= j < n ==> init[j] == fs[j];
  }

  /** The options of a message are what the last field of each kind says; fields of another kind or not UTF-8 do not count. */
  lemma {:induction false} OptionsExact(fs: seq<Field>)
    ensures var o := ApplyAll(NO_OPTIONS, fs);
            SaysTier(fs, o.tier) && SaysSeverity(fs, o.defaultSev) && SaysSibling(fs, o.pairedWith)
    decreases |fs|
  {
    if fs != [] {
      var init, n := fs[..|fs| - 1], |fs| - 1;
      OptionsExact(init);
      ApplyLast(fs, NO_OPTIONS);
      hide ApplyAll, DecodeTier, DecodeSeverity, AsI32, IsUtf8;
      TierStep(fs, ApplyAll(NO_OPTIONS, init));
      SeverityStep(fs, ApplyAll(NO_OPTIONS, init));
      SiblingStep(fs, ApplyAll(NO_OPTIONS, init));
    }
  }

  lemma TierStep(fs: seq<Field>, o: EventOptions)
    requires fs != [] && SaysTier(fs[..|fs| - 1], o.tier)
    ensures SaysTier(fs, Apply(o, fs[|fs| - 1]).tier)
  {
    LastOfMore(fs, 1);
    hide LastVarint, LastText, DecodeTier, DecodeSeverity, AsI32, IsUtf8;
    if fs[|fs| - 1].number == 1 && fs[|fs| - 1].value.Varint? { assert LastVarint(fs, 1, |fs| - 1); }
  }

  lemma SeverityStep(fs: seq<Field>, o: EventOptions)
    requires fs != [] && SaysSeverity(fs[..|fs| - 1], o.defaultSev)
    ensures SaysSeverity(fs, Apply(o, fs[|fs| - 1]).defaultSev)
  {
    LastOfMore(fs, 2);
    hide LastVarint, LastText, DecodeTier, DecodeSeverity, AsI32, IsUtf8;
    if fs[|fs| - 1].number == 2 && fs[|fs| - 1].value.Varint? { assert LastVarint(fs, 2, |fs| - 1); }
  }

  lemma SiblingStep(fs: seq<Field>, o: EventOptions)
    requires fs != [] && SaysSibling(fs[..|fs| - 1], o.pairedWith)
    ensures SaysSibling(fs, Apply(o, fs[|fs| - 1]).pairedWith)
  {
    LastOfMore(fs, 3);
    hide LastVarint, LastText, DecodeTier, DecodeSeverity, AsI32, IsUtf8;
    var f := fs[|fs| - 1];
    if f.number == 3 && f.value.Length? && IsUtf8(f.value.bytes) { assert LastText(fs, 3, |fs| - 1); }
  }
}
