/**
 * The AUDIT spool (crates/obs-core/src/audit_spool.rs): an append-only file of
 * length-prefixed records, a parallel file of checksums, and recovery after a crash.
 */
module AuditSpool {
  import opened Bytes
  import opened RecordSum

  // ---- File layout ----

  ghost function Frame<E(!new)>(c: Codec<E>, e: E): (f: seq<byte>)
    requires c.Valid()
    ensures |f| == 4 + |c.encode(e)|
  {
    Le32(|c.encode(e)|) + c.encode(e)
  }

  ghost function Frames<E(!new)>(c: Codec<E>, es: seq<E>): seq<byte>
    requires c.Valid()
  {
    if es == [] then [] else Frame(c, es[0]) + Frames(c, es[1..])
  }

  ghost function Sums<E(!new)>(c: Codec<E>, es: seq<E>): (s: seq<byte>)
    ensures |s| == 4 * |es|
  {
    if es == [] then [] else SumOf(c.encode(es[0])) + Sums(c, es[1..])
  }

  lemma FramesCons<E(!new)>(c: Codec<E>, e: E, es: seq<E>)
    requires c.Valid()
    ensures Frames(c, [e] + es) == Frame(c, e) + Frames(c, es)
  {
    hide Frame;
    assert ([e] + es)[0] == e && ([e] + es)[1..] == es;
  }

  lemma {:induction false} FramesConcat<E(!new)>(c: Codec<E>, a: seq<E>, b: seq<E>)
    requires c.Valid()
    ensures Frames(c, a + b) == Frames(c, a) + Frames(c, b)
  {
    if a == [] {
      assert a + b == b;
    } else {
      hide Frame, Frames;
      var first, rest := a[0], a[1..];
      FramesConcat(c, rest, b);
      FramesCons(c, first, rest + b);
      FramesCons(c, first, rest);
      assert [first] + rest == a && [first] + (rest + b) == a + b;
      Assoc(Frame(c, first), Frames(c, rest), Frames(c, b));
    }
  }

  lemma {:induction false} SumsConcat<E(!new)>(c: Codec<E>, a: seq<E>, b: seq<E>)
    ensures Sums(c, a + b) == Sums(c, a) + Sums(c, b)
  {
    hide SumOf;
    if a == [] {
      assert a + b == b;
    } else {
      SumsConcat(c, a[1..], b);
      assert (a + b)[1..] == a[1..] + b && (a + b)[0] == a[0];
      Assoc(SumOf(c.encode(a[0])), Sums(c, a[1..]), Sums(c, b));
    }
  }

  // ---- Recovery ----

  datatype Report<E> = Report(delivered: seq<E>, dropped: nat)

  /** The next checksum of the sidecar, if the sidecar is there and long enough. */
  function NextSum(crc: Option<seq<byte>>): (Option<seq<byte>>, Option<seq<byte>>) {
    match crc
    case None => (None, None)
    case Some(f) => if |f| < 4 then (None, Some([])) else (Some(f[..4]), Some(f[4..]))
  }

  function Recover<E(!new)>(c: Codec<E>, bin: seq<byte>, crc: Option<seq<byte>>): Report<E>
    decreases |bin|
  {
    if |bin| < 4 then Report([], 0)
    else
      var len := FromLe32(bin[..4]);
      if |bin| < 4 + len then Report([], 1)
      else
        var record := bin[4..4 + len];
        var (sum, crc') := NextSum(crc);
        var rest := Recover(c, bin[4 + len..], crc');
        if sum.Some? && sum.value != SumOf(record) then rest.(dropped := rest.dropped + 1)
        else
          match c.decode(record)
          case Some(e) => rest.(delivered := [e] + rest.delivered)
          case None => rest.(dropped := rest.dropped + 1)
  }

  ghost function Joined<E>(a: Report<E>, b: Report<E>): Report<E> {
    Report(a.delivered + b.delivered, a.dropped + b.dropped)
  }

  lemma NothingMore<E>(a: Report<E>, dropped: nat)
    ensures Joined(a, Report([], dropped)) == a.(dropped := a.dropped + dropped)
  {
    assert a.delivered + [] == a.delivered;
  }

  /** The report with one more record in front of it. */
  ghost function Counted<E(!new)>(c: Codec<E>, sum: Option<seq<byte>>, body: seq<byte>, rest: Report<E>): Report<E> {
    if sum.Some? && sum.value != SumOf(body) then rest.(dropped := rest.dropped + 1)
    else
      match c.decode(body)
      case Some(e) => rest.(delivered := [e] + rest.delivered)
      case None => rest.(dropped := rest.dropped + 1)
  }

  lemma RecoverUnfold<E(!new)>(c: Codec<E>, bin: seq<byte>, crc: Option<seq<byte>>)
    requires |bin| >= 4
    ensures var len := FromLe32(bin[..4]);
            Recover(c, bin, crc)
            == if |bin| < 4 + len then Report([], 1)
               else Counted(c, NextSum(crc).0, bin[4..4 + len], Recover(c, bin[4 + len..], NextSum(crc).1))
  {
    hide FromLe32, SumOf, NextSum;
  }

  lemma RecoverEnd<E(!new)>(c: Codec<E>, bin: seq<byte>, crc: Option<seq<byte>>)
    requires |bin| < 4
    ensures Recover(c, bin, crc) == Report([], 0)
  {}

  /** The consumer's answers: it accepts or refuses the n-th record handed to it. */
  type Consumer = nat -> bool

  function FirstRefusal(accepts: Consumer, limit: nat): (n: nat)
    ensures n <= limit && (n < limit ==> !accepts(n)) && forall i :: 0 <= i < n ==> accepts(i)
  {
    if limit == 0 then 0
    else
      var n := FirstRefusal(accepts, limit - 1);
      if n < limit - 1 || !accepts(n) then n else limit
  }

  datatype Outcome<E> = Done(report: Report<E>) | Stopped(consumed: seq<E>)

  /** Recovery ends early, with an error, at the first record the consumer refuses. */
  method RecoverOne<E(!new)>(c: Codec<E>, bin: seq<byte>, crc: Option<seq<byte>>, accepts: Consumer) returns (r: Outcome<E>)
    ensures var full := Recover(c, bin, crc);
            var n := FirstRefusal(accepts, |full.delivered|);
            r == if n == |full.delivered| then Done(full) else Stopped(full.delivered[..n])
  {
    ghost var goal := Recover(c, bin, crc);
    r := RecoverLoop(c, bin, crc, accepts, goal);
  }

  method RecoverLoop<E(!new)>(c: Codec<E>, bin: seq<byte>, crc: Option<seq<byte>>, accepts: Consumer, ghost goal: Report<E>)
    returns (r: Outcome<E>)
    requires goal == Recover(c, bin, crc)
    ensures var n := FirstRefusal(accepts, |goal.delivered|);
            r == if n == |goal.delivered| then Done(goal) else Stopped(goal.delivered[..n])
  {
    hide FromLe32, SumOf, FirstRefusal, NextSum, Recover;
    var report := Report([], 0);
    var unread, side := bin, crc;
    assert [] + goal.delivered == goal.delivered;
    while |unread| >= 4
      invariant goal == Joined(report, Recover(c, unread, side))
      invariant forall i :: 0 <= i < |report.delivered| ==> accepts(i)
      decreases |unread|
    {
      RecoverUnfold(c, unread, side);
      var len := FromLe32(unread[..4]);
      if |unread| < 4 + len {
        NothingMore(report, 1);
        return Done(report.(dropped := report.dropped + 1));
      }
      var record := unread[4..4 + len];
      var (sum, side') := NextSum(side);
      var actual := SumOf(record);
      ghost var rest := Recover(c, unread[4 + len..], side');
      unread, side := unread[4 + len..], side';
      if sum.Some? && sum.value != actual {
        report := report.(dropped := report.dropped + 1);
        continue;
      }
      match c.decode(record)
      case Some(e) =>
        Assoc(report.delivered, [e], rest.delivered);
        if !accepts(|report.delivered|) {
          assert goal.delivered[..|report.delivered|] == report.delivered;
          return Stopped(report.delivered);
        }
        report := report.(delivered := report.delivered + [e]);
      case None =>
        report := report.(dropped := report.dropped + 1);
    }
    RecoverEnd(c, unread, side);
    NothingMore(report, 0);
    return Done(report);
  }

  // ---- What recovery finds ----

  /** A whole record is read as such, whatever follows it. */
  lemma RecoverRecord<E(!new)>(c: Codec<E>, body: seq<byte>, tail: seq<byte>, crc: Option<seq<byte>>)
    requires |body| < U32_SPAN
    ensures Recover(c, Le32(|body|) + body + tail, crc)
         == Counted(c, NextSum(crc).0, body, Recover(c, tail, NextSum(crc).1))
  {
    hide Le32, FromLe32, SumOf;
    var bin := Le32(|body|) + body + tail;
    Le32RoundTrip(|body|);
    assert bin[..4] == Le32(|body|);
    assert bin[4..4 + |body|] == body;
    assert bin[4 + |body|..] == tail;
  }

  /** A record cut short after its header is dropped; one cut inside its header goes unnoticed. */
  lemma RecoverTorn<E(!new)>(c: Codec<E>, e: E, cut: nat, crc: Option<seq<byte>>)
    requires c.Valid() && cut < |Frame(c, e)|
    ensures Recover(c, Frame(c, e)[..cut], crc) == Report([], if cut >= 4 then 1 else 0)
  {
    hide Le32, FromLe32, SumOf;
    var bin := Frame(c, e)[..cut];
    if cut >= 4 {
      Le32RoundTrip(|c.encode(e)|);
      assert bin[..4] == Le32(|c.encode(e)|);
    }
  }

  /** How many whole records the first `cut` bytes of the record file hold. */
  ghost function WholeRecords<E(!new)>(c: Codec<E>, es: seq<E>, cut: nat): (k: nat)
    requires c.Valid()
    ensures k <= |es|
  {
    if es == [] || cut < |Frame(c, es[0])| then 0 else 1 + WholeRecords(c, es[1..], cut - |Frame(c, es[0])|)
  }

  /** It is the longest run of records that ends at or before the cut. */
  lemma {:induction false} WholeRecordsLongest<E(!new)>(c: Codec<E>, es: seq<E>, cut: nat, n: nat)
    requires c.Valid() && n <= |es|
    ensures |Frames(c, es[..n])| <= cut <==> n <= WholeRecords(c, es, cut)
  {
    hide Frame;
    if n > 0 {
      var f := |Frame(c, es[0])|;
      assert es[..n][0] == es[0] && es[..n][1..] == es[1..][..n - 1];
      if cut >= f {
        WholeRecordsLongest(c, es[1..], cut - f, n - 1);
      }
    }
  }

  /** Bytes beyond the last whole record before the cut. */
  ghost function TornBytes<E(!new)>(c: Codec<E>, es: seq<E>, cut: nat): nat
    requires c.Valid()
  {
    WholeRecordsLongest(c, es, cut, WholeRecords(c, es, cut));
    cut - |Frames(c, es[..WholeRecords(c, es, cut)])|
  }

  lemma TornBytesStep<E(!new)>(c: Codec<E>, es: seq<E>, cut: nat)
    requires c.Valid() && es != [] && cut >= |Frame(c, es[0])|
    ensures TornBytes(c, es, cut) == TornBytes(c, es[1..], cut - |Frame(c, es[0])|)
  {
    hide Frame;
    var k := WholeRecords(c, es[1..], cut - |Frame(c, es[0])|);
    assert es[..k + 1][0] == es[0] && es[..k + 1][1..] == es[1..][..k];
  }

  lemma TornBytesFirst<E(!new)>(c: Codec<E>, es: seq<E>, cut: nat)
    requires c.Valid() && (es == [] || cut < |Frame(c, es[0])|)
    ensures TornBytes(c, es, cut) == cut
  {
    hide Frame;
  }

  /** A sidecar that agrees with the records as far as it reaches. */
  ghost predicate SidecarOf<E(!new)>(c: Codec<E>, es: seq<E>, crc: Option<seq<byte>>) {
    crc.None? || (|crc.value| <= |Sums(c, es)| && crc.value == Sums(c, es)[..|crc.value|])
  }

  lemma SidecarStep<E(!new)>(c: Codec<E>, es: seq<E>, crc: Option<seq<byte>>)
    requires es != [] && SidecarOf(c, es, crc)
    ensures var (sum, crc') := NextSum(crc);
            && (sum.Some? ==> sum.value == SumOf(c.encode(es[0])))
            && SidecarOf(c, es[1..], crc')
  {
    hide SumOf;
    if crc.Some? && |crc.value| >= 4 {
      var s := crc.value;
      assert s[..4] == Sums(c, es)[..4] == SumOf(c.encode(es[0]));
      assert s[4..] == Sums(c, es)[4..|s|] == Sums(c, es[1..])[..|s| - 4];
    }
  }

  /**
   * Crash recovery. Cut the record file at any byte and the sidecar at any byte, or lose the
   * sidecar: recovery delivers exactly the longest run of whole records, in order, and counts
   * one dropped record exactly when the torn tail reaches past its length header.
   */
  lemma {:induction false} CrashRecovery<E(!new)>(c: Codec<E>, es: seq<E>, cut: nat, crc: Option<seq<byte>>)
    requires c.Valid() && cut <= |Frames(c, es)| && SidecarOf(c, es, crc)
    ensures Recover(c, Frames(c, es)[..cut], crc)
         == Report(es[..WholeRecords(c, es, cut)], if TornBytes(c, es, cut) >= 4 then 1 else 0)
    decreases |es|
  {
    hide SumOf, Recover, Le32, NextSum, SidecarOf, TornBytes;
    if es == [] {
      RecoverNothing(c, crc);
      TornBytesFirst(c, es, cut);
    } else if cut < |Frame(c, es[0])| {
      assert Frames(c, es)[..cut] == Frame(c, es[0])[..cut];
      RecoverTorn(c, es[0], cut, crc);
      TornBytesFirst(c, es, cut);
      assert es[..0] == [];
    } else {
      hide Frames, Frame;
      var rest := cut - |Frame(c, es[0])|;
      CutAfterFirst(c, es, cut);
      RecoverRecord(c, c.encode(es[0]), Frames(c, es[1..])[..rest], crc);
      SidecarStep(c, es, crc);
      CrashRecovery(c, es[1..], rest, NextSum(crc).1);
      TornBytesStep(c, es, cut);
      assert es[..WholeRecords(c, es, cut)] == [es[0]] + es[1..][..WholeRecords(c, es[1..], rest)];
    }
  }

  // ---- Any record file at all ----

  /** The bodies of the whole records that any byte string holds, and whether a torn one follows. */
  ghost function BodiesIn(bin: seq<byte>): (r: (seq<seq<byte>>, bool))
    decreases |bin|
  {
    if |bin| < 4 then ([], false)
    else
      var len := FromLe32(bin[..4]);
      if |bin| < 4 + len then ([], true)
      else
        var rest := BodiesIn(bin[4 + len..]);
        ([bin[4..4 + len]] + rest.0, rest.1)
  }

  /** The records among the bodies that pass the sidecar and decode, in order. */
  ghost function Readable<E(!new)>(c: Codec<E>, bodies: seq<seq<byte>>, side: seq<byte>, i: nat): (r: seq<E>)
    ensures |r| <= |bodies|
  {
    if bodies == [] then []
    else
      (if Checks(side, i, bodies[0]) && c.decode(bodies[0]).Some? then [c.decode(bodies[0]).value] else [])
      + Readable(c, bodies[1..], side, i + 1)
  }

  /**
   * Whatever bytes the two files hold, every whole record is either delivered, if the sidecar does not
   * contradict it and it decodes, or counted as dropped, and so is a torn one.
   */
  lemma {:induction false} EveryRecordAccounted<E(!new)>(c: Codec<E>, bin: seq<byte>, side: seq<byte>, i: nat)
    ensures var (bodies, torn) := BodiesIn(bin);
            var d := Readable(c, bodies, side, i);
            Recover(c, bin, Some(Unread(side, i))) == Report(d, |bodies| - |d| + if torn then 1 else 0)
    decreases |bin|
  {
    hide SumOf, FromLe32, Recover, NextSum, Unread;
    if |bin| < 4 {
      RecoverEnd(c, bin, Some(Unread(side, i)));
    } else {
      RecoverUnfold(c, bin, Some(Unread(side, i)));
      var len := FromLe32(bin[..4]);
      if |bin| >= 4 + len {
        var body, rest := bin[4..4 + len], bin[4 + len..];
        EveryRecordAccounted(c, rest, side, i + 1);
        NextUnread(side, i);
        BodiesStep(c, BodiesIn(rest).0, body, side, i);
      }
    }
  }

  lemma BodiesStep<E(!new)>(c: Codec<E>, rest: seq<seq<byte>>, body: seq<byte>, side: seq<byte>, i: nat)
    ensures Readable(c, [body] + rest, side, i)
         == (if Checks(side, i, body) && c.decode(body).Some? then [c.decode(body).value] else []) + Readable(c, rest, side, i + 1)
  {
    hide Checks;
    assert ([body] + rest)[0] == body && ([body] + rest)[1..] == rest;
  }

  // ---- Any sidecar at all ----

  /** Recovery lets record `i` pass: the sidecar does not reach that far, or its bytes there are the record's checksum. */
  ghost predicate Checks(side: seq<byte>, i: nat, record: seq<byte>) {
    |side| < 4 * i + 4 || side[4 * i..4 * i + 4] == SumOf(record)
  }

  /** The records that pass, the first of them being record `i` of the file. */
  ghost function Survivors<E(!new)>(c: Codec<E>, es: seq<E>, side: seq<byte>, i: nat): (r: seq<E>)
    ensures |r| <= |es|
  {
    if es == [] then []
    else (if Checks(side, i, c.encode(es[0])) then [es[0]] else []) + Survivors(c, es[1..], side, i + 1)
  }

  ghost function Unread(side: seq<byte>, i: nat): seq<byte> {
    if 4 * i <= |side| then side[4 * i..] else []
  }

  lemma NextUnread(side: seq<byte>, i: nat)
    ensures NextSum(Some(Unread(side, i)))
         == (if |side| < 4 * i + 4 then None else Some(side[4 * i..4 * i + 4]), Some(Unread(side, i + 1)))
  {
    if |side| >= 4 * i + 4 {
      assert side[4 * i..][..4] == side[4 * i..4 * i + 4] && side[4 * i..][4..] == side[4 * (i + 1)..];
    }
  }

  /**
   * Whatever bytes the sidecar holds and wherever the record file is cut, recovery delivers exactly
   * the whole records that pass, in order, and counts every other whole record, and a torn one, as dropped.
   */
  lemma {:induction false} AnySidecar<E(!new)>(c: Codec<E>, es: seq<E>, cut: nat, side: seq<byte>, i: nat)
    requires c.Valid() && cut <= |Frames(c, es)|
    ensures var k := WholeRecords(c, es, cut);
            var s := Survivors(c, es[..k], side, i);
            Recover(c, Frames(c, es)[..cut], Some(Unread(side, i)))
            == Report(s, k - |s| + if TornBytes(c, es, cut) >= 4 then 1 else 0)
    decreases |es|
  {
    hide SumOf, Recover, Le32, NextSum, TornBytes, Checks, Unread;
    if es == [] {
      RecoverNothing(c, Some(Unread(side, i)));
      TornBytesFirst(c, es, cut);
    } else if cut < |Frame(c, es[0])| {
      assert Frames(c, es)[..cut] == Frame(c, es[0])[..cut];
      RecoverTorn(c, es[0], cut, Some(Unread(side, i)));
      TornBytesFirst(c, es, cut);
      assert es[..0] == [];
    } else {
      AnySidecarStep(c, es, cut, side, i);
      AnySidecar(c, es[1..], cut - |Frame(c, es[0])|, side, i + 1);
      TornBytesStep(c, es, cut);
    }
  }

  lemma CutAfterFirst<E(!new)>(c: Codec<E>, es: seq<E>, cut: nat)
    requires c.Valid() && es != [] && |Frame(c, es[0])| <= cut <= |Frames(c, es)|
    ensures cut - |Frame(c, es[0])| <= |Frames(c, es[1..])|
    ensures Frames(c, es)[..cut] == Le32(|c.encode(es[0])|) + c.encode(es[0]) + Frames(c, es[1..])[..cut - |Frame(c, es[0])|]
  {
    hide Le32;
  }

  lemma SurvivorsFirst<E(!new)>(c: Codec<E>, es: seq<E>, k: nat, side: seq<byte>, i: nat)
    requires es != [] && k < |es|
    ensures Survivors(c, es[..k + 1], side, i)
         == (if Checks(side, i, c.encode(es[0])) then [es[0]] else []) + Survivors(c, es[1..][..k], side, i + 1)
  {
    hide Checks;
    assert es[..k + 1][0] == es[0] && es[..k + 1][1..] == es[1..][..k];
  }

  lemma AnySidecarStep<E(!new)>(c: Codec<E>, es: seq<E>, cut: nat, side: seq<byte>, i: nat)
    requires c.Valid() && es != [] && |Frame(c, es[0])| <= cut <= |Frames(c, es)|
    ensures var rest := cut - |Frame(c, es[0])|;
            && rest <= |Frames(c, es[1..])|
            && WholeRecords(c, es, cut) == 1 + WholeRecords(c, es[1..], rest)
            && Survivors(c, es[..WholeRecords(c, es, cut)], side, i)
               == (if Checks(side, i, c.encode(es[0])) then [es[0]] else [])
                  + Survivors(c, es[1..][..WholeRecords(c, es[1..], rest)], side, i + 1)
            && var r := Recover(c, Frames(c, es[1..])[..rest], Some(Unread(side, i + 1)));
               Recover(c, Frames(c, es)[..cut], Some(Unread(side, i)))
               == if Checks(side, i, c.encode(es[0])) then r.(delivered := [es[0]] + r.delivered) else r.(dropped := r.dropped + 1)
  {
    hide SumOf, Recover, Le32, NextSum, Checks, Unread, Survivors, Frames;
    var body, rest := c.encode(es[0]), cut - |Frame(c, es[0])|;
    CutAfterFirst(c, es, cut);
    var tail := Frames(c, es[1..])[..rest];
    RecoverRecord(c, body, tail, Some(Unread(side, i)));
    ReadCounted(c, es[0], side, i, Recover(c, tail, Some(Unread(side, i + 1))));
    SurvivorsFirst(c, es, WholeRecords(c, es[1..], rest), side, i);
  }

  lemma ReadCounted<E(!new)>(c: Codec<E>, e: E, side: seq<byte>, i: nat, rest: Report<E>)
    requires c.Valid()
    ensures NextSum(Some(Unread(side, i))).1 == Some(Unread(side, i + 1))
    ensures Counted(c, NextSum(Some(Unread(side, i))).0, c.encode(e), rest)
         == if Checks(side, i, c.encode(e)) then rest.(delivered := [e] + rest.delivered) else rest.(dropped := rest.dropped + 1)
  {
    hide SumOf;
    NextUnread(side, i);
  }

  /** The same for a record file that is not cut. */
  lemma SidecarExact<E(!new)>(c: Codec<E>, es: seq<E>, side: seq<byte>)
    requires c.Valid()
    ensures var s := Survivors(c, es, side, 0);
            Recover(c, Frames(c, es), Some(side)) == Report(s, |es| - |s|)
  {
    hide Recover, Survivors, Frames, WholeRecords, TornBytes;
    var n := |Frames(c, es)|;
    NotCut(c, es);
    assert Frames(c, es)[..n] == Frames(c, es) && Unread(side, 0) == side;
    AnySidecar(c, es, n, side, 0);
  }

  lemma NotCut<E(!new)>(c: Codec<E>, es: seq<E>)
    requires c.Valid()
    ensures es[..|es|] == es && WholeRecords(c, es, |Frames(c, es)|) == |es| && TornBytes(c, es, |Frames(c, es)|) == 0
  {
    hide Frames, WholeRecords;
    assert es[..|es|] == es;
    WholeRecordsLongest(c, es, |Frames(c, es)|, |es|);
  }

  lemma RecoverNothing<E(!new)>(c: Codec<E>, crc: Option<seq<byte>>)
    ensures Recover(c, [], crc) == Report([], 0)
  {}

  /** Without a crash every record comes back and none is counted as dropped. */
  lemma {:induction false} CleanRecovery<E(!new)>(c: Codec<E>, es: seq<E>)
    requires c.Valid()
    ensures Recover(c, Frames(c, es), Some(Sums(c, es))) == Report(es, 0)
  {
    hide SumOf, Recover, Frame;
    var n := |Frames(c, es)|;
    assert Frames(c, es)[..n] == Frames(c, es) && Sums(c, es)[..|Sums(c, es)|] == Sums(c, es);
    CrashRecovery(c, es, n, Some(Sums(c, es)));
    assert es[..|es|] == es;
    WholeRecordsLongest(c, es, n, |es|);
  }

  lemma AloneInFiles<E(!new)>(c: Codec<E>, e: E)
    requires c.Valid()
    ensures Frames(c, [e]) == Frame(c, e) && Sums(c, [e]) == SumOf(c.encode(e))
  {
    hide SumOf, Frame;
    assert [e][1..] == [];
    assert Frame(c, e) + [] == Frame(c, e) && SumOf(c.encode(e)) + [] == SumOf(c.encode(e));
  }

  lemma Appended<E(!new)>(c: Codec<E>, es: seq<E>, e: E)
    requires c.Valid()
    ensures Frames(c, es + [e]) == Frames(c, es) + (Le32(|c.encode(e)|) + c.encode(e))
    ensures Sums(c, es + [e]) == Sums(c, es) + SumOf(c.encode(e))
    ensures forall n :: 0 <= n <= |es| ==> (es + [e])[..n] == es[..n]
  {
    hide SumOf, Le32, Frames, Sums;
    FramesConcat(c, es, [e]);
    SumsConcat(c, es, [e]);
    AloneInFiles(c, e);
  }

  /**
   * Durability. If all but `pending` records are durable in both files, a crash that cuts each
   * file anywhere past its durable part costs at most the last `pending` records.
   */
  lemma DurabilityWindow<E(!new)>(c: Codec<E>, es: seq<E>, pending: nat, cut: nat, crcCut: nat)
    requires c.Valid() && pending <= |es|
    requires |Frames(c, es[..|es| - pending])| <= cut <= |Frames(c, es)| && crcCut <= |Sums(c, es)|
    ensures var r := Recover(c, Frames(c, es)[..cut], Some(Sums(c, es)[..crcCut]));
            && r.delivered <= es && |es| - |r.delivered| <= pending && r.dropped <= 1
  {
    hide SumOf, Recover, Frame;
    CrashRecovery(c, es, cut, Some(Sums(c, es)[..crcCut]));
    WholeRecordsLongest(c, es, cut, |es| - pending);
  }

  /** Reading the records `pre` off the front of both files. */
  lemma {:induction false} RecoverPrefix<E(!new)>(c: Codec<E>, pre: seq<E>, bin: seq<byte>, crc: seq<byte>)
    requires c.Valid()
    ensures Recover(c, Frames(c, pre) + bin, Some(Sums(c, pre) + crc))
         == Joined(Report(pre, 0), Recover(c, bin, Some(crc)))
    decreases |pre|
  {
    hide SumOf, Recover;
    if pre == [] {
      assert Frames(c, pre) + bin == bin && Sums(c, pre) + crc == crc;
      var r := Recover(c, bin, Some(crc));
      assert [] + r.delivered == r.delivered;
    } else {
      var body := c.encode(pre[0]);
      var tail, side := Frames(c, pre[1..]) + bin, Sums(c, pre[1..]) + crc;
      assert Frames(c, pre) + bin == Le32(|body|) + body + tail;
      var all := Sums(c, pre) + crc;
      assert all[..4] == SumOf(body) && all[4..] == side;
      RecoverRecord(c, body, tail, Some(all));
      RecoverPrefix(c, pre[1..], bin, crc);
      var r := Recover(c, bin, Some(crc));
      assert [pre[0]] + (pre[1..] + r.delivered) == pre + r.delivered;
    }
  }

  /** Intact leading records are delivered, whatever follows them in either file. */
  lemma PrefixSurvives<E(!new)>(c: Codec<E>, pre: seq<E>, bin: seq<byte>, crc: seq<byte>)
    requires c.Valid() && Frames(c, pre) <= bin && Sums(c, pre) <= crc
    ensures pre <= Recover(c, bin, Some(crc)).delivered
  {
    hide Recover, Frames, Sums;
    var b, s := |Frames(c, pre)|, |Sums(c, pre)|;
    assert bin == Frames(c, pre) + bin[b..] && crc == Sums(c, pre) + crc[s..];
    RecoverPrefix(c, pre, bin[b..], crc[s..]);
  }

  /** `good` with the bytes from `at` on replaced by `x`. */
  ghost function Damaged(good: seq<byte>, at: nat, x: seq<byte>): (bad: seq<byte>)
    requires at + |x| <= |good|
    ensures |bad| == |good|
  {
    good[..at] + x + good[at + |x|..]
  }

  /**
   * Corruption. With the length headers and the sidecar intact, a record body changed only inside
   * a window of at most four bytes is dropped, and every other record is delivered in order.
   */
  lemma CorruptBodyDropped<E(!new)>(c: Codec<E>, pre: seq<E>, e: E, post: seq<E>, at: nat, x: seq<byte>, body: seq<byte>)
    requires c.Valid() && |x| <= 4 && at + |x| <= |c.encode(e)|
    requires body == Damaged(c.encode(e), at, x) && body != c.encode(e)
    ensures Recover(c, Frames(c, pre) + (Le32(|body|) + body + Frames(c, post)), Some(Sums(c, pre + [e] + post)))
         == Report(pre + post, 1)
  {
    hide SumOf, Recover, Le32, Frame, Frames, Sums, Counted, NextSum;
    var good, side := c.encode(e), SumOf(c.encode(e)) + Sums(c, post);
    DamageShows(good, at, x, body);
    SumsAround(c, pre, e, post);
    RecoverPrefix(c, pre, Le32(|body|) + body + Frames(c, post), side);
    RecoverRecord(c, body, Frames(c, post), Some(side));
    CleanRecovery(c, post);
    OneDropped(c, good, body, Sums(c, post), Recover(c, Frames(c, post), Some(Sums(c, post))));
  }

  lemma DamageShows(good: seq<byte>, at: nat, x: seq<byte>, body: seq<byte>)
    requires |x| <= 4 && at + |x| <= |good| && body == Damaged(good, at, x) && body != good
    ensures SumOf(body) != SumOf(good)
  {
    hide SumOf;
    var left, was, right := good[..at], good[at..at + |x|], good[at + |x|..];
    assert good == left + was + right;
    BurstChangesSum(left, was, x, right);
  }

  lemma SumsAround<E(!new)>(c: Codec<E>, pre: seq<E>, e: E, post: seq<E>)
    requires c.Valid()
    ensures Sums(c, pre + [e] + post) == Sums(c, pre) + (SumOf(c.encode(e)) + Sums(c, post))
  {
    hide SumOf, Sums, Frame, Frames;
    SumsConcat(c, pre + [e], post);
    SumsConcat(c, pre, [e]);
    AloneInFiles(c, e);
    Assoc(Sums(c, pre), SumOf(c.encode(e)), Sums(c, post));
  }

  /** A record whose checksum is another's is dropped, and the sidecar goes on with the next one. */
  lemma OneDropped<E(!new)>(c: Codec<E>, good: seq<byte>, body: seq<byte>, sums: seq<byte>, rest: Report<E>)
    requires SumOf(body) != SumOf(good)
    ensures var (sum, crc') := NextSum(Some(SumOf(good) + sums));
            crc' == Some(sums) && Counted(c, sum, body, rest) == rest.(dropped := rest.dropped + 1)
  {
    hide SumOf;
    var side := SumOf(good) + sums;
    assert side[..4] == SumOf(good) && side[4..] == sums;
  }

  // ---- A sidecar write that failed ----

  /** The records whose checksum equals that of the record after them, and the last record. */
  ghost function Lucky<E(!new)>(c: Codec<E>, es: seq<E>): (r: seq<E>)
    ensures |r| <= |es|
  {
    if |es| <= 1 then es
    else (if SumOf(c.encode(es[0])) == SumOf(c.encode(es[1])) then [es[0]] else []) + Lucky(c, es[1..])
  }

  /**
   * If the checksum of `es[0]` never reached the sidecar, every record is compared with the checksum
   * of the one after it: all acknowledged records that differ from it in checksum are dropped.
   */
  lemma {:induction false} SlippedSidecar<E(!new)>(c: Codec<E>, es: seq<E>)
    requires c.Valid() && es != []
    ensures Recover(c, Frames(c, es), Some(Sums(c, es[1..]))) == Report(Lucky(c, es), |es| - |Lucky(c, es)|)
    decreases |es|
  {
    hide SumOf, Recover, Le32;
    var body, tail, side := c.encode(es[0]), Frames(c, es[1..]), Sums(c, es[1..]);
    assert Frames(c, es) == Le32(|body|) + body + tail;
    RecoverRecord(c, body, tail, Some(side));
    if |es| == 1 {
      assert tail == [];
      RecoverNothing(c, NextSum(Some(side)).1);
    } else {
      assert side[..4] == SumOf(c.encode(es[1])) && side[4..] == Sums(c, es[1..][1..]);
      SlippedSidecar(c, es[1..]);
    }
  }
}
