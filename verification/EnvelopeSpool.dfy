/**
 * The envelope spool of the batching sink (crates/obs-sink-batch/src/spool.rs): one framed
 * file per failed batch, read all or nothing, evicted oldest first to a byte cap.
 */
module EnvelopeSpool {
  import opened Bytes

  /** The reader's frame limit; the writer only refuses frames over `u32::MAX`. */
  const MAX_FRAME := 0x4000_0000

  // ---- Framed files ----

  ghost function Frame<E(!new)>(c: Codec<E>, e: E): (f: seq<byte>)
    requires c.Valid()
    ensures |f| == 4 + |c.encode(e)|
  {
    Be32(|c.encode(e)|) + c.encode(e)
  }

  ghost function FileBytes<E(!new)>(c: Codec<E>, es: seq<E>): seq<byte>
    requires c.Valid()
  {
    if es == [] then [] else Frame(c, es[0]) + FileBytes(c, es[1..])
  }

  datatype FrameResult<E> = Frame(env: E, consumed: nat) | Short | Invalid

  function DecodeFrame<E(!new)>(c: Codec<E>, buf: seq<byte>): (r: FrameResult<E>)
    ensures r.Frame? ==> 4 <= r.consumed <= |buf|
  {
    if |buf| < 4 then Short
    else
      var len := FromBe32(buf[..4]);
      if len > MAX_FRAME then Invalid
      else if |buf| < 4 + len then Short
      else
        match c.decode(buf[4..4 + len])
        case Some(e) => FrameResult.Frame(e, 4 + len)
        case None => Invalid
  }

  /** The envelopes of a file, or nothing at all if any frame is short or invalid. */
  function ReadFrames<E(!new)>(c: Codec<E>, buf: seq<byte>): Option<seq<E>>
    decreases |buf|
  {
    if buf == [] then Some([])
    else
      match DecodeFrame(c, buf)
      case Short => None
      case Invalid => None
      case Frame(e, n) =>
        match ReadFrames(c, buf[n..])
        case None => None
        case Some(es) => Some([e] + es)
  }

  method ReadFile<E(!new)>(c: Codec<E>, buf: seq<byte>) returns (r: Option<seq<E>>)
    ensures r == ReadFrames(c, buf)
  {
    ghost var goal := ReadFrames(c, buf);
    r := ReadLoop(c, buf, goal);
  }

  method ReadLoop<E(!new)>(c: Codec<E>, buf: seq<byte>, ghost goal: Option<seq<E>>) returns (r: Option<seq<E>>)
    requires goal == ReadFrames(c, buf)
    ensures r == goal
  {
    hide DecodeFrame;
    var envelopes: seq<E>, offset := [], 0;
    assert buf[0..] == buf && (goal.Some? ==> [] + goal.value == goal.value);
    while offset < |buf|
      invariant 0 <= offset <= |buf|
      invariant var rest := ReadFrames(c, buf[offset..]);
                goal == if rest.None? then None else Some(envelopes + rest.value)
    {
      ghost var unread := buf[offset..];
      var f := DecodeFrame(c, buf[offset..]);
      if !f.Frame? {
        return None;
      }
      offset := offset + f.consumed;
      assert unread[f.consumed..] == buf[offset..];
      ghost var rest := ReadFrames(c, buf[offset..]);
      if rest.Some? {
        assert envelopes + ([f.env] + rest.value) == envelopes + [f.env] + rest.value;
      }
      envelopes := envelopes + [f.env];
    }
    assert envelopes + [] == envelopes;
    return Some(envelopes);
  }

  ghost predicate Readable<E(!new)>(c: Codec<E>, es: seq<E>) {
    forall e :: e in es ==> |c.encode(e)| <= 0x4000_0000
  }

  lemma FrameThen<E(!new)>(c: Codec<E>, e: E, rest: seq<byte>)
    requires c.Valid()
    ensures DecodeFrame(c, Frame(c, e) + rest)
         == if |c.encode(e)| <= MAX_FRAME then FrameResult.Frame(e, 4 + |c.encode(e)|) else Invalid
  {
    hide Be32, FromBe32;
    var body := c.encode(e);
    var buf := Frame(c, e) + rest;
    Be32RoundTrip(|body|);
    assert buf[..4] == Be32(|body|) && buf[4..4 + |body|] == body;
  }

  lemma FrameCut<E(!new)>(c: Codec<E>, e: E, cut: nat)
    requires c.Valid() && 0 < cut < |Frame(c, e)|
    ensures !DecodeFrame(c, Frame(c, e)[..cut]).Frame?
  {
    hide Be32, FromBe32;
    if cut >= 4 {
      Be32RoundTrip(|c.encode(e)|);
      assert Frame(c, e)[..cut][..4] == Be32(|c.encode(e)|);
    }
  }

  /**
   * A file reads back exactly when every envelope is within the reader's limit. One envelope
   * over it, which the writer accepts, makes the whole file unreadable.
   */
  lemma {:induction false} ReadBack<E(!new)>(c: Codec<E>, es: seq<E>)
    requires c.Valid()
    ensures ReadFrames(c, FileBytes(c, es)) == if Readable(c, es) then Some(es) else None
    decreases |es|
  {
    hide Frame, DecodeFrame;
    if es != [] {
      var rest := FileBytes(c, es[1..]);
      FrameThen(c, es[0], rest);
      ReadBack(c, es[1..]);
      var buf := Frame(c, es[0]) + rest;
      assert buf[4 + |c.encode(es[0])|..] == rest;
      assert es == [es[0]] + es[1..];
      assert Readable(c, es) <==> |c.encode(es[0])| <= MAX_FRAME && Readable(c, es[1..]);
    }
  }

  ghost function WholeFrames<E(!new)>(c: Codec<E>, es: seq<E>, cut: nat): (k: nat)
    requires c.Valid()
    ensures k <= |es|
  {
    if es == [] || cut < |Frame(c, es[0])| then 0 else 1 + WholeFrames(c, es[1..], cut - |Frame(c, es[0])|)
  }

  /** A truncated file is refused whole, unless the cut falls between two frames. */
  lemma {:induction false} CutFile<E(!new)>(c: Codec<E>, es: seq<E>, cut: nat)
    requires c.Valid() && Readable(c, es) && cut <= |FileBytes(c, es)|
    ensures var k := WholeFrames(c, es, cut);
            ReadFrames(c, FileBytes(c, es)[..cut]) == if cut == |FileBytes(c, es[..k])| then Some(es[..k]) else None
    decreases |es|
  {
    hide Frame, DecodeFrame;
    if es != [] {
      var first := |Frame(c, es[0])|;
      if cut < first {
        assert FileBytes(c, es)[..cut] == Frame(c, es[0])[..cut];
        assert es[..0] == [];
        if cut > 0 {
          FrameCut(c, es[0], cut);
        }
      } else {
        var rest := FileBytes(c, es[1..])[..cut - first];
        var buf := Frame(c, es[0]) + rest;
        assert FileBytes(c, es)[..cut] == buf;
        FrameThen(c, es[0], rest);
        assert buf[first..] == rest;
        CutFile(c, es[1..], cut - first);
        var k := WholeFrames(c, es[1..], cut - first);
        assert es[..k + 1] == [es[0]] + es[1..][..k] && es[..k + 1][1..] == es[1..][..k];
      }
    }
  }

  // ---- Directory entries, oldest first ----

  /** One spool file: its name, creation time, length, and what it holds. */
  datatype Entry<T> = Entry(id: nat, created: int, size: nat, content: T)

  function InsertOldest<T>(f: Entry<T>, s: seq<Entry<T>>): seq<Entry<T>> {
    if s == [] || f.created <= s[0].created then [f] + s else [s[0]] + InsertOldest(f, s[1..])
  }

  /** `sort_by_key` on the creation time; files of equal age keep their directory order. */
  function OldestFirst<T>(files: seq<Entry<T>>): seq<Entry<T>> {
    if files == [] then [] else InsertOldest(files[0], OldestFirst(files[1..]))
  }

  predicate ByAge<T>(s: seq<Entry<T>>) {
    forall i, j :: 0 <= i < j < |s| ==> s[i].created <= s[j].created
  }

  function Total<T>(files: seq<Entry<T>>): nat {
    if files == [] then 0 else files[0].size + Total(files[1..])
  }

  lemma {:induction false} InsertAdds<T>(f: Entry<T>, s: seq<Entry<T>>)
    ensures multiset(InsertOldest(f, s)) == multiset(s) + multiset{f}
    ensures Total(InsertOldest(f, s)) == Total(s) + f.size
    decreases |s|
  {
    if s != [] && f.created > s[0].created {
      InsertAdds(f, s[1..]);
      assert s == [s[0]] + s[1..];
    }
  }

  lemma {:induction false} InsertMembers<T>(f: Entry<T>, s: seq<Entry<T>>)
    ensures forall x :: x in InsertOldest(f, s) ==> x == f || x in s
    decreases |s|
  {
    if s != [] && f.created > s[0].created {
      InsertMembers(f, s[1..]);
    }
  }

  lemma ByAgeCons<T>(x: Entry<T>, t: seq<Entry<T>>)
    requires ByAge(t) && forall y :: y in t ==> x.created <= y.created
    ensures ByAge([x] + t)
  {}

  lemma ByAgeTail<T>(s: seq<Entry<T>>)
    requires s != [] && ByAge(s)
    ensures ByAge(s[1..]) && s == [s[0]] + s[1..] && forall y :: y in s ==> s[0].created <= y.created
  {}

  lemma {:induction false} InsertByAge<T>(f: Entry<T>, s: seq<Entry<T>>)
    requires ByAge(s)
    ensures ByAge(InsertOldest(f, s))
    decreases |s|
  {
    hide ByAge;
    if s != [] {
      ByAgeTail(s);
    }
    if s == [] || f.created <= s[0].created {
      ByAgeCons(f, s);
    } else {
      InsertByAge(f, s[1..]);
      InsertMembers(f, s[1..]);
      ByAgeCons(s[0], InsertOldest(f, s[1..]));
    }
  }

  lemma {:induction false} SortFacts<T>(files: seq<Entry<T>>)
    ensures ByAge(OldestFirst(files))
    ensures multiset(OldestFirst(files)) == multiset(files)
    ensures Total(OldestFirst(files)) == Total(files)
    decreases |files|
  {
    hide InsertOldest, ByAge;
    SortedEmpty<T>();
    if files != [] {
      SortFacts(files[1..]);
      InsertByAge(files[0], OldestFirst(files[1..]));
      InsertAdds(files[0], OldestFirst(files[1..]));
      assert files == [files[0]] + files[1..];
    }
  }

  lemma SortedEmpty<T>()
    ensures ByAge<T>([])
  {}

  ghost function OfAge<T>(files: seq<Entry<T>>, t: int): seq<Entry<T>> {
    if files == [] then [] else Only(files[0], t) + OfAge(files[1..], t)
  }

  ghost function Only<T>(f: Entry<T>, t: int): seq<Entry<T>> {
    if f.created == t then [f] else []
  }

  lemma AgeCons<T>(f: Entry<T>, s: seq<Entry<T>>, t: int)
    ensures OfAge([f] + s, t) == Only(f, t) + OfAge(s, t)
  {
    assert ([f] + s)[1..] == s;
  }

  lemma {:induction false} InsertStable<T>(f: Entry<T>, s: seq<Entry<T>>, t: int)
    requires ByAge(s)
    ensures OfAge(InsertOldest(f, s), t) == Only(f, t) + OfAge(s, t)
    decreases |s|
  {
    hide OfAge, Only, ByAge;
    if s == [] || f.created <= s[0].created {
      AgeCons(f, s, t);
    } else {
      ByAgeTail(s);
      InsertStable(f, s[1..], t);
      AgeCons(s[0], InsertOldest(f, s[1..]), t);
      AgeCons(s[0], s[1..], t);
      OnlySwaps(s[0], f, OfAge(s[1..], t), t);
    }
  }

  lemma OnlySwaps<T>(x: Entry<T>, f: Entry<T>, rest: seq<Entry<T>>, t: int)
    requires x.created != f.created
    ensures Only(x, t) + (Only(f, t) + rest) == Only(f, t) + (Only(x, t) + rest)
  {}

  /** Files of one creation time keep their directory order. */
  lemma {:induction false} SortStable<T>(files: seq<Entry<T>>, t: int)
    ensures OfAge(OldestFirst(files), t) == OfAge(files, t)
    decreases |files|
  {
    hide InsertOldest, ByAge;
    if files != [] {
      SortFacts(files[1..]);
      SortStable(files[1..], t);
      InsertStable(files[0], OldestFirst(files[1..]), t);
    }
  }

  // ---- Eviction ----

  datatype Eviction<T> = Eviction(evicted: seq<Entry<T>>, kept: seq<Entry<T>>)

  function EvictFrom<T>(sorted: seq<Entry<T>>, size: nat, cap: nat): Eviction<T>
    decreases |sorted|
  {
    if size <= cap || sorted == [] then Eviction([], sorted)
    else
      var left := if sorted[0].size <= size then size - sorted[0].size else 0;
      var rest := EvictFrom(sorted[1..], left, cap);
      Eviction([sorted[0]] + rest.evicted, rest.kept)
  }

  function EvictToCap<T>(files: seq<Entry<T>>, cap: nat): Eviction<T> {
    if Total(files) <= cap then Eviction([], files) else EvictFrom(OldestFirst(files), Total(files), cap)
  }

  /** Above the cap the oldest file goes, and the rest is evicted to the cap. */
  lemma EvictStep<T>(sorted: seq<Entry<T>>, cap: nat)
    requires Total(sorted) > cap
    ensures sorted != []
    ensures var rest := EvictFrom(sorted[1..], Total(sorted[1..]), cap);
            EvictFrom(sorted, Total(sorted), cap) == Eviction([sorted[0]] + rest.evicted, rest.kept)
  {}

  lemma EvictNone<T>(sorted: seq<Entry<T>>, cap: nat)
    requires Total(sorted) <= cap
    ensures EvictFrom(sorted, Total(sorted), cap) == Eviction([], sorted)
  {}

  lemma {:induction false} EvictFromFacts<T>(sorted: seq<Entry<T>>, cap: nat)
    ensures var ev := EvictFrom(sorted, Total(sorted), cap);
            ev.evicted + ev.kept == sorted && Total(ev.kept) <= cap
    decreases |sorted|
  {
    hide EvictFrom, Total;
    if Total(sorted) > cap {
      EvictStep(sorted, cap);
      EvictFromFacts(sorted[1..], cap);
      var rest := EvictFrom(sorted[1..], Total(sorted[1..]), cap);
      Assoc([sorted[0]], rest.evicted, rest.kept);
      assert [sorted[0]] + sorted[1..] == sorted;
    } else {
      EvictNone(sorted, cap);
      assert [] + sorted == sorted;
    }
  }

  lemma {:induction false} EvictFromShortest<T>(sorted: seq<Entry<T>>, cap: nat, k: nat)
    requires k < |EvictFrom(sorted, Total(sorted), cap).evicted|
    ensures k <= |sorted| && Total(sorted[k..]) > cap
    decreases |sorted|
  {
    hide EvictFrom, Total;
    if Total(sorted) <= cap {
      EvictNone(sorted, cap);
    } else if k == 0 {
      assert sorted[0..] == sorted;
    } else {
      EvictStep(sorted, cap);
      EvictFromShortest(sorted[1..], cap, k - 1);
      assert sorted[k..] == sorted[1..][k - 1..];
    }
  }

  lemma OlderFirst<T>(sorted: seq<Entry<T>>, a: seq<Entry<T>>, b: seq<Entry<T>>)
    requires ByAge(sorted) && a + b == sorted
    ensures forall x, y :: x in a && y in b ==> x.created <= y.created
  {
    forall x, y | x in a && y in b
      ensures x.created <= y.created
    {
      var i :| 0 <= i < |a| && a[i] == x;
      var j :| 0 <= j < |b| && b[j] == y;
      assert sorted[i] == x && sorted[|a| + j] == y;
    }
  }

  lemma PartsAddUp<T>(a: seq<T>, b: seq<T>, all: seq<T>)
    requires a + b == all
    ensures multiset(a) + multiset(b) == multiset(all) && a <= all
  {}

  /** Eviction removes the shortest oldest-first run that brings the directory within the cap. */
  lemma EvictionMinimal<T>(files: seq<Entry<T>>, cap: nat)
    ensures var ev := EvictToCap(files, cap);
            && multiset(ev.evicted) + multiset(ev.kept) == multiset(files)
            && Total(ev.kept) <= cap
            && ev.evicted <= OldestFirst(files)
            && (forall k :: 0 <= k < |ev.evicted| ==> Total(OldestFirst(files)[k..]) > cap)
            && (forall old_, young :: old_ in ev.evicted && young in ev.kept ==> old_.created <= young.created)
  {
    hide EvictFrom, OldestFirst, Total, ByAge;
    if Total(files) > cap {
      var sorted := OldestFirst(files);
      SortFacts(files);
      EvictFromFacts(sorted, cap);
      var ev := EvictFrom(sorted, Total(sorted), cap);
      PartsAddUp(ev.evicted, ev.kept, sorted);
      OlderFirst(sorted, ev.evicted, ev.kept);
      forall k | 0 <= k < |ev.evicted|
        ensures Total(sorted[k..]) > cap
      {
        EvictFromShortest(sorted, cap, k);
      }
    }
  }

  // ---- The spool ----

  datatype Record<E> = Record(id: nat, envelopes: seq<E>)

  type SpoolFile = Entry<seq<byte>>

  /** The records `list` returns for directory entries taken in the given order. */
  function Records<E(!new)>(c: Codec<E>, s: seq<SpoolFile>): seq<Record<E>> {
    if s == [] then []
    else
      var rest := Records(c, s[1..]);
      match ReadFrames(c, s[0].content)
      case Some(es) => [Record(s[0].id, es)] + rest
      case None => rest
  }

  /** The directory without the files `list` deletes as corrupt. */
  function Intact<E(!new)>(c: Codec<E>, files: seq<SpoolFile>): seq<SpoolFile> {
    if files == [] then []
    else (if ReadFrames(c, files[0].content).Some? then [files[0]] else []) + Intact(c, files[1..])
  }

  function Without(files: seq<SpoolFile>, id: nat): seq<SpoolFile> {
    if files == [] then []
    else (if files[0].id == id then [] else [files[0]]) + Without(files[1..], id)
  }

  function Named(files: seq<SpoolFile>, id: nat): seq<SpoolFile> {
    if files == [] then []
    else (if files[0].id == id then [files[0]] else []) + Named(files[1..], id)
  }

  /** The file holds, framed, the batch written under its name. */
  ghost predicate Holds<E(!new)>(c: Codec<E>, f: SpoolFile, written: map<nat, seq<E>>)
    requires c.Valid()
  {
    f.id in written && f.content == FileBytes(c, written[f.id]) && f.size == |f.content|
  }

  /** How many files have this name. */
  ghost function Uses(files: seq<SpoolFile>, id: nat): nat {
    if files == [] then 0 else (if files[0].id == id then 1 else 0) + Uses(files[1..], id)
  }

  ghost function Names(files: seq<SpoolFile>): set<nat> {
    set f | f in files :: f.id
  }

  ghost function In(s: set<nat>, id: nat): nat {
    if id in s then 1 else 0
  }

  /** What became of the names written so far. */
  ghost predicate OnePlace(files: seq<SpoolFile>, failed: seq<SpoolFile>, removed: set<nat>, evicted: set<nat>, dropped: set<nat>,
                           written: set<nat>, id: nat) {
    Uses(files, id) + Uses(failed, id) + In(removed, id) + In(evicted, id) + In(dropped, id) == In(written, id)
  }

  class Spool<E(!new)> {
    const codec: Codec<E>
    const maxBytes: nat

    var files: seq<SpoolFile>
    var failed: seq<SpoolFile>
    var nextId: nat

    // The batch written under each file name, and the names that are gone: removed after a re-ship,
    // evicted to the cap, dropped as unreadable.
    ghost var written: map<nat, seq<E>>
    ghost var removed: set<nat>
    ghost var evicted: set<nat>
    ghost var dropped: set<nat>

    /** Every file holds its batch, and every name ever written is in exactly one of the five places, once. */
    ghost predicate Valid()
      reads this
    {
      && codec.Valid()
      && (forall f :: f in files ==> Holds(codec, f, written))
      && (forall f :: f in failed ==> Holds(codec, f, written))
      && (forall id :: id in written ==> id < nextId)
      && (forall id :: OnePlace(files, failed, removed, evicted, dropped, written.Keys, id))
    }

    constructor (codec: Codec<E>, maxBytes: nat)
      requires codec.Valid()
      ensures Valid() && files == [] && failed == [] && written == map[] && this.codec == codec && this.maxBytes == maxBytes
    {
      this.codec, this.maxBytes := codec, maxBytes;
      files, failed, nextId, written := [], [], 0, map[];
      removed, evicted, dropped := {}, {}, {};
    }

    /** A new file, then eviction over the whole directory, the new file included. */
    method Write(envs: seq<E>, created: int) returns (id: nat)
      requires Valid()
      modifies this
      ensures Valid() && id == old(nextId) && nextId == id + 1 && written == old(written)[id := envs]
      ensures failed == old(failed) && removed == old(removed) && dropped == old(dropped)
      ensures var buf := FileBytes(codec, envs);
              var ev := EvictToCap(old(files) + [Entry(id, created, |buf|, buf)], maxBytes);
              files == ev.kept && evicted == old(evicted) + Names(ev.evicted)
    {
      hide FileBytes, EvictToCap, OldestFirst, Total, OnePlace, Names, Holds;
      var buf := FrameAll(envs);
      id := nextId;
      var f := Entry(id, created, |buf|, buf);
      files := files + [f];
      ghost var ev := EvictToCap(files, maxBytes);
      EvictFiles();
      nextId := id + 1;
      written := written[id := envs];
      evicted := evicted + Names(ev.evicted);
      HoldsStill(codec, old(files), old(failed), old(written), f, envs);
      KeptHolds(codec, old(files) + [f], maxBytes, written);
      forall k
        ensures OnePlace(files, failed, removed, evicted, dropped, written.Keys, k)
      {
        WritePlaces(old(files), failed, removed, old(evicted), dropped, old(written).Keys, f, maxBytes, k);
      }
    }

    /** Delete the oldest file until the running size is within the cap. */
    method EvictFiles()
      modifies this`files
      ensures files == EvictToCap(old(files), maxBytes).kept
    {
      hide OldestFirst, Total;
      var size: nat := Total(files);
      if size <= maxBytes {
        return;
      }
      files := OldestFirst(files);
      ghost var goal := EvictFrom(files, size, maxBytes).kept;
      while size > maxBytes && files != []
        invariant EvictFrom(files, size, maxBytes).kept == goal
        decreases |files|
      {
        size := if files[0].size <= size then size - files[0].size else 0;
        files := files[1..];
      }
    }

    method FrameAll(envs: seq<E>) returns (buf: seq<byte>)
      requires codec.Valid()
      ensures buf == FileBytes(codec, envs)
    {
      hide Be32;
      buf := [];
      for i := 0 to |envs|
        invariant buf == FileBytes(codec, envs[..i])
      {
        var body := codec.encode(envs[i]);
        buf := buf + (Be32(|body|) + body);
        FileBytesSnoc(codec, envs[..i], envs[i]);
        assert envs[..i] + [envs[i]] == envs[..i + 1];
      }
      assert envs[..|envs|] == envs;
    }

    /**
     * Oldest first; files that do not read back whole are deleted. The records are exactly the
     * batches written and not removed, evicted, dropped or moved to the failed tree.
     */
    method List() returns (records: seq<Record<E>>)
      requires Valid()
      modifies this`files, this`dropped
      ensures Valid() && files == Intact(codec, old(files)) && dropped == old(dropped) + Names(Broken(codec, old(files)))
      ensures records == Batches(Intact(codec, OldestFirst(old(files))), written)
      ensures forall id :: (exists r :: r in records && r.id == id)
                      <==> id in written && id !in removed && id !in evicted && id !in dropped && id !in Names(failed)
      ensures forall r :: r in records ==> r.envelopes == written[r.id]
    {
      hide ReadFrames, OldestFirst, Holds, Batches, OnePlace, Names, Intact, Broken;
      records := ReadAll();
      ghost var sorted := OldestFirst(files);
      AllSorted(codec, files, written);
      ListExact(codec, sorted, written);
      files, dropped := Intact(codec, files), dropped + Names(Broken(codec, files));
      IntactSubset(codec, old(files));
      forall k
        ensures OnePlace(files, failed, removed, evicted, dropped, written.Keys, k)
        ensures (exists r :: r in records && r.id == k)
           <==> k in written && k !in removed && k !in evicted && k !in dropped && k !in Names(failed)
      {
        ListPlaces(codec, old(files), failed, removed, evicted, old(dropped), written.Keys, k);
        Listed(codec, old(files), written, k);
        ListedIff(files, failed, removed, evicted, dropped, written.Keys, k);
      }
      BatchesTrue(Intact(codec, sorted), written);
      assert forall r :: r in records ==> r.id in written;
    }

    method ReadAll() returns (records: seq<Record<E>>)
      ensures records == Records(codec, OldestFirst(files))
    {
      hide ReadFrames, OldestFirst;
      var entries := OldestFirst(files);
      records := [];
      assert entries[0..] == entries;
      for i := 0 to |entries|
        invariant records + Records(codec, entries[i..]) == Records(codec, entries)
      {
        var r := ReadFile(codec, entries[i].content);
        assert entries[i..][1..] == entries[i + 1..];
        if r.Some? {
          ghost var rest := Records(codec, entries[i + 1..]);
          var rec := Record(entries[i].id, r.value);
          assert records + ([rec] + rest) == records + [rec] + rest;
          records := records + [rec];
        }
      }
      assert entries[|entries|..] == [] && records + [] == records;
    }

    /** Remove one file after a successful re-ship; a name that is gone already is fine. */
    method Remove(id: nat)
      requires Valid()
      modifies this`files, this`removed
      ensures Valid() && files == Without(old(files), id) && removed == old(removed) + Names(Named(old(files), id))
    {
      hide Holds, OnePlace, Names, Without, Named;
      WithoutSubset(files, id);
      removed := removed + Names(Named(files, id));
      files := Without(files, id);
      forall k
        ensures OnePlace(files, failed, removed, evicted, dropped, written.Keys, k)
      {
        RemovePlaces(old(files), failed, old(removed), evicted, dropped, written.Keys, id, k);
      }
    }

    method MoveToFailed(id: nat) returns (moved: bool)
      requires Valid()
      modifies this`files, this`failed
      ensures Valid() && moved == (Named(old(files), id) != [])
      ensures files == Without(old(files), id) && failed == old(failed) + Named(old(files), id)
    {
      hide Holds, OnePlace, Without, Named;
      WithoutSubset(files, id);
      var hit := Named(files, id);
      failed := failed + hit;
      files := Without(files, id);
      moved := hit != [];
      forall k
        ensures OnePlace(files, failed, removed, evicted, dropped, written.Keys, k)
      {
        MovePlaces(old(files), old(failed), removed, evicted, dropped, written.Keys, id, k);
      }
    }
  }

  // ---- Names ----

  lemma {:induction false} UsesConcat(a: seq<SpoolFile>, b: seq<SpoolFile>, id: nat)
    ensures Uses(a + b, id) == Uses(a, id) + Uses(b, id)
    decreases |a|
  {
    if a == [] {
      assert a + b == b;
    } else {
      assert (a + b)[0] == a[0] && (a + b)[1..] == a[1..] + b;
      UsesConcat(a[1..], b, id);
    }
  }

  lemma UsesOne(f: SpoolFile, id: nat)
    ensures Uses([f], id) == if f.id == id then 1 else 0
  {
    assert [f][1..] == [];
  }

  lemma {:induction false} UsesNames(files: seq<SpoolFile>, id: nat)
    ensures Uses(files, id) > 0 <==> id in Names(files)
    decreases |files|
  {
    if files != [] {
      UsesNames(files[1..], id);
      assert files == [files[0]] + files[1..];
    }
  }

  lemma {:induction false} UsesInsert(f: SpoolFile, s: seq<SpoolFile>, id: nat)
    ensures Uses(InsertOldest(f, s), id) == Uses(s, id) + if f.id == id then 1 else 0
    decreases |s|
  {
    if s != [] && f.created > s[0].created {
      UsesInsert(f, s[1..], id);
    }
  }

  lemma {:induction false} UsesSorted(files: seq<SpoolFile>, id: nat)
    ensures Uses(OldestFirst(files), id) == Uses(files, id)
    decreases |files|
  {
    hide InsertOldest;
    if files != [] {
      UsesSorted(files[1..], id);
      UsesInsert(files[0], OldestFirst(files[1..]), id);
    }
  }

  lemma UsesEvicted(files: seq<SpoolFile>, cap: nat, id: nat)
    ensures var ev := EvictToCap(files, cap); Uses(ev.kept, id) + Uses(ev.evicted, id) == Uses(files, id)
  {
    hide EvictFrom, OldestFirst, Total;
    if Total(files) > cap {
      var sorted := OldestFirst(files);
      SortFacts(files);
      EvictFromFacts(sorted, cap);
      var ev := EvictFrom(sorted, Total(sorted), cap);
      UsesConcat(ev.evicted, ev.kept, id);
      UsesSorted(files, id);
    }
  }

  /** The files `list` deletes. */
  function Broken<E(!new)>(c: Codec<E>, files: seq<SpoolFile>): seq<SpoolFile> {
    if files == [] then []
    else (if ReadFrames(c, files[0].content).Some? then [] else [files[0]]) + Broken(c, files[1..])
  }

  lemma {:induction false} UsesIntact<E(!new)>(c: Codec<E>, files: seq<SpoolFile>, id: nat)
    ensures Uses(Intact(c, files), id) + Uses(Broken(c, files), id) == Uses(files, id)
    decreases |files|
  {
    hide ReadFrames;
    if files != [] {
      UsesIntact(c, files[1..], id);
      UsesOne(files[0], id);
      UsesConcat(if ReadFrames(c, files[0].content).Some? then [files[0]] else [], Intact(c, files[1..]), id);
      UsesConcat(if ReadFrames(c, files[0].content).Some? then [] else [files[0]], Broken(c, files[1..]), id);
    }
  }

  lemma {:induction false} IntactConcat<E(!new)>(c: Codec<E>, a: seq<SpoolFile>, b: seq<SpoolFile>)
    ensures Intact(c, a + b) == Intact(c, a) + Intact(c, b)
    decreases |a|
  {
    hide ReadFrames;
    if a == [] {
      assert a + b == b;
    } else {
      assert (a + b)[0] == a[0] && (a + b)[1..] == a[1..] + b;
      IntactConcat(c, a[1..], b);
      Assoc(if ReadFrames(c, a[0].content).Some? then [a[0]] else [], Intact(c, a[1..]), Intact(c, b));
    }
  }

  lemma {:induction false} IntactInsert<E(!new)>(c: Codec<E>, f: SpoolFile, s: seq<SpoolFile>, id: nat)
    ensures Uses(Intact(c, InsertOldest(f, s)), id) == Uses(Intact(c, [f]), id) + Uses(Intact(c, s), id)
    decreases |s|
  {
    hide Intact;
    if s == [] || f.created <= s[0].created {
      IntactConcat(c, [f], s);
      UsesConcat(Intact(c, [f]), Intact(c, s), id);
    } else {
      var t := InsertOldest(f, s[1..]);
      IntactInsert(c, f, s[1..], id);
      IntactConcat(c, [s[0]], t);
      IntactConcat(c, [s[0]], s[1..]);
      UsesConcat(Intact(c, [s[0]]), Intact(c, t), id);
      UsesConcat(Intact(c, [s[0]]), Intact(c, s[1..]), id);
      assert [s[0]] + s[1..] == s;
    }
  }

  lemma {:induction false} IntactSorted<E(!new)>(c: Codec<E>, files: seq<SpoolFile>, id: nat)
    ensures Uses(Intact(c, OldestFirst(files)), id) == Uses(Intact(c, files), id)
    decreases |files|
  {
    hide Intact, InsertOldest, Uses;
    if files != [] {
      var rest := files[1..];
      IntactSorted(c, rest, id);
      IntactInsert(c, files[0], OldestFirst(rest), id);
      assert [files[0]] + rest == files;
      IntactConcat(c, [files[0]], rest);
      UsesConcat(Intact(c, [files[0]]), Intact(c, rest), id);
    }
  }

  lemma {:induction false} UsesWithout(files: seq<SpoolFile>, id: nat, k: nat)
    ensures Uses(Without(files, id), k) + Uses(Named(files, id), k) == Uses(files, k)
    decreases |files|
  {
    if files != [] {
      UsesWithout(files[1..], id, k);
      UsesOne(files[0], k);
      UsesConcat(if files[0].id == id then [] else [files[0]], Without(files[1..], id), k);
      UsesConcat(if files[0].id == id then [files[0]] else [], Named(files[1..], id), k);
    }
  }

  // ---- Every name in one place ----

  lemma WritePlaces(files: seq<SpoolFile>, failed: seq<SpoolFile>, removed: set<nat>, evicted: set<nat>, dropped: set<nat>,
                    written: set<nat>, f: SpoolFile, cap: nat, k: nat)
    requires OnePlace(files, failed, removed, evicted, dropped, written, k) && f.id !in written
    ensures var ev := EvictToCap(files + [f], cap);
            OnePlace(ev.kept, failed, removed, evicted + Names(ev.evicted), dropped, written + {f.id}, k)
  {
    hide EvictToCap, Uses, Names;
    var ev := EvictToCap(files + [f], cap);
    UsesConcat(files, [f], k);
    UsesOne(f, k);
    UsesEvicted(files + [f], cap, k);
    UsesNames(ev.evicted, k);
  }

  lemma ListPlaces<E(!new)>(c: Codec<E>, files: seq<SpoolFile>, failed: seq<SpoolFile>, removed: set<nat>, evicted: set<nat>,
                            dropped: set<nat>, written: set<nat>, k: nat)
    requires OnePlace(files, failed, removed, evicted, dropped, written, k)
    ensures OnePlace(Intact(c, files), failed, removed, evicted, dropped + Names(Broken(c, files)), written, k)
  {
    hide Uses, Names, Intact, Broken;
    UsesIntact(c, files, k);
    UsesNames(Broken(c, files), k);
  }

  lemma RemovePlaces(files: seq<SpoolFile>, failed: seq<SpoolFile>, removed: set<nat>, evicted: set<nat>, dropped: set<nat>,
                     written: set<nat>, id: nat, k: nat)
    requires OnePlace(files, failed, removed, evicted, dropped, written, k)
    ensures OnePlace(Without(files, id), failed, removed + Names(Named(files, id)), evicted, dropped, written, k)
  {
    hide Uses, Names, Without, Named;
    UsesWithout(files, id, k);
    UsesNames(Named(files, id), k);
  }

  lemma MovePlaces(files: seq<SpoolFile>, failed: seq<SpoolFile>, removed: set<nat>, evicted: set<nat>, dropped: set<nat>,
                   written: set<nat>, id: nat, k: nat)
    requires OnePlace(files, failed, removed, evicted, dropped, written, k)
    ensures OnePlace(Without(files, id), failed + Named(files, id), removed, evicted, dropped, written, k)
  {
    hide Uses, Without, Named;
    UsesWithout(files, id, k);
    UsesConcat(failed, Named(files, id), k);
  }

  lemma ListedIff(files: seq<SpoolFile>, failed: seq<SpoolFile>, removed: set<nat>, evicted: set<nat>, dropped: set<nat>,
                  written: set<nat>, k: nat)
    requires OnePlace(files, failed, removed, evicted, dropped, written, k)
    ensures Uses(files, k) > 0 <==> k in written && k !in removed && k !in evicted && k !in dropped && k !in Names(failed)
  {
    hide Uses, Names;
    UsesNames(failed, k);
  }

  /** A name is among the listed records exactly when its file stays. */
  lemma Listed<E(!new)>(c: Codec<E>, files: seq<SpoolFile>, written: map<nat, seq<E>>, k: nat)
    ensures Uses(Intact(c, files), k) > 0 <==> exists r :: r in Batches(Intact(c, OldestFirst(files)), written) && r.id == k
  {
    hide Uses, Intact, Batches, OldestFirst;
    IntactSorted(c, files, k);
    BatchesUses(Intact(c, OldestFirst(files)), written, k);
  }

  lemma {:induction false} BatchesUses<E>(files: seq<SpoolFile>, written: map<nat, seq<E>>, k: nat)
    ensures Uses(files, k) > 0 <==> exists r :: r in Batches(files, written) && r.id == k
    decreases |files|
  {
    if files != [] {
      BatchesUses(files[1..], written, k);
      var first, rest := Batches(files, written)[0], Batches(files[1..], written);
      assert Batches(files, written) == [first] + rest && first.id == files[0].id;
      if first.id == k {
        assert first in Batches(files, written);
      } else if r :| r in rest && r.id == k {
        assert r in Batches(files, written);
      }
    }
  }

  lemma {:induction false} BatchesTrue<E>(files: seq<SpoolFile>, written: map<nat, seq<E>>)
    ensures forall r :: r in Batches(files, written) && r.id in written ==> r.envelopes == written[r.id]
    decreases |files|
  {
    if files != [] {
      BatchesTrue(files[1..], written);
    }
  }

  lemma HoldsStill<E(!new)>(c: Codec<E>, files: seq<SpoolFile>, failed: seq<SpoolFile>, written: map<nat,
                            seq<E>>, f: SpoolFile, envs: seq<E>)
    requires c.Valid() && f.id !in written && f.content == FileBytes(c, envs) && f.size == |f.content|
    requires forall g :: g in files || g in failed ==> Holds(c, g, written)
    ensures forall g :: g in files + [f] || g in failed ==> Holds(c, g, written[f.id := envs])
    ensures written[f.id := envs].Keys == written.Keys + {f.id}
  {
    hide FileBytes;
  }

  lemma KeptHolds<E(!new)>(c: Codec<E>, files: seq<SpoolFile>, cap: nat, written: map<nat, seq<E>>)
    requires c.Valid() && forall f :: f in files ==> Holds(c, f, written)
    ensures forall f :: f in EvictToCap(files, cap).kept ==> Holds(c, f, written)
  {
    hide Holds, EvictToCap, OldestFirst, Total;
    EvictionMinimal(files, cap);
    var kept := EvictToCap(files, cap).kept;
    forall g | g in kept
      ensures Holds(c, g, written)
    {
      assert g in multiset(kept);
      assert g in multiset(files);
    }
  }

  lemma {:induction false} FileBytesSnoc<E(!new)>(c: Codec<E>, es: seq<E>, e: E)
    requires c.Valid()
    ensures FileBytes(c, es + [e]) == FileBytes(c, es) + Frame(c, e)
    decreases |es|
  {
    hide Frame;
    if es == [] {
      assert es + [e] == [e] && [e][1..] == [];
      assert FileBytes(c, [e]) == Frame(c, e) + [] == Frame(c, e);
    } else {
      FileBytesSnoc(c, es[1..], e);
      assert (es + [e])[1..] == es[1..] + [e] && (es + [e])[0] == es[0];
      assert Frame(c, es[0]) + (FileBytes(c, es[1..]) + Frame(c, e)) == Frame(c, es[0]) + FileBytes(c, es[1..]) + Frame(c, e);
    }
  }

  lemma {:induction false} IntactSubset<E(!new)>(c: Codec<E>, files: seq<SpoolFile>)
    ensures forall f :: f in Intact(c, files) ==> f in files
    decreases |files|
  {
    if files != [] {
      IntactSubset(c, files[1..]);
    }
  }

  lemma {:induction false} WithoutSubset(files: seq<SpoolFile>, id: nat)
    ensures forall f :: f in files <==> f in Without(files, id) || f in Named(files, id)
    ensures forall f :: f in Named(files, id) ==> f.id == id
    ensures forall f :: f in Without(files, id) ==> f.id != id
    decreases |files|
  {
    if files != [] {
      WithoutSubset(files[1..], id);
      assert files == [files[0]] + files[1..];
    }
  }

  /** The batches written under the names of `files`. */
  ghost function Batches<E>(files: seq<SpoolFile>, written: map<nat, seq<E>>): seq<Record<E>> {
    if files == [] then []
    else [Record(files[0].id, if files[0].id in written then written[files[0].id] else [])] + Batches(files[1..], written)
  }

  /** `list` returns, for the files that stay, exactly the batches written under their names. */
  lemma {:induction false} ListExact<E(!new)>(c: Codec<E>, s: seq<SpoolFile>, written: map<nat, seq<E>>)
    requires c.Valid() && forall f :: f in s ==> Holds(c, f, written)
    ensures Records(c, s) == Batches(Intact(c, s), written)
    decreases |s|
  {
    hide FileBytes, ReadFrames, Readable;
    if s != [] {
      var f, rest := s[0], Intact(c, s[1..]);
      assert Holds(c, f, written);
      ReadBack(c, written[f.id]);
      ListExact(c, s[1..], written);
      assert ([f] + rest)[1..] == rest && [] + rest == rest;
    }
  }

  /** A file stays exactly when every envelope of its batch is within the reader's limit. */
  lemma StaysIffReadable<E(!new)>(c: Codec<E>, files: seq<SpoolFile>, f: SpoolFile, written: map<nat, seq<E>>)
    requires c.Valid() && f in files && Holds(c, f, written)
    ensures f in Intact(c, files) <==> Readable(c, written[f.id])
  {
    hide FileBytes, ReadFrames, Readable, Intact;
    IntactIff(c, files);
    ReadBack(c, written[f.id]);
  }

  lemma AllSorted<E(!new)>(c: Codec<E>, files: seq<SpoolFile>, written: map<nat, seq<E>>)
    requires c.Valid() && forall f :: f in files ==> Holds(c, f, written)
    ensures forall f :: f in OldestFirst(files) ==> Holds(c, f, written)
  {
    hide Holds, OldestFirst;
    SortFacts(files);
    forall f | f in OldestFirst(files)
      ensures Holds(c, f, written)
    {
      assert f in multiset(OldestFirst(files));
      assert f in multiset(files);
    }
  }

  lemma {:induction false} IntactIff<E(!new)>(c: Codec<E>, files: seq<SpoolFile>)
    ensures forall f :: f in files ==> (f in Intact(c, files) <==> ReadFrames(c, f.content).Some?)
    decreases |files|
  {
    hide ReadFrames;
    if files != [] {
      IntactIff(c, files[1..]);
      IntactOnly(c, files[1..]);
      assert files == [files[0]] + files[1..];
    }
  }

  lemma {:induction false} IntactOnly<E(!new)>(c: Codec<E>, files: seq<SpoolFile>)
    ensures forall f :: f in Intact(c, files) ==> ReadFrames(c, f.content).Some?
    decreases |files|
  {
    hide ReadFrames;
    if files != [] {
      IntactOnly(c, files[1..]);
    }
  }
}
