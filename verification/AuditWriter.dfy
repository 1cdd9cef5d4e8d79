/**
 * The writer of the AUDIT spool (crates/obs-core/src/audit_spool.rs) under every fault of the file
 * system, and which records survive when a write leaves bytes behind.
 */
module AuditWriter {
  import opened Bytes
  import opened RecordSum
  import opened AuditSpool

  // ---- What append attempts leave in the files ----

  /** One append that got past the size check: how much of its frame and of its checksum reached the files. */
  datatype Attempt<E> = Attempt(env: E, binKept: nat, crcKept: nat, counted: bool)

  function Kept(data: seq<byte>, kept: nat): seq<byte> {
    if kept < |data| then data[..kept] else data
  }

  ghost function BinLeft<E(!new)>(c: Codec<E>, a: Attempt<E>): seq<byte>
    requires c.Valid()
  {
    Kept(Frame(c, a.env), a.binKept)
  }

  ghost function CrcLeft<E(!new)>(c: Codec<E>, a: Attempt<E>): seq<byte> {
    Kept(SumOf(c.encode(a.env)), a.crcKept)
  }

  ghost function BinOf<E(!new)>(c: Codec<E>, h: seq<Attempt<E>>): seq<byte>
    requires c.Valid()
  {
    if h == [] then [] else BinLeft(c, h[0]) + BinOf(c, h[1..])
  }

  ghost function CrcOf<E(!new)>(c: Codec<E>, h: seq<Attempt<E>>): seq<byte> {
    if h == [] then [] else CrcLeft(c, h[0]) + CrcOf(c, h[1..])
  }

  lemma {:induction false} FilesConcat<E(!new)>(c: Codec<E>, a: seq<Attempt<E>>, b: seq<Attempt<E>>)
    requires c.Valid()
    ensures BinOf(c, a + b) == BinOf(c, a) + BinOf(c, b)
    ensures CrcOf(c, a + b) == CrcOf(c, a) + CrcOf(c, b)
    decreases |a|
  {
    hide BinLeft, CrcLeft;
    if a == [] {
      assert a + b == b;
    } else {
      assert (a + b)[1..] == a[1..] + b && (a + b)[0] == a[0];
      FilesConcat(c, a[1..], b);
      Assoc(BinLeft(c, a[0]), BinOf(c, a[1..]), BinOf(c, b));
      Assoc(CrcLeft(c, a[0]), CrcOf(c, a[1..]), CrcOf(c, b));
    }
  }

  lemma FilesOne<E(!new)>(c: Codec<E>, a: Attempt<E>)
    requires c.Valid()
    ensures BinOf(c, [a]) == BinLeft(c, a) && CrcOf(c, [a]) == CrcLeft(c, a)
  {
    hide BinLeft, CrcLeft;
    assert [a][1..] == [];
    assert BinLeft(c, a) + [] == BinLeft(c, a) && CrcLeft(c, a) + [] == CrcLeft(c, a);
  }

  ghost predicate InBin<E(!new)>(c: Codec<E>, a: Attempt<E>)
    requires c.Valid()
  {
    a.binKept >= |Frame(c, a.env)|
  }

  /** Nothing was left behind, or everything was. */
  ghost predicate Harmless<E(!new)>(c: Codec<E>, a: Attempt<E>)
    requires c.Valid()
  {
    (a.binKept == 0 && a.crcKept == 0) || (InBin(c, a) && a.crcKept >= 4)
  }

  ghost predicate InStep<E(!new)>(c: Codec<E>, h: seq<Attempt<E>>)
    requires c.Valid()
  {
    forall i :: 0 <= i < |h| ==> Harmless(c, h[i])
  }

  /** The records that are whole in the record file. */
  ghost function Whole<E(!new)>(c: Codec<E>, h: seq<Attempt<E>>): (r: seq<E>)
    requires c.Valid()
    ensures |r| <= |h|
  {
    if h == [] then [] else (if InBin(c, h[0]) then [h[0].env] else []) + Whole(c, h[1..])
  }

  lemma {:induction false} WholeConcat<E(!new)>(c: Codec<E>, a: seq<Attempt<E>>, b: seq<Attempt<E>>)
    requires c.Valid()
    ensures Whole(c, a + b) == Whole(c, a) + Whole(c, b)
    decreases |a|
  {
    hide InBin;
    if a == [] {
      assert a + b == b;
    } else {
      assert (a + b)[1..] == a[1..] + b && (a + b)[0] == a[0];
      WholeConcat(c, a[1..], b);
      Assoc(if InBin(c, a[0]) then [a[0].env] else [], Whole(c, a[1..]), Whole(c, b));
    }
  }

  lemma FrameNonEmpty<E(!new)>(c: Codec<E>, a: Attempt<E>)
    requires c.Valid() && Harmless(c, a)
    ensures if InBin(c, a) then BinLeft(c, a) == Frame(c, a.env) && CrcLeft(c, a) == SumOf(c.encode(a.env))
            else BinLeft(c, a) == [] && CrcLeft(c, a) == []
  {
    hide SumOf, Frame;
  }

  /** Harmless attempts leave the files of the records they wrote, as if the others had not been made. */
  lemma {:induction false} InStepFiles<E(!new)>(c: Codec<E>, h: seq<Attempt<E>>)
    requires c.Valid() && InStep(c, h)
    ensures BinOf(c, h) == Frames(c, Whole(c, h)) && CrcOf(c, h) == Sums(c, Whole(c, h))
    decreases |h|
  {
    hide SumOf, Frame, BinLeft, CrcLeft, Harmless, InBin;
    if h != [] {
      FrameNonEmpty(c, h[0]);
      InStepFiles(c, h[1..]);
      var rest := Whole(c, h[1..]);
      if InBin(c, h[0]) {
        assert ([h[0].env] + rest)[1..] == rest;
      } else {
        assert [] + rest == rest && [] + Frames(c, rest) == Frames(c, rest) && [] + Sums(c, rest) == Sums(c, rest);
      }
    }
  }

  // ---- One attempt among acknowledged ones ----

  /** After the attempt and later records `post`, recovery sees all whole records and drops none. */
  ghost predicate Undisturbed<E(!new)>(c: Codec<E>, pre: seq<E>, a: Attempt<E>, post: seq<E>)
    requires c.Valid()
  {
    Recover(c, Frames(c, pre) + (BinLeft(c, a) + Frames(c, post)), Some(Sums(c, pre) + (CrcLeft(c, a) + Sums(c, post))))
    == Report(pre + (Whole(c, [a]) + post), 0)
  }

  /** The reading starts at the attempt. */
  lemma StartAtAttempt<E(!new)>(c: Codec<E>, pre: seq<E>, a: Attempt<E>, post: seq<E>)
    requires c.Valid()
    ensures Undisturbed(c, pre, a, post)
       <==> Recover(c, BinLeft(c, a) + Frames(c, post), Some(CrcLeft(c, a) + Sums(c, post))) == Report(Whole(c, [a]) + post, 0)
  {
    hide Recover, Frames, Sums, BinLeft, CrcLeft, Whole;
    var bin, crc := BinLeft(c, a) + Frames(c, post), CrcLeft(c, a) + Sums(c, post);
    RecoverPrefix(c, pre, bin, crc);
    var r := Recover(c, bin, Some(crc));
    var found, want := pre + r.delivered, pre + (Whole(c, [a]) + post);
    if found == want {
      assert r.delivered == found[|pre|..] == want[|pre|..] == Whole(c, [a]) + post;
    }
  }

  /** A codec with some short envelope, and with envelopes whose checksums differ in the first stored byte. */
  ghost predicate Ordinary<E(!new)>(c: Codec<E>) {
    && (exists x :: 1 <= |c.encode(x)| < 256)
    && (exists x, y :: SumOf(c.encode(x))[0] != SumOf(c.encode(y))[0])
  }

  lemma HarmlessReads<E(!new)>(c: Codec<E>, a: Attempt<E>, post: seq<E>)
    requires c.Valid() && Harmless(c, a)
    ensures Recover(c, BinLeft(c, a) + Frames(c, post), Some(CrcLeft(c, a) + Sums(c, post))) == Report(Whole(c, [a]) + post, 0)
  {
    hide Recover, SumOf, Frame, BinLeft, CrcLeft, InBin, Harmless;
    FrameNonEmpty(c, a);
    assert [a][1..] == [];
    var es := Whole(c, [a]) + post;
    CleanRecovery(c, es);
    if InBin(c, a) {
      assert Whole(c, [a]) == [a.env] && es[0] == a.env && es[1..] == post;
    } else {
      assert Whole(c, [a]) == [] && es == post;
      assert [] + Frames(c, post) == Frames(c, post) && [] + Sums(c, post) == Sums(c, post);
    }
  }

  /**
   * A header of which one to three bytes were left swallows the next record: the length read there is
   * far larger than the record. So one stray byte loses the next acknowledged record of up to 2^24 - 1 bytes.
   */
  lemma HeaderTear<E(!new)>(c: Codec<E>, left: seq<byte>, e: E, side: Option<seq<byte>>)
    requires c.Valid() && 1 <= |left| <= 3
    requires 1 <= |c.encode(e)| < if |left| == 1 then 0x100_0000 else if |left| == 2 then 0x1_0000 else 0x100
    ensures Recover(c, left + Frame(c, e), side) == Report([], 1)
  {
    var bin, n := left + Frame(c, e), |c.encode(e)|;
    assert FromLe32(bin[..4]) >= 256 * n by { SwallowedLength(left, n, bin[..4]); }
    assert |bin| == |left| + 4 + n;
    hide FromLe32, Frame, SumOf, Recover;
    RecoverUnfold(c, bin, side);
  }

  lemma SwallowedLength(left: seq<byte>, n: nat, header: seq<byte>)
    requires 1 <= |left| <= 3 && 1 <= n < if |left| == 1 then 0x100_0000 else if |left| == 2 then 0x1_0000 else 0x100
    requires header == (left + Le32(n))[..4]
    ensures FromLe32(header) >= 256 * n
  {
    var h := Le32(n);
    assert forall i :: 0 <= i < 4 - |left| ==> header[|left| + i] == h[i];
    assert h[0] as int + 256 * (h[1] as int) + 65536 * (h[2] as int) >= n;
  }

  /** A checksum of which not all bytes were left is compared with bytes of the next one. */
  lemma SumTear<E(!new)>(c: Codec<E>, e: E, k: nat, x: E)
    requires c.Valid() && k < 4 && SumOf(c.encode(x))[0] != SumOf(c.encode(e))[k]
    ensures Recover(c, Frame(c, e) + Frames(c, [x]), Some(SumOf(c.encode(e))[..k] + Sums(c, [x]))).dropped > 0
  {
    hide Recover, SumOf, Le32;
    var body, side := c.encode(e), SumOf(c.encode(e))[..k] + Sums(c, [x]);
    assert [x][1..] == [];
    assert Sums(c, [x]) == SumOf(c.encode(x));
    assert side[..4][k] == SumOf(c.encode(x))[0];
    RecoverRecord(c, body, Frames(c, [x]), Some(side));
  }

  lemma TearShows<E(!new)>(c: Codec<E>, a: Attempt<E>) returns (post: seq<E>)
    requires c.Valid() && Ordinary(c) && !Harmless(c, a) && (a.crcKept > 0 ==> InBin(c, a))
    ensures Recover(c, BinLeft(c, a) + Frames(c, post), Some(CrcLeft(c, a) + Sums(c, post))) != Report(Whole(c, [a]) + post, 0)
  {
    hide Recover, SumOf, Le32;
    if InBin(c, a) {
      var x, y :| SumOf(c.encode(x))[0] != SumOf(c.encode(y))[0];
      var z := if SumOf(c.encode(x))[0] != SumOf(c.encode(a.env))[a.crcKept] then x else y;
      SumTear(c, a.env, a.crcKept, z);
      post := [z];
    } else if a.binKept >= 4 {
      post := [];
      RecoverTorn(c, a.env, a.binKept, Some(CrcLeft(c, a) + Sums(c, post)));
      assert BinLeft(c, a) + Frames(c, post) == Frame(c, a.env)[..a.binKept];
    } else {
      var x :| 1 <= |c.encode(x)| < 256;
      post := [x];
      assert [x][1..] == [];
      assert Frames(c, [x]) == Frame(c, x);
      HeaderTear(c, BinLeft(c, a), x, Some(CrcLeft(c, a) + Sums(c, post)));
    }
  }

  /**
   * A failed append does no harm, whatever is acknowledged after it, exactly when it left nothing
   * behind or everything: any other remainder shows up in the recovery of some later records.
   */
  lemma HarmlessIff<E(!new)>(c: Codec<E>, pre: seq<E>, a: Attempt<E>)
    requires c.Valid() && Ordinary(c) && (a.crcKept > 0 ==> InBin(c, a))
    ensures (forall post :: Undisturbed(c, pre, a, post)) <==> Harmless(c, a)
  {
    hide Recover, SumOf, BinLeft, CrcLeft, Whole, Frames, Sums, Ordinary, Harmless, InBin, Undisturbed;
    if Harmless(c, a) {
      forall post ensures Undisturbed(c, pre, a, post) {
        HarmlessReads(c, a, post);
        StartAtAttempt(c, pre, a, post);
      }
    } else {
      var post := TearShows(c, a);
      StartAtAttempt(c, pre, a, post);
    }
  }

  /**
   * A body cut short after `j` bytes of its frame. While fewer bytes than are missing have been
   * appended since, recovery stops there and every record appended since is lost; from then on the
   * missing bytes are taken from the records behind, judged by the next checksum, and reading goes on
   * in the middle of a record.
   */
  lemma TornBodyExact<E(!new)>(c: Codec<E>, e: E, j: nat, later: seq<byte>, side: seq<byte>)
    requires c.Valid() && 4 <= j < |Frame(c, e)|
    ensures var missing := |Frame(c, e)| - j;
            Recover(c, Frame(c, e)[..j] + later, Some(side))
            == if |later| < missing then Report([], 1)
               else Counted(c, NextSum(Some(side)).0, Frame(c, e)[4..j] + later[..missing],
                            Recover(c, later[missing..], NextSum(Some(side)).1))
  {
    hide Le32, FromLe32, SumOf, Recover, Counted, NextSum;
    var bin, missing, n := Frame(c, e)[..j] + later, |Frame(c, e)| - j, |c.encode(e)|;
    Le32RoundTrip(n);
    assert bin[..4] == Le32(n);
    RecoverUnfold(c, bin, Some(side));
    if |later| >= missing {
      assert bin[4..4 + n] == Frame(c, e)[4..j] + later[..missing] && bin[4 + n..] == later[missing..];
    }
  }

  // ---- The writer ----

  datatype FsyncMode = NoFsync | PerRecord | PerBatch

  const FSYNC_BATCH_SIZE := 64
  const U64_MAX := 0xFFFF_FFFF_FFFF_FFFF

  /** What the file system does during one call; `kept` bytes of a failed write stay in the file. */
  datatype Io = Works | BinWriteFails(kept: nat) | CrcWriteFails(kept: nat) | BinSyncFails | CrcSyncFails

  /** Both writes of the call go through. */
  ghost predicate Writes(io: Io) {
    !io.BinWriteFails? && !io.CrcWriteFails?
  }

  /** The attempt that an append under `io` comes to. */
  ghost function AttemptOf<E(!new)>(c: Codec<E>, env: E, io: Io): Attempt<E>
    requires c.Valid()
  {
    match io
    case BinWriteFails(kept) => Attempt(env, kept, 0, false)
    case CrcWriteFails(kept) => Attempt(env, |Frame(c, env)|, kept, false)
    case _ => Attempt(env, |Frame(c, env)|, 4, true)
  }

  ghost function CountedIn<E>(h: seq<Attempt<E>>): nat {
    if h == [] then 0 else CountedIn(h[..|h| - 1]) + if h[|h| - 1].counted then 1 else 0
  }

  /** The bytes of the record file that the counted attempts take. */
  ghost function CountedBytes<E(!new)>(c: Codec<E>, h: seq<Attempt<E>>): nat {
    if h == [] then 0
    else CountedBytes(c, h[..|h| - 1]) + if h[|h| - 1].counted then 4 + |c.encode(h[|h| - 1].env)| else 0
  }

  lemma CountedMore<E(!new)>(c: Codec<E>, h: seq<Attempt<E>>, a: Attempt<E>)
    ensures CountedBytes(c, h + [a]) == CountedBytes(c, h) + if a.counted then 4 + |c.encode(a.env)| else 0
  {
    assert (h + [a])[..|h|] == h;
  }

  /** The counted attempts whose record is not among the first `k` whole records of the file. */
  ghost function CountedPast<E(!new)>(c: Codec<E>, h: seq<Attempt<E>>, k: nat): nat
    requires c.Valid()
  {
    if h == [] then 0
    else CountedPast(c, h[..|h| - 1], k) + if h[|h| - 1].counted && |Whole(c, h)| > k then 1 else 0
  }

  lemma WholeGrows<E(!new)>(c: Codec<E>, h: seq<Attempt<E>>, m: nat)
    requires c.Valid() && m <= |h|
    ensures |Whole(c, h[..m])| <= |Whole(c, h)|
  {
    hide Whole;
    assert h == h[..m] + h[m..];
    WholeConcat(c, h[..m], h[m..]);
  }

  /** If the first `k` whole records include all durable ones, the counted attempts past them are pending ones. */
  lemma {:induction false} PastArePending<E(!new)>(c: Codec<E>, h: seq<Attempt<E>>, synced: nat, k: nat)
    requires c.Valid() && synced <= |h| && |Whole(c, h[..synced])| <= k
    ensures CountedPast(c, h, k) <= CountedIn(h[synced..])
    decreases |h|
  {
    hide Whole;
    if |h| == 0 {
    } else if synced == |h| {
      var init := h[..|h| - 1];
      assert h[..synced] == h && init[..|init|] == init;
      WholeGrows(c, h, |init|);
      PastArePending(c, init, |init|, k);
      assert init[|init|..] == [];
    } else {
      var init, since := h[..|h| - 1], h[synced..];
      assert init[..synced] == h[..synced] && since[..|since| - 1] == init[synced..];
      PastArePending(c, init, synced, k);
    }
  }

  /** A counted attempt left its whole record and its whole checksum. */
  ghost predicate CountedWhole<E(!new)>(c: Codec<E>, h: seq<Attempt<E>>)
    requires c.Valid()
  {
    forall i :: 0 <= i < |h| && h[i].counted ==> InBin(c, h[i]) && h[i].crcKept >= 4
  }

  class SpoolWriter<E(!new)> {
    const codec: Codec<E>
    const maxBytes: nat
    const mode: FsyncMode

    // The two files, the open handles, and the counters of `SpoolInner`.
    var bin: seq<byte>
    var crc: seq<byte>
    var open: bool
    var bytesWritten: nat
    var pendingRecords: nat

    // Every attempt so far, how many of the first ones are durable, and how much of each file is.
    ghost var history: seq<Attempt<E>>
    ghost var synced: nat
    ghost var binSynced: nat
    ghost var crcSynced: nat

    /** The files hold exactly what the attempts left, and the pending count is that of the records written since the last sync. */
    ghost predicate Valid()
      reads this
    {
      && codec.Valid() && maxBytes <= U64_MAX
      && bin == BinOf(codec, history) && crc == CrcOf(codec, history)
      && CountedWhole(codec, history) && synced <= |history|
      && |BinOf(codec, history[..synced])| <= binSynced <= |bin|
      && |CrcOf(codec, history[..synced])| <= crcSynced <= |crc|
      && (open ==> pendingRecords == CountedIn(history[synced..]))
      && bytesWritten == CountedBytes(codec, history) && (maxBytes < U64_MAX ==> bytesWritten <= maxBytes)
    }

    constructor (codec: Codec<E>, maxBytes: nat, mode: FsyncMode)
      requires codec.Valid() && maxBytes <= U64_MAX
      ensures Valid() && open && history == [] && synced == 0
      ensures this.codec == codec && this.maxBytes == maxBytes && this.mode == mode
    {
      this.codec, this.maxBytes, this.mode := codec, maxBytes, mode;
      bin, crc, open, bytesWritten, pendingRecords := [], [], true, 0, 0;
      history, synced, binSynced, crcSynced := [], 0, 0, 0;
    }

    predicate Full(size: nat)
      reads this
    {
      (if bytesWritten + size + 4 <= U64_MAX then bytesWritten + size + 4 else U64_MAX) > maxBytes
    }

    predicate MustSync(pending: nat) {
      mode == PerRecord || (mode == PerBatch && pending >= FSYNC_BATCH_SIZE)
    }

    /** Whether a record of `size` bytes would take the counted records over the cap; a sum over `u64::MAX` reads as that. */
    ghost predicate OverCap(size: nat)
      reads this
    {
      CountedBytes(codec, history) + size + 4 > maxBytes && maxBytes < U64_MAX
    }

    /**
     * An append is refused exactly when the writer is closed or the record would take the counted
     * records over the cap, and then changes nothing. Otherwise the attempt joins the history, is
     * synced in per-record mode or as the 64th pending one in per-batch mode, and an `Ok` leaves fewer
     * than 64 (per batch) or no (per record) records unsynced.
     */
    method Append(env: E, io: Io) returns (ok: bool)
      requires Valid()
      modifies this
      ensures Valid() && open == old(open)
      ensures if !old(open) || old(OverCap(|codec.encode(env)|)) then
                !ok && history == old(history) && bin == old(bin) && crc == old(crc)
                && pendingRecords == old(pendingRecords) && synced == old(synced)
              else
                && history == old(history) + [AttemptOf(codec, env, io)]
                && bin == old(bin) + (if io.BinWriteFails? then Kept(Frame(codec, env), io.kept) else Frame(codec, env))
                && crc == old(crc) + (if io.BinWriteFails? then []
                                      else if io.CrcWriteFails? then Kept(SumOf(codec.encode(env)), io.kept)
                                      else SumOf(codec.encode(env)))
                && bytesWritten == old(bytesWritten) + (if Writes(io) then 4 + |codec.encode(env)| else 0)
                && var due := mode == PerRecord || (mode == PerBatch && old(pendingRecords) >= 63);
                   && ok == (io.Works? || (!due && (io.BinSyncFails? || io.CrcSyncFails?)))
                   && synced == (if ok && due then |history| else old(synced))
      ensures ok && mode == PerBatch ==> pendingRecords < 64
      ensures ok && mode == PerRecord ==> pendingRecords == 0
    {
      hide SumOf, Le32, BinOf, CrcOf, CountedIn, CountedBytes;
      var buf := codec.encode(env);
      if !open || Full(|buf|) {
        return false;
      }
      ghost var a := AttemptOf(codec, env, io);
      AttemptAdds(codec, history, synced, a);
      CountedMore(codec, history, a);
      history := history + [a];
      if io.BinWriteFails? {
        bin := bin + Kept(Le32(|buf|) + buf, io.kept);
        return false;
      }
      bin := bin + (Le32(|buf|) + buf);
      if io.CrcWriteFails? {
        crc := crc + Kept(SumOf(buf), io.kept);
        return false;
      }
      crc := crc + SumOf(buf);
      bytesWritten := bytesWritten + |buf| + 4;
      pendingRecords := pendingRecords + 1;
      ok := true;
      if MustSync(pendingRecords) {
        ok := SyncBoth(io);
        if ok {
          NothingSince(history);
          pendingRecords := 0;
        }
      }
    }

    /** `sync_data` on the record file, then on the sidecar. */
    method SyncBoth(io: Io) returns (ok: bool)
      modifies this`binSynced, this`crcSynced, this`synced
      ensures ok == !(io.BinSyncFails? || io.CrcSyncFails?)
      ensures ok ==> synced == |history| && binSynced == |bin| && crcSynced == |crc|
      ensures !ok ==> synced == old(synced) && crcSynced == old(crcSynced)
      ensures !ok ==> binSynced == if io.BinSyncFails? then old(binSynced) else |bin|
    {
      if io.BinSyncFails? {
        return false;
      }
      binSynced := |bin|;
      if io.CrcSyncFails? {
        return false;
      }
      crcSynced, synced := |crc|, |history|;
      return true;
    }

    /** After `Close` there is nothing to sync: the call still reports success and clears the counter. */
    method FsyncNow(io: Io) returns (ok: bool)
      requires Valid()
      modifies this
      ensures Valid() && history == old(history) && bin == old(bin) && crc == old(crc)
      ensures open == old(open) && ok == (!open || !(io.BinSyncFails? || io.CrcSyncFails?))
      ensures pendingRecords == if ok then 0 else old(pendingRecords)
      ensures synced == if open && ok then |history| else old(synced)
    {
      hide BinOf, CrcOf, CountedIn, CountedBytes;
      ok := true;
      if open {
        ok := SyncBoth(io);
        NothingSince(history);
      }
      if ok {
        pendingRecords := 0;
      }
    }

    method Close()
      requires Valid()
      modifies this`open
      ensures Valid() && !open
    {
      hide BinOf, CrcOf, CountedBytes;
      open := false;
    }

    /**
     * What a crash can cost now, if every attempt so far was harmless. The files keep their durable
     * parts and are cut anywhere past them: recovery delivers a run of the whole records that includes
     * every durable one, and misses at most `pendingRecords` of the counted, hence of the acknowledged, ones.
     */
    lemma CrashNow(cut: nat, crcCut: nat)
      requires Valid() && InStep(codec, history) && binSynced <= cut <= |bin| && crcSynced <= crcCut <= |crc|
      ensures var r := Recover(codec, bin[..cut], Some(crc[..crcCut]));
              && Whole(codec, history[..synced]) <= r.delivered <= Whole(codec, history) && r.dropped <= 1
      ensures var r := Recover(codec, bin[..cut], Some(crc[..crcCut]));
              open ==> CountedPast(codec, history, |r.delivered|) <= pendingRecords
    {
      hide Recover, BinOf, CrcOf, Frames, Sums;
      var es, durable := Whole(codec, history), Whole(codec, history[..synced]);
      InStepFiles(codec, history);
      InStepFiles(codec, history[..synced]);
      assert history == history[..synced] + history[synced..];
      WholeConcat(codec, history[..synced], history[synced..]);
      assert es[..|durable|] == durable;
      CrashRecovery(codec, es, cut, Some(crc[..crcCut]));
      WholeRecordsLongest(codec, es, cut, |durable|);
      hide Whole, CountedPast, CountedIn;
      PastArePending(codec, history, synced, |Recover(codec, bin[..cut], Some(crc[..crcCut])).delivered|);
    }

    /**
     * Whatever failed later, the durable records from before the first harmful attempt survive every
     * crash: recovery delivers them first.
     */
    lemma BeforeTheTear(n: nat, cut: nat, crcCut: nat)
      requires Valid() && n <= synced && InStep(codec, history[..n])
      requires binSynced <= cut <= |bin| && crcSynced <= crcCut <= |crc|
      ensures Whole(codec, history[..n]) <= Recover(codec, bin[..cut], Some(crc[..crcCut])).delivered
    {
      hide Recover, Frames, Sums, Whole, BinOf, CrcOf, CountedIn;
      var h := history[..n];
      InStepFiles(codec, h);
      FilesGrow(codec, history, n, synced);
      FilesGrow(codec, history, n, |history|);
      assert history[..|history|] == history;
      PrefixSurvives(codec, Whole(codec, h), bin[..cut], crc[..crcCut]);
    }

    /** Unless the cap is all of `u64`, the counted records never take more than `maxBytes` bytes. */
    lemma CapHolds()
      requires Valid() && maxBytes < U64_MAX
      ensures CountedBytes(codec, history) <= maxBytes
    {}

    /** The files from before, at and after attempt `i`, when all others were harmless. */
    lemma Around(i: nat)
      requires Valid() && i < |history| && InStep(codec, history[..i]) && InStep(codec, history[i + 1..])
      ensures var pre, post := Whole(codec, history[..i]), Whole(codec, history[i + 1..]);
              && bin == Frames(codec, pre) + (BinLeft(codec, history[i]) + Frames(codec, post))
              && crc == Sums(codec, pre) + (CrcLeft(codec, history[i]) + Sums(codec, post))
    {
      hide Frames, Sums, Whole, BinLeft, CrcLeft;
      InStepFiles(codec, history[..i]);
      InStepFiles(codec, history[i + 1..]);
      assert history == history[..i] + ([history[i]] + history[i + 1..]);
      FilesConcat(codec, history[..i], [history[i]] + history[i + 1..]);
      FilesConcat(codec, [history[i]], history[i + 1..]);
      FilesOne(codec, history[i]);
    }

    /**
     * One checksum write failed and left nothing, everything else was harmless: recovery delivers all
     * records before it, and from it on exactly those whose checksum equals that of the record after them.
     */
    lemma SlippedNow(i: nat)
      requires Valid() && i < |history| && InStep(codec, history[..i]) && InStep(codec, history[i + 1..])
      requires InBin(codec, history[i]) && history[i].crcKept == 0
      ensures var pre, es := Whole(codec, history[..i]), [history[i].env] + Whole(codec, history[i + 1..]);
              Recover(codec, bin, Some(crc)) == Report(pre + Lucky(codec, es), |es| - |Lucky(codec, es)|)
    {
      Around(i);
      var pre, post := Whole(codec, history[..i]), Whole(codec, history[i + 1..]);
      var es := [history[i].env] + post;
      assert es[1..] == post && es[0] == history[i].env;
      assert CrcLeft(codec, history[i]) + Sums(codec, post) == Sums(codec, post);
      assert BinLeft(codec, history[i]) == Frame(codec, history[i].env);
      assert Frames(codec, es) == BinLeft(codec, history[i]) + Frames(codec, post);
      hide Recover, Frames, Sums, Lucky, SumOf, BinLeft, CrcLeft, Whole, InBin;
      RecoverPrefix(codec, pre, Frames(codec, es), Sums(codec, post));
      SlippedSidecar(codec, es);
    }

    /**
     * As long as no record-file write left part of a frame, an acknowledged record survives exactly
     * when the sidecar, out of step or not, does not contradict it.
     */
    lemma SidecarNow()
      requires Valid() && forall i :: 0 <= i < |history| ==> history[i].binKept == 0 || InBin(codec, history[i])
      ensures var es := Whole(codec, history);
              var s := Survivors(codec, es, crc, 0);
              Recover(codec, bin, Some(crc)) == Report(s, |es| - |s|)
    {
      hide Recover, Survivors, BinOf, CrcOf, Whole, Frames, CountedIn;
      WholeFile(codec, history);
      SidecarExact(codec, Whole(codec, history), crc);
    }

    /**
     * A record-file write left part of a frame, everything else was harmless: the earlier records
     * survive and reading goes on at the remainder.
     */
    lemma TornNow(i: nat)
      requires Valid() && i < |history| && InStep(codec, history[..i]) && InStep(codec, history[i + 1..])
      ensures var post := Whole(codec, history[i + 1..]);
              Recover(codec, bin, Some(crc))
              == Joined(Report(Whole(codec, history[..i]), 0),
                        Recover(codec, BinLeft(codec, history[i]) + Frames(codec, post),
                                Some(CrcLeft(codec, history[i]) + Sums(codec, post))))
    {
      hide Recover, Frames, Sums, Whole, BinLeft, CrcLeft;
      Around(i);
      var post := Whole(codec, history[i + 1..]);
      RecoverPrefix(codec, Whole(codec, history[..i]), BinLeft(codec, history[i]) + Frames(codec, post),
                    CrcLeft(codec, history[i]) + Sums(codec, post));
    }

    /** Every record acknowledged since a torn body is lost until as many bytes follow as the body is missing. */
    lemma LostNow(i: nat)
      requires Valid() && i < |history| && InStep(codec, history[..i]) && InStep(codec, history[i + 1..])
      requires 4 <= history[i].binKept < |Frame(codec, history[i].env)| && history[i].crcKept == 0
      requires |Frames(codec, Whole(codec, history[i + 1..]))| < |Frame(codec, history[i].env)| - history[i].binKept
      ensures Recover(codec, bin, Some(crc)) == Report(Whole(codec, history[..i]), 1)
    {
      hide Recover, Frames, Sums, Whole, BinLeft, CrcLeft, Frame;
      TornNow(i);
      LostBehind(codec, history[i], Whole(codec, history[i + 1..]));
      var pre := Whole(codec, history[..i]);
      assert pre + [] == pre;
    }
  }

  lemma LostBehind<E(!new)>(c: Codec<E>, a: Attempt<E>, post: seq<E>)
    requires c.Valid() && 4 <= a.binKept < |Frame(c, a.env)| && a.crcKept == 0
    requires |Frames(c, post)| < |Frame(c, a.env)| - a.binKept
    ensures Recover(c, BinLeft(c, a) + Frames(c, post), Some(CrcLeft(c, a) + Sums(c, post))) == Report([], 1)
  {
    hide Recover, Frames, Sums, Frame;
    TornBodyExact(c, a.env, a.binKept, Frames(c, post), CrcLeft(c, a) + Sums(c, post));
  }

  lemma {:induction false} WholeFile<E(!new)>(c: Codec<E>, h: seq<Attempt<E>>)
    requires c.Valid() && forall i :: 0 <= i < |h| ==> h[i].binKept == 0 || InBin(c, h[i])
    ensures BinOf(c, h) == Frames(c, Whole(c, h))
    decreases |h|
  {
    hide Frame;
    if h != [] {
      WholeFile(c, h[1..]);
      var rest := Whole(c, h[1..]);
      if InBin(c, h[0]) {
        assert ([h[0].env] + rest)[1..] == rest;
      } else {
        assert [] + rest == rest && [] + Frames(c, rest) == Frames(c, rest);
      }
    }
  }

  lemma FilesGrow<E(!new)>(c: Codec<E>, h: seq<Attempt<E>>, m: nat, n: nat)
    requires c.Valid() && m <= n <= |h|
    ensures BinOf(c, h[..m]) <= BinOf(c, h[..n]) && CrcOf(c, h[..m]) <= CrcOf(c, h[..n])
  {
    hide BinOf, CrcOf;
    assert h[..n] == h[..m] + h[m..n];
    FilesConcat(c, h[..m], h[m..n]);
  }

  lemma NothingSince<E>(h: seq<Attempt<E>>)
    ensures h[..|h|] == h && h[|h|..] == [] && CountedIn(h[|h|..]) == 0
  {}

  /** One more attempt extends both files by what it leaves. */
  lemma AttemptAdds<E(!new)>(c: Codec<E>, h: seq<Attempt<E>>, synced: nat, a: Attempt<E>)
    requires c.Valid() && synced <= |h|
    ensures BinOf(c, h + [a]) == BinOf(c, h) + BinLeft(c, a) && CrcOf(c, h + [a]) == CrcOf(c, h) + CrcLeft(c, a)
    ensures (h + [a])[..synced] == h[..synced]
    ensures CountedIn((h + [a])[synced..]) == CountedIn(h[synced..]) + if a.counted then 1 else 0
  {
    hide BinLeft, CrcLeft;
    FilesConcat(c, h, [a]);
    FilesOne(c, a);
    var since := (h + [a])[synced..];
    assert since == h[synced..] + [a];
    assert since[..|since| - 1] == h[synced..];
  }
}
