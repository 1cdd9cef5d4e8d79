/** The checksum of a record as the four bytes the sidecar file stores. */
module RecordSum {
  import opened Bytes
  import Crc32c

  // Numbers and bytes meet in half bytes: the solver converts four bits cheaply, eight not.

  function Nibble(n: nat): bv4 {
    (n % 16) as bv4
  }

  function NibbleValue(v: bv4): (n: nat)
    ensures n < 16
  {
    v as int
  }

  function Join(high: bv4, low: bv4): bv8 {
    ((high as bv8) << 4) | (low as bv8)
  }

  function High(b: bv8): bv4 {
    (b >> 4) as bv4
  }

  function Low(b: bv8): bv4 {
    (b & 0xF) as bv4
  }

  /** The low byte of `n`, and the number a byte holds. */
  function BitsOf(n: nat): bv8 {
    Join(Nibble(n / 16), Nibble(n))
  }

  function Value(b: bv8): (n: nat)
    ensures n < 256
  {
    16 * NibbleValue(High(b)) + NibbleValue(Low(b))
  }

  lemma NibbleRoundTrip(n: nat)
    ensures NibbleValue(Nibble(n)) == n % 16
  {
    HalfRoundTrip(n % 16);
  }

  lemma HalfRoundTrip(x: int)
    requires 0 <= x < 16
    ensures (x as bv4) as int == x
  {}

  lemma JoinRoundTrip(high: bv4, low: bv4)
    ensures High(Join(high, low)) == high && Low(Join(high, low)) == low
  {}

  lemma ByteRoundTrip(n: nat)
    ensures Value(BitsOf(n)) == n % 256
  {
    hide Nibble, NibbleValue, Join, High, Low;
    NibbleRoundTrip(n);
    NibbleRoundTrip(n / 16);
    JoinRoundTrip(Nibble(n / 16), Nibble(n));
  }

  lemma ValueInjective(a: bv8, b: bv8)
    requires Value(a) == Value(b)
    ensures a == b
  {
    hide High, Low, NibbleValue;
    NibbleInjective(High(a), High(b));
    NibbleInjective(Low(a), Low(b));
    HalvesInjective(a, b);
  }

  lemma NibbleInjective(a: bv4, b: bv4)
    requires NibbleValue(a) == NibbleValue(b)
    ensures a == b
  {}

  lemma HalvesInjective(a: bv8, b: bv8)
    requires High(a) == High(b) && Low(a) == Low(b)
    ensures a == b
  {}

  function Bits(data: seq<byte>): (bits: seq<bv8>)
    ensures |bits| == |data|
  {
    seq(|data|, i requires 0 <= i < |data| => BitsOf(data[i]))
  }

  function Byte0(w: bv32): bv8 { (w & 0xFF) as bv8 }
  function Byte1(w: bv32): bv8 { ((w >> 8) & 0xFF) as bv8 }
  function Byte2(w: bv32): bv8 { ((w >> 16) & 0xFF) as bv8 }
  function Byte3(w: bv32): bv8 { (w >> 24) as bv8 }

  function LeWord(w: bv32): (h: seq<byte>)
    ensures |h| == 4
  {
    [Value(Byte0(w)), Value(Byte1(w)), Value(Byte2(w)), Value(Byte3(w))]
  }

  lemma BytesInjective(w: bv32, v: bv32)
    requires Byte0(w) == Byte0(v) && Byte1(w) == Byte1(v) && Byte2(w) == Byte2(v) && Byte3(w) == Byte3(v)
    ensures w == v
  {}

  /** Comparing the stored bytes is comparing the words. */
  lemma LeWordInjective(w: bv32, v: bv32)
    requires LeWord(w) == LeWord(v)
    ensures w == v
  {
    hide Byte0, Byte1, Byte2, Byte3, Value;
    var a, b := LeWord(w), LeWord(v);
    assert a[0] == b[0] && a[1] == b[1] && a[2] == b[2] && a[3] == b[3];
    ValueInjective(Byte0(w), Byte0(v));
    ValueInjective(Byte1(w), Byte1(v));
    ValueInjective(Byte2(w), Byte2(v));
    ValueInjective(Byte3(w), Byte3(v));
    BytesInjective(w, v);
  }

  /** The four sidecar bytes of one record. */
  function SumOf(record: seq<byte>): (s: seq<byte>)
    ensures |s| == 4
  {
    LeWord(Crc32c.Checksum(Bits(record)))
  }

  lemma BitsInjective(x: seq<byte>, y: seq<byte>)
    requires |x| == |y| && Bits(x) == Bits(y)
    ensures x == y
  {
    hide Value, BitsOf;
    forall i | 0 <= i < |x|
      ensures x[i] == y[i]
    {
      assert Bits(x)[i] == BitsOf(x[i]) && Bits(y)[i] == BitsOf(y[i]);
      ByteRoundTrip(x[i]);
      ByteRoundTrip(y[i]);
    }
  }

  lemma BitsConcat(x: seq<byte>, y: seq<byte>)
    ensures Bits(x + y) == Bits(x) + Bits(y)
  {
    hide BitsOf;
  }

  /** A record changed only inside a window of at most four bytes gets another checksum. */
  lemma BurstChangesSum(pre: seq<byte>, x: seq<byte>, y: seq<byte>, post: seq<byte>)
    requires |x| == |y| <= 4 && x != y
    ensures SumOf(pre + x + post) != SumOf(pre + y + post)
  {
    hide Bits, LeWord, Crc32c.Checksum;
    BitsConcat(pre + x, post);
    BitsConcat(pre, x);
    BitsConcat(pre + y, post);
    BitsConcat(pre, y);
    Crc32c.BurstDetected(Bits(pre), Bits(x), Bits(y), Bits(post));
    if SumOf(pre + x + post) == SumOf(pre + y + post) {
      LeWordInjective(Crc32c.Checksum(Bits(pre + x + post)), Crc32c.Checksum(Bits(pre + y + post)));
      BitsInjective(x, y);
    }
  }

  /** The sidecar bytes of the record "a", whose checksum is 0xC1D0_4330: lowest byte first. */
  lemma StoredOrder()
    ensures SumOf([0x61]) == [0x30, 0x43, 0xD0, 0xC1]
  {
    LetterBits();
    LetterSum();
    LetterWord();
    hide Crc32c.Checksum, LeWord, Bits;
  }

  lemma LetterBits()
    ensures Bits([0x61]) == [0x61]
  {
    assert BitsOf(0x61) == 0x61;
  }

  lemma LetterSum()
    ensures Crc32c.Checksum([0x61]) == 0xC1D0_4330
  {
    var letter: seq<bv8> := [0x61];
    assert letter[1..] == [];
  }

  lemma LetterWord()
    ensures LeWord(0xC1D0_4330) == [0x30, 0x43, 0xD0, 0xC1]
  {
    assert Byte0(0xC1D0_4330) == 0x30 && Byte1(0xC1D0_4330) == 0x43 && Byte2(0xC1D0_4330) == 0xD0 && Byte3(0xC1D0_4330) == 0xC1;
    assert Value(0x30) == 0x30 && Value(0x43) == 0x43;
    assert Value(0xD0) == 0xD0 && Value(0xC1) == 0xC1;
  }
}
