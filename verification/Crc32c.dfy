/**
 * CRC-32C as the AUDIT spool computes it: bit by bit over a reflected register
 * (crates/obs-core/src/audit_spool.rs). The bit-vector facts are kept in small
 * lemmas over plain variables, because the solver mixes them badly with function symbols.
 */
module Crc32c {

  const POLY: bv32 := 0x82F63B78

  /** One turn of the inner loop: shift right, folding the polynomial in when a one falls out. */
  function Step(crc: bv32): bv32 {
    (crc >> 1) ^ (if crc & 1 == 1 then POLY else 0)
  }

  function Step2(crc: bv32): bv32 {
    Step(Step(crc))
  }

  function Step4(crc: bv32): bv32 {
    Step2(Step2(crc))
  }

  function Step8(crc: bv32): bv32 {
    Step4(Step4(crc))
  }

  /** `crc` with the bits of `w` flipped. */
  function Flip(crc: bv32, w: bv32): bv32 {
    crc ^ w
  }

  /** The register after one data byte. */
  function Feed(crc: bv32, b: bv8): bv32 {
    Step8(Flip(crc, b as bv32))
  }

  /** The register after a byte string, starting from `crc`. */
  function Register(crc: bv32, data: seq<bv8>): bv32
    decreases |data|
  {
    if data == [] then crc else Register(Feed(crc, data[0]), data[1..])
  }

  function Complement(crc: bv32): bv32 {
    !crc
  }

  function Checksum(data: seq<bv8>): bv32 {
    Complement(Register(0xFFFF_FFFF, data))
  }

  /** The loop of the source, against the recursive definition. */
  method Compute(data: seq<bv8>) returns (sum: bv32)
    ensures sum == Checksum(data)
  {
    var crc: bv32 := 0xFFFF_FFFF;
    for i := 0 to |data|
      invariant Register(crc, data[i..]) == Register(0xFFFF_FFFF, data)
    {
      ghost var before := crc;
      crc := crc ^ (data[i] as bv32);
      ghost var mixed := crc;
      crc := Shift8(crc);
      assert crc == Feed(before, data[i]);
      assert data[i..][1..] == data[i + 1..];
    }
    assert data[|data|..] == [];
    sum := !crc;
  }

  method Shift8(start: bv32) returns (crc: bv32)
    ensures crc == Step8(start)
  {
    crc := start;
    StepsEight(crc);
    for k := 0 to 8
      invariant Steps(crc, 8 - k) == Step8(start)
    {
      var mask := Negated(crc & 1);
      MaskSelects(crc);
      crc := (crc >> 1) ^ (POLY & mask);
    }
  }

  ghost function Steps(crc: bv32, n: nat): bv32
    decreases n
  {
    if n == 0 then crc else Steps(Step(crc), n - 1)
  }

  lemma StepsEight(crc: bv32)
    ensures Steps(crc, 8) == Step8(crc)
  {
    var a := Step2(crc);
    var b := Step2(a);
    var c := Step2(b);
    assert Steps(crc, 8) == Steps(a, 6);
    assert Steps(a, 6) == Steps(b, 4);
    assert Steps(b, 4) == Steps(c, 2);
  }

  /** Two's-complement negation, `wrapping_neg` in the source. */
  function Negated(x: bv32): bv32 {
    !x + 1
  }

  lemma MaskSelects(crc: bv32)
    ensures POLY & Negated(crc & 1) == if crc & 1 == 1 then POLY else 0
  {
    assert crc & 1 == 0 || crc & 1 == 1;
  }

  // ---- Bit-vector facts ----

  function Unstep(crc: bv32): bv32 {
    if crc & 0x8000_0000 != 0 then ((crc ^ POLY) << 1) | 1 else crc << 1
  }

  lemma StepUndone(crc: bv32)
    ensures Unstep(Step(crc)) == crc
  {}

  lemma StepInjective(a: bv32, b: bv32)
    ensures Step(a) == Step(b) ==> a == b
  {
    hide Step, Unstep;
    StepUndone(a);
    StepUndone(b);
  }

  lemma Step4Injective(a: bv32, b: bv32)
    ensures Step4(a) == Step4(b) ==> a == b
  {
    hide Step;
    StepInjective(Step(Step2(a)), Step(Step2(b)));
    StepInjective(Step2(a), Step2(b));
    StepInjective(Step(a), Step(b));
    StepInjective(a, b);
  }

  lemma Step8Injective(a: bv32, b: bv32)
    ensures Step8(a) == Step8(b) ==> a == b
  {
    hide Step4;
    Step4Injective(Step4(a), Step4(b));
    Step4Injective(a, b);
  }

  lemma FlipInjective(a: bv32, b: bv32, w: bv32)
    ensures Flip(a, w) == Flip(b, w) ==> a == b
  {}

  lemma FeedInjective(a: bv32, b: bv32, x: bv8)
    ensures Feed(a, x) == Feed(b, x) ==> a == b
  {
    hide Flip, Step8;
    Step8Injective(Flip(a, x as bv32), Flip(b, x as bv32));
    FlipInjective(a, b, x as bv32);
  }

  lemma SameParity(c: bv32, w: bv32)
    requires w & 1 == 0
    ensures (c ^ w) & 1 == c & 1
  {}

  lemma ShiftXor(c: bv32, w: bv32, k: bv32)
    ensures ((c ^ w) >> 1) ^ k == ((c >> 1) ^ k) ^ (w >> 1)
  {}

  /** A difference that has not reached the low bit only moves right. */
  lemma StepSlide(c: bv32, w: bv32)
    requires w & 1 == 0
    ensures Step(c ^ w) == Step(c) ^ (w >> 1)
  {
    SameParity(c, w);
    ShiftXor(c, w, if c & 1 == 1 then POLY else 0);
  }

  lemma SlideStep(c: bv32, w: bv32)
    requires w & 1 == 0
    ensures Step(Flip(c, w)) == Flip(Step(c), w >> 1)
  {
    StepSlide(c, w);
  }

  lemma SlideStep2(c: bv32, w: bv32)
    requires w & 3 == 0
    ensures Step2(Flip(c, w)) == Flip(Step2(c), w >> 2)
  {
    hide Flip, Step;
    assert w & 1 == 0 && (w >> 1) & 1 == 0 && (w >> 1) >> 1 == w >> 2;
    SlideStep(c, w);
    SlideStep(Step(c), w >> 1);
  }

  lemma SlideStep4(c: bv32, w: bv32)
    requires w & 0xF == 0
    ensures Step4(Flip(c, w)) == Flip(Step4(c), w >> 4)
  {
    hide Flip, Step2;
    assert w & 3 == 0 && (w >> 2) & 3 == 0 && (w >> 2) >> 2 == w >> 4;
    SlideStep2(c, w);
    SlideStep2(Step2(c), w >> 2);
  }

  /** A difference whose low byte is clear crosses eight steps unmixed. */
  lemma SlideStep8(c: bv32, w: bv32)
    requires w & 0xFF == 0
    ensures Step8(Flip(c, w)) == Flip(Step8(c), w >> 8)
  {
    hide Flip, Step4;
    assert w & 0xF == 0 && (w >> 4) & 0xF == 0 && (w >> 4) >> 4 == w >> 8;
    SlideStep4(c, w);
    SlideStep4(Step4(c), w >> 4);
  }

  // ---- Error detection ----

  lemma {:induction false} RegisterConcat(crc: bv32, a: seq<bv8>, b: seq<bv8>)
    ensures Register(crc, a + b) == Register(Register(crc, a), b)
    decreases |a|
  {
    if a == [] {
      assert a + b == b;
    } else {
      assert (a + b)[1..] == a[1..] + b;
      RegisterConcat(Feed(crc, a[0]), a[1..], b);
    }
  }

  lemma {:induction false} RegisterInjective(a: bv32, b: bv32, data: seq<bv8>)
    requires Register(a, data) == Register(b, data)
    ensures a == b
    decreases |data|
  {
    if data != [] {
      hide Feed, Step8;
      RegisterInjective(Feed(a, data[0]), Feed(b, data[0]), data[1..]);
      FeedInjective(a, b, data[0]);
    }
  }

  // A data byte as it stands one, two and three bytes above the low end of the register.
  function Lane1(b: bv8): bv32 {
    (b as bv32) << 8
  }

  function Lane2(b: bv8): bv32 {
    (b as bv32) << 16
  }

  function Lane3(b: bv8): bv32 {
    (b as bv32) << 24
  }

  lemma LanesDown(b: bv8)
    ensures Lane1(b) & 0xFF == 0 && Lane1(b) >> 8 == b as bv32
    ensures Lane2(b) & 0xFF == 0 && Lane2(b) >> 8 == Lane1(b)
    ensures Lane3(b) & 0xFF == 0 && Lane3(b) >> 8 == Lane2(b)
  {}

  /** Reading a byte after 8 n steps equals having it n bytes higher before them. */
  lemma Absorb1(c: bv32, b: bv8)
    ensures Flip(Step8(c), b as bv32) == Step8(Flip(c, Lane1(b)))
  {
    hide Flip, Step8, Lane1, Lane2, Lane3;
    LanesDown(b);
    SlideStep8(c, Lane1(b));
  }

  lemma Absorb2(c: bv32, b: bv8)
    ensures Flip(Step8(Step8(c)), b as bv32) == Step8(Step8(Flip(c, Lane2(b))))
  {
    hide Flip, Step8, Lane1, Lane2, Lane3;
    LanesDown(b);
    SlideStep8(c, Lane2(b));
    Absorb1(Step8(c), b);
  }

  lemma Absorb3(c: bv32, b: bv8)
    ensures Flip(Step8(Step8(Step8(c))), b as bv32) == Step8(Step8(Step8(Flip(c, Lane3(b)))))
  {
    hide Flip, Step8, Lane1, Lane2, Lane3;
    LanesDown(b);
    SlideStep8(c, Lane3(b));
    Absorb2(Step8(c), b);
  }

  /** The start register with a four-byte little-endian word folded in. */
  ghost function Mixed(crc: bv32, b0: bv8, b1: bv8, b2: bv8, b3: bv8): bv32 {
    Flip(Flip(Flip(Flip(crc, b0 as bv32), Lane1(b1)), Lane2(b2)), Lane3(b3))
  }

  lemma FourBytes(crc: bv32, x: seq<bv8>)
    requires |x| == 4
    ensures Register(crc, x) == Step8(Step8(Step8(Step8(Mixed(crc, x[0], x[1], x[2], x[3])))))
  {
    hide Flip, Step8, Lane1, Lane2, Lane3;
    RegisterFour(crc, x);
    var a0 := Flip(crc, x[0] as bv32);
    var a1 := Flip(a0, Lane1(x[1]));
    var a2 := Flip(a1, Lane2(x[2]));
    Absorb1(a0, x[1]);
    Absorb2(a1, x[2]);
    Absorb3(a2, x[3]);
  }

  lemma RegisterFour(crc: bv32, x: seq<bv8>)
    requires |x| == 4
    ensures Register(crc, x) == Feed(Feed(Feed(Feed(crc, x[0]), x[1]), x[2]), x[3])
  {
    hide Feed;
    var r1 := Feed(crc, x[0]);
    var r2 := Feed(r1, x[1]);
    var r3 := Feed(r2, x[2]);
    assert x[1..][1..] == x[2..] && x[2..][1..] == x[3..] && x[3..][1..] == [];
    assert Register(crc, x) == Register(r1, x[1..]);
    assert Register(r1, x[1..]) == Register(r2, x[2..]);
    assert Register(r2, x[2..]) == Register(r3, x[3..]);
    assert Register(r3, x[3..]) == Register(Feed(r3, x[3]), []);
  }

  ghost function Low(c: bv32): bv32 {
    c & 0xFF
  }

  ghost function Up(c: bv32): bv32 {
    c >> 8
  }

  lemma FlipHigh(c: bv32, w: bv32)
    requires w & 0xFF == 0
    ensures Low(Flip(c, w)) == Low(c)
  {}

  lemma FlipUp(c: bv32, w: bv32)
    ensures Up(Flip(c, w)) == Flip(Up(c), w >> 8)
  {}

  lemma FlipLanes(c: bv32, b: bv8)
    ensures Up(Flip(c, b as bv32)) == Up(c)
    ensures Low(Flip(c, Lane1(b))) == Low(c) && Up(Flip(c, Lane1(b))) == Flip(Up(c), b as bv32)
    ensures Low(Flip(c, Lane2(b))) == Low(c) && Up(Flip(c, Lane2(b))) == Flip(Up(c), Lane1(b))
    ensures Low(Flip(c, Lane3(b))) == Low(c) && Up(Flip(c, Lane3(b))) == Flip(Up(c), Lane2(b))
  {
    FlipByte(c, b);
    hide Flip, Low, Up, Lane1, Lane2, Lane3;
    LanesDown(b);
    FlipHigh(c, Lane1(b));
    FlipHigh(c, Lane2(b));
    FlipHigh(c, Lane3(b));
    FlipUp(c, Lane1(b));
    FlipUp(c, Lane2(b));
    FlipUp(c, Lane3(b));
  }

  lemma FlipByte(c: bv32, b: bv8)
    ensures Up(Flip(c, b as bv32)) == Up(c)
  {}

  lemma LowByte(c: bv32, x: bv8, y: bv8)
    requires Low(Flip(c, x as bv32)) == Low(Flip(c, y as bv32))
    ensures x == y
  {}

  lemma MixedInjective(c: bv32, x0: bv8, x1: bv8, x2: bv8, x3: bv8, y0: bv8, y1: bv8, y2: bv8, y3: bv8)
    requires Mixed(c, x0, x1, x2, x3) == Mixed(c, y0, y1, y2, y3)
    ensures x0 == y0 && x1 == y1 && x2 == y2 && x3 == y3
  {
    hide Flip, Lane1, Lane2, Lane3, Low, Up, Mixed;
    Peel(c, x0, x1, x2, x3);
    Peel(c, y0, y1, y2, y3);
    LowByte(c, x0, y0);
    LowByte(Up(c), x1, y1);
    LowByte(Up(Up(c)), x2, y2);
    LowByte(Up(Up(Up(c))), x3, y3);
  }

  /** The bytes of the folded word, lowest first. */
  lemma Peel(c: bv32, b0: bv8, b1: bv8, b2: bv8, b3: bv8)
    ensures var m := Mixed(c, b0, b1, b2, b3);
            && Low(m) == Low(Flip(c, b0 as bv32))
            && Low(Up(m)) == Low(Flip(Up(c), b1 as bv32))
            && Low(Up(Up(m))) == Low(Flip(Up(Up(c)), b2 as bv32))
            && Low(Up(Up(Up(m)))) == Low(Flip(Up(Up(Up(c))), b3 as bv32))
  {
    hide Flip, Lane1, Lane2, Lane3, Low, Up;
    var f0 := Flip(c, b0 as bv32);
    var f1 := Flip(f0, Lane1(b1));
    var f2 := Flip(f1, Lane2(b2));
    FlipLanes(c, b0);
    FlipLanes(f0, b1);
    FlipLanes(f1, b2);
    FlipLanes(f2, b3);
    var g0 := Flip(Up(c), b1 as bv32);
    var g1 := Flip(g0, Lane1(b2));
    FlipLanes(Up(c), b1);
    FlipLanes(g0, b2);
    FlipLanes(g1, b3);
    var h0 := Flip(Up(Up(c)), b2 as bv32);
    FlipLanes(Up(Up(c)), b2);
    FlipLanes(h0, b3);
  }

  lemma WordInjective(crc: bv32, x: seq<bv8>, y: seq<bv8>)
    requires |x| == 4 && |y| == 4
    requires Register(crc, x) == Register(crc, y)
    ensures x == y
  {
    hide Step8, Feed, Mixed;
    FourBytes(crc, x);
    FourBytes(crc, y);
    var a, b := Mixed(crc, x[0], x[1], x[2], x[3]), Mixed(crc, y[0], y[1], y[2], y[3]);
    Step8Injective(Step8(Step8(Step8(a))), Step8(Step8(Step8(b))));
    Step8Injective(Step8(Step8(a)), Step8(Step8(b)));
    Step8Injective(Step8(a), Step8(b));
    Step8Injective(a, b);
    MixedInjective(crc, x[0], x[1], x[2], x[3], y[0], y[1], y[2], y[3]);
    assert forall i :: 0 <= i < 4 ==> x[i] == y[i];
  }

  lemma ShortInjective(crc: bv32, x: seq<bv8>, y: seq<bv8>)
    requires |x| == |y| <= 4
    requires Register(crc, x) == Register(crc, y)
    ensures x == y
  {
    hide Feed;
    var pad: seq<bv8> := seq(4 - |x|, _ => 0);
    RegisterConcat(crc, x, pad);
    RegisterConcat(crc, y, pad);
    WordInjective(crc, x + pad, y + pad);
    assert x == (x + pad)[..|x|] == (y + pad)[..|x|] == y;
  }

  lemma WindowInjective(crc: bv32, pre: seq<bv8>, x: seq<bv8>, y: seq<bv8>, post: seq<bv8>)
    requires |x| == |y| <= 4
    requires Register(crc, pre + x + post) == Register(crc, pre + y + post)
    ensures x == y
  {
    hide Feed;
    RegisterConcat(crc, pre + x, post);
    RegisterConcat(crc, pre + y, post);
    RegisterInjective(Register(crc, pre + x), Register(crc, pre + y), post);
    RegisterConcat(crc, pre, x);
    RegisterConcat(crc, pre, y);
    ShortInjective(Register(crc, pre), x, y);
  }

  /**
   * Two byte strings of equal length that differ only inside a window of at most four bytes
   * never share a checksum. A single changed byte is the window of length one.
   */
  lemma BurstDetected(pre: seq<bv8>, x: seq<bv8>, y: seq<bv8>, post: seq<bv8>)
    requires |x| == |y| <= 4
    ensures Checksum(pre + x + post) == Checksum(pre + y + post) <==> x == y
  {
    hide Register, Complement;
    if Checksum(pre + x + post) == Checksum(pre + y + post) {
      ComplementInjective(Register(0xFFFF_FFFF, pre + x + post), Register(0xFFFF_FFFF, pre + y + post));
      WindowInjective(0xFFFF_FFFF, pre, x, y, post);
    }
  }

  lemma ComplementInjective(a: bv32, b: bv32)
    requires Complement(a) == Complement(b)
    ensures a == b
  {}

  /** The published check value: the checksum of the ASCII digits 1 to 9. */
  lemma CheckValue()
    ensures Checksum([0x31, 0x32, 0x33, 0x34, 0x35, 0x36, 0x37, 0x38, 0x39]) == 0xE306_9283
  {
  }
}
