/** Bytes, fixed-width integers as byte strings, and the abstract envelope codec. */
module Bytes {

  type byte = x: int | 0 <= x < 256

  datatype Option<+T> = None | Some(value: T)

  const U32_SPAN := 0x1_0000_0000

  lemma Assoc<T>(a: seq<T>, b: seq<T>, c: seq<T>)
    ensures (a + b) + c == a + (b + c)
  {}

  /** The envelope codec, known only by its round trip. */
  datatype Codec<!E(!new)> = Codec(encode: E -> seq<byte>, decode: seq<byte> -> Option<E>) {
    ghost predicate Valid() {
      forall e :: |encode(e)| < U32_SPAN && decode(encode(e)) == Some(e)
    }
  }

  /** `u32::to_le_bytes` and `u32::from_le_bytes`. */
  function Le32(n: nat): (h: seq<byte>)
    requires n < U32_SPAN
    ensures |h| == 4
  {
    [n % 256, n / 256 % 256, n / 256 / 256 % 256, n / 256 / 256 / 256]
  }

  function FromLe32(h: seq<byte>): (n: nat)
    requires |h| == 4
    ensures n < U32_SPAN
  {
    h[0] as int + 256 * (h[1] as int + 256 * (h[2] as int + 256 * (h[3] as int)))
  }

  /** The header bytes, lowest first, are the number in base 256. */
  lemma Le32RoundTrip(n: nat)
    requires n < U32_SPAN
    ensures FromLe32(Le32(n)) == n
    ensures var h := Le32(n); h[0] as int + 0x100 * h[1] as int + 0x1_0000 * h[2] as int + 0x100_0000 * h[3] as int == n
  {
    var n1 := n / 256;
    var n2 := n1 / 256;
    assert n == n % 256 + 256 * n1 && n1 == n1 % 256 + 256 * n2 && n2 == n2 % 256 + 256 * (n2 / 256);
  }

  /** `u32::to_be_bytes` and `u32::from_be_bytes`. */
  function Be32(n: nat): (h: seq<byte>)
    requires n < U32_SPAN
    ensures |h| == 4
  {
    var h := Le32(n);
    [h[3], h[2], h[1], h[0]]
  }

  function FromBe32(h: seq<byte>): (n: nat)
    requires |h| == 4
    ensures n < U32_SPAN
  {
    FromLe32([h[3], h[2], h[1], h[0]])
  }

  /** The header bytes, highest first, are the number in base 256. */
  lemma Be32RoundTrip(n: nat)
    requires n < U32_SPAN
    ensures FromBe32(Be32(n)) == n
    ensures var h := Be32(n); 0x100_0000 * h[0] as int + 0x1_0000 * h[1] as int + 0x100 * h[2] as int + h[3] as int == n
  {
    var h := Le32(n);
    assert h == [h[0], h[1], h[2], h[3]];
    Le32RoundTrip(n);
  }
}
