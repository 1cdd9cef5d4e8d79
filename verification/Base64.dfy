/** Payload bytes in ClickHouse JSON rows: `base64_encode` (crates/obs-clickhouse/src/sink.rs). */
module Base64 {
  import opened Bytes

  /** The table of 64 symbols: upper case, lower case, digits, `+`, `/`. */
  function Symbol(n: int): char
    requires 0 <= n < 64
  {
    if n < 26 then ('A' as int + n) as char
    else if n < 52 then ('a' as int + n - 26) as char
    else if n < 62 then ('0' as int + n - 52) as char
    else if n == 62 then '+'
    else '/'
  }

  // Two bits left over and two bits taken on, and so on: the shifts and masks of the source.

  function Quad(b0: byte, b1: byte, b2: byte): (q: string)
    ensures |q| == 4
  {
    [Symbol(b0 / 4), Symbol(b0 % 4 * 16 + b1 / 16), Symbol(b1 % 16 * 4 + b2 / 64), Symbol(b2 % 64)]
  }

  function One(b0: byte): (q: string)
    ensures |q| == 4
  {
    [Symbol(b0 / 4), Symbol(b0 % 4 * 16), '=', '=']
  }

  function Two(b0: byte, b1: byte): (q: string)
    ensures |q| == 4
  {
    [Symbol(b0 / 4), Symbol(b0 % 4 * 16 + b1 / 16), Symbol(b1 % 16 * 4), '=']
  }

  function Encode(bytes: seq<byte>): string
    decreases |bytes|
  {
    if |bytes| == 0 then ""
    else if |bytes| == 1 then One(bytes[0])
    else if |bytes| == 2 then Two(bytes[0], bytes[1])
    else Quad(bytes[0], bytes[1], bytes[2]) + Encode(bytes[3..])
  }

  method Base64Encode(bytes: seq<byte>) returns (out: string)
    ensures out == Encode(bytes)
  {
    ghost var goal := Encode(bytes);
    out := EncodeLoop(bytes, goal);
  }

  method EncodeLoop(bytes: seq<byte>, ghost goal: string) returns (out: string)
    requires goal == Encode(bytes)
    ensures out == goal
  {
    hide Symbol;
    out := "";
    var i := 0;
    assert bytes[0..] == bytes;
    while i + 3 <= |bytes|
      invariant 0 <= i <= |bytes|
      invariant goal == out + Encode(bytes[i..])
    {
      var b0, b1, b2 := bytes[i], bytes[i + 1], bytes[i + 2];
      ghost var before, rest := out, bytes[i..];
      out := out + [Symbol(b0 / 4)];
      out := out + [Symbol(b0 % 4 * 16 + b1 / 16)];
      out := out + [Symbol(b1 % 16 * 4 + b2 / 64)];
      out := out + [Symbol(b2 % 64)];
      i := i + 3;
      assert out == before + Quad(b0, b1, b2);
      assert rest[3..] == bytes[i..];
      Assoc(before, Quad(b0, b1, b2), Encode(bytes[i..]));
    }
    var rem := |bytes| - i;
    if rem == 1 {
      var b0 := bytes[i];
      out := out + [Symbol(b0 / 4), Symbol(b0 % 4 * 16), '=', '='];
    } else if rem == 2 {
      var b0, b1 := bytes[i], bytes[i + 1];
      out := out + [Symbol(b0 / 4), Symbol(b0 % 4 * 16 + b1 / 16), Symbol(b1 % 16 * 4), '='];
    }
  }

  // ---- The reference decoder: section 4 of RFC 4648, padding required, stray bits refused ----

  function SymbolValue(c: char): (v: Option<nat>)
    ensures v.Some? ==> v.value < 64
  {
    if 'A' <= c <= 'Z' then Some(c as int - 'A' as int)
    else if 'a' <= c <= 'z' then Some(c as int - 'a' as int + 26)
    else if '0' <= c <= '9' then Some(c as int - '0' as int + 52)
    else if c == '+' then Some(62)
    else if c == '/' then Some(63)
    else None
  }

  lemma SymbolRoundTrip(n: int)
    requires 0 <= n < 64
    ensures SymbolValue(Symbol(n)) == Some(n) && Symbol(n) != '='
  {}

  lemma ValueRoundTrip(c: char)
    ensures var v := SymbolValue(c); v.Some? ==> v.value < 64 && Symbol(v.value) == c && c != '='
  {}

  /** One group of four characters, the last of the text or not. */
  function DecodeGroup(c0: char, c1: char, c2: char, c3: char, last: bool): Option<seq<byte>> {
    var v0, v1, v2, v3 := SymbolValue(c0), SymbolValue(c1), SymbolValue(c2), SymbolValue(c3);
    if v0.None? || v1.None? then None
    else if c2 == '=' && c3 == '=' && last then
      if v1.value % 16 != 0 then None else Some([v0.value * 4 + v1.value / 16])
    else if v2.None? then None
    else if c3 == '=' && last then
      if v2.value % 4 != 0 then None
      else Some([v0.value * 4 + v1.value / 16, v1.value % 16 * 16 + v2.value / 4])
    else if v3.None? then None
    else Some([v0.value * 4 + v1.value / 16, v1.value % 16 * 16 + v2.value / 4, v2.value % 4 * 64 + v3.value])
  }

  function Decode(s: string): Option<seq<byte>>
    decreases |s|
  {
    if s == "" then Some([])
    else if |s| < 4 then None
    else
      var head := DecodeGroup(s[0], s[1], s[2], s[3], |s| == 4);
      var tail := Decode(s[4..]);
      if head.None? || tail.None? then None else Some(head.value + tail.value)
  }

  lemma GroupOfThree(b0: byte, b1: byte, b2: byte, last: bool)
    ensures var q := Quad(b0, b1, b2); DecodeGroup(q[0], q[1], q[2], q[3], last) == Some([b0, b1, b2])
  {
    hide Symbol, SymbolValue;
    SymbolRoundTrip(b0 / 4);
    SymbolRoundTrip(b0 % 4 * 16 + b1 / 16);
    SymbolRoundTrip(b1 % 16 * 4 + b2 / 64);
    SymbolRoundTrip(b2 % 64);
    Regroup(b0, b1);
    Regroup2(b1, b2);
  }

  lemma Regroup(b0: byte, b1: byte)
    ensures var v1 := b0 % 4 * 16 + b1 / 16; 0 <= v1 < 64 && b0 / 4 * 4 + v1 / 16 == b0 && v1 % 16 == b1 / 16
  {}

  lemma Regroup2(b1: byte, b2: byte)
    ensures var v2 := b1 % 16 * 4 + b2 / 64;
            0 <= v2 < 64 && b1 / 16 * 16 + v2 / 4 == b1 && v2 % 4 * 64 + b2 % 64 == b2
  {}

  lemma OneByteGroup(b0: byte)
    ensures var q := One(b0); DecodeGroup(q[0], q[1], q[2], q[3], true) == Some([b0])
  {
    hide Symbol, SymbolValue;
    SymbolRoundTrip(b0 / 4);
    SymbolRoundTrip(b0 % 4 * 16);
    PadIsNoSymbol();
    Regroup(b0, 0);
  }

  lemma TwoByteGroup(b0: byte, b1: byte)
    ensures var q := Two(b0, b1); DecodeGroup(q[0], q[1], q[2], q[3], true) == Some([b0, b1])
  {
    hide Symbol, SymbolValue;
    SymbolRoundTrip(b0 / 4);
    SymbolRoundTrip(b0 % 4 * 16 + b1 / 16);
    SymbolRoundTrip(b1 % 16 * 4);
    PadIsNoSymbol();
    Regroup(b0, b1);
    Regroup2(b1, 0);
  }

  lemma ShortGroup(bytes: seq<byte>)
    requires 1 <= |bytes| <= 2
    ensures var q := Encode(bytes); |q| == 4 && DecodeGroup(q[0], q[1], q[2], q[3], true) == Some(bytes)
  {
    hide One, Two, Quad, DecodeGroup;
    if |bytes| == 1 {
      OneByteGroup(bytes[0]);
      assert bytes == [bytes[0]];
    } else {
      TwoByteGroup(bytes[0], bytes[1]);
      assert bytes == [bytes[0], bytes[1]];
    }
  }

  lemma PadIsNoSymbol()
    ensures SymbolValue('=').None?
  {}

  lemma {:induction false} DecodeEncode(bytes: seq<byte>)
    ensures Decode(Encode(bytes)) == Some(bytes)
    decreases |bytes|
  {
    hide One, Two, Quad, DecodeGroup;
    if |bytes| == 0 {
    } else if |bytes| <= 2 {
      var q := Encode(bytes);
      ShortGroup(bytes);
      assert q[4..] == "" && bytes + [] == bytes;
    } else {
      var q, rest := Quad(bytes[0], bytes[1], bytes[2]), Encode(bytes[3..]);
      GroupOfThree(bytes[0], bytes[1], bytes[2], |q + rest| == 4);
      DecodeEncode(bytes[3..]);
      assert (q + rest)[4..] == rest;
      assert [bytes[0], bytes[1], bytes[2]] + bytes[3..] == bytes;
    }
  }

  /** A decoded group encodes back to the characters it came from. */
  lemma GroupInverse(c0: char, c1: char, c2: char, c3: char, last: bool)
    requires DecodeGroup(c0, c1, c2, c3, last).Some?
    ensures var b := DecodeGroup(c0, c1, c2, c3, last).value;
            && 1 <= |b| <= 3 && (|b| < 3 ==> last)
            && (|b| == 3 ==> Quad(b[0], b[1], b[2]) == [c0, c1, c2, c3])
            && (|b| < 3 ==> Encode(b) == [c0, c1, c2, c3])
  {
    hide Symbol, SymbolValue;
    ValueRoundTrip(c0);
    ValueRoundTrip(c1);
    ValueRoundTrip(c2);
    ValueRoundTrip(c3);
    PadIsNoSymbol();
    var v0, v1 := SymbolValue(c0).value, SymbolValue(c1).value;
    if c2 == '=' && c3 == '=' && last {
      Ungroup(v0, v1, 0, 0);
    } else if c3 == '=' && last {
      Ungroup(v0, v1, SymbolValue(c2).value, 0);
    } else {
      Ungroup(v0, v1, SymbolValue(c2).value, SymbolValue(c3).value);
    }
  }

  lemma Ungroup(v0: nat, v1: nat, v2: nat, v3: nat)
    requires v0 < 64 && v1 < 64 && v2 < 64 && v3 < 64
    ensures var b0, b1, b2 := v0 * 4 + v1 / 16, v1 % 16 * 16 + v2 / 4, v2 % 4 * 64 + v3;
            && b0 / 4 == v0 && b0 % 4 * 16 + b1 / 16 == v1 && b1 % 16 * 4 + b2 / 64 == v2 && b2 % 64 == v3
  {}

  lemma {:induction false} EncodeDecode(s: string)
    requires Decode(s).Some?
    ensures Encode(Decode(s).value) == s
    decreases |s|
  {
    hide One, Two, Quad, DecodeGroup;
    if s != "" {
      GroupInverse(s[0], s[1], s[2], s[3], |s| == 4);
      var b := DecodeGroup(s[0], s[1], s[2], s[3], |s| == 4).value;
      EncodeDecode(s[4..]);
      var t := Decode(s[4..]).value;
      assert s == [s[0], s[1], s[2], s[3]] + s[4..];
      if |b| == 3 {
        assert (b + t)[3..] == t;
      } else {
        assert s[4..] == "" && t == [] && b + t == b;
      }
    }
  }

  /** The decoder accepts exactly the texts the encoder produces, and inverts it. */
  lemma RoundTrip(bytes: seq<byte>, s: string)
    ensures Decode(s) == Some(bytes) <==> s == Encode(bytes)
  {
    hide Decode, Encode;
    DecodeEncode(bytes);
    if Decode(s).Some? {
      EncodeDecode(s);
    }
  }

  predicate IsSymbol(c: char) {
    SymbolValue(c).Some?
  }

  function Pads(n: nat): nat {
    (3 - n % 3) % 3
  }

  lemma {:induction false} Length(bytes: seq<byte>)
    ensures |Encode(bytes)| == 4 * ((|bytes| + 2) / 3) && |Encode(bytes)| >= Pads(|bytes|)
    decreases |bytes|
  {
    hide One, Two, Quad;
    if |bytes| >= 3 {
      Length(bytes[3..]);
      assert |Encode(bytes)| == 4 + |Encode(bytes[3..])|;
    }
  }

  lemma Sextets(b0: byte, b1: byte, b2: byte)
    ensures 0 <= b0 / 4 < 64 && 0 <= b0 % 4 * 16 + b1 / 16 < 64 && 0 <= b1 % 16 * 4 + b2 / 64 < 64 && 0 <= b2 % 64 < 64
    ensures 0 <= b0 % 4 * 16 < 64 && 0 <= b1 % 16 * 4 < 64
  {}

  lemma QuadSymbols(b0: byte, b1: byte, b2: byte, i: nat)
    requires i < 4
    ensures IsSymbol(Quad(b0, b1, b2)[i])
  {
    hide Symbol, IsSymbol;
    Sextets(b0, b1, b2);
    SymbolIsSymbol(b0 / 4);
    SymbolIsSymbol(b0 % 4 * 16 + b1 / 16);
    SymbolIsSymbol(b1 % 16 * 4 + b2 / 64);
    SymbolIsSymbol(b2 % 64);
  }

  lemma OneByteShape(b0: byte, i: nat)
    requires i < 4
    ensures var q := One(b0); if i < 2 then IsSymbol(q[i]) else q[i] == '='
  {
    hide Symbol, IsSymbol;
    Sextets(b0, 0, 0);
    SymbolIsSymbol(b0 / 4);
    SymbolIsSymbol(b0 % 4 * 16);
  }

  lemma TwoByteShape(b0: byte, b1: byte, i: nat)
    requires i < 4
    ensures var q := Two(b0, b1); if i < 3 then IsSymbol(q[i]) else q[i] == '='
  {
    hide Symbol, IsSymbol;
    Sextets(b0, b1, 0);
    SymbolIsSymbol(b0 / 4);
    SymbolIsSymbol(b0 % 4 * 16 + b1 / 16);
    SymbolIsSymbol(b1 % 16 * 4);
  }

  lemma ShortShape(bytes: seq<byte>, i: nat)
    requires 1 <= |bytes| <= 3 && i < |Encode(bytes)|
    ensures if i < |Encode(bytes)| - Pads(|bytes|) then IsSymbol(Encode(bytes)[i]) else Encode(bytes)[i] == '='
  {
    hide One, Two, Quad, IsSymbol;
    if |bytes| == 1 {
      OneByteShape(bytes[0], i);
    } else if |bytes| == 2 {
      TwoByteShape(bytes[0], bytes[1], i);
    } else {
      var q := Quad(bytes[0], bytes[1], bytes[2]);
      assert Encode(bytes[3..]) == "" && q + "" == q;
      QuadSymbols(bytes[0], bytes[1], bytes[2], i);
    }
  }

  /** Four characters per started group of three bytes; symbols first, then at most two pads. */
  lemma {:induction false} Shape(bytes: seq<byte>, i: nat)
    requires i < |Encode(bytes)|
    ensures |Encode(bytes)| == 4 * ((|bytes| + 2) / 3)
    ensures if i < |Encode(bytes)| - Pads(|bytes|) then IsSymbol(Encode(bytes)[i]) else Encode(bytes)[i] == '='
    decreases |bytes|
  {
    hide One, Two, Quad;
    Length(bytes);
    if |bytes| == 0 {
    } else if |bytes| <= 3 {
      ShortShape(bytes, i);
    } else {
      var q, rest := Quad(bytes[0], bytes[1], bytes[2]), bytes[3..];
      assert Encode(bytes) == q + Encode(rest);
      PadsAgain(|bytes|);
      Length(rest);
      hide Encode, IsSymbol, Pads;
      if i < 4 {
        QuadSymbols(bytes[0], bytes[1], bytes[2], i);
      } else {
        Shape(rest, i - 4);
      }
    }
  }

  lemma PadsAgain(n: nat)
    requires n >= 3
    ensures Pads(n) == Pads(n - 3)
  {}

  lemma SymbolIsSymbol(n: int)
    requires 0 <= n < 64
    ensures IsSymbol(Symbol(n))
  {
    SymbolRoundTrip(n);
  }

  /** The alphabet of section 4 of RFC 4648: A to Z, a to z, 0 to 9, plus and slash. */
  lemma Alphabet()
    ensures Symbol(0) == 'A' && Symbol(25) == 'Z' && Symbol(26) == 'a' && Symbol(51) == 'z'
    ensures Symbol(52) == '0' && Symbol(61) == '9' && Symbol(62) == '+' && Symbol(63) == '/'
    ensures forall n :: 0 < n < 62 && n != 26 && n != 52 ==> Symbol(n) as int == Symbol(n - 1) as int + 1
  {}
}
