/** Well-formed UTF-8 (sections 3 and 4 of RFC 3629), as `str::from_utf8` checks it. */
module Unicode {
  import opened Bytes

  predicate Continues(s: seq<byte>, from: nat, to: nat) {
    to <= |s| && forall k :: from <= k < to ==> 0x80 <= s[k] <= 0xBF
  }

  /** The length of the first character of a UTF-8 text, 0 if malformed (section 4 of RFC 3629). */
  function CharWidth(s: seq<byte>): (w: nat)
    requires s != []
    ensures w <= |s|
  {
    if s[0] < 0x80 then 1
    else if 0xC2 <= s[0] <= 0xDF && Continues(s, 1, 2) then 2
    else if 0xE0 <= s[0] <= 0xEF && Continues(s, 1, 3) && (s[0] == 0xE0 ==> s[1] >= 0xA0) && (s[0] == 0xED ==> s[1] <= 0x9F) then 3
    else if 0xF0 <= s[0] <= 0xF4 && Continues(s, 1, 4) && (s[0] == 0xF0 ==> s[1] >= 0x90) && (s[0] == 0xF4 ==> s[1] <= 0x8F) then 4
    else 0
  }

  /** `str::from_utf8` succeeds. */
  predicate IsUtf8(s: seq<byte>) {
    s == [] || (CharWidth(s) > 0 && IsUtf8(s[CharWidth(s)..]))
  }

  // ---- Characters and their encodings ----

  /** A Unicode scalar value. */
  predicate Scalar(cp: nat) {
    cp < 0xD800 || 0xE000 <= cp < 0x11_0000
  }

  function EncodeChar(cp: nat): (e: seq<byte>)
    requires Scalar(cp)
    ensures 1 <= |e| <= 4
  {
    if cp < 0x80 then [cp]
    else if cp < 0x800 then [0xC0 + cp / 64, 0x80 + cp % 64]
    else if cp < 0x1_0000 then [0xE0 + cp / 64 / 64, 0x80 + cp / 64 % 64, 0x80 + cp % 64]
    else [0xF0 + cp / 64 / 64 / 64, 0x80 + cp / 64 / 64 % 64, 0x80 + cp / 64 % 64, 0x80 + cp % 64]
  }

  function EncodeText(cps: seq<nat>): seq<byte>
    requires forall cp :: cp in cps ==> Scalar(cp)
  {
    if cps == [] then [] else EncodeChar(cps[0]) + EncodeText(cps[1..])
  }

  /** Three digits in base 64, highest first. */
  lemma Digits64(cp: nat)
    ensures var a, b, c, d := cp / 64 / 64 / 64, cp / 64 / 64 % 64, cp / 64 % 64, cp % 64;
            && cp == 64 * (64 * (64 * a + b) + c) + d && 0 <= b < 64 && 0 <= c < 64 && 0 <= d < 64
  {
    var q := cp / 64;
    var r := q / 64;
    assert cp == 64 * q + cp % 64 && q == 64 * r + q % 64 && r == 64 * (r / 64) + r % 64;
  }

  /** The first character of an encoded text is found whole, whatever follows. */
  lemma WidthOfEncoded(cp: nat, rest: seq<byte>)
    requires Scalar(cp)
    ensures CharWidth(EncodeChar(cp) + rest) == |EncodeChar(cp)|
  {
    Digits64(cp);
  }

  lemma Split64(q: nat, r: nat)
    requires r < 64
    ensures (64 * q + r) / 64 == q && (64 * q + r) % 64 == r
  {}

  lemma TwoBytes(b0: byte, b1: byte) returns (cp: nat)
    requires 0xC2 <= b0 <= 0xDF && 0x80 <= b1 <= 0xBF
    ensures Scalar(cp) && EncodeChar(cp) == [b0, b1]
  {
    var x0: nat, x1: nat := b0 as int - 0xC0, b1 as int - 0x80;
    cp := 64 * x0 + x1;
    Split64(x0, x1);
  }

  lemma ThreeBytes(b0: byte, b1: byte, b2: byte) returns (cp: nat)
    requires 0xE0 <= b0 <= 0xEF && 0x80 <= b1 <= 0xBF && 0x80 <= b2 <= 0xBF
    requires (b0 == 0xE0 ==> b1 >= 0xA0) && (b0 == 0xED ==> b1 <= 0x9F)
    ensures Scalar(cp) && EncodeChar(cp) == [b0, b1, b2]
  {
    var x0: nat, x1: nat, x2: nat := b0 as int - 0xE0, b1 as int - 0x80, b2 as int - 0x80;
    cp := 64 * (64 * x0 + x1) + x2;
    Split64(64 * x0 + x1, x2);
    Split64(x0, x1);
  }

  lemma FourBytes(b0: byte, b1: byte, b2: byte, b3: byte) returns (cp: nat)
    requires 0xF0 <= b0 <= 0xF4 && 0x80 <= b1 <= 0xBF && 0x80 <= b2 <= 0xBF && 0x80 <= b3 <= 0xBF
    requires (b0 == 0xF0 ==> b1 >= 0x90) && (b0 == 0xF4 ==> b1 <= 0x8F)
    ensures Scalar(cp) && EncodeChar(cp) == [b0, b1, b2, b3]
  {
    var x0: nat, x1: nat, x2: nat, x3: nat := b0 as int - 0xF0, b1 as int - 0x80, b2 as int - 0x80, b3 as int - 0x80;
    cp := 64 * (64 * (64 * x0 + x1) + x2) + x3;
    Split64(64 * (64 * x0 + x1) + x2, x3);
    Split64(64 * x0 + x1, x2);
    Split64(x0, x1);
  }

  /** A character found whole is the encoding of a scalar value. */
  lemma EncodedAtWidth(s: seq<byte>) returns (cp: nat)
    requires s != [] && CharWidth(s) > 0
    ensures Scalar(cp) && EncodeChar(cp) == s[..CharWidth(s)]
  {
    var w := CharWidth(s);
    if w == 1 {
      cp := s[0];
    } else if w == 2 {
      hide EncodeChar;
      cp := TwoBytes(s[0], s[1]);
    } else if w == 3 {
      hide EncodeChar;
      cp := ThreeBytes(s[0], s[1], s[2]);
    } else {
      hide EncodeChar;
      cp := FourBytes(s[0], s[1], s[2], s[3]);
    }
  }

  lemma {:induction false} EncodedIsUtf8(cps: seq<nat>)
    requires forall cp :: cp in cps ==> Scalar(cp)
    ensures IsUtf8(EncodeText(cps))
    decreases |cps|
  {
    hide CharWidth, EncodeChar;
    if cps != [] {
      var rest := EncodeText(cps[1..]);
      EncodedIsUtf8(cps[1..]);
      WidthOfEncoded(cps[0], rest);
      assert (EncodeChar(cps[0]) + rest)[|EncodeChar(cps[0])|..] == rest;
    }
  }

  lemma {:induction false} Utf8IsEncoded(s: seq<byte>) returns (cps: seq<nat>)
    requires IsUtf8(s)
    ensures (forall cp :: cp in cps ==> Scalar(cp)) && EncodeText(cps) == s
    decreases |s|
  {
    hide CharWidth, EncodeChar;
    if s == [] {
      cps := [];
    } else {
      var cp := EncodedAtWidth(s);
      var rest := Utf8IsEncoded(s[CharWidth(s)..]);
      cps := [cp] + rest;
      assert cps[1..] == rest && s == s[..CharWidth(s)] + s[CharWidth(s)..];
    }
  }

  /** The check accepts exactly the encodings of texts. */
  lemma Utf8Exact(s: seq<byte>)
    ensures IsUtf8(s) <==> exists cps: seq<nat> :: (forall cp :: cp in cps ==> Scalar(cp)) && EncodeText(cps) == s
  {
    hide IsUtf8, EncodeText;
    if IsUtf8(s) {
      var cps := Utf8IsEncoded(s);
    }
    if cps: seq<nat> :| (forall cp :: cp in cps ==> Scalar(cp)) && EncodeText(cps) == s {
      EncodedIsUtf8(cps);
    }
  }
}
