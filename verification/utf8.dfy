/**
 UTF-8 as Go reads it (unicode/utf8): a string is any bytes, and ranging over it yields code points, with one
 replacement character for each byte that is not part of one. Code points are encoded as in section 3 of
 RFC 3629.
 */
module Utf8 {
  import opened Common

  datatype Item = Rune(code: nat) | BadByte

  predicate IsScalar(c: nat) {
    c < 0xD800 || 0xE000 <= c <= 0x10FFFF
  }

  function Encode(c: nat): Bytes
    requires IsScalar(c)
  {
    if c < 0x80 then [c]
    else if c < 0x800 then [0xC0 + c / 64, 0x80 + c % 64]
    else if c < 0x10000 then [0xE0 + c / 64 / 64, 0x80 + c / 64 % 64, 0x80 + c % 64]
    else [0xF0 + c / 64 / 64 / 64, 0x80 + c / 64 / 64 % 64, 0x80 + c / 64 % 64, 0x80 + c % 64]
  }

  predicate Continues(b: Bytes, i: nat) {
    i < |b| && 0x80 <= b[i] <= 0xBF
  }

  /** Six more bits. */
  function More(high: int, b: Bytes, i: nat): int
    requires i < |b|
  {
    high * 64 + (b[i] as int - 0x80)
  }

  /** utf8.DecodeRune: the second byte has a narrower range after E0, ED, F0 and F4. */
  function First(b: Bytes): (r: (Item, nat))
    requires b != []
    ensures 1 <= r.1 <= |b| && (r.0.BadByte? ==> r.1 == 1)
  {
    var x: int := b[0];
    if x < 0x80 then (Rune(x), 1)
    else if 0xC2 <= x <= 0xDF && Continues(b, 1) then (Rune(More(x - 0xC0, b, 1)), 2)
    else if 0xE0 <= x <= 0xEF && Continues(b, 1) && Continues(b, 2)
            && (x == 0xE0 ==> b[1] >= 0xA0) && (x == 0xED ==> b[1] <= 0x9F) then
      (Rune(More(More(x - 0xE0, b, 1), b, 2)), 3)
    else if 0xF0 <= x <= 0xF4 && Continues(b, 1) && Continues(b, 2) && Continues(b, 3)
            && (x == 0xF0 ==> b[1] >= 0x90) && (x == 0xF4 ==> b[1] <= 0x8F) then
      (Rune(More(More(More(x - 0xF0, b, 1), b, 2), b, 3)), 4)
    else (BadByte, 1)
  }

  function Decode(b: Bytes): seq<Item> {
    if b == [] then [] else [First(b).0] + Decode(b[First(b).1..])
  }

  /** utf8.ValidString. */
  predicate ValidString(b: Bytes) {
    BadByte !in Decode(b)
  }

  // ---- What is valid ----

  lemma MoreParts(high: int, b: Bytes, i: nat)
    requires high >= 0 && Continues(b, i)
    ensures More(high, b, i) / 64 == high && 0x80 + More(high, b, i) % 64 == b[i]
    ensures 64 * high <= More(high, b, i) < 64 * high + 64
  {
  }

  lemma EncodeOfFirst(b: Bytes)
    requires b != [] && First(b).0.Rune?
    ensures var (item, n) := First(b);
            IsScalar(item.code) && Encode(item.code) == b[..n]
  {
    hide More;
    var x: int := b[0];
    var (item, n) := First(b);
    if n == 1 {
      assert b[..1] == [b[0]];
    } else if n == 2 {
      MoreParts(x - 0xC0, b, 1);
      assert b[..2] == [b[0], b[1]];
    } else if n == 3 {
      MoreParts(x - 0xE0, b, 1);
      MoreParts(More(x - 0xE0, b, 1), b, 2);
      ThreeBytes(b);
      assert b[..3] == [b[0], b[1], b[2]];
    } else {
      MoreParts(x - 0xF0, b, 1);
      MoreParts(More(x - 0xF0, b, 1), b, 2);
      MoreParts(More(More(x - 0xF0, b, 1), b, 2), b, 3);
      FourBytes(b);
      assert b[..4] == [b[0], b[1], b[2], b[3]];
    }
  }

  lemma ThreeBytes(b: Bytes)
    requires |b| >= 3 && 0xE0 <= b[0] <= 0xEF && Continues(b, 1) && Continues(b, 2)
    requires (b[0] == 0xE0 ==> b[1] >= 0xA0) && (b[0] == 0xED ==> b[1] <= 0x9F)
    ensures var c := More(More(b[0] as int - 0xE0, b, 1), b, 2);
            0x800 <= c < 0x10000 && IsScalar(c)
  {
  }

  lemma FourBytes(b: Bytes)
    requires |b| >= 4 && 0xF0 <= b[0] <= 0xF4 && Continues(b, 1) && Continues(b, 2) && Continues(b, 3)
    requires (b[0] == 0xF0 ==> b[1] >= 0x90) && (b[0] == 0xF4 ==> b[1] <= 0x8F)
    ensures var c := More(More(More(b[0] as int - 0xF0, b, 1), b, 2), b, 3);
            0x10000 <= c <= 0x10FFFF
  {
  }

  lemma FirstOfEncode(c: nat, rest: Bytes)
    requires IsScalar(c)
    ensures First(Encode(c) + rest) == (Rune(c), |Encode(c)|)
  {
    var d := c / 64;
    var e := d / 64;
    assert c == 64 * d + c % 64 && d == 64 * e + d % 64 && e == 64 * (e / 64) + e % 64;
    if c < 0x80 {
    } else if c < 0x800 {
      assert 2 <= d < 32;
    } else if c < 0x10000 {
      assert e < 16 && (e == 0 ==> d % 64 >= 32);
    } else {
      assert e / 64 <= 4 && (e / 64 == 0 ==> e % 64 >= 16) && (e / 64 == 4 ==> e % 64 < 16);
    }
  }

  function EncodeAll(cs: seq<nat>): Bytes
    requires forall i :: 0 <= i < |cs| ==> IsScalar(cs[i])
  {
    if cs == [] then [] else Encode(cs[0]) + EncodeAll(cs[1..])
  }

  function Runes(cs: seq<nat>): seq<Item> {
    seq(|cs|, i requires 0 <= i < |cs| => Rune(cs[i]))
  }

  lemma {:induction false} DecodeOfEncode(cs: seq<nat>)
    requires forall i :: 0 <= i < |cs| ==> IsScalar(cs[i])
    ensures Decode(EncodeAll(cs)) == Runes(cs) && ValidString(EncodeAll(cs))
  {
    hide First, Encode;
    if cs != [] {
      var rest := EncodeAll(cs[1..]);
      DecodeOfEncode(cs[1..]);
      FirstOfEncode(cs[0], rest);
      assert (Encode(cs[0]) + rest)[|Encode(cs[0])|..] == rest;
    }
  }

  /** A valid string is the encoding of code points, and of those that it decodes to. */
  lemma {:induction false} ValidIsEncoded(b: Bytes) returns (cs: seq<nat>)
    requires ValidString(b)
    ensures forall i :: 0 <= i < |cs| ==> IsScalar(cs[i])
    ensures b == EncodeAll(cs) && Decode(b) == Runes(cs)
    decreases |b|
  {
    hide First, Encode;
    if b == [] {
      cs := [];
    } else {
      var (item, n) := First(b);
      assert item in Decode(b);
      EncodeOfFirst(b);
      var rest := ValidIsEncoded(b[n..]);
      cs := [item.code] + rest;
      assert cs[1..] == rest && b == b[..n] + b[n..];
    }
  }

  // ---- Slashes ----

  const SLASH := 47

  /** An ASCII byte ends whatever comes before it. */
  lemma FirstOfConcat(a: Bytes, b: Bytes)
    requires a != [] && (b == [] || b[0] < 0x80)
    ensures First(a + b) == First(a)
  {
    assert b == [] ==> a + b == a;
  }

  lemma {:induction false} DecodeConcat(a: Bytes, b: Bytes)
    requires b == [] || b[0] < 0x80
    ensures Decode(a + b) == Decode(a) + Decode(b)
    decreases |a|
  {
    hide First;
    if a == [] {
      assert a + b == b;
    } else {
      FirstOfConcat(a, b);
      var (item, n) := First(a);
      DecodeConcat(a[n..], b);
      assert (a + b)[n..] == a[n..] + b;
      assert Decode(a + b) == [item] + Decode(a[n..] + b);
    }
  }

  lemma {:induction false} DecodeSlashes(n: nat, b: Bytes)
    requires n <= |b| && forall i :: 0 <= i < n ==> b[i] == SLASH
    ensures Decode(b) == seq(n, _ => Rune(SLASH)) + Decode(b[n..])
  {
    if n > 0 {
      DecodeSlashes(n - 1, b[1..]);
      assert b[1..][n - 1..] == b[n..];
      assert Decode(b) == [Rune(SLASH)] + Decode(b[1..]);
    }
  }

  /** A slash is decoded from a slash only. */
  lemma {:induction false} NoSlashes(b: Bytes)
    requires SLASH !in b
    ensures Rune(SLASH) !in Decode(b)
    decreases |b|
  {
    if b != [] {
      var (item, n) := First(b);
      assert b[0] in b;
      if item.Rune? {
        EncodeOfFirst(b);
      }
      hide First;
      NoSlashes(b[n..]);
    }
  }
}
