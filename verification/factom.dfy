/**
 Factom data entries (protocol/factom_data_entry.go), in the layout of the "Entry" section of the Factom
 Data Structures specification: version byte, 32-byte chain id, two-byte size of the external ids, the
 external ids each with a two-byte size, and the data.
 */
module FactomEntries {
  import opened Common

  const MAX_INT32 := 0x7FFF_FFFF
  const HEADER_SIZE := 35

  /** binary.BigEndian.PutUint16 of uint16(n), which drops all but the low 16 bits. */
  function Put16(n: nat): (r: Bytes)
    ensures |r| == 2
  {
    [n / 256 % 256, n % 256]
  }

  function Get16(b: Bytes): nat
    requires |b| >= 2
  {
    b[0] as int * 256 + b[1] as int
  }

  datatype Entry = Entry(accountId: Bytes, data: Bytes, extIds: seq<Bytes>)

  predicate IsZero(b: Bytes) {
    forall i :: 0 <= i < |b| ==> b[i] == 0
  }

  function EncodeExtIds(ids: seq<Bytes>): Bytes {
    if ids == [] then [] else Put16(|ids[0]|) + ids[0] + EncodeExtIds(ids[1..])
  }

  function Encode(e: Entry): Option<Bytes> {
    if IsZero(e.accountId) then None
    else
      var ext := EncodeExtIds(e.extIds);
      Some([0] + e.accountId + Put16(|ext|) + ext + e.data)
  }

  /** The external ids read until the bytes run out or stop making sense, and whether they did not. */
  function ParseExtIds(b: Bytes): (seq<Bytes>, bool)
    decreases |b|
  {
    if b == [] then ([], true)
    else if |b| < 2 || Get16(b) > |b| - 2 then ([], false)
    else
      var n := Get16(b);
      var (ids, ok) := ParseExtIds(b[2 + n..]);
      ([b[2..2 + n]] + ids, ok)
  }

  /** UnmarshalBinary into `e`, with the fields it leaves behind when it fails. */
  function Decode(e: Entry, b: Bytes): (r: (Entry, bool))
    ensures r.1 ==> HEADER_SIZE <= |b| <= MAX_INT32
  {
    if |b| < HEADER_SIZE || |b| > MAX_INT32 then (e, false)
    else
      var id, total, rest := b[1..33], Get16(b[33..]), b[35..];
      if total > |rest| || total == 1 then (e.(accountId := id), false)
      else
        var (ids, ok) := ParseExtIds(rest[..total]);
        (Entry(id, rest[total..], ids), ok)
  }

  // ---- The two directions ----

  lemma Get16OfPut16(n: nat, tail: Bytes)
    ensures Get16(Put16(n) + tail) == n % 0x1_0000
  {
    TwoDigits(n);
    var b := Put16(n) + tail;
    assert b[0] == n / 256 % 256 && b[1] == n % 256;
  }

  lemma TwoDigits(n: nat)
    ensures n / 256 % 256 * 256 + n % 256 == n % 0x1_0000
  {
    var q, r := n / 256, n % 256;
    Remainder(n, q / 256, q % 256 * 256 + r);
  }

  lemma Remainder(n: nat, q: nat, r: nat)
    requires n == 0x1_0000 * q + r && r < 0x1_0000
    ensures n % 0x1_0000 == r
  {
  }

  lemma Put16OfGet16(b: Bytes)
    requires |b| >= 2
    ensures Put16(Get16(b)) == b[..2] && Get16(b) < 0x1_0000
  {
    assert b[..2] == [b[0], b[1]];
  }

  lemma {:induction false} ParseOfEncode(ids: seq<Bytes>)
    requires forall i :: 0 <= i < |ids| ==> |ids[i]| < 0x1_0000
    ensures ParseExtIds(EncodeExtIds(ids)) == (ids, true)
  {
    hide Put16, Get16, ParseExtIds;
    if ids == [] {
      ParseOnce([]);
    } else {
      ParseOfEncode(ids[1..]);
      ParseFirst(ids[0], EncodeExtIds(ids[1..]));
      assert EncodeExtIds(ids) == Put16(|ids[0]|) + ids[0] + EncodeExtIds(ids[1..]);
      assert ids == [ids[0]] + ids[1..];
    }
  }

  lemma {:induction false} ParseFirst(id: Bytes, rest: Bytes)
    requires |id| < 0x1_0000
    ensures ParseExtIds(Put16(|id|) + id + rest) == ([id] + ParseExtIds(rest).0, ParseExtIds(rest).1)
  {
    hide Put16, Get16, ParseExtIds;
    var b := Put16(|id|) + id + rest;
    ParseOnce(b);
    Get16OfPut16(|id|, []);
    ThreeParts(Put16(|id|), id, rest);
  }

  lemma ThreeParts(size: Bytes, id: Bytes, rest: Bytes)
    requires |size| == 2
    ensures var b := size + id + rest;
            b[..2] == size + [] && b[2..][..|id|] == id && b[2..][|id|..] == rest
  {
    assert (size + id + rest)[2..] == id + rest;
  }

  lemma {:induction false} EncodeOfParse(b: Bytes)
    requires ParseExtIds(b).1
    ensures EncodeExtIds(ParseExtIds(b).0) == b
    decreases |b|
  {
    hide Put16, Get16;
    if b != [] {
      var n := Get16(b);
      EncodeOfParse(b[2 + n..]);
      Put16OfGet16(b);
      var ids := ParseExtIds(b).0;
      assert ids[1..] == ParseExtIds(b[2 + n..]).0;
      assert b == b[..2] + b[2..2 + n] + b[2 + n..];
    }
  }

  lemma {:induction false} EncodedSizes(ids: seq<Bytes>)
    ensures forall i :: 0 <= i < |ids| ==> |ids[i]| + 2 <= |EncodeExtIds(ids)|
    ensures |EncodeExtIds(ids)| != 1
  {
    if ids != [] {
      EncodedSizes(ids[1..]);
    }
  }

  /** The layout: a zero byte, the chain id, the size of the external ids with its high byte first, the external ids
      and the data. */
  lemma EncodedBytes(e: Entry)
    requires |e.accountId| == 32 && Encode(e).Some?
    ensures var ext, b := EncodeExtIds(e.extIds), Encode(e).value;
            && |b| == 35 + |ext| + |e.data| && b[0] == 0 && b[1..33] == e.accountId
            && b[33] == |ext| / 256 % 256 && b[34] == |ext| % 256
            && b[35..35 + |ext|] == ext && b[35 + |ext|..] == e.data
  {
    var ext, b := EncodeExtIds(e.extIds), Encode(e).value;
    assert b[33..35] == Put16(|ext|) && b[33..35][0] == b[33] && b[33..35][1] == b[34];
  }

  /** The size of an external id, with the high byte first, and the external id. */
  ghost predicate ExtIdAt(b: Bytes, at: nat, id: Bytes) {
    && at + 2 + |id| <= |b|
    && b[at] == |id| / 256 % 256 && b[at + 1] == |id| % 256 && b[at + 2..at + 2 + |id|] == id
  }

  /** Every external id is preceded by its size and followed by the next one. */
  lemma {:induction false} EncodedExtId(ids: seq<Bytes>, i: nat) returns (at: nat)
    requires i < |ids|
    ensures var b := EncodeExtIds(ids);
            && at == |EncodeExtIds(ids[..i])| && ExtIdAt(b, at, ids[i])
            && (i + 1 == |ids| ==> at + 2 + |ids[i]| == |b|)
  {
    var first, rest := Put16(|ids[0]|) + ids[0], EncodeExtIds(ids[1..]);
    if i == 0 {
      at := 0;
      assert ids[..0] == [];
      FirstExtId(ids[0], rest);
    } else {
      at := EncodedExtId(ids[1..], i - 1);
      Later(first, rest, at, ids[i]);
      at := |first| + at;
      assert ids[..i][1..] == ids[1..][..i - 1] && ids[..i][0] == ids[0];
      hide Put16, ExtIdAt;
    }
  }

  lemma FirstExtId(id: Bytes, rest: Bytes)
    ensures ExtIdAt(Put16(|id|) + id + rest, 0, id)
  {
    var b := Put16(|id|) + id + rest;
    assert b[..2] == Put16(|id|) && b[2..2 + |id|] == id;
    assert b[..2][0] == b[0] && b[..2][1] == b[1];
  }

  lemma Later(first: Bytes, rest: Bytes, at: nat, id: Bytes)
    requires ExtIdAt(rest, at, id)
    ensures ExtIdAt(first + rest, |first| + at, id)
  {
    var b, n := first + rest, |first| + at;
    assert b[n + 2..n + 2 + |id|] == rest[at + 2..at + 2 + |id|];
  }

  /** The bytes after the version are the encoding of the entry, and its size fields are right. */
  ghost predicate IsEncodingOf(b: Bytes, e: Entry) {
    var ext := EncodeExtIds(e.extIds);
    && |e.accountId| == 32 && |ext| <= 0xFFFF
    && b == e.accountId + [|ext| / 256, |ext| % 256] + ext + e.data
  }

  lemma EncodingParts(b: Bytes, e: Entry)
    requires HEADER_SIZE <= |b| && IsEncodingOf(b[1..], e)
    ensures var ext := EncodeExtIds(e.extIds);
            && b[1..33] == e.accountId && Get16(b[33..]) == |ext| <= |b| - 35
            && b[35..][..|ext|] == ext && b[35..][|ext|..] == e.data
  {
    var ext, c := EncodeExtIds(e.extIds), b[1..];
    assert c[32..34] == [|ext| / 256, |ext| % 256] && c[32..34][0] == b[33] && c[32..34][1] == b[34];
    assert c[34..] == ext + e.data && b[35..] == c[34..];
  }

  lemma {:induction false} DecodeOfEncoding(b: Bytes, into: Entry, e: Entry)
    requires HEADER_SIZE <= |b| <= MAX_INT32 && IsEncodingOf(b[1..], e)
    ensures Decode(into, b) == (e, true)
  {
    EncodingParts(b, e);
    EncodedSizes(e.extIds);
    assert |EncodeExtIds(e.extIds)| <= 0xFFFF;
    hide Get16, ParseExtIds, IsEncodingOf, EncodeExtIds;
    ParseOfEncode(e.extIds);
  }

  lemma {:induction false} EncodingOfDecode(b: Bytes, into: Entry)
    requires Decode(into, b).1
    ensures HEADER_SIZE <= |b| <= MAX_INT32 && IsEncodingOf(b[1..], Decode(into, b).0)
  {
    hide Get16, ParseExtIds, EncodeExtIds;
    var rest, total := b[35..], Get16(b[33..]);
    EncodeOfParse(rest[..total]);
    Put16OfGet16(b[33..]);
    SmallSize(total);
    hide Put16;
    assert b[1..] == b[1..33] + b[33..][..2] + rest[..total] + rest[total..];
  }

  lemma SmallSize(n: nat)
    requires n < 0x1_0000
    ensures Put16(n) == [n / 256, n % 256]
  {
  }

  /** The decoder accepts exactly the encodings within its limit, of any version, and gives what was encoded. */
  lemma DecodesExactly(b: Bytes, into: Entry, e: Entry)
    ensures Decode(into, b) == (e, true) <==> HEADER_SIZE <= |b| <= MAX_INT32 && IsEncodingOf(b[1..], e)
  {
    hide Decode, IsEncodingOf;
    if HEADER_SIZE <= |b| <= MAX_INT32 && IsEncodingOf(b[1..], e) {
      DecodeOfEncoding(b, into, e);
    }
    if Decode(into, b).1 {
      EncodingOfDecode(b, into);
    }
  }

  /** What was written can be read back exactly when the external ids fit their two-byte size and the
      entry is within the decoder's limit. */
  lemma RoundTrip(e: Entry, into: Entry)
    requires |e.accountId| == 32 && exists i :: 0 <= i < 32 && e.accountId[i] != 0
    ensures Encode(e).Some?
    ensures var b := Encode(e).value;
            Decode(into, b) == (e, true) <==>
            |EncodeExtIds(e.extIds)| <= 0xFFFF && HEADER_SIZE + |EncodeExtIds(e.extIds)| + |e.data| <= MAX_INT32
  {
    var ext, b := EncodeExtIds(e.extIds), Encode(e).value;
    assert b[1..] == e.accountId + Put16(|ext|) + ext + e.data;
    DecodesExactly(b, into, e);
    hide Decode, EncodeExtIds;
    if |ext| <= 0xFFFF {
      SmallSize(|ext|);
    }
  }

  /** The smallest entry that cannot be read back: one external id of 65534 bytes fills 65536, and the size field
      says 0. */
  lemma LargeExternalId(id: Bytes, into: Entry)
    requires |id| == 32 && exists i :: 0 <= i < 32 && id[i] != 0
    ensures var e := Entry(id, [], [seq(65534, _ => 0)]);
            && Encode(e).Some? && |Encode(e).value| >= 35 && Encode(e).value[33] == Encode(e).value[34] == 0
            && Decode(into, Encode(e).value) != (e, true)
  {
    hide Put16, Get16, ParseExtIds;
    var big: Bytes := seq(65534, _ => 0);
    var e := Entry(id, [], [big]);
    assert [big][1..] == [];
    assert |EncodeExtIds(e.extIds)| == 65536;
    EncodedBytes(e);
    RoundTrip(e, into);
  }

  /** What was read is written back byte for byte, except that the version byte becomes 0. */
  lemma CanonicalEncoding(b: Bytes, into: Entry)
    requires Decode(into, b).1
    ensures var e := Decode(into, b).0;
            && |e.accountId| == 32
            && Encode(e) == if exists i :: 0 <= i < 32 && e.accountId[i] != 0 then Some([0] + b[1..]) else None
  {
    var e := Decode(into, b).0;
    EncodingOfDecode(b, into);
    var ext := EncodeExtIds(e.extIds);
    SmallSize(|ext|);
    hide Decode, EncodeExtIds, Put16;
    assert [0] + e.accountId + Put16(|ext|) + ext + e.data == [0] + b[1..];
  }

  lemma PrefixOfParsed(b: Bytes, n: nat, ids: seq<Bytes>)
    requires |b| >= 2 && n == Get16(b) <= |b| - 2 && EncodeExtIds(ids) <= b[2 + n..]
    ensures var more := EncodeExtIds([b[2..2 + n]] + ids);
            && more == b[..2 + n] + EncodeExtIds(ids) && more <= b
            && b[|more|..] == b[2 + n..][|EncodeExtIds(ids)|..]
  {
    Put16OfGet16(b);
    var all := [b[2..2 + n]] + ids;
    assert all[0] == b[2..2 + n] && all[1..] == ids;
    assert b[..2] + b[2..2 + n] == b[..2 + n];
    hide Put16, Get16;
    assert EncodeExtIds(all) == b[..2 + n] + EncodeExtIds(ids);
    hide EncodeExtIds;
    assert b == b[..2 + n] + b[2 + n..];
  }

  /** What is no external id: a single byte, or a size that is more than follows. */
  predicate Broken(b: Bytes) {
    |b| == 1 || (|b| >= 2 && b[0] as int * 256 + b[1] as int > |b| - 2)
  }

  lemma {:induction false} ParseNext(b: Bytes)
    requires |b| >= 2 && Get16(b) <= |b| - 2
    ensures var n := Get16(b);
            && ParseExtIds(b).0 == [b[2..2 + n]] + ParseExtIds(b[2 + n..]).0
            && ParseExtIds(b).1 == ParseExtIds(b[2 + n..]).1
  {
  }

  /** Where reading external ids stops: what was read is a prefix, and what follows is no external id. */
  lemma {:induction false} ParseStops(b: Bytes)
    ensures var (ids, ok) := ParseExtIds(b);
            && EncodeExtIds(ids) <= b
            && if ok then EncodeExtIds(ids) == b else Broken(b[|EncodeExtIds(ids)|..])
    decreases |b|
  {
    if b == [] || Broken(b) {
      assert b[0..] == b;
    } else {
      var n := Get16(b);
      ParseNext(b);
      hide ParseExtIds, Get16, Broken, EncodeExtIds;
      ParseStops(b[2 + n..]);
      PrefixOfParsed(b, n, ParseExtIds(b[2 + n..]).0);
      assert b == b[..2 + n] + b[2 + n..];
    }
  }

  class FactomDataEntry {
    var accountId: Bytes
    var data: Bytes
    var extIds: seq<Bytes>

    function Value(): Entry
      reads this
    {
      Entry(accountId, data, extIds)
    }

    constructor (e: Entry)
      ensures Value() == e
    {
      accountId, data, extIds := e.accountId, e.data, e.extIds;
    }

    method MarshalBinary() returns (r: Option<Bytes>)
      ensures r == Encode(Value())
      ensures r.Some? <==> exists i :: 0 <= i < |accountId| && accountId[i] != 0
    {
      hide Put16, EncodeExtIds;
      if IsZero(accountId) {
        return None;
      }
      var b := [0] + accountId;
      var ex: Bytes := [];
      EncodeEnds(extIds);
      var i := 0;
      while i < |extIds|
        invariant 0 <= i <= |extIds|
        invariant EncodeExtIds(extIds) == ex + EncodeExtIds(extIds[i..])
      {
        EncodeStep(ex, extIds, i);
        ex := ex + Put16(|extIds[i]|);
        ex := ex + extIds[i];
        i := i + 1;
      }
      assert extIds[i..] == [] && ex + [] == ex;
      b := b + Put16(|ex|);
      b := b + ex;
      b := b + data;
      r := Some(b);
    }

    method UnmarshalBinary(b: Bytes) returns (ok: bool)
      modifies this
      ensures (Value(), ok) == Decode(old(Value()), b)
    {
      hide Get16, ParseExtIds, ParsedFrom;
      if |b| < HEADER_SIZE || |b| > MAX_INT32 {
        return false;
      }
      var rest := b[1..];
      accountId := rest[..32];
      rest := rest[32..];
      var total := Get16(rest[..2]);
      Get16OfPrefix(rest);
      assert rest == b[33..] && b[1..][..32] == b[1..33];
      rest := rest[2..];
      assert rest == b[35..];
      if total > |rest| || total == 1 {
        return false;
      }
      data, extIds := [], [];
      data := rest[total..];
      rest := rest[..total];
      ghost var whole := rest;
      ParseFrom([], rest);
      while |rest| > 0
        invariant accountId == b[1..33] && data == b[35..][total..]
        invariant ParseExtIds(whole) == ParsedFrom(extIds, rest)
        decreases |rest|
      {
        ParseStep(extIds, rest);
        if |rest| < 2 {
          return false;
        }
        var n := Get16(rest[..2]);
        rest := rest[2..];
        if n > |rest| {
          return false;
        }
        extIds := extIds + [rest[..n]];
        rest := rest[n..];
      }
      ParseStep(extIds, rest);
      return true;
    }
  }

  /** The result of the loop with `done` read and `rest` to go. */
  function ParsedFrom(done: seq<Bytes>, rest: Bytes): (seq<Bytes>, bool) {
    (done + ParseExtIds(rest).0, ParseExtIds(rest).1)
  }

  lemma ParseFrom(done: seq<Bytes>, rest: Bytes)
    ensures done == [] ==> ParsedFrom(done, rest) == ParseExtIds(rest)
  {
    hide ParseExtIds;
    assert [] + ParseExtIds(rest).0 == ParseExtIds(rest).0;
  }

  /** The definition of ParseExtIds, with the slices that the loop takes. */
  lemma ParseOnce(rest: Bytes)
    ensures |rest| >= 2 ==>
              var n, tail := Get16(rest[..2]), rest[2..];
              ParseExtIds(rest) ==
              if n > |tail| then ([], false) else ([tail[..n]] + ParseExtIds(tail[n..]).0, ParseExtIds(tail[n..]).1)
    ensures |rest| < 2 ==> ParseExtIds(rest) == ([], rest == [])
  {
    hide Get16;
    if |rest| >= 2 {
      Get16OfPrefix(rest);
      var n := Get16(rest);
      if n <= |rest| - 2 {
        assert rest[2..][..n] == rest[2..2 + n] && rest[2..][n..] == rest[2 + n..];
      }
    }
  }

  lemma ParseStep(done: seq<Bytes>, rest: Bytes)
    ensures |rest| < 2 ==> ParsedFrom(done, rest) == (done, rest == [])
    ensures |rest| >= 2 ==>
              var n, tail := Get16(rest[..2]), rest[2..];
              if n > |tail| then ParsedFrom(done, rest) == (done, false)
              else ParsedFrom(done, rest) == ParsedFrom(done + [tail[..n]], tail[n..])
  {
    ParseOnce(rest);
    hide Get16, ParseExtIds;
    assert done + [] == done;
    if |rest| >= 2 {
      var n, tail := Get16(rest[..2]), rest[2..];
      if n <= |tail| {
        var ids := ParseExtIds(tail[n..]).0;
        assert done + ([tail[..n]] + ids) == (done + [tail[..n]]) + ids;
      }
    }
  }

  lemma EncodeStep(done: Bytes, ids: seq<Bytes>, i: nat)
    requires i < |ids|
    ensures done + EncodeExtIds(ids[i..]) == done + Put16(|ids[i]|) + ids[i] + EncodeExtIds(ids[i + 1..])
  {
    hide Put16;
    assert ids[i..][1..] == ids[i + 1..];
  }

  lemma EncodeEnds(ids: seq<Bytes>)
    ensures EncodeExtIds([]) == [] && ids[0..] == ids
  {
  }

  lemma Get16OfPrefix(b: Bytes)
    requires |b| >= 2
    ensures Get16(b[..2]) == Get16(b)
  {
  }
}
