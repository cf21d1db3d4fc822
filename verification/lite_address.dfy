/**
 Lite token addresses (protocol/protocol.go): `acc://<key hash and checksum in hex>/<token URL>`. `sha` is
 SHA-256 of a string's bytes; only the length of its result matters. The fields of a URL are strings of
 the bytes of the source.
 */
module LiteAddresses {
  import opened Common

  type Sha = string -> Bytes

  datatype RawUrl = RawUrl(userInfo: string, authority: string, path: string, query: string, fragment: string)

  /** splitColon: what comes before and after the first colon. */
  function BeforeColon(s: string): string {
    if s == "" || s[0] == ':' then "" else [s[0]] + BeforeColon(s[1..])
  }

  function AfterColon(s: string): string {
    if s == "" then "" else if s[0] == ':' then s[1..] else AfterColon(s[1..])
  }

  /** The first colon separates the two; without one there is nothing after it. */
  lemma {:induction false} ColonSplits(host: string, port: string)
    requires ':' !in host
    ensures BeforeColon(host) == host && AfterColon(host) == ""
    ensures BeforeColon(host + ":" + port) == host && AfterColon(host + ":" + port) == port
  {
    if host == "" {
      assert (host + ":" + port)[1..] == port;
    } else {
      assert host[0] in host && (host + ":" + port)[1..] == host[1..] + ":" + port;
      ColonSplits(host[1..], port);
    }
  }

  /** So there is no port exactly if no colon comes before the last character. */
  lemma {:induction false} NoPort(s: string)
    ensures AfterColon(s) == "" <==> forall i :: 0 <= i < |s| - 1 ==> s[i] != ':'
  {
    if s != "" && s[0] != ':' {
      NoPort(s[1..]);
      assert forall i :: 0 <= i < |s| - 2 ==> s[1..][i] == s[i + 1];
      assert forall i :: 0 < i < |s| - 1 ==> s[i] == s[1..][i - 1];
    }
  }

  function Hostname(u: RawUrl): string {
    BeforeColon(u.authority)
  }

  function Port(u: RawUrl): string {
    AfterColon(u.authority)
  }

  // ---- Hexadecimal ----

  function HexDigit(d: nat): (c: char)
    requires d < 16
    ensures c != ':' && c != '/'
  {
    if d < 10 then '0' + d as char else 'a' + (d - 10) as char
  }

  /** encoding/hex reads both cases. */
  function HexValue(c: char): Option<nat> {
    if '0' <= c <= '9' then Some(c as int - '0' as int)
    else if 'a' <= c <= 'f' then Some(c as int - 'a' as int + 10)
    else if 'A' <= c <= 'F' then Some(c as int - 'A' as int + 10)
    else None
  }

  function HexEncode(b: Bytes): (s: string)
    ensures |s| == 2 * |b|
  {
    if b == [] then "" else [HexDigit(b[0] / 16), HexDigit(b[0] % 16)] + HexEncode(b[1..])
  }

  function HexDecode(s: string): (b: Option<Bytes>)
    ensures b.Some? ==> |s| == 2 * |b.value|
  {
    if s == "" then Some([])
    else if |s| == 1 then None
    else
      var hi, lo, rest := HexValue(s[0]), HexValue(s[1]), HexDecode(s[2..]);
      if hi.Some? && lo.Some? && hi.value < 16 && lo.value < 16 && rest.Some?
      then Some([16 * hi.value + lo.value] + rest.value)
      else None
  }

  lemma HexDigitValue(d: nat)
    requires d < 16
    ensures HexValue(HexDigit(d)) == Some(d)
  {
  }

  lemma {:induction false} DecodeOfEncode(b: Bytes)
    ensures HexDecode(HexEncode(b)) == Some(b)
  {
    if b != [] {
      DecodeOfEncode(b[1..]);
      HexDigitValue(b[0] / 16);
      HexDigitValue(b[0] % 16);
      hide HexValue, HexDigit;
      assert HexEncode(b)[2..] == HexEncode(b[1..]);
      assert 16 * (b[0] / 16) + b[0] % 16 == b[0] && b == [b[0]] + b[1..];
    }
  }

  /** The text in the case that is written. */
  function Lowered(s: string): (r: string)
    ensures |r| == |s|
  {
    seq(|s|, i requires 0 <= i < |s| => if 'A' <= s[i] <= 'F' then s[i] - 'A' + 'a' else s[i])
  }

  lemma HexValueDigit(c: char)
    requires HexValue(c).Some?
    ensures HexValue(c).value < 16 && HexDigit(HexValue(c).value) == if 'A' <= c <= 'F' then c - 'A' + 'a' else c
  {
  }

  /** Hex text that is read is written back in lower case. */
  lemma {:induction false} EncodeOfDecode(s: string)
    requires HexDecode(s).Some?
    ensures HexEncode(HexDecode(s).value) == Lowered(s)
  {
    if s != "" {
      EncodeOfDecode(s[2..]);
      HexValueDigit(s[0]);
      HexValueDigit(s[1]);
      hide HexValue, HexDigit;
      var hi, lo, rest := HexValue(s[0]).value, HexValue(s[1]).value, HexDecode(s[2..]).value;
      EncodeOne(hi, lo, rest);
      assert HexDecode(s).value == [16 * hi + lo] + rest;
      assert Lowered(s) == [HexDigit(hi), HexDigit(lo)] + Lowered(s[2..]);
    }
  }

  lemma EncodeOne(hi: nat, lo: nat, rest: Bytes)
    requires hi < 16 && lo < 16
    ensures HexEncode([16 * hi + lo] + rest) == [HexDigit(hi), HexDigit(lo)] + HexEncode(rest)
  {
    var b: Bytes := [16 * hi + lo] + rest;
    assert b[1..] == rest && b[0] / 16 == hi && b[0] % 16 == lo;
  }

  /** Both cases read alike. */
  lemma {:induction false} DecodeOfLowered(s: string)
    ensures HexDecode(Lowered(s)) == HexDecode(s)
  {
    if |s| > 1 {
      DecodeOfLowered(s[2..]);
      assert Lowered(s)[2..] == Lowered(s[2..]);
    }
  }

  lemma {:induction false} EncodeConcat(a: Bytes, b: Bytes)
    ensures HexEncode(a + b) == HexEncode(a) + HexEncode(b)
  {
    if a == [] {
      assert a + b == b;
    } else {
      assert (a + b)[1..] == a[1..] + b;
      EncodeConcat(a[1..], b);
    }
  }

  lemma {:induction false} HexHasNoColon(b: Bytes)
    ensures BeforeColon(HexEncode(b)) == HexEncode(b)
  {
    if b != [] {
      HexHasNoColon(b[1..]);
      NoColonInTwo(HexDigit(b[0] / 16), HexDigit(b[0] % 16), HexEncode(b[1..]));
    }
  }

  /** Two hex digits for every byte, the high one first. */
  lemma {:induction false} HexText(b: Bytes, i: nat)
    requires i < |b|
    ensures HexEncode(b)[2 * i] == "0123456789abcdef"[b[i] / 16]
    ensures HexEncode(b)[2 * i + 1] == "0123456789abcdef"[b[i] % 16]
  {
    if i == 0 {
      DigitText(b[0] / 16);
      DigitText(b[0] % 16);
    } else {
      HexText(b[1..], i - 1);
      assert HexEncode(b)[2..] == HexEncode(b[1..]);
    }
  }

  lemma DigitText(d: nat)
    requires d < 16
    ensures HexDigit(d) == "0123456789abcdef"[d]
  {
  }

  lemma NoColonInTwo(c: char, d: char, s: string)
    requires c != ':' && d != ':'
    ensures BeforeColon([c, d] + s) == [c, d] + BeforeColon(s)
  {
    var t := [c, d] + s;
    assert t[1..] == [d] + s && t[1..][1..] == s;
    assert [c] + ([d] + BeforeColon(s)) == [c, d] + BeforeColon(s);
  }

  // ---- Addresses ----

  ghost predicate HashesTo32(sha: Sha) {
    forall s :: |sha(s)| == 32
  }

  /** The last four bytes of the hash of the hex text. */
  function Checksum(sha: Sha, s: string): Bytes {
    var h := sha(s);
    if |h| == 32 then h[28..] else []
  }

  function LiteAuthorityForHash(sha: Sha, pubKeyHash: Bytes): string
    requires |pubKeyHash| >= 20
  {
    var key := HexEncode(pubKeyHash[..20]);
    key + HexEncode(Checksum(sha, key))
  }

  function ParseLiteAddress(sha: Sha, u: RawUrl): Option<Bytes> {
    var b := HexDecode(Hostname(u));
    if b.None? || |b.value| <= 4 || |u.authority| < 8 then None
    else
      var i := |b.value| - 4;
      if b.value[i..] == Checksum(sha, u.authority[..|u.authority| - 8]) then Some(b.value[..i]) else None
  }

  lemma {:induction false} HostIsPrefix(s: string)
    ensures |BeforeColon(s)| <= |s|
  {
    if s != "" && s[0] != ':' {
      HostIsPrefix(s[1..]);
    }
  }

  /** The length test that the source leaves to its slice expression never decides anything. */
  lemma AuthorityIsLongEnough(u: RawUrl)
    requires HexDecode(Hostname(u)).Some? && |HexDecode(Hostname(u)).value| > 4
    ensures |u.authority| >= 10
  {
    HostIsPrefix(u.authority);
  }

  /** An address parses to `b` exactly if its host is `b` followed by a checksum in hex of either case. The
      checksum is taken of the authority as it is written, with its case and its port, without the last eight
      characters, and is the last four bytes of its hash. */
  lemma ParseAcceptsFormatted(sha: Sha, u: RawUrl, b: Bytes)
    requires HashesTo32(sha)
    ensures ParseLiteAddress(sha, u) == Some(b) <==>
            && b != [] && |u.authority| >= 8
            && Lowered(Hostname(u)) == HexEncode(b) + HexEncode(sha(u.authority[..|u.authority| - 8])[28..])
  {
    hide HexEncode, HexDecode, Lowered, BeforeColon;
    var host := Hostname(u);
    DecodeOfLowered(host);
    if |u.authority| >= 8 {
      var check := Checksum(sha, u.authority[..|u.authority| - 8]);
      assert |check| == 4;
      EncodeConcat(b, check);
      if b != [] && Lowered(host) == HexEncode(b + check) {
        DecodeOfEncode(b + check);
        assert (b + check)[..|b|] == b && (b + check)[|b|..] == check;
      }
      if ParseLiteAddress(sha, u) == Some(b) {
        EncodeOfDecode(host);
        assert HexDecode(host).value == b + check;
      }
    }
  }

  /** A lower-case authority without a port parses to `b` exactly when it is the address formatted for `b`. */
  lemma CanonicalAddresses(sha: Sha, u: RawUrl, b: Bytes)
    requires HashesTo32(sha) && Lowered(u.authority) == u.authority && Hostname(u) == u.authority
    ensures ParseLiteAddress(sha, u) == Some(b) <==>
            b != [] && u.authority == HexEncode(b) + HexEncode(sha(HexEncode(b))[28..])
  {
    hide HexEncode, HexDecode, Lowered, BeforeColon;
    ParseAcceptsFormatted(sha, u, b);
    var a, key := u.authority, HexEncode(b);
    if |a| >= 8 && (a == key + HexEncode(Checksum(sha, a[..|a| - 8])) || a == key + HexEncode(Checksum(sha, key))) {
      assert a[..|a| - 8] == key;
    }
  }

  // ---- Token addresses ----

  /** What a token URL must be: the ACME token, or a path under a valid identity, with nothing else in it. */
  predicate AcceptedToken(isAcme: bool, validIdentity: bool, token: RawUrl) {
    && (isAcme || (validIdentity && token.path != ""))
    && token.userInfo == "" && Port(token) == "" && token.query == "" && token.fragment == ""
  }

  function LiteTokenAddressFromHash(sha: Sha, h: Bytes, isAcme: bool, validIdentity: bool, token: RawUrl)
    : Option<RawUrl>
    requires |h| >= 20
  {
    if AcceptedToken(isAcme, validIdentity, token) then
      Some(RawUrl("", LiteAuthorityForHash(sha, h), "/" + token.authority + token.path, "", ""))
    else None
  }

  function IndexSlash(s: string): Option<nat> {
    if s == "" then None
    else if s[0] == '/' then Some(0)
    else
      var i := IndexSlash(s[1..]);
      if i.Some? then Some(i.value + 1) else None
  }

  lemma {:induction false} IndexSlashIsFirst(s: string)
    ensures IndexSlash(s).None? ==> '/' !in s
    ensures IndexSlash(s).Some? ==>
              IndexSlash(s).value < |s| && s[IndexSlash(s).value] == '/' && '/' !in s[..IndexSlash(s).value]
  {
    if s != "" && s[0] != '/' {
      IndexSlashIsFirst(s[1..]);
      var i := IndexSlash(s[1..]);
      assert s == [s[0]] + s[1..];
      if i.Some? {
        assert s[..i.value + 1] == [s[0]] + s[1..][..i.value];
      }
    }
  }

  /** The token that the path of an address is for. */
  function TokenOf(path: string): RawUrl
    requires |path| > 1
  {
    IndexSlashIsFirst(path[1..]);
    var i := IndexSlash(path[1..]);
    if i.Some? then RawUrl("", path[1..i.value + 1], path[i.value + 1..], "", "")
    else if path[0] == '/' then RawUrl("", path[1..], "", "", "")
    else RawUrl("", path, "", "", "")
  }

  datatype LiteToken = LiteToken(keyHash: Bytes, token: RawUrl) | NotLite | Malformed

  function ParseLiteTokenAddress(sha: Sha, u: RawUrl): LiteToken {
    if |u.path| <= 1 then NotLite
    else
      var b := ParseLiteAddress(sha, u);
      if b.None? then Malformed
      else if |b.value| != 20 then NotLite
      else LiteToken(b.value, TokenOf(u.path))
  }

  lemma {:induction false} SlashAfter(a: string, p: string)
    requires '/' !in a && (p == "" || p[0] == '/')
    ensures IndexSlash(a + p) == if p == "" then None else Some(|a|)
  {
    if a == "" {
      assert a + p == p;
    } else {
      assert (a + p)[1..] == a[1..] + p && a[0] in a;
      SlashAfter(a[1..], p);
    }
  }

  /** When there is an address for a key hash and a token, and what it is. */
  lemma TokenAddressExactly(sha: Sha, h: Bytes, isAcme: bool, validIdentity: bool, token: RawUrl)
    requires HashesTo32(sha) && |h| >= 20
    ensures var u, key := LiteTokenAddressFromHash(sha, h, isAcme, validIdentity, token), HexEncode(h[..20]);
            && (u.Some? <==>
                && (isAcme || (validIdentity && token.path != ""))
                && (forall i :: 0 <= i < |token.authority| - 1 ==> token.authority[i] != ':')
                && token.userInfo == "" && token.query == "" && token.fragment == "")
            && (u.Some? ==>
                && u.value.authority == key + HexEncode(sha(key)[28..])
                && u.value.path == "/" + token.authority + token.path
                && u.value.userInfo == "" && u.value.query == "" && u.value.fragment == "")
  {
    hide HexEncode;
    NoPort(token.authority);
  }

  /** The token's authority and path are what the path of the address is made of: after its first character, which
      should be a slash, up to and from the next one. Without any slash, the whole path is the authority. */
  ghost predicate TokenIn(path: string, token: RawUrl) {
    && token.userInfo == "" && token.query == "" && token.fragment == ""
    && '/' !in token.authority && (token.path != "" ==> token.path[0] == '/')
    && if path != "" && path[0] != '/' && '/' !in path then token.authority == path && token.path == ""
       else path != "" && path[1..] == token.authority + token.path
  }

  lemma SlashFirstOrLater(path: string)
    requires path != ""
    ensures '/' in path <==> path[0] == '/' || '/' in path[1..]
  {
    assert path == [path[0]] + path[1..];
  }

  lemma TwoPieces(path: string, i: nat)
    requires i + 1 < |path| && path[i + 1] == '/'
    ensures path[1..] == path[1..i + 1] + path[i + 1..] && path[1..i + 1] == path[1..][..i] && '/' in path[1..]
  {
    assert path[1..][i] == '/';
  }

  lemma {:induction false} TokenOfIsIn(path: string)
    requires |path| > 1
    ensures TokenIn(path, TokenOf(path))
  {
    hide IndexSlash;
    SlashFirstOrLater(path);
    IndexSlashIsFirst(path[1..]);
    var i := IndexSlash(path[1..]);
    if i.Some? {
      assert path[i.value + 1] == path[1..][i.value];
      TwoPieces(path, i.value);
    } else {
      assert path[1..] + "" == path[1..];
    }
  }

  lemma {:induction false} OneTokenIn(path: string, a: RawUrl, b: RawUrl)
    requires TokenIn(path, a) && TokenIn(path, b)
    ensures a == b
  {
    hide IndexSlash;
    if path[1..] == a.authority + a.path == b.authority + b.path {
      SlashAfter(a.authority, a.path);
      SlashAfter(b.authority, b.path);
      SamePieces(a.authority, a.path, b.authority, b.path);
    }
  }

  lemma SamePieces(a: string, p: string, b: string, q: string)
    requires a + p == b + q && |a| == |b|
    ensures a == b && p == q
  {
    assert a == (a + p)[..|a|] && p == (a + p)[|a|..];
  }

  /** For every URL, which key hash and token are read from it, and when it is malformed. */
  lemma ParseTokenExactly(sha: Sha, u: RawUrl, key: Bytes, token: RawUrl)
    ensures ParseLiteTokenAddress(sha, u) == LiteToken(key, token) <==>
            |u.path| > 1 && ParseLiteAddress(sha, u) == Some(key) && |key| == 20 && TokenIn(u.path, token)
    ensures ParseLiteTokenAddress(sha, u) == Malformed <==> |u.path| > 1 && ParseLiteAddress(sha, u).None?
  {
    hide ParseLiteAddress, TokenIn, TokenOf;
    if |u.path| > 1 {
      TokenOfIsIn(u.path);
      if TokenIn(u.path, token) {
        OneTokenIn(u.path, token, TokenOf(u.path));
      }
    }
  }

  /** Parsing the address for a key hash and a token gives them back. The conditions on the token's authority and path
      are what url.Parse guarantees. */
  lemma TokenAddressRoundTrip(sha: Sha, h: Bytes, isAcme: bool, validIdentity: bool, token: RawUrl)
    requires HashesTo32(sha) && |h| >= 20
    requires LiteTokenAddressFromHash(sha, h, isAcme, validIdentity, token).Some?
    requires token.authority != "" && '/' !in token.authority && (token.path == "" || token.path[0] == '/')
    ensures var u := LiteTokenAddressFromHash(sha, h, isAcme, validIdentity, token).value;
            ParseLiteTokenAddress(sha, u) == LiteToken(h[..20], token)
  {
    hide HexEncode, HexDecode;
    var u := LiteTokenAddressFromHash(sha, h, isAcme, validIdentity, token).value;
    var key := HexEncode(h[..20]);
    var full := h[..20] + Checksum(sha, key);
    EncodeConcat(h[..20], Checksum(sha, key));
    DecodeOfEncode(full);
    HexHasNoColon(full);
    assert u.authority == HexEncode(full);
    assert u.authority[..|u.authority| - 8] == key;
    assert full[..20] == h[..20] && full[20..] == Checksum(sha, key);
    assert u.path[1..] == token.authority + token.path;
    ParseTokenExactly(sha, u, h[..20], token);
  }
}
