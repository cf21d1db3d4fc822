/**
 The signers of a transaction (protocol/transaction.go), stored in a reduced form that
 protocol/authority.go makes.
 */
module Signers {
  import opened Common
  import opened Urls
  import opened Decimal

  datatype KeySpec = KeySpec(publicKeyHash: Bytes, lastUsedOn: u64, delegate: Option<Url>)

  datatype KeyPage = KeyPage(
    url: Url, creditBalance: u64, acceptThreshold: u64, rejectThreshold: u64, responseThreshold: u64,
    blockThreshold: u64, version: u64, keys: seq<KeySpec>)

  /** `Other` is a signer that is no account, such as a wrapper used while a signature is processed. */
  datatype Signer =
    | Page(page: KeyPage)
    | LiteIdentity(lite: Url, credits: u64, lastUsedOn: u64)
    | UnknownSigner(unknown: Url, unknownVersion: u64)
    | Other(other: Url, otherVersion: u64)
  {
    function GetUrl(): Url {
      match this
      case Page(page) => page.url
      case LiteIdentity(url, _, _) => url
      case UnknownSigner(url, _) => url
      case Other(url, _) => url
    }

    function GetVersion(): u64 {
      match this
      case Page(page) => page.version
      case LiteIdentity(_, _, _) => 1
      case UnknownSigner(_, version) => version
      case Other(_, version) => version
    }
  }

  // ---- The reduced form ----

  /** The delegates of a page, in order, with nothing else. */
  function DelegatesOnly(keys: seq<KeySpec>): seq<KeySpec> {
    if keys == [] then []
    else DelegatesOnly(DropLast(keys)) + if Last(keys).delegate.Some? then [KeySpec([], 0, Last(keys).delegate)] else []
  }

  function Lite(s: Signer): Signer {
    match s
    case Page(page) => Page(page.(creditBalance := 0, keys := DelegatesOnly(page.keys)))
    case Other(url, version) => UnknownSigner(url, version)
    case _ => s
  }

  lemma LiteKeepsIdentity(s: Signer)
    ensures Lite(s).GetUrl() == s.GetUrl() && Lite(s).GetVersion() == s.GetVersion()
  {
  }

  // ---- What the reduced form is ----

  /** These are the positions of all entries with a delegate, in order. */
  ghost predicate DelegatedAt(keys: seq<KeySpec>, positions: seq<nat>) {
    && (forall i, j :: 0 <= i < j < |positions| ==> positions[i] < positions[j])
    && (forall i :: 0 <= i < |positions| ==> positions[i] < |keys| && keys[positions[i]].delegate.Some?)
    && (forall p :: 0 <= p < |keys| && keys[p].delegate.Some? ==> p in positions)
  }

  /** The entries are those delegates, one for each, without a hash or a time of use. */
  ghost predicate OnlyDelegates(keys: seq<KeySpec>, lite: seq<KeySpec>, positions: seq<nat>) {
    && DelegatedAt(keys, positions) && |lite| == |positions|
    && (forall i :: 0 <= i < |lite| ==>
          && lite[i].publicKeyHash == [] && lite[i].lastUsedOn == 0
          && lite[i].delegate == keys[positions[i]].delegate)
  }

  /** A reduced page: nothing is changed but the credit balance and the entries. */
  ghost predicate IsReduced(page: KeyPage, lite: KeyPage) {
    && lite.url == page.url && lite.version == page.version && lite.creditBalance == 0
    && lite.acceptThreshold == page.acceptThreshold && lite.rejectThreshold == page.rejectThreshold
    && lite.responseThreshold == page.responseThreshold && lite.blockThreshold == page.blockThreshold
    && exists positions :: OnlyDelegates(page.keys, lite.keys, positions)
  }

  /** A signer that is no page is kept, unless it is no account; of that, only URL and version are kept. */
  ghost predicate IsLite(s: Signer, lite: Signer) {
    match s
    case Page(page) => lite.Page? && IsReduced(page, lite.page)
    case LiteIdentity(_, _, _) => lite == s
    case UnknownSigner(_, _) => lite == s
    case Other(url, version) => lite.UnknownSigner? && lite.unknown == url && lite.unknownVersion == version
  }

  lemma {:induction false} DelegatesAre(keys: seq<KeySpec>) returns (positions: seq<nat>)
    ensures OnlyDelegates(keys, DelegatesOnly(keys), positions)
  {
    positions := [];
    if keys != [] {
      var init := DropLast(keys);
      positions := DelegatesAre(init);
      assert forall p :: 0 <= p < |init| ==> init[p] == keys[p];
      if Last(keys).delegate.Some? {
        NextDelegate(keys, DelegatesOnly(init), positions);
        positions := positions + [|keys| - 1];
      }
    }
  }

  lemma NextDelegate(keys: seq<KeySpec>, lite: seq<KeySpec>, positions: seq<nat>)
    requires keys != [] && Last(keys).delegate.Some? && OnlyDelegates(DropLast(keys), lite, positions)
    ensures OnlyDelegates(keys, lite + [KeySpec([], 0, Last(keys).delegate)], positions + [|keys| - 1])
  {
    var init, more := DropLast(keys), positions + [|keys| - 1];
    assert forall p :: 0 <= p < |init| ==> init[p] == keys[p];
    forall p | 0 <= p < |keys| && keys[p].delegate.Some? ensures p in more {
      if p < |init| {
        assert p in positions;
      } else {
        assert more[|positions|] == p;
      }
    }
  }

  lemma LiteIsLite(s: Signer)
    ensures IsLite(s, Lite(s))
  {
    if s.Page? {
      var positions := DelegatesAre(s.page.keys);
      assert OnlyDelegates(s.page.keys, Lite(s).page.keys, positions);
    }
  }

  /** The positions are determined, and with them number, order and contents of the entries. */
  lemma {:induction false} OneReducedForm(
    keys: seq<KeySpec>, a: seq<KeySpec>, p: seq<nat>, b: seq<KeySpec>, q: seq<nat>)
    requires OnlyDelegates(keys, a, p) && OnlyDelegates(keys, b, q)
    ensures a == b
  {
    SamePositions(keys, p, q, |p|);
    SamePositions(keys, q, p, |q|);
    assert p == q;
  }

  lemma {:induction false} SamePositions(keys: seq<KeySpec>, p: seq<nat>, q: seq<nat>, n: nat)
    requires DelegatedAt(keys, p) && DelegatedAt(keys, q) && n <= |p|
    ensures n <= |q| && forall i :: 0 <= i < n ==> p[i] == q[i]
  {
    hide DelegatedAt;
    if n > 0 {
      SamePositions(keys, p, q, n - 1);
      NotBefore(keys, p, q, n - 1);
      NotBefore(keys, q, p, n - 1);
      assert p[n - 1] == q[n - 1];
    }
  }

  lemma NotBefore(keys: seq<KeySpec>, p: seq<nat>, q: seq<nat>, n: nat)
    requires DelegatedAt(keys, p) && DelegatedAt(keys, q) && n < |p| && n <= |q|
    requires forall i :: 0 <= i < n ==> p[i] == q[i]
    ensures n < |q| && q[n] <= p[n]
  {
    assert p[n] in q;
    assert forall i :: 0 <= i < n ==> q[i] < p[n];
    var j :| 0 <= j < |q| && q[j] == p[n];
    assert n < j ==> q[n] < q[j];
  }

  // ---- Key pages as objects ----

  class KeySpecObject {
    var publicKeyHash: Bytes
    var lastUsedOn: u64
    var delegate: Option<Url>

    constructor (spec: KeySpec)
      ensures Value() == spec
    {
      publicKeyHash, lastUsedOn, delegate := spec.publicKeyHash, spec.lastUsedOn, spec.delegate;
    }

    function Value(): KeySpec
      reads this
    {
      KeySpec(publicKeyHash, lastUsedOn, delegate)
    }
  }

  /** Entry objects with the values they hold. */
  ghost predicate Hold(ks: seq<KeySpecObject>, specs: seq<KeySpec>)
    reads ks
  {
    |ks| == |specs| && forall i :: 0 <= i < |ks| ==> ks[i].Value() == specs[i]
  }

  class KeyPageObject {
    var url: Url
    var creditBalance: u64
    var acceptThreshold: u64
    var rejectThreshold: u64
    var responseThreshold: u64
    var blockThreshold: u64
    var version: u64
    var keys: seq<KeySpecObject>
    ghost var specs: seq<KeySpec>

    ghost predicate Valid()
      reads this, keys
    {
      Hold(keys, specs)
    }

    ghost function Value(): KeyPage
      reads this
    {
      KeyPage(url, creditBalance, acceptThreshold, rejectThreshold, responseThreshold, blockThreshold, version, specs)
    }

    /** A page with the fields of another one and keys of its own. */
    constructor With(page: KeyPageObject, keys: seq<KeySpecObject>, ghost specs: seq<KeySpec>)
      ensures Value() == page.Value().(keys := specs) && this.keys == keys
    {
      url, creditBalance, version := page.url, page.creditBalance, page.version;
      acceptThreshold, rejectThreshold := page.acceptThreshold, page.rejectThreshold;
      responseThreshold, blockThreshold := page.responseThreshold, page.blockThreshold;
      this.keys, this.specs := keys, specs;
    }

    /** The generated deep copy. */
    method Copy() returns (r: KeyPageObject)
      requires Valid()
      ensures fresh(r) && (forall k :: k in r.keys ==> fresh(k)) && r.Valid() && r.Value() == Value()
    {
      var copies: seq<KeySpecObject>, i := [], 0;
      while i < |keys|
        invariant 0 <= i <= |keys| && (forall k :: k in copies ==> fresh(k)) && Hold(copies, specs[..i])
      {
        var copy := new KeySpecObject(keys[i].Value());
        copies := copies + [copy];
        i := i + 1;
      }
      r := new KeyPageObject.With(this, copies, specs);
    }
  }

  /** The loop of MakeLiteSigner. */
  method LiteKeys(keys: seq<KeySpecObject>, ghost specs: seq<KeySpec>) returns (lite: seq<KeySpecObject>)
    requires Hold(keys, specs)
    ensures (forall k :: k in lite ==> fresh(k)) && Hold(lite, DelegatesOnly(specs))
  {
    lite := [];
    var i := 0;
    while i < |keys|
      invariant 0 <= i <= |keys| && (forall k :: k in lite ==> fresh(k))
      invariant Hold(lite, DelegatesOnly(specs[..i]))
    {
      assert DropLast(specs[..i + 1]) == specs[..i] && Last(specs[..i + 1]) == specs[i];
      if keys[i].delegate.Some? {
        var only := new KeySpecObject(KeySpec([], 0, keys[i].delegate));
        lite := lite + [only];
      }
      i := i + 1;
    }
    assert specs[..i] == specs;
  }

  /** A reference to a signer: a page object, or a signer that this model does not look into. */
  datatype SignerRef = PageRef(page: KeyPageObject) | ValueRef(signer: Signer)

  ghost function ValueOf(s: SignerRef): Signer
    reads if s.PageRef? then {s.page} else {}
  {
    if s.PageRef? then Page(s.page.Value()) else s.signer
  }

  /** The signer that is passed in is not changed, and a reduced page shares no object with it. */
  method MakeLiteSigner(s: SignerRef) returns (r: SignerRef)
    requires if s.PageRef? then s.page.Valid() else !s.signer.Page?
    ensures s.PageRef? <==> r.PageRef?
    ensures r.PageRef? ==> fresh(r.page) && (forall k :: k in r.page.keys ==> fresh(k)) && r.page.Valid()
    ensures ValueOf(r) == Lite(ValueOf(s)) && IsLite(ValueOf(s), ValueOf(r))
  {
    LiteIsLite(ValueOf(s));
    hide IsLite, Hold, DelegatesOnly;
    match s
    case PageRef(page) =>
      var signer := page.Copy();
      signer.creditBalance := 0;
      signer.keys := LiteKeys(signer.keys, signer.specs);
      signer.specs := DelegatesOnly(signer.specs);
      r := PageRef(signer);
    case ValueRef(Other(url, version)) =>
      r := ValueRef(UnknownSigner(url, version));
    case _ =>
      r := s;
  }

  /** ParseKeyPageUrl: the last segment is a page number, and the rest is the key book. */
  predicate IsPageUrl(u: Url) {
    u.path != [] && var s := Last(u.path); s != "" && IsDigits(s) && DigitsValue(s) <= 0xFFFF
  }

  /** The authority that a delegate is looked up by: the key book of a page. */
  function Book(u: Url): Url
    decreases |u.path|
  {
    if IsPageUrl(u) then Book(Parent(u)) else u
  }

  function Numeral(zeros: nat, n: nat): string {
    Zeros(zeros) + Digits(n)
  }

  lemma ValueOfNumeral(zeros: nat, n: nat)
    ensures Numeral(zeros, n) != "" && IsDigits(Numeral(zeros, n)) && DigitsValue(Numeral(zeros, n)) == n
  {
    hide DigitsValue, Digits, Zeros, Pow10;
    ValueOfDigits(n);
    ValueOfZeros(zeros);
    ValueOfConcat(Zeros(zeros), Digits(n));
    NoneOf(Pow10(|Digits(n)|));
  }

  /** Every text of digits is such a numeral. */
  lemma {:induction false} NumeralOf(s: string) returns (zeros: nat)
    requires s != "" && IsDigits(s)
    ensures s == Numeral(zeros, DigitsValue(s))
  {
    hide DigitsValue, Numeral;
    var c, init := Last(s), DropLast(s);
    assert s == init + [c];
    assert IsDigits(init) && IsDigits([c]);
    ValueOfMore(init, c);
    var d := DigitOf(c);
    hide IsDigits, Digit;
    if init == "" {
      zeros := 0;
      OneDigit(d);
    } else {
      zeros := NumeralOf(init);
      zeros := NumeralOfMore(zeros, DigitsValue(init), d);
    }
  }

  lemma DigitOf(c: char) returns (d: nat)
    requires IsDigits([c])
    ensures d < 10 && d == c as int - '0' as int && Digit(d) == c
  {
    assert [c][0] == c;
    d := c as int - '0' as int;
  }

  lemma OneDigit(d: nat)
    requires d < 10
    ensures DigitsValue("") == 0 && [Digit(d)] == Numeral(0, d)
  {
    assert Zeros(0) + Digits(d) == Digits(d);
  }

  lemma NumeralOfMore(zeros: nat, v: nat, d: nat) returns (more: nat)
    requires d < 10
    ensures Numeral(zeros, v) + [Digit(d)] == Numeral(more, 10 * v + d)
  {
    if v == 0 {
      more := zeros + 1;
      ZerosAndZero(zeros);
    } else {
      more := zeros;
      DigitsOfMore(v, d);
      hide Digits;
      assert Zeros(zeros) + (Digits(v) + [Digit(d)]) == Zeros(zeros) + Digits(v) + [Digit(d)];
    }
  }

  lemma DigitsOfMore(v: nat, d: nat)
    requires v > 0 && d < 10
    ensures Digits(10 * v + d) == Digits(v) + [Digit(d)]
  {
    assert (10 * v + d) / 10 == v && (10 * v + d) % 10 == d;
  }

  lemma {:induction false} ZerosAndZero(n: nat)
    ensures Zeros(n) + Digits(0) == Zeros(n + 1)
  {
    if n > 0 {
      ZerosAndZero(n - 1);
      assert Zeros(n) + Digits(0) == "0" + (Zeros(n - 1) + Digits(0));
    } else {
      assert Zeros(1) == "0" + Zeros(0) && Digits(0) == "0";
    }
  }

  /** A page number is the decimal text of a 16-bit number, possibly with leading zeros. */
  lemma PageNumbers(u: Url)
    ensures IsPageUrl(u) <==>
            u.path != [] && exists zeros, n :: 0 <= n < 0x1_0000 && Last(u.path) == Numeral(zeros, n)
  {
    if u.path != [] {
      var s := Last(u.path);
      if IsPageUrl(u) {
        var zeros := NumeralOf(s);
        assert s == Numeral(zeros, DigitsValue(s));
      }
      forall zeros, n | 0 <= n < 0x1_0000 && s == Numeral(zeros, n) ensures IsPageUrl(u) {
        ValueOfNumeral(zeros, n);
      }
    }
  }

  /** The key book is the URL without all page numbers at the end of its path. */
  lemma {:induction false} BookOf(u: Url, n: nat)
    requires n <= |u.path| && (forall i :: n < i <= |u.path| ==> IsPageUrl(Url(u.authority, u.path[..i])))
    requires !IsPageUrl(Url(u.authority, u.path[..n]))
    ensures Book(u) == Url(u.authority, u.path[..n])
    decreases |u.path|
  {
    if n < |u.path| {
      assert u.path[..|u.path|] == u.path;
      var p := Parent(u);
      forall i | n <= i <= |p.path| ensures p.path[..i] == u.path[..i] {
      }
      BookOf(p, n);
    } else {
      assert u.path[..n] == u.path;
    }
  }

  method EntryByDelegate(keys: seq<KeySpec>, owner: Url) returns (i: int)
    ensures -1 <= i < |keys|
    ensures i >= 0 ==> keys[i].delegate.Some? && Text(keys[i].delegate.value) == Text(Book(owner))
    ensures forall j :: 0 <= j < (if i < 0 then |keys| else i) ==>
              !(keys[j].delegate.Some? && Text(keys[j].delegate.value) == Text(Book(owner)))
    decreases |owner.path|
  {
    if IsPageUrl(owner) {
      i := EntryByDelegate(keys, Parent(owner));
      return;
    }
    for k := 0 to |keys|
      invariant forall j :: 0 <= j < k ==>
                  !(keys[j].delegate.Some? && Text(keys[j].delegate.value) == Text(owner))
    {
      if keys[k].delegate.Some? && Text(keys[k].delegate.value) == Text(owner) {
        return k;
      }
    }
    i := -1;
  }

  predicate HasDelegate(keys: seq<KeySpec>, d: string) {
    exists i :: 0 <= i < |keys| && keys[i].delegate.Some? && Text(keys[i].delegate.value) == d
  }

  /** The reduced form answers every delegate lookup like the page it was made from. */
  lemma {:induction false} LiteKeepsDelegates(keys: seq<KeySpec>, d: string)
    ensures HasDelegate(DelegatesOnly(keys), d) <==> HasDelegate(keys, d)
  {
    if keys != [] {
      var init, last := DropLast(keys), Last(keys);
      LiteKeepsDelegates(init, d);
      var tail := if last.delegate.Some? then [KeySpec([], 0, last.delegate)] else [];
      HasDelegateConcat(DelegatesOnly(init), tail, d);
      HasDelegateConcat(init, [last], d);
      assert keys == init + [last];
      assert HasDelegate([last], d) <==> last.delegate.Some? && Text(last.delegate.value) == d by {
        assert [last][0] == last;
      }
      assert HasDelegate(tail, d) <==> last.delegate.Some? && Text(last.delegate.value) == d by {
        assert tail != [] ==> tail[0].delegate == last.delegate;
      }
    }
  }

  lemma HasDelegateConcat(a: seq<KeySpec>, b: seq<KeySpec>, d: string)
    ensures HasDelegate(a + b, d) <==> HasDelegate(a, d) || HasDelegate(b, d)
  {
    if HasDelegate(b, d) {
      var i :| 0 <= i < |b| && b[i].delegate.Some? && Text(b[i].delegate.value) == d;
      assert (a + b)[|a| + i] == b[i];
    }
    if HasDelegate(a, d) {
      var i :| 0 <= i < |a| && a[i].delegate.Some? && Text(a[i].delegate.value) == d;
      assert (a + b)[i] == a[i];
    }
  }
}
