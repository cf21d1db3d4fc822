/**
 Signature trees (protocol/signature.go): sets, remote wrappers and delegation nest without limit around
 key and system signatures. `Nil` is a missing inner signature.
 */
module Signatures {
  import opened Common
  import opened MerkleTree

  datatype KeyKind = LegacyED25519 | ED25519 | RCD1 | BTC | BTCLegacy | ETH
  datatype SystemKind = ReceiptSignature | PartitionSignature | InternalSignature

  datatype Signature =
    | Nil
    | KeySignature(kind: KeyKind, publicKey: Bytes, signature: Bytes, signer: Option<string>,
                   signerVersion: u64, timestamp: u64, vote: nat, transactionHash: Bytes)
    | SystemSignature(system: SystemKind, content: Bytes, transactionHash: Bytes)
    | SignatureSet(vote: nat, setSigner: Option<string>, transactionHash: Bytes, signatures: seq<Signature>)
    | RemoteSignature(destination: Option<string>, inner: Signature)
    | DelegatedSignature(inner: Signature, delegator: Option<string>)

  // ---- Unpacking ----

  /** What unpackSignature returns. */
  function Unpack(s: Signature): seq<Signature>
    decreases s, 0
  {
    match s
    case SignatureSet(_, _, _, signatures) => UnpackAll(signatures)
    case RemoteSignature(_, inner) => Unpack(inner)
    case DelegatedSignature(inner, delegator) => DelegateAll(Unpack(inner), delegator)
    case _ => [s]
  }

  function UnpackAll(ss: seq<Signature>): seq<Signature>
    decreases ss, 1
  {
    if ss == [] then [] else Unpack(ss[0]) + UnpackAll(ss[1..])
  }

  function DelegateAll(ss: seq<Signature>, delegator: Option<string>): (r: seq<Signature>)
    ensures |r| == |ss|
  {
    seq(|ss|, i requires 0 <= i < |ss| => DelegatedSignature(ss[i], delegator))
  }

  /** A leaf occurrence: the leaf, and the delegators on the way to it from the root. */
  datatype Occurrence = Occurrence(leaf: Signature, path: seq<Option<string>>)

  /** All leaf occurrences, from left to right, collected on the way down. */
  function Occurrences(s: Signature, path: seq<Option<string>>): seq<Occurrence>
    decreases s, 0
  {
    match s
    case SignatureSet(_, _, _, signatures) => OccurrencesOfAll(signatures, path)
    case RemoteSignature(_, inner) => Occurrences(inner, path)
    case DelegatedSignature(inner, delegator) => Occurrences(inner, path + [delegator])
    case _ => [Occurrence(s, path)]
  }

  function OccurrencesOfAll(ss: seq<Signature>, path: seq<Option<string>>): seq<Occurrence>
    decreases ss, 1
  {
    if ss == [] then [] else Occurrences(ss[0], path) + OccurrencesOfAll(ss[1..], path)
  }

  /** A signature under delegators, the first of them outermost. */
  function Wrap(s: Signature, path: seq<Option<string>>): Signature {
    if path == [] then s else DelegatedSignature(Wrap(s, path[1..]), path[0])
  }

  function WrapEach(ss: seq<Signature>, path: seq<Option<string>>): (r: seq<Signature>)
    ensures |r| == |ss|
  {
    seq(|ss|, i requires 0 <= i < |ss| => Wrap(ss[i], path))
  }

  function Wrapped(os: seq<Occurrence>): (r: seq<Signature>)
    ensures |r| == |os|
  {
    seq(|os|, i requires 0 <= i < |os| => Wrap(os[i].leaf, os[i].path))
  }

  lemma {:induction false} WrapInside(s: Signature, path: seq<Option<string>>, delegator: Option<string>)
    ensures Wrap(s, path + [delegator]) == Wrap(DelegatedSignature(s, delegator), path)
  {
    if path == [] {
      assert path + [delegator] == [delegator];
    } else {
      WrapInside(s, path[1..], delegator);
      assert (path + [delegator])[1..] == path[1..] + [delegator];
    }
  }

  lemma {:induction false} UnpackUnder(s: Signature, path: seq<Option<string>>)
    ensures Wrapped(Occurrences(s, path)) == WrapEach(Unpack(s), path)
    decreases s, 0
  {
    match s
    case SignatureSet(_, _, _, signatures) =>
      UnpackAllUnder(signatures, path);
    case RemoteSignature(_, inner) =>
      UnpackUnder(inner, path);
    case DelegatedSignature(inner, delegator) =>
      UnpackUnder(inner, path + [delegator]);
      forall i | 0 <= i < |Unpack(inner)|
        ensures Wrap(Unpack(inner)[i], path + [delegator]) == Wrap(Unpack(s)[i], path)
      {
        WrapInside(Unpack(inner)[i], path, delegator);
      }
    case _ =>
  }

  lemma {:induction false} UnpackAllUnder(ss: seq<Signature>, path: seq<Option<string>>)
    ensures Wrapped(OccurrencesOfAll(ss, path)) == WrapEach(UnpackAll(ss), path)
    decreases ss, 1
  {
    if ss != [] {
      UnpackUnder(ss[0], path);
      UnpackAllUnder(ss[1..], path);
      var a, b := Occurrences(ss[0], path), OccurrencesOfAll(ss[1..], path);
      assert Wrapped(a + b) == Wrapped(a) + Wrapped(b);
    }
  }

  /** Unpacking gives one element per leaf, in order: that leaf under the delegators on its path. */
  lemma UnpackIsLeavesUnderDelegators(s: Signature)
    ensures Unpack(s) == Wrapped(Occurrences(s, []))
  {
    UnpackUnder(s, []);
    assert WrapEach(Unpack(s), []) == Unpack(s);
  }

  /** No set and no remote wrapper, at any depth. */
  predicate Flat(s: Signature) {
    match s
    case SignatureSet(_, _, _, _) => false
    case RemoteSignature(_, _) => false
    case DelegatedSignature(inner, _) => Flat(inner)
    case _ => true
  }

  lemma {:induction false} UnpackIsFlat(s: Signature)
    ensures forall i :: 0 <= i < |Unpack(s)| ==> Flat(Unpack(s)[i])
    decreases s, 0
  {
    match s
    case SignatureSet(_, _, _, signatures) => UnpackAllIsFlat(signatures);
    case RemoteSignature(_, inner) => UnpackIsFlat(inner);
    case DelegatedSignature(inner, _) => UnpackIsFlat(inner);
    case _ =>
  }

  lemma {:induction false} UnpackAllIsFlat(ss: seq<Signature>)
    ensures forall i :: 0 <= i < |UnpackAll(ss)| ==> Flat(UnpackAll(ss)[i])
    decreases ss, 1
  {
    if ss != [] {
      UnpackIsFlat(ss[0]);
      UnpackAllIsFlat(ss[1..]);
    }
  }

  /** Unpacking an element of the result gives just that element. */
  lemma {:induction false} UnpackFlat(s: Signature)
    requires Flat(s)
    ensures Unpack(s) == [s]
  {
    if s.DelegatedSignature? {
      UnpackFlat(s.inner);
    }
  }

  // ---- Metadata and initiators ----

  datatype Outcome<+T> = Done(value: T) | Panic

  function ZeroHash(): Bytes {
    seq(32, _ => 0)
  }

  /** The Metadata methods of these kinds clear the signature only, and leave the transaction hash in. */
  predicate KeepsTransactionHash(kind: KeyKind) {
    kind == BTC || kind == BTCLegacy || kind == ETH
  }

  /** A copy without the signature and, for most kinds, without the transaction hash; sets, remote wrappers
      and nil panic. */
  function Metadata(s: Signature): Outcome<Signature> {
    match s
    case KeySignature(kind, publicKey, _, signer, version, timestamp, vote, txHash) =>
      Done(KeySignature(kind, publicKey, [], signer, version, timestamp, vote,
                        if KeepsTransactionHash(kind) then txHash else ZeroHash()))
    case SystemSignature(system, content, _) => Done(SystemSignature(system, content, ZeroHash()))
    case DelegatedSignature(inner, delegator) =>
      var m := Metadata(inner);
      if m.Done? then Done(DelegatedSignature(m.value, delegator)) else Panic
    case _ => Panic
  }

  /** Equal in everything but the signature bytes and the transaction hash. */
  predicate SameClaims(a: Signature, b: Signature) {
    match (a, b)
    case (KeySignature(k, p, _, s, v, t, w, _), KeySignature(k', p', _, s', v', t', w', _)) =>
      k == k' && p == p' && s == s' && v == v' && t == t' && w == w'
    case (SystemSignature(k, c, _), SystemSignature(k', c', _)) => k == k' && c == c'
    case (DelegatedSignature(i, d), DelegatedSignature(i', d')) => d == d' && SameClaims(i, i')
    case _ => false
  }

  function Innermost(s: Signature): Signature {
    if s.DelegatedSignature? then Innermost(s.inner) else s
  }

  /** The transaction hash that shows in the metadata, if there is one. */
  function ShownHash(s: Signature): Option<Bytes> {
    var leaf := Innermost(s);
    if leaf.KeySignature? && KeepsTransactionHash(leaf.kind) then Some(leaf.transactionHash) else None
  }

  /** Metadata identifies a signature up to what is filled in by signing, and with the transaction hash for the
      kinds that keep it. */
  lemma {:induction false} MetadataIsClaims(a: Signature, b: Signature)
    requires Metadata(a).Done? && Metadata(b).Done?
    ensures Metadata(a) == Metadata(b) <==> SameClaims(a, b) && ShownHash(a) == ShownHash(b)
    ensures SameClaims(a, Metadata(a).value)
  {
    if a.DelegatedSignature? {
      MetadataIsClaims(a.inner, if b.DelegatedSignature? then b.inner else a.inner);
    }
  }

  // ---- Signing ----

  /** Builder.sign (pkg/client/signing/builder.go): the key signature under all delegators gets the transaction
      hash and the signature bytes. */
  function Sign(s: Signature, txHash: Bytes, bytes: Bytes): Signature {
    match s
    case KeySignature(kind, publicKey, _, signer, version, timestamp, vote, _) =>
      KeySignature(kind, publicKey, bytes, signer, version, timestamp, vote, txHash)
    case DelegatedSignature(inner, delegator) => DelegatedSignature(Sign(inner, txHash, bytes), delegator)
    case _ => s
  }

  lemma {:induction false} SignKeepsClaims(s: Signature, txHash: Bytes, bytes: Bytes)
    requires Innermost(s).KeySignature?
    ensures Flat(s) ==> Flat(Sign(s, txHash, bytes))
    ensures Metadata(s).Done? && Metadata(Sign(s, txHash, bytes)).Done?
    ensures SameClaims(s, Sign(s, txHash, bytes)) && Initiator(Sign(s, txHash, bytes)) == Initiator(s)
    ensures Innermost(Sign(s, txHash, bytes)).KeySignature? &&
            Innermost(Sign(s, txHash, bytes)).kind == Innermost(s).kind
    ensures Innermost(Sign(s, txHash, bytes)).transactionHash == txHash
    ensures Innermost(Sign(s, txHash, bytes)).signature == bytes
  {
    if s.DelegatedSignature? {
      SignKeepsClaims(s.inner, txHash, bytes);
    }
  }

  /** Signing leaves the metadata as it was exactly if the kind clears the transaction hash or it was there
      already. */
  lemma SigningKeepsMetadata(s: Signature, txHash: Bytes, bytes: Bytes)
    requires Innermost(s).KeySignature?
    ensures Metadata(Sign(s, txHash, bytes)) == Metadata(s) <==>
            !KeepsTransactionHash(Innermost(s).kind) || Innermost(s).transactionHash == txHash
  {
    SignKeepsClaims(s, txHash, bytes);
    MetadataIsClaims(Sign(s, txHash, bytes), s);
    SameClaimsFlips(s, Sign(s, txHash, bytes));
  }

  lemma {:induction false} SameClaimsFlips(a: Signature, b: Signature)
    requires SameClaims(a, b)
    ensures SameClaims(b, a)
  {
    if a.DelegatedSignature? {
      SameClaimsFlips(a.inner, b.inner);
    }
  }

  /** What an initiator hasher is fed. */
  datatype Item = BytesItem(bytes: Bytes) | UrlItem(url: string) | UintItem(value: u64)

  /** The hasher, or None for the errors. Only a nil signature panics. */
  function Initiator(s: Signature): Outcome<Option<seq<Item>>> {
    match s
    case Nil => Panic
    case KeySignature(_, publicKey, _, signer, version, timestamp, _, _) =>
      if publicKey == [] || signer.None? || version == 0 || timestamp == 0 then Done(None)
      else Done(Some([BytesItem(publicKey), UrlItem(signer.value), UintItem(version), UintItem(timestamp)]))
    case DelegatedSignature(inner, delegator) =>
      if delegator.None? then Done(None)
      else
        var init := Initiator(inner);
        if init.Done? && init.value.Some? then Done(Some(init.value.value + [UrlItem(delegator.value)])) else init
    case _ => Done(None)
  }

  /** The hash functions: of a marshalled signature, of one item, and of two nodes. */
  datatype Hashing = Hashing(ofSignature: Signature -> Hash, ofItem: Item -> Hash, comb: Combiner) {
    function MerkleHash(items: seq<Item>): Hash
      requires items != []
    {
      Root(comb, seq(|items|, i requires 0 <= i < |items| => ofItem(items[i])))
    }
  }

  /** On a flat signature only a nil at the bottom can panic. */
  lemma {:induction false} FlatDoesNotPanic(s: Signature)
    requires Flat(s)
    ensures Metadata(s).Done? <==> !Innermost(s).Nil?
    ensures Initiator(s).Panic? ==> Innermost(s).Nil?
    ensures Initiator(s).Done? && Initiator(s).value.Some? ==> Initiator(s).value.value != []
  {
    if s.DelegatedSignature? {
      FlatDoesNotPanic(s.inner);
    }
  }

  /** An initiator exists exactly when the leaf has one and every delegator is named; the delegators are
      added from the inside out. */
  lemma {:induction false} InitiatorOfWrap(leaf: Signature, path: seq<Option<string>>)
    requires Initiator(leaf).Done?
    ensures Initiator(Wrap(leaf, path)).Done?
    ensures Initiator(Wrap(leaf, path)).value.Some? <==>
            Initiator(leaf).value.Some? && forall i :: 0 <= i < |path| ==> path[i].Some?
    ensures Initiator(Wrap(leaf, path)).value.Some? ==>
              Initiator(Wrap(leaf, path)).value.value ==
              Initiator(leaf).value.value
              + seq(|path|, i requires 0 <= i < |path| => UrlItem(path[|path| - 1 - i].value))
  {
    if path != [] {
      InitiatorOfWrap(leaf, path[1..]);
      assert path == [path[0]] + path[1..];
    }
  }

  /** A nil signature panics if all delegators are named, and otherwise the error about them comes first. */
  lemma {:induction false} InitiatorOfNil(path: seq<Option<string>>)
    ensures Initiator(Wrap(Nil, path)) == if forall i :: 0 <= i < |path| ==> path[i].Some? then Panic else Done(None)
  {
    if path != [] {
      InitiatorOfNil(path[1..]);
      assert path == [path[0]] + path[1..];
    }
  }

  // ---- What is hashed, from the fields ----

  /** The named delegators on the way to a leaf, from the inside out. */
  predicate AllNamed(path: seq<Option<string>>) {
    forall i :: 0 <= i < |path| ==> path[i].Some?
  }

  function DelegatorHashes(h: Hashing, path: seq<Option<string>>): seq<Hash>
    requires AllNamed(path)
  {
    seq(|path|, i requires 0 <= i < |path| => h.ofItem(UrlItem(path[|path| - 1 - i].value)))
  }

  /** A key signature has an initiator exactly if none of these four fields is missing. */
  predicate Complete(leaf: Signature) {
    leaf.KeySignature? && |leaf.publicKey| > 0 && leaf.signer.Some? && leaf.signerVersion > 0 && leaf.timestamp > 0
  }

  /** The initiator hash of a leaf under delegators: key, signer, version and timestamp in this order, then the
      delegators. */
  function FieldsHash(h: Hashing, o: Occurrence): Hash
    requires Complete(o.leaf) && AllNamed(o.path)
  {
    Root(h.comb, [h.ofItem(BytesItem(o.leaf.publicKey)), h.ofItem(UrlItem(o.leaf.signer.value)),
                  h.ofItem(UintItem(o.leaf.signerVersion)), h.ofItem(UintItem(o.leaf.timestamp))]
                 + DelegatorHashes(h, o.path))
  }

  /** Without delegators that is a tree over the four. */
  lemma FourFields(h: Hashing, leaf: Signature)
    requires Complete(leaf)
    ensures FieldsHash(h, Occurrence(leaf, [])) ==
            h.comb(h.comb(h.ofItem(BytesItem(leaf.publicKey)), h.ofItem(UrlItem(leaf.signer.value))),
                   h.comb(h.ofItem(UintItem(leaf.signerVersion)), h.ofItem(UintItem(leaf.timestamp))))
  {
    var k, u := h.ofItem(BytesItem(leaf.publicKey)), h.ofItem(UrlItem(leaf.signer.value));
    var v, t := h.ofItem(UintItem(leaf.signerVersion)), h.ofItem(UintItem(leaf.timestamp));
    assert [k, u, v, t] + DelegatorHashes(h, []) == [k, u, v, t];
    RootOfFour(h.comb, k, u, v, t);
  }

  lemma RootOfFour(comb: Combiner, a: Hash, b: Hash, c: Hash, d: Hash)
    ensures Root(comb, [a, b, c, d]) == comb(comb(a, b), comb(c, d))
  {
    var hs: seq<Hash>, l: seq<Hash>, r: seq<Hash> := [a, b, c, d], [a, b], [c, d];
    assert Split(4) == 2 && Split(2) == 1;
    assert hs[..2] == l && hs[2..] == r;
    assert l[..1] == [a] && l[1..] == [b] && r[..1] == [c] && r[1..] == [d];
    SinglePath(comb, [a]);
    SinglePath(comb, [b]);
    SinglePath(comb, [c]);
    SinglePath(comb, [d]);
    RootSplits(comb, hs);
    RootSplits(comb, l);
    RootSplits(comb, r);
  }

  /** The initiator of a leaf under delegators. */
  lemma InitiatorIsFields(h: Hashing, o: Occurrence)
    requires !o.leaf.DelegatedSignature? && !o.leaf.Nil?
    ensures ValidInitiator(Wrap(o.leaf, o.path)) <==> Complete(o.leaf) && AllNamed(o.path)
    ensures ValidInitiator(Wrap(o.leaf, o.path)) ==>
              h.MerkleHash(Initiator(Wrap(o.leaf, o.path)).value.value) == FieldsHash(h, o)
  {
    InitiatorOfWrap(o.leaf, o.path);
    if Complete(o.leaf) && AllNamed(o.path) {
      var leaf, items := o.leaf, Initiator(Wrap(o.leaf, o.path)).value.value;
      hide Root, Initiator;
      assert seq(|items|, i requires 0 <= i < |items| => h.ofItem(items[i])) ==
             [h.ofItem(BytesItem(leaf.publicKey)), h.ofItem(UrlItem(leaf.signer.value)),
              h.ofItem(UintItem(leaf.signerVersion)), h.ofItem(UintItem(leaf.timestamp))]
             + DelegatorHashes(h, o.path);
    }
  }

  /** The leaf as its metadata shows it: no signature bytes, and 32 zero bytes for the transaction hash unless the
      signature is a Bitcoin or Ethereum one. */
  function Shown(leaf: Signature): Signature {
    match leaf
    case KeySignature(kind, publicKey, _, signer, version, timestamp, vote, txHash) =>
      var zero: Bytes := seq(32, _ => 0);
      KeySignature(kind, publicKey, [], signer, version, timestamp, vote,
                   if kind == LegacyED25519 || kind == ED25519 || kind == RCD1 then zero else txHash)
    case SystemSignature(system, content, _) => SystemSignature(system, content, seq(32, _ => 0))
    case _ => leaf
  }

  lemma {:induction false} MetadataIsShown(leaf: Signature, path: seq<Option<string>>)
    requires leaf.KeySignature? || leaf.SystemSignature?
    ensures Metadata(Wrap(leaf, path)) == Done(Wrap(Shown(leaf), path))
  {
    if path != [] {
      MetadataIsShown(leaf, path[1..]);
    }
  }

  /** The transaction's initiator hash is that of the leaf's metadata or that of its fields, under its delegators. */
  predicate Initiates(h: Hashing, txnInitHash: Hash, o: Occurrence) {
    || h.ofSignature(Wrap(Shown(o.leaf), o.path)) == txnInitHash
    || (Complete(o.leaf) && AllNamed(o.path) && FieldsHash(h, o) == txnInitHash)
  }

  lemma MatchesFromFields(h: Hashing, txnInitHash: Hash, o: Occurrence)
    requires o.leaf.KeySignature? || o.leaf.SystemSignature?
    ensures Matches(h, txnInitHash, Wrap(o.leaf, o.path)) <==> Initiates(h, txnInitHash, o)
  {
    hide Metadata, Initiator, Wrap, Shown, Complete, FieldsHash, Root;
    MetadataIsShown(o.leaf, o.path);
    InitiatorIsFields(h, o);
  }

  lemma {:induction false} OccurrencesAreLeaves(s: Signature, path: seq<Option<string>>)
    ensures forall i :: 0 <= i < |Occurrences(s, path)| ==>
              var leaf := Occurrences(s, path)[i].leaf;
              leaf.Nil? || leaf.KeySignature? || leaf.SystemSignature?
    decreases s, 0
  {
    match s
    case SignatureSet(_, _, _, signatures) => AllOccurrencesAreLeaves(signatures, path);
    case RemoteSignature(_, inner) => OccurrencesAreLeaves(inner, path);
    case DelegatedSignature(inner, delegator) => OccurrencesAreLeaves(inner, path + [delegator]);
    case _ =>
  }

  lemma {:induction false} AllOccurrencesAreLeaves(ss: seq<Signature>, path: seq<Option<string>>)
    ensures forall i :: 0 <= i < |OccurrencesOfAll(ss, path)| ==>
              var leaf := OccurrencesOfAll(ss, path)[i].leaf;
              leaf.Nil? || leaf.KeySignature? || leaf.SystemSignature?
    decreases ss, 1
  {
    if ss != [] {
      OccurrencesAreLeaves(ss[0], path);
      AllOccurrencesAreLeaves(ss[1..], path);
    }
  }

  lemma {:induction false} InnermostOfWrap(leaf: Signature, path: seq<Option<string>>)
    requires !leaf.DelegatedSignature?
    ensures Innermost(Wrap(leaf, path)) == leaf
  {
    if path != [] {
      InnermostOfWrap(leaf, path[1..]);
    }
  }

  // ---- SignatureDidInitiate ----

  /** The loop gets to the leaf `k`: those before it have all their fields and do not match. */
  predicate Reaches(h: Hashing, txnInitHash: Hash, os: seq<Occurrence>, k: nat)
    requires k <= |os|
  {
    forall j :: 0 <= j < k ==> Complete(os[j].leaf) && AllNamed(os[j].path) && !Initiates(h, txnInitHash, os[j])
  }

  /** The leaves in order, as the unpacked elements that they are. */
  lemma UnpackedLeaf(h: Hashing, txnInitHash: Hash, sig: Signature, k: nat)
    requires k < |Unpack(sig)|
    ensures var os := Occurrences(sig, []);
            && |os| == |Unpack(sig)| && Unpack(sig)[k] == Wrap(os[k].leaf, os[k].path)
            && Innermost(Unpack(sig)[k]) == os[k].leaf
            && (os[k].leaf.Nil? || os[k].leaf.KeySignature? || os[k].leaf.SystemSignature?)
            && (!os[k].leaf.Nil? ==>
                  && (Matches(h, txnInitHash, Unpack(sig)[k]) <==> Initiates(h, txnInitHash, os[k]))
                  && (ValidInitiator(Unpack(sig)[k]) <==> Complete(os[k].leaf) && AllNamed(os[k].path))
                  && Metadata(Unpack(sig)[k]).Done?)
            && (os[k].leaf.Nil? ==> Metadata(Unpack(sig)[k]).Panic?)
  {
    var os := Occurrences(sig, []);
    UnpackIsLeavesUnderDelegators(sig);
    OccurrencesAreLeaves(sig, []);
    UnpackIsFlat(sig);
    hide Unpack, Occurrences, Metadata, Initiator, Matches, Initiates, Wrap, ValidInitiator, Complete, AllNamed;
    InnermostOfWrap(os[k].leaf, os[k].path);
    FlatDoesNotPanic(Unpack(sig)[k]);
    if !os[k].leaf.Nil? {
      MatchesFromFields(h, txnInitHash, os[k]);
      InitiatorIsFields(h, os[k]);
    }
  }

  lemma PassesIsReaches(h: Hashing, txnInitHash: Hash, sig: Signature, k: nat)
    requires k <= |Unpack(sig)|
    ensures |Occurrences(sig, [])| == |Unpack(sig)|
    ensures Passes(h, txnInitHash, Unpack(sig), k) <==> Reaches(h, txnInitHash, Occurrences(sig, []), k)
  {
    UnpackIsLeavesUnderDelegators(sig);
    hide Unpack, Occurrences, Metadata, Initiator, Matches, Initiates, Wrap, ValidInitiator, AllNamed;
    forall j | 0 <= j < k
      ensures var o := Occurrences(sig, [])[j];
              var s := Unpack(sig)[j];
              Metadata(s).Done? && ValidInitiator(s) && !Matches(h, txnInitHash, s) <==>
              Complete(o.leaf) && AllNamed(o.path) && !Initiates(h, txnInitHash, o)
    {
      UnpackedLeaf(h, txnInitHash, sig, j);
    }
  }

  predicate ValidInitiator(s: Signature) {
    Initiator(s).Done? && Initiator(s).value.Some? && Initiator(s).value.value != []
  }

  /** The element matches by metadata hash or by initiator hash. */
  predicate Matches(h: Hashing, txnInitHash: Hash, s: Signature) {
    || (Metadata(s).Done? && h.ofSignature(Metadata(s).value) == txnInitHash)
    || (ValidInitiator(s) && h.MerkleHash(Initiator(s).value.value) == txnInitHash)
  }

  /** The loop gets past the first `k` elements. */
  predicate Passes(h: Hashing, txnInitHash: Hash, ss: seq<Signature>, k: nat)
    requires k <= |ss|
  {
    forall j :: 0 <= j < k ==>
      Metadata(ss[j]).Done? && ValidInitiator(ss[j]) && !Matches(h, txnInitHash, ss[j])
  }

  /** The answer and, if it is yes, the element that initiated. */
  method SignatureDidInitiate(sig: Signature, txnInitHash: Hash, h: Hashing) returns (r: Outcome<Option<Signature>>)
    ensures r.Done? && r.value.Some? <==>
            exists k :: 0 <= k < |Unpack(sig)| && Passes(h, txnInitHash, Unpack(sig), k)
                        && !Innermost(Unpack(sig)[k]).Nil? && Matches(h, txnInitHash, Unpack(sig)[k])
    ensures r.Done? && r.value.Some? ==>
              exists k :: 0 <= k < |Unpack(sig)| && Passes(h, txnInitHash, Unpack(sig), k)
                          && r.value.value == Unpack(sig)[k] && Matches(h, txnInitHash, Unpack(sig)[k])
    // The panicking Metadata of a set or a remote signature is never called: only a nil leaf can panic.
    ensures r.Panic? <==>
            exists k :: 0 <= k < |Unpack(sig)| && Passes(h, txnInitHash, Unpack(sig), k)
                        && Innermost(Unpack(sig)[k]).Nil?
    // The same from the fields of the leaves and the delegators above them, in the order of the tree.
    ensures r.Done? && r.value.Some? <==>
            var os := Occurrences(sig, []);
            exists k :: 0 <= k < |os| && Reaches(h, txnInitHash, os, k)
                        && !os[k].leaf.Nil? && Initiates(h, txnInitHash, os[k])
    ensures r.Done? && r.value.Some? ==>
              var os := Occurrences(sig, []);
              exists k :: 0 <= k < |os| && Reaches(h, txnInitHash, os, k)
                          && r.value.value == Wrap(os[k].leaf, os[k].path) && Initiates(h, txnInitHash, os[k])
  {
    r := FindInitiator(sig, txnInitHash, h);
    hide Unpack, Occurrences, Metadata, Initiator, Matches, Initiates, Wrap, ValidInitiator, Innermost, Passes, Reaches;
    UnpackIsLeavesUnderDelegators(sig);
    forall k | 0 <= k < |Unpack(sig)|
      ensures var os := Occurrences(sig, []);
              && |os| == |Unpack(sig)| && Unpack(sig)[k] == Wrap(os[k].leaf, os[k].path)
              && Innermost(Unpack(sig)[k]) == os[k].leaf
              && (!os[k].leaf.Nil? ==> (Matches(h, txnInitHash, Unpack(sig)[k]) <==> Initiates(h, txnInitHash, os[k])))
              && (Passes(h, txnInitHash, Unpack(sig), k) <==> Reaches(h, txnInitHash, os, k))
    {
      UnpackedLeaf(h, txnInitHash, sig, k);
      PassesIsReaches(h, txnInitHash, sig, k);
    }
  }

  /** The loop of SignatureDidInitiate. */
  method FindInitiator(sig: Signature, txnInitHash: Hash, h: Hashing) returns (r: Outcome<Option<Signature>>)
    ensures r.Done? && r.value.Some? <==>
            exists k :: 0 <= k < |Unpack(sig)| && Passes(h, txnInitHash, Unpack(sig), k)
                        && !Innermost(Unpack(sig)[k]).Nil? && Matches(h, txnInitHash, Unpack(sig)[k])
    ensures r.Done? && r.value.Some? ==>
              exists k :: 0 <= k < |Unpack(sig)| && Passes(h, txnInitHash, Unpack(sig), k)
                          && !Innermost(Unpack(sig)[k]).Nil?
                          && r.value.value == Unpack(sig)[k] && Matches(h, txnInitHash, Unpack(sig)[k])
    ensures r.Panic? <==>
            exists k :: 0 <= k < |Unpack(sig)| && Passes(h, txnInitHash, Unpack(sig), k)
                        && Innermost(Unpack(sig)[k]).Nil?
  {
    hide Unpack, Metadata, Initiator, Innermost, ValidInitiator;
    UnpackIsFlat(sig);
    var ss := Unpack(sig);
    var i := 0;
    while i < |ss|
      invariant 0 <= i <= |ss| && Passes(h, txnInitHash, ss, i)
      invariant forall j :: 0 <= j < i ==> !Innermost(ss[j]).Nil?
    {
      FlatDoesNotPanic(ss[i]);
      var metadata := Metadata(ss[i]);
      if metadata.Panic? {
        assert Passes(h, txnInitHash, Unpack(sig), i) && Innermost(Unpack(sig)[i]).Nil?;
        return Panic;
      }
      if h.ofSignature(metadata.value) == txnInitHash {
        assert Passes(h, txnInitHash, Unpack(sig), i) && Matches(h, txnInitHash, Unpack(sig)[i]);
        return Done(Some(ss[i]));
      }
      var init := Initiator(ss[i]);
      InitiatorIsValid(ss[i]);
      if init.Panic? || init.value.None? {
        return Done(None);
      }
      if h.MerkleHash(init.value.value) == txnInitHash {
        assert Passes(h, txnInitHash, Unpack(sig), i) && Matches(h, txnInitHash, Unpack(sig)[i]);
        return Done(Some(ss[i]));
      }
      i := i + 1;
    }
    r := Done(None);
  }

  lemma InitiatorIsValid(s: Signature)
    requires Flat(s)
    ensures ValidInitiator(s) <==> Initiator(s).Done? && Initiator(s).value.Some?
  {
    FlatDoesNotPanic(s);
  }

  // ---- What signing does to initiation ----

  /** The signature of Builder.Initiate before it is signed: a key signature with all its fields but the
      transaction hash, under named delegators. */
  predicate Prepared(s: Signature) {
    match s
    case KeySignature(_, publicKey, _, signer, version, timestamp, _, txHash) =>
      publicKey != [] && signer.Some? && version != 0 && timestamp != 0 && txHash == ZeroHash()
    case DelegatedSignature(inner, delegator) => delegator.Some? && Prepared(inner)
    case _ => false
  }

  lemma {:induction false} PreparedInitiates(s: Signature)
    requires Prepared(s)
    ensures Flat(s) && Innermost(s).KeySignature? && Innermost(s).transactionHash == ZeroHash() && Metadata(s).Done?
    ensures ValidInitiator(s)
  {
    if s.DelegatedSignature? {
      PreparedInitiates(s.inner);
    }
  }

  /** Different metadata have different hashes, and the hash of the initiator's fields is not that of the metadata. */
  predicate NoAccident(h: Hashing, s: Signature, signed: Signature) {
    Metadata(s).Done? && Metadata(signed).Done? ==>
      && (h.ofSignature(Metadata(signed).value) == h.ofSignature(Metadata(s).value) ==> Metadata(signed) == Metadata(s))
      && (ValidInitiator(s) ==> h.MerkleHash(Initiator(s).value.value) != h.ofSignature(Metadata(s).value))
  }

  /** A transaction initiated with the simple hash, that is with the hash of the metadata before signing,
      matches its initiator by metadata exactly if the kind clears the transaction hash; the transaction
      hash is not zero, and no hash is hit by accident. */
  lemma SimpleHashMatches(h: Hashing, s: Signature, txHash: Bytes, bytes: Bytes)
    requires Prepared(s) && txHash != ZeroHash()
    requires NoAccident(h, s, Sign(s, txHash, bytes))
    ensures Metadata(s).Done?
    ensures Matches(h, h.ofSignature(Metadata(s).value), Sign(s, txHash, bytes)) <==> ShownHash(s).None?
  {
    PreparedInitiates(s);
    SignKeepsClaims(s, txHash, bytes);
    SigningKeepsMetadata(s, txHash, bytes);
  }

  /** With the Merkle hash of the initiator it always matches. */
  lemma MerkleHashMatches(h: Hashing, s: Signature, txHash: Bytes, bytes: Bytes)
    requires Prepared(s)
    ensures ValidInitiator(s) && Matches(h, h.MerkleHash(Initiator(s).value.value), Sign(s, txHash, bytes))
  {
    PreparedInitiates(s);
    SignKeepsClaims(s, txHash, bytes);
  }

  /** So SignatureDidInitiate does not recognise a signed initiator that was made with the simple hash exactly if
      its kind is BTC, BTCLegacy or ETH. */
  method SimpleHashInitiates(h: Hashing, s: Signature, txHash: Bytes, bytes: Bytes)
    returns (r: Outcome<Option<Signature>>)
    requires Prepared(s) && txHash != ZeroHash()
    requires NoAccident(h, s, Sign(s, txHash, bytes))
    ensures r == Done(if ShownHash(s).Some? then None else Some(Sign(s, txHash, bytes)))
  {
    ghost var signed := Sign(s, txHash, bytes);
    PreparedInitiates(s);
    SignKeepsClaims(s, txHash, bytes);
    SimpleHashMatches(h, s, txHash, bytes);
    UnpackFlat(signed);
    r := SignatureDidInitiate(Sign(s, txHash, bytes), h.ofSignature(Metadata(s).value), h);
    hide Metadata, Initiator, Matches, ValidInitiator;
    if ShownHash(s).None? {
      assert Passes(h, h.ofSignature(Metadata(s).value), [signed], 0);
      assert Unpack(signed)[0] == signed;
    }
  }

  /** The smallest such signature. */
  lemma BitcoinMetadataChanges(publicKey: Bytes, signer: string, txHash: Bytes, bytes: Bytes)
    requires publicKey != [] && txHash != ZeroHash()
    ensures var s := KeySignature(BTC, publicKey, [], Some(signer), 1, 1, 0, ZeroHash());
            Prepared(s) && Metadata(Sign(s, txHash, bytes)) != Metadata(s)
  {
  }
}
