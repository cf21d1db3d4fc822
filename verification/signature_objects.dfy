/**
 Unpacking signatures as objects (protocol/signature.go). The tree that is unpacked is not changed: sets hold
 arrays of signatures, every array that is returned is new, and so is every delegated signature in it; only
 leaves are shared with the input.
 */
module SignatureObjects {
  import opened Common
  import opened Signatures

  /** What a signature is, apart from the signatures inside it. */
  datatype NodeKind =
    | Leaf
    | Set(vote: nat, setSigner: Option<string>, transactionHash: Bytes)
    | Remote(destination: Option<string>)
    | Delegated(delegator: Option<string>)

  /** `leaf` is a key or system signature, `inner` the signature inside a remote or delegated one, and `items`
      are those of a set. The ghost field is the tree that the object stands for. */
  class SignatureNode {
    var kind: NodeKind
    var leaf: Signature
    var inner: SignatureNode?
    var items: array<SignatureNode?>
    ghost var tree: Signature
    ghost var repr: set<object>

    ghost predicate Valid()
      reads this, repr
      decreases repr
    {
      && this in repr && items in repr
      && (inner != null ==> inner in repr && inner.repr <= repr && this !in inner.repr && inner.Valid())
      && (forall i :: 0 <= i < items.Length && items[i] != null ==>
            items[i] in repr && items[i].repr <= repr && this !in items[i].repr && items[i].Valid())
      && match kind
         case Leaf => tree == leaf && (leaf.KeySignature? || leaf.SystemSignature?)
         case Set(vote, signer, hash) =>
           && tree.SignatureSet? && tree.vote == vote && tree.setSigner == signer && tree.transactionHash == hash
           && |tree.signatures| == items.Length
           && (forall i :: 0 <= i < items.Length ==>
                             tree.signatures[i] == if items[i] == null then Nil else items[i].tree)
         case Remote(destination) => tree == RemoteSignature(destination, if inner == null then Nil else inner.tree)
         case Delegated(delegator) => tree == DelegatedSignature(if inner == null then Nil else inner.tree, delegator)
    }

    /** A copy of a delegated signature with another signature inside. */
    constructor Delegate(delegator: Option<string>, inner: SignatureNode?)
      requires inner != null ==> inner.Valid()
      ensures Valid() && kind == Delegated(delegator) && this.inner == inner
      ensures tree == DelegatedSignature(TreeOf(inner), delegator)
      ensures fresh(repr - Repr(inner))
    {
      kind, leaf, this.inner := Delegated(delegator), Nil, inner;
      var none := new SignatureNode?[0];
      items := none;
      tree := DelegatedSignature(TreeOf(inner), delegator);
      repr := {this, none} + Repr(inner);
    }
  }

  /** A null reference is a missing signature. */
  ghost function TreeOf(n: SignatureNode?): Signature
    reads n
  {
    if n == null then Nil else n.tree
  }

  ghost function Repr(n: SignatureNode?): set<object>
    reads n
  {
    if n == null then {} else n.repr
  }

  ghost predicate Sound(n: SignatureNode?)
    reads n, Repr(n)
  {
    n != null ==> n.Valid()
  }

  /** Signatures made of objects in `bound`, with the trees they stand for. */
  ghost predicate Holds(ns: seq<SignatureNode?>, trees: seq<Signature>, bound: set<object>)
    reads bound
  {
    && |ns| == |trees|
    && forall i :: 0 <= i < |ns| ==>
         if ns[i] == null then trees[i] == Nil
         else ns[i] in bound && ns[i].repr <= bound && ns[i].Valid() && ns[i].tree == trees[i]
  }

  /** Which of them are new, when `given` are the objects of the input. */
  ghost predicate Shares(ns: seq<SignatureNode?>, given: set<object>)
    reads set i | 0 <= i < |ns| && ns[i] != null :: ns[i]
  {
    forall i :: 0 <= i < |ns| && ns[i] != null ==> if ns[i].kind.Delegated? then ns[i] !in given else ns[i] in given
  }

  /** Appending to a slice: a new array. */
  method Append(a: array<SignatureNode?>, b: array<SignatureNode?>) returns (r: array<SignatureNode?>)
    ensures fresh(r) && r[..] == a[..] + b[..]
  {
    r := new SignatureNode?[a.Length + b.Length](i requires 0 <= i < a.Length + b.Length reads a, b =>
      if i < a.Length then a[i] else b[i - a.Length]);
  }

  lemma HoldsAppend(a: seq<SignatureNode?>, ta: seq<Signature>, ba: set<object>, b: seq<SignatureNode?>,
                    tb: seq<Signature>, bb: set<object>)
    requires Holds(a, ta, ba) && Holds(b, tb, bb)
    ensures Holds(a + b, ta + tb, ba + bb)
  {
  }

  lemma HoldsAt(ns: seq<SignatureNode?>, trees: seq<Signature>, bound: set<object>, i: nat)
    requires Holds(ns, trees, bound) && i < |ns|
    ensures i < |trees| && (ns[i] != null ==> ns[i].Valid()) && TreeOf(ns[i]) == trees[i] && Repr(ns[i]) <= bound
  {
  }

  lemma HoldsNothing(ns: seq<SignatureNode?>, trees: seq<Signature>, bound: set<object>, all: seq<Signature>)
    requires Holds(ns, trees, bound)
    ensures |ns| == |trees| && Holds([], all[..0], bound)
  {
  }

  lemma DelegatedAt(trees: seq<Signature>, delegator: Option<string>, i: nat)
    requires i < |trees|
    ensures DelegateAll(trees, delegator)[i] == DelegatedSignature(trees[i], delegator)
  {
  }

  lemma HoldsOne(n: SignatureNode)
    requires n.Valid()
    ensures Holds([n], [n.tree], n.repr)
  {
  }

  /** The loop that turns every unpacked signature back into a delegated one, in place. */
  method DelegateEach(r: array<SignatureNode?>, delegator: Option<string>, ghost trees: seq<Signature>,
                      ghost bound: set<object>)
    returns (ghost bound': set<object>)
    requires Holds(r[..], trees, bound) && r !in bound
    modifies r
    ensures Holds(r[..], DelegateAll(trees, delegator), bound') && r !in bound' && bound <= bound' &&
            fresh(bound' - bound)
    ensures forall i :: 0 <= i < r.Length ==> r[i] != null && r[i].kind.Delegated? && fresh(r[i])
  {
    hide *;
    bound' := bound;
    ghost var was, all := r[..], DelegateAll(trees, delegator);
    HoldsNothing(was, trees, bound, all);
    assert r[..0] == [];
    var i := 0;
    while i < r.Length
      invariant 0 <= i <= r.Length == |trees| && r !in bound' && bound <= bound' && fresh(bound' - bound)
      invariant Holds(was, trees, bound) && r[i..] == was[i..]
      invariant Holds(r[..i], all[..i], bound')
      invariant forall j :: 0 <= j < i ==> r[j] != null && r[j].kind.Delegated? && fresh(r[j])
    {
      assert r[i] == was[i];
      HoldsAt(was, trees, bound, i);
      DelegatedAt(trees, delegator, i);
      var copy := new SignatureNode.Delegate(delegator, r[i]);
      ghost var done := r[..i];
      r[i] := copy;
      HoldsOne(copy);
      HoldsAppend(done, all[..i], bound', [copy], [copy.tree], copy.repr);
      bound' := bound' + copy.repr;
      i := i + 1;
      assert r[..i] == done + [copy];
      assert all[..i] == all[..i - 1] + [copy.tree];
    }
    assert r[..i] == r[..] && all[..i] == all;
  }

  /** The input is only read, as there is no modifies clause. The array is new, delegated signatures in it are new
      objects, and all others are leaves of the input. */
  method UnpackSignature(sig: SignatureNode?) returns (r: array<SignatureNode?>, ghost bound: set<object>)
    requires Sound(sig)
    ensures fresh(r) && r !in bound && fresh(bound - Repr(sig))
    ensures Holds(r[..], Unpack(TreeOf(sig)), bound) && Shares(r[..], Repr(sig))
    decreases TreeOf(sig), 0
  {
    if sig == null {
      r := new SignatureNode?[1](_ => null);
      bound := {};
      return;
    }
    match sig.kind
    case Set(_, _, _) =>
      r, bound := UnpackItems(sig);
    case Remote(_) =>
      r, bound := UnpackSignature(sig.inner);
    case Delegated(delegator) =>
      r, bound := UnpackSignature(sig.inner);
      bound := DelegateEach(r, delegator, Unpack(TreeOf(sig.inner)), bound);
    case Leaf =>
      r := new SignatureNode?[1](_ => sig);
      bound := sig.repr;
  }

  method UnpackItem(sig: SignatureNode, i: nat) returns (r: array<SignatureNode?>, ghost bound: set<object>)
    requires sig.Valid() && sig.kind.Set? && i < sig.items.Length
    ensures i < |sig.tree.signatures|
    ensures fresh(r) && r !in bound && fresh(bound - sig.repr)
    ensures Holds(r[..], Unpack(sig.tree.signatures[i]), bound) && Shares(r[..], sig.repr)
    decreases sig.tree.signatures, 0
  {
    hide Unpack;
    r, bound := UnpackSignature(sig.items[i]);
  }

  lemma UnpackNext(trees: seq<Signature>, i: nat, done: seq<Signature>)
    requires i < |trees| && UnpackAll(trees) == done + UnpackAll(trees[i..])
    ensures UnpackAll(trees) == done + Unpack(trees[i]) + UnpackAll(trees[i + 1..])
  {
    hide Unpack;
    UnpackOne(trees[i..]);
    assert trees[i..][0] == trees[i] && trees[i..][1..] == trees[i + 1..];
    hide UnpackAll;
    Grouped(done, Unpack(trees[i]), UnpackAll(trees[i + 1..]));
  }

  lemma UnpackOne(trees: seq<Signature>)
    requires trees != []
    ensures UnpackAll(trees) == Unpack(trees[0]) + UnpackAll(trees[1..])
  {
  }

  lemma Grouped(a: seq<Signature>, b: seq<Signature>, c: seq<Signature>)
    ensures a + (b + c) == a + b + c
  {
  }

  lemma SharesAppend(a: seq<SignatureNode?>, b: seq<SignatureNode?>, given: set<object>)
    requires Shares(a, given) && Shares(b, given)
    ensures Shares(a + b, given)
  {
  }

  method UnpackItems(sig: SignatureNode) returns (r: array<SignatureNode?>, ghost bound: set<object>)
    requires sig.Valid() && sig.kind.Set?
    ensures fresh(r) && r !in bound && fresh(bound - sig.repr)
    ensures Holds(r[..], UnpackAll(sig.tree.signatures), bound) && Shares(r[..], sig.repr)
    decreases sig.tree.signatures, 1
  {
    r := new SignatureNode?[0];
    bound := {};
    ghost var trees := sig.tree.signatures;
    ghost var done: seq<Signature> := [];
    assert Holds(r[..], done, bound) && Shares(r[..], sig.repr);
    assert trees[0..] == trees && done + UnpackAll(trees) == UnpackAll(trees);
    hide Holds, Shares, Unpack, UnpackAll;
    var i := 0;
    while i < sig.items.Length
      invariant 0 <= i <= sig.items.Length == |trees|
      invariant fresh(r) && r !in bound && fresh(bound - sig.repr)
      invariant UnpackAll(trees) == done + UnpackAll(trees[i..])
      invariant Holds(r[..], done, bound) && Shares(r[..], sig.repr)
    {
      UnpackNext(trees, i, done);
      var more, wider := UnpackItem(sig, i);
      HoldsAppend(r[..], done, bound, more[..], Unpack(trees[i]), wider);
      SharesAppend(r[..], more[..], sig.repr);
      r := Append(r, more);
      done := done + Unpack(trees[i]);
      bound := bound + wider;
      i := i + 1;
    }
    UnpackNothing(trees, done);
  }

  lemma UnpackNothing(trees: seq<Signature>, done: seq<Signature>)
    ensures done + UnpackAll(trees[|trees|..]) == done
  {
  }
}
