/**
 Receipt lists (smt/managed/receiptlist.go): a state, the elements that follow it, and a receipt for the last of them.
 */
module ReceiptLists {
  import opened Common
  import opened MerkleTree
  import opened StatefulMerkle
  import opened MerkleManagement
  import opened MerkleSoundness
  import opened MerkleLists
  import opened MerkleSlots
  import opened MerkleReceipts

  /** A proof that a run of elements follows a known state, closed by a receipt for the last of them. */
  class ReceiptList {
    var state: Snapshot
    var elements: seq<Hash>
    var receipt: Receipt
    var continued: Receipt?

    constructor (state: Snapshot, elements: seq<Hash>, receipt: Receipt)
      ensures this.state == state && this.elements == elements && this.receipt == receipt && continued == null
    {
      this.state, this.elements, this.receipt, continued := state, elements, receipt, null;
    }

    /** What a valid list means for the tree whose state it starts from. */
    ghost predicate Valid(comb: Combiner, before: seq<Hash>)
      reads this, receipt, continued
    {
      && elements != [] && (forall h :: h in elements ==> |h| == 32)
      && receipt.start == Last(elements)
      && receipt.anchor == Root(comb, before + elements) && receipt.anchor != []
      && receipt.Valid(comb)
      && (continued != null ==> continued.start == receipt.anchor && continued.Valid(comb))
    }

    /** What a valid list is for any state, even one that stands for no tree or has a negative count. */
    ghost predicate Accepted(comb: Combiner)
      reads this, receipt, continued
    {
      && elements != [] && (forall h :: h in elements ==> |h| == 32)
      && receipt.start == Last(elements) && state.count + |elements| != 0
      && Some(receipt.anchor) == Fold(comb, CarryAll(comb, state.pending, elements), None) && receipt.anchor != []
      && receipt.Valid(comb)
      && (continued != null ==> continued.start == receipt.anchor && continued.Valid(comb))
    }

    lemma AcceptedIsValid(comb: Combiner, before: seq<Hash>)
      requires state.Holds(comb, before)
      ensures Accepted(comb) <==> Valid(comb, before)
    {
      CarryAllAppends(comb, state.pending, before, elements);
      FoldIsRoot(comb, CarryAll(comb, state.pending, elements), before + elements, None);
      assert before + elements + AsSeq(None) == before + elements;
    }

    /** The loop of Validate: the state after the elements, or null for a malformed hash. */
    method WalkElements(comb: Combiner) returns (ms: MerkleState?)
      ensures ms == null <==> exists h :: h in elements && |h| != 32
      ensures ms != null ==> fresh(ms) && ms.comb == comb && ms.count == state.count + |elements|
      ensures ms != null ==> ms.pending == CarryAll(comb, state.pending, elements)
    {
      hide Represents, Carry, Padded;
      ms := new MerkleState.Load(comb, state);
      var i := 0;
      while i < |elements|
        invariant 0 <= i <= |elements|
        invariant ms != null && fresh(ms) && ms.comb == comb && ms.count == state.count + i
        invariant forall h :: h in elements[..i] ==> |h| == 32
        invariant ms.pending == CarryAll(comb, state.pending, elements[..i])
      {
        if |elements[i]| != 32 {
          return null;
        }
        ms.AddToMerkleTree(Some(elements[i]));
        i := i + 1;
        assert DropLast(elements[..i]) == elements[..i - 1] && Last(elements[..i]) == elements[i - 1];
      }
      assert elements[..i] == elements;
    }

    method Validate(comb: Combiner) returns (ok: bool)
      ensures ok <==> Accepted(comb)
      ensures forall before :: state.Holds(comb, before) ==> (ok <==> Valid(comb, before))
    {
      hide Represents, Root, ApplyAll, CarryAll, Fold;
      forall before | state.Holds(comb, before) ensures Accepted(comb) <==> Valid(comb, before) {
        AcceptedIsValid(comb, before);
      }
      if |elements| == 0 {
        return false;
      }
      var ms := WalkElements(comb);
      if ms == null {
        return false;
      }
      var anchor := ms.GetMDRoot();
      if anchor.None? || |anchor.value| == 0 || Last(elements) != receipt.start || receipt.anchor != anchor.value {
        return false;
      }
      ok := receipt.Validate(comb);
      if ok && continued != null {
        ok := continued.Validate(comb);
        ok := ok && anchor.value == continued.start;
      }
    }
  }

  // ---- What a valid list shows ----

  lemma ListHashesAre32(before: seq<Hash>, elements: seq<Hash>)
    requires All32(before) && forall h :: h in elements ==> |h| == 32
    ensures All32(before + elements)
  {
    forall i | 0 <= i < |before + elements| ensures |(before + elements)[i]| == 32 {
      assert i >= |before| ==> (before + elements)[i] in elements;
    }
  }

  /** What is at stake: an accepted list, whatever state it brings along, is anchored at the root of a chain of
      32-byte hashes, and validating it gives away no collision with the tree of the chain. */
  ghost predicate Anchored(r: ReceiptList, sha: HashFunc, chain: seq<Hash>)
    reads r, r.receipt, r.continued
  {
    && Gives32(sha) && All32(chain) && chain != [] && r.Accepted(HashPair(sha))
    && r.receipt.anchor == Root(HashPair(sha), chain)
    && !Collide(sha, ListStrings(sha, r.state.pending, r.elements), Hashed(sha, chain))
  }

  lemma AnchoredMeets(r: ReceiptList, sha: HashFunc, chain: seq<Hash>)
    requires Anchored(r, sha, chain)
    ensures var t := ListTree(r.state.pending, r.elements);
            && t.Some? && Meets(sha, t.value, chain)
            && Leaves(t.value) == Flat(SlotLeaves(r.state.pending, 1)) + Units(r.elements)
            && ListStrings(sha, r.state.pending, r.elements) == Strings(sha, t.value)
  {
    hide Root, Collide, Hashed, Fold, CarryAll, ListTree, Strings, Flat, SlotLeaves, Units, Meets;
    ListMeets(sha, r.state.pending, r.elements, chain);
  }

  /** The state is that of the chain before the elements, and the elements follow it. */
  ghost predicate IsSlice(comb: Combiner, state: Snapshot, elements: seq<Hash>, chain: seq<Hash>) {
    && 0 <= state.count <= |chain|
    && state.Holds(comb, chain[..state.count]) && elements == chain[state.count..]
  }

  /** What a caller can check about the list: slots where the count has its bits, and the length of the chain. */
  predicate AddsUp(state: Snapshot, elements: seq<Hash>, length: nat) {
    state.count >= 0 && Shaped(state.pending, state.count) && state.count + |elements| == length
  }

  /** What the list is for. Its elements are in the chain, in that order, right after the elements that its state
      stands for and up to the anchored one, exactly if the slots of the state are those of its count, and count and
      number of elements add up to the length of the chain there. Validate checks neither. */
  lemma ValidListIsSlice(r: ReceiptList, sha: HashFunc, chain: seq<Hash>)
    requires Anchored(r, sha, chain)
    ensures IsSlice(HashPair(sha), r.state, r.elements, chain) <==> AddsUp(r.state, r.elements, |chain|)
  {
    assert chain != [];
    hide Root, Collide, Hashed, Anchored, ListTree, Meets, Represents, Shaped;
    AnchoredMeets(r, sha, chain);
    if AddsUp(r.state, r.elements, |chain|) {
      ShapedMeansSlice(sha, r.state.pending, r.state.count, r.elements, chain);
    }
    if IsSlice(HashPair(sha), r.state, r.elements, chain) {
      RepresentsIsShaped(HashPair(sha), r.state.pending, chain[..r.state.count]);
    }
  }

  /** Without the length of the chain and for any state: if the elements are known to be hashes of strings of another
      length than two hashes, then they are the last elements of the chain, unless such a string collides with one
      hashed in the tree of the chain, or an element of the chain is a result of validating the list. */
  lemma PreimagesEndChain(r: ReceiptList, sha: HashFunc, chain: seq<Hash>, ms: seq<Bytes>)
    requires Anchored(r, sha, chain)
    requires HashesOf(sha, r.elements, ms) && !Collide(sha, AsSet(ms), Hashed(sha, chain))
    ensures EndsWith(chain, r.elements) || AnyInverted(sha, chain, ListStrings(sha, r.state.pending, r.elements))
  {
    assert Gives32(sha) && All32(chain) && chain != [];
    hide *;
    AnchoredMeets(r, sha, chain);
    NoInnerNodes(sha, r.elements, ms, chain);
    var t := ListTree(r.state.pending, r.elements).value;
    if !AnyInverted(sha, chain, Strings(sha, t)) {
      LastLeavesMet(sha, t, chain, Flat(SlotLeaves(r.state.pending, 1)), r.elements);
    }
  }

  /** The last exception is ruled out if the slots have 32 bytes and the elements of the chain, too, are hashes of such
      strings. */
  lemma ListOfPreimagesIsSlice(r: ReceiptList, sha: HashFunc, chain: seq<Hash>, ms: seq<Bytes>, ns: seq<Bytes>)
    requires Anchored(r, sha, chain) && HashesOf(sha, r.elements, ms) && HashesOf(sha, chain, ns)
    requires Slots32(r.state.pending) && !Collide(sha, AsSet(ms), Hashed(sha, chain))
    requires !Collide(sha, AsSet(ns), ListStrings(sha, r.state.pending, r.elements))
    ensures EndsWith(chain, r.elements)
  {
    assert Gives32(sha) && forall h :: h in r.elements ==> |h| == 32;
    hide *;
    AnchoredMeets(r, sha, chain);
    NoListNodes(sha, chain, ns, r.state.pending, r.elements);
    PreimagesEndChain(r, sha, chain, ms);
  }

  /** For one element, knowing nothing about the others or the state: if it is the hash of a string of another length
      than two hashes, then it is in the chain, or below one of its elements, unless that string collides with one
      hashed in the tree of the chain. */
  lemma PreimageIsInChain(r: ReceiptList, sha: HashFunc, chain: seq<Hash>, m: Bytes)
    requires Anchored(r, sha, chain) && sha(m) in r.elements && |m| != 64 && !Collide(sha, {m}, Hashed(sha, chain))
    ensures sha(m) in chain || AnyInverted(sha, chain, ListStrings(sha, r.state.pending, r.elements))
  {
    assert Gives32(sha) && All32(chain) && chain != [];
    hide *;
    AnchoredMeets(r, sha, chain);
    PreimageIsNoNode(sha, chain, m);
    var t := ListTree(r.state.pending, r.elements).value;
    UnitIsLeaf(Flat(SlotLeaves(r.state.pending, 1)), r.elements, sha(m));
    LeafMet(sha, t, chain, sha(m), 1);
  }

  lemma UnitIsLeaf(ls: seq<Sized>, es: seq<Hash>, h: Hash)
    requires h in es
    ensures Sized(h, 1) in ls + Units(es)
  {
    var i :| 0 <= i < |es| && es[i] == h;
    assert Units(es)[i] == Sized(h, 1);
    assert (ls + Units(es))[|ls| + i] == Sized(h, 1);
  }

  /** For a state whose leaves are known, the two trees are the same down to their leaves. */
  lemma KnownLeavesMatch(r: ReceiptList, sha: HashFunc, before: seq<Hash>, chain: seq<Hash>)
    requires Gives32(sha) && All32(before) && All32(chain) && chain != [] && r.Valid(HashPair(sha), before)
    requires r.receipt.anchor == Root(HashPair(sha), chain)
    requires !Collide(sha, Hashed(sha, before + r.elements), Hashed(sha, chain))
    ensures SameTree(sha, before + r.elements, chain)
    ensures before + r.elements == chain <==> |before| + |r.elements| == |chain|
  {
    hide Root, Collide, Hashed;
    ListHashesAre32(before, r.elements);
    RootsExactly(sha, before + r.elements, chain);
  }

  /** The smallest valid list for a chain it is no slice of: it starts from nothing, and its first element is an
      inner node of the tree that it is anchored in. */
  method InnerNodeListIsAccepted(sha: HashFunc, a: Hash, b: Hash, c: Hash) returns (r: ReceiptList, ok: bool)
    requires Gives32(sha) && |a| == 32 && |b| == 32 && |c| == 32
    ensures ok && r.Valid(HashPair(sha), []) && r.state.Holds(HashPair(sha), []) && r.elements == [sha(a + b), c]
    ensures r.receipt.anchor == Root(HashPair(sha), [a, b, c])
    ensures !IsSlice(HashPair(sha), r.state, r.elements, [a, b, c])
    ensures Hashed(sha, r.elements) <= Hashed(sha, [a, b, c])
  {
    var comb, x := HashPair(sha), sha(a + b);
    InnerNodeAsLeaf(sha, a, b, c);
    hide Root, Hashed, Cat, CarryAll, Fold;
    var receipt := new Receipt(c, 1, c, 1);
    receipt.entries, receipt.anchor := [ReceiptEntry(x, false)], comb(x, c);
    r := new ReceiptList(Snapshot(0, [], []), [x, c], receipt);
    OneStep(comb, ReceiptEntry(x, false), c);
    CatIsPlus(x, c);
    assert [] + r.elements == [x, c];
    assert r.state.Holds(comb, []);
    ok := r.Validate(comb);
  }

  /** Nor is it enough that the count adds up. The state says three elements and has one slot, in either of two
      places, and the element is an inner node; the second state is read for a count of three if the first of its two
      strings is empty. */
  method WrongSlotsAreAccepted(sha: HashFunc, a: Hash, b: Hash, c: Hash, d: Hash, low: bool)
    returns (r: ReceiptList, ok: bool)
    requires Gives32(sha) && |a| == 32 && |b| == 32 && |c| == 32 && |d| == 32
    ensures ok && r.elements == [sha(c + d)] && r.state.count == 3
    ensures r.state.pending == if low then [Some(sha(a + b))] else [None, Some(sha(a + b))]
    ensures SlotsFrom(3, [[], sha(a + b)]) == Some([None, Some(sha(a + b))])
    ensures r.receipt.anchor == Root(HashPair(sha), [a, b, c, d]) && r.state.count + |r.elements| == 4
    ensures !Shaped(r.state.pending, 3)
    ensures ListStrings(sha, r.state.pending, r.elements) <= Hashed(sha, [a, b, c, d])
  {
    var comb, x, y := HashPair(sha), sha(a + b), sha(c + d);
    var p: Slots := if low then [Some(x)] else [None, Some(x)];
    FourLeaves(sha, a, b, c, d);
    OneCarried(sha, p, x, y);
    ReadSlots(x);
    hide Root, Hashed, Cat, CarryAll, Fold, ListTree, Strings, Shaped, SlotsFrom, ListStrings;
    var receipt := new Receipt(y, 3, y, 3);
    receipt.entries, receipt.anchor := [ReceiptEntry(x, false)], comb(x, y);
    r := new ReceiptList(Snapshot(3, p, []), [y], receipt);
    OneStep(comb, ReceiptEntry(x, false), y);
    ok := r.Validate(comb);
  }

  lemma ReadSlots(x: Hash)
    requires |x| == 32
    ensures SlotsFrom(3, [[], x]) == Some([None, Some(x)])
    ensures !Shaped([Some(x)], 3) && !Shaped([None, Some(x)], 3)
  {
    var two: seq<Bytes>, one: seq<Bytes>, none: seq<Bytes>, p: Slots := [[], x], [x], [], [Some(x)];
    assert two[1..] == one && one[1..] == none;
    assert SlotsFrom(0, none) == Some([]) && p == [Some(x)] + [];
    assert SlotsFrom(1, one) == Some(p);
    assert SlotsFrom(3, two) == Some([None] + p) && [None] + p == [None, Some(x)];
    assert p[1..] == [];
    assert !Shaped([], 1);
  }

  lemma FourLeaves(sha: HashFunc, a: Hash, b: Hash, c: Hash, d: Hash)
    ensures var x, y := sha(a + b), sha(c + d);
            Root(HashPair(sha), [a, b, c, d]) == sha(Cat(x, y)) && Cat(x, y) in Hashed(sha, [a, b, c, d])
  {
    var hs: seq<Hash> := [a, b, c, d];
    HashedPair(sha, [a, b], a, b);
    HashedPair(sha, [c, d], c, d);
    CatIsPlus(a, b);
    CatIsPlus(c, d);
    assert hs == [a, b] + [c, d];
    assert Split(4) == 2;
    HashedSides(sha, hs, [a, b], [c, d]);
  }

  /** One element carried over one slot. */
  lemma OneCarried(sha: HashFunc, p: Slots, x: Hash, y: Hash)
    requires p == [Some(x)] || p == [None, Some(x)]
    ensures Fold(HashPair(sha), CarryAll(HashPair(sha), p, [y]), None) == Some(sha(Cat(x, y)))
    ensures ListStrings(sha, p, [y]) == {Cat(x, y)}
  {
    var es: seq<Hash>, l, e := [y], Leaf(x, if |p| == 1 then 1 else 2), Leaf(y, 1);
    var f := SlotLeaves(p, 1);
    assert DropLast(es) == [] && CarryElements(f, []) == f;
    assert |p| == 1 ==> p[1..] == [] && f == [Some(l)];
    assert |p| == 2 ==> p[1..] == [Some(x)] && p[1..][1..] == [] && SlotLeaves(p[1..], 2) == [Some(l)];
    assert |p| == 2 ==> f == [None, Some(l)];
    var t := if |p| == 1 then [None, Some(Node(l, e))] else [Some(e), Some(l), None];
    CarriedOnce(f, l, e);
    assert CarryElements(f, es) == t;
    FoldedOnce(t, l, e);
    assert ListTree(p, es) == Some(Node(l, e));
    AnchorIsValue(sha, p, es);
    assert Strings(sha, Node(l, e)) == {Cat(x, y)};
  }

  lemma CarriedOnce(f: Forest, l: Tree, e: Tree)
    requires f == [Some(l)] || f == [None, Some(l)]
    ensures CarryTree(Padded(f), e) == if |f| == 1 then [None, Some(Node(l, e))] else [Some(e), Some(l), None]
  {
    if |f| == 1 {
      var g: Forest := [Some(l), None];
      assert Padded(f) == g && g[1..] == [None];
      var h: Forest := [None];
      assert h[1..] == [] && CarryTree(h, Node(l, e)) == [Some(Node(l, e))];
    } else {
      var g: Forest := [None, Some(l), None];
      assert Padded(f) == g && g[1..] == [Some(l), None];
    }
  }

  lemma FoldedOnce(t: Forest, l: Tree, e: Tree)
    requires t == [None, Some(Node(l, e))] || t == [Some(e), Some(l), None]
    ensures FoldTrees(t, None) == Some(Node(l, e))
  {
    if |t| == 2 {
      assert t[1..] == [Some(Node(l, e))] && t[1..][1..] == [];
      assert FoldTrees(t[1..], None) == FoldTrees([], Some(Node(l, e)));
    } else {
      assert t[1..] == [Some(l), None] && t[1..][1..] == [None] && t[1..][1..][1..] == [];
      assert FoldTrees(t[1..][1..], Some(Node(l, e))) == Some(Node(l, e));
      assert FoldTrees(t[1..], Some(e)) == Some(Node(l, e));
    }
  }

  /** The smallest list with an element below the chain: state and element together are hashed to the only element of
      the chain. */
  method ElementBelowIsAccepted(sha: HashFunc, s: Hash, e: Hash) returns (r: ReceiptList, ok: bool)
    requires Gives32(sha) && |e| == 32 && sha(s + e) != e
    ensures ok && r.state == Snapshot(1, [Some(s)], []) && r.elements == [e]
    ensures r.receipt.anchor == Root(HashPair(sha), [sha(s + e)]) && e !in [sha(s + e)]
  {
    var comb := HashPair(sha);
    OneCarried(sha, [Some(s)], s, e);
    CatIsPlus(s, e);
    SinglePath(comb, [sha(s + e)]);
    hide Root, Hashed, Cat, CarryAll, Fold, ListTree, Strings, ListStrings;
    var receipt := new Receipt(e, 1, e, 1);
    receipt.entries, receipt.anchor := [ReceiptEntry(s, false)], comb(s, e);
    r := new ReceiptList(Snapshot(1, [Some(s)], []), [e], receipt);
    OneStep(comb, ReceiptEntry(s, false), e);
    ok := r.Validate(comb);
  }

  lemma OneStep(comb: Combiner, e: ReceiptEntry, x: Hash)
    ensures ApplyAll(comb, [e], x) == Apply(comb, e, x)
  {
    assert [e][1..] == [];
  }

  /** The loop of GetReceiptList that collects the elements. */
  method GetElements(m: MerkleManager, start: nat, end: nat) returns (elements: seq<Hash>)
    requires start <= end < |m.elements|
    ensures elements == m.elements[start..end + 1]
  {
    elements := [];
    var i := start;
    while i <= end
      invariant start <= i <= end + 1 && elements == m.elements[start..i]
    {
      elements := elements + [m.elements[i]];
      i := i + 1;
    }
  }

  method GetReceiptList(m: MerkleManager, start: int, end: int) returns (r: ReceiptList?)
    requires m.Valid()
    ensures r != null <==> 0 <= start <= end < |m.elements|
    ensures r != null ==>
              && fresh(r) && r.state.Holds(m.comb, m.elements[..start])
              && r.elements == m.elements[start..end + 1] && r.continued == null
              && r.receipt.Proves(m.comb, m.elements) && r.receipt.Valid(m.comb)
              && r.receipt.endIndex == m.elementIndex[m.elements[end]]
    // The list is valid exactly when its hashes are proper ones and the receipt, which is for the first
    // occurrence of the last hash, has the root of the whole run.
    ensures r != null ==>
              (r.Valid(m.comb, m.elements[..start]) <==>
               && (forall h :: h in r.elements ==> |h| == 32) && r.receipt.anchor != []
               && Root(m.comb, m.elements[..m.elementIndex[m.elements[end]] + 1]) ==
                  Root(m.comb, m.elements[..end + 1]))
  {
    hide Represents, Root, ApplyAll, AuditPath, MarksOk, ListOk;
    if start > end || m.head.count <= end || start < 0 {
      return null;
    }
    var elements := GetElements(m, start, end);
    var state := m.GetAnyState(start - 1);
    var last := Last(elements);
    var receipt := GetReceipt(m, last, last);
    r := new ReceiptList(state.Value(), elements, receipt);
    assert m.elements[..start] + elements == m.elements[..end + 1];
  }

  /** A tree whose leaves are the first leaves of a larger one that is the same from the root down: one of them is
      an inner node of the larger tree. */
  lemma {:induction false} PrefixInverted(sha: HashFunc, hs: seq<Hash>, gs: seq<Hash>)
    requires hs != [] && hs < gs && SameTree(sha, hs, gs)
    ensures AnyInverted(sha, hs, Hashed(sha, gs))
    decreases |hs|
  {
    hide Hashed, AnyInverted, Root, SameTree, Split;
    SameTreeEnds(sha, hs, gs);
    if |hs| == 1 {
      LeafInverted(sha, hs, gs);
    } else {
      var k, l := Split(|hs|), Split(|gs|);
      var a, b, c, d := hs[..k], hs[k..], gs[..l], gs[l..];
      assert hs == a + b && gs == c + d;
      SplitGrows(|hs|, |gs|);
      if k == l {
        assert b < d;
        PrefixInverted(sha, b, d);
      } else {
        assert a < c;
        PrefixInverted(sha, a, c);
      }
      InvertedInWhole(sha, hs, gs, a, b, c, d);
    }
  }

  /** The roots at two elements of a chain of 32-byte hashes agree only if they are the same element, unless the two
      trees give away a collision or an element is an inner node of the larger one: so a run has a valid list
      exactly when its last hash occurs there for the first time. */
  lemma RootsAgree(sha: HashFunc, elements: seq<Hash>, i: nat, end: nat)
    requires Gives32(sha) && All32(elements) && i <= end < |elements|
    requires !Collide(sha, Hashed(sha, elements[..i + 1]), Hashed(sha, elements[..end + 1]))
    requires !AnyInverted(sha, elements[..i + 1], Hashed(sha, elements[..end + 1]))
    ensures Root(HashPair(sha), elements[..i + 1]) == Root(HashPair(sha), elements[..end + 1]) <==> i == end
  {
    hide Root, Collide, AnyInverted, Hashed;
    var hs, gs := elements[..i + 1], elements[..end + 1];
    if i < end && Root(HashPair(sha), hs) == Root(HashPair(sha), gs) {
      RootsExactly(sha, hs, gs);
      assert hs < gs;
      PrefixInverted(sha, hs, gs);
    }
  }

  /** The smallest chain with an element that has no valid list: the same hash twice. */
  method RepeatedHashHasNoList(comb: Combiner, markPower: nat, h: Hash)
    returns (m: MerkleManager, r: ReceiptList?, ok: bool)
    requires |h| == 32
    ensures m.Valid() && m.comb == comb && m.elements == [h, h]
    ensures r != null && r.elements == [h] && r.state.Holds(comb, [h])
    ensures ok <==> r.Valid(comb, [h])
    ensures ok <==> comb(h, h) == h
  {
    hide IndexOk, MarksOk, MarkOk, AuditPath, ApplyAll, Represents;
    m := new MerkleManager(comb, markPower);
    m.AddHash(h, false);
    m.AddHash(h, false);
    assert m.elements == [h, h];
    FirstOccurrence(m, h);
    r := GetReceiptList(m, 1, 1);
    assert m.elements[..1] == [h] && m.elements[..2] == [h, h] && m.elements[1..2] == [h];
    TwoLeaves(comb, h);
    ok := r.Validate(comb);
  }

  lemma FirstOccurrence(m: MerkleManager, h: Hash)
    requires m.Valid() && m.elements == [h, h]
    ensures h in m.elementIndex && m.elementIndex[h] == 0
  {
    assert m.elements[0] == h && m.elements[..1][0] == h;
  }

  lemma TwoLeaves(comb: Combiner, h: Hash)
    ensures Root(comb, [h]) == h && Root(comb, [h, h]) == comb(h, h)
  {
    assert [h, h][..1] == [h] && [h, h][1..] == [h];
  }
}
