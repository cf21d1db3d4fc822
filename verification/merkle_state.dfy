/**
 The incremental Merkle state (smt/managed/merklestate.go): a binary counter whose set bits are the
 roots of complete subtrees. A slot is `None` where the source keeps a nil hash.
 */
module StatefulMerkle {
  import opened Common
  import opened MerkleTree

  type Slots = seq<Option<Hash>>

  /** `p` is the state of a tree with leaves `hs`: slot 0 is the leaf left unpaired, and the other
      slots are the state of the tree over the combined pairs. Trailing empty slots are allowed. */
  ghost predicate Represents(comb: Combiner, p: Slots, hs: seq<Hash>) {
    if p == [] then hs == []
    else
      && p[0] == (if |hs| % 2 == 1 then Some(hs[|hs| - 1]) else None)
      && Represents(comb, p[1..], Pairs(comb, hs))
  }

  function Padded<T>(p: seq<Option<T>>): seq<Option<T>> {
    if p == [] || p[|p| - 1].Some? then p + [None] else p
  }

  function Trimmed(p: Slots): Slots {
    if p != [] && Last(p).None? then Trimmed(DropLast(p)) else p
  }

  /** A nil hash is hashed, and listed here, like an empty one. */
  function OrEmpty(h: Option<Hash>): Hash {
    if h.Some? then h.value else []
  }

  /** Binary increment: the hash moves up past the filled slots and settles in the first empty one. A nil
      hash leaves that slot empty. */
  function Carry(comb: Combiner, p: Slots, h: Option<Hash>): Slots {
    if p == [] then [h]
    else if p[0].None? then [h] + p[1..]
    else [None] + Carry(comb, p[1..], Some(comb(p[0].value, OrEmpty(h))))
  }

  /** The slots after a list of hashes. */
  function CarryAll(comb: Combiner, p: Slots, hs: seq<Hash>): Slots {
    if hs == [] then p else Carry(comb, Padded(CarryAll(comb, p, DropLast(hs))), Some(Last(hs)))
  }

  /** The fold of `GetMDRoot`: lower slots are combined on the right of higher ones. */
  function Fold(comb: Combiner, p: Slots, acc: Option<Hash>): Option<Hash> {
    if p == [] then acc else Fold(comb, p[1..], FoldSlot(comb, p[0], acc))
  }

  function FoldSlot(comb: Combiner, slot: Option<Hash>, acc: Option<Hash>): Option<Hash> {
    if acc.None? then slot
    else if slot.Some? then Some(comb(slot.value, acc.value))
    else acc
  }

  /** The walk of `GetIntermediate`. */
  function Intermediate(comb: Combiner, p: Slots, h: Hash, height: int): Option<(Hash, Hash)> {
    if p == [] || p[0].None? then None
    else if height == 1 then Some((p[0].value, h))
    else Intermediate(comb, p[1..], comb(p[0].value, h), height - 1)
  }

  // ---- What the operations mean for the tree ----

  lemma PairsOfAppend(comb: Combiner, hs: seq<Hash>, h: Hash)
    ensures |hs| % 2 == 0 ==> Pairs(comb, hs + [h]) == Pairs(comb, hs)
    ensures |hs| % 2 == 1 ==> Pairs(comb, hs + [h]) == Pairs(comb, hs) + [comb(hs[|hs| - 1], h)]
  {
  }

  lemma {:induction false} PaddedRepresents(comb: Combiner, p: Slots, hs: seq<Hash>)
    requires Represents(comb, p, hs)
    ensures Represents(comb, Padded(p), hs)
    ensures Represents(comb, p + [None], hs)
  {
    if p == [] {
      assert Represents(comb, [], Pairs(comb, hs));
      assert (p + [None])[1..] == [];
    } else {
      PaddedRepresents(comb, p[1..], Pairs(comb, hs));
      assert (p + [None])[1..] == p[1..] + [None];
    }
  }

  lemma {:induction false} DropEmptySlot(comb: Combiner, p: Slots, hs: seq<Hash>)
    requires p != [] && Last(p).None? && Represents(comb, p, hs)
    ensures Represents(comb, DropLast(p), hs)
  {
    if |p| == 1 {
      assert |hs| % 2 == 0 && Represents(comb, [], Pairs(comb, hs));
    } else {
      DropEmptySlot(comb, p[1..], Pairs(comb, hs));
      assert DropLast(p)[1..] == DropLast(p[1..]);
    }
  }

  lemma {:induction false} TrimmedRepresents(comb: Combiner, p: Slots, hs: seq<Hash>)
    requires Represents(comb, p, hs)
    ensures Represents(comb, Trimmed(p), hs)
  {
    if p != [] && Last(p).None? {
      DropEmptySlot(comb, p, hs);
      TrimmedRepresents(comb, DropLast(p), hs);
    }
  }

  lemma CarryOnce(comb: Combiner, p: Slots, i: nat, h: Option<Hash>)
    requires i < |p|
    ensures Carry(comb, p[i..], h) ==
            if p[i].None? then [h] + p[i + 1..]
            else [None] + Carry(comb, p[i + 1..], Some(comb(p[i].value, OrEmpty(h))))
  {
    var q := p[i..];
    assert q[0] == p[i] && q[1..] == p[i + 1..];
  }

  /** One round of the loop: below slot `i` of `p` the carry is done, and the rest of `p` is untouched. */
  lemma CarryStep(comb: Combiner, padded: Slots, p: Slots, i: nat, h: Option<Hash>)
    requires i < |p| == |padded| && p[i..] == padded[i..]
    ensures p[i] == padded[i]
    ensures p[i].None? ==> p[..i] + Carry(comb, padded[i..], h) == p[i := h]
    ensures p[i].Some? ==>
              var p', h' := p[i := None], Some(comb(p[i].value, OrEmpty(h)));
              && p[..i] + Carry(comb, padded[i..], h) == p'[..i + 1] + Carry(comb, padded[i + 1..], h')
              && p'[i + 1..] == padded[i + 1..]
  {
    CarryOnce(comb, padded, i, h);
    hide Carry;
    var h' := Some(comb(OrEmpty(padded[i]), OrEmpty(h)));
    UpdateSlot(p, padded, i, if padded[i].None? then h else None, Carry(comb, padded[i + 1..], h'));
  }

  lemma UpdateSlot<T>(p: seq<T>, q: seq<T>, i: nat, x: T, tail: seq<T>)
    requires i < |p| == |q| && p[i..] == q[i..]
    ensures p[i] == q[i]
    ensures p[..i] + ([x] + tail) == p[i := x][..i + 1] + tail
    ensures p[..i] + ([x] + q[i + 1..]) == p[i := x] && p[i := x][i + 1..] == q[i + 1..]
  {
    assert p[i] == p[i..][0] && q[i] == q[i..][0];
    assert p[i + 1..] == p[i..][1..] && q[i + 1..] == q[i..][1..];
    assert p[i := x][..i + 1] == p[..i] + [x];
  }

  /** Adding a hash to the state adds a leaf to the tree. A nil hash adds an empty leaf if there is an
      unpaired one, and nothing otherwise. */
  lemma {:induction false} CarryAppends(comb: Combiner, p: Slots, hs: seq<Hash>, h: Option<Hash>)
    requires Represents(comb, p, hs)
    ensures h.Some? || |hs| % 2 == 1 ==> Represents(comb, Carry(comb, p, h), hs + [OrEmpty(h)])
    ensures h.None? && |hs| % 2 == 0 ==> Represents(comb, Carry(comb, p, h), hs)
  {
    PairsOfAppend(comb, hs, OrEmpty(h));
    if p == [] {
      assert Carry(comb, p, h)[1..] == [];
    } else if p[0].None? {
      assert Carry(comb, p, h)[1..] == p[1..];
    } else {
      var c := Some(comb(p[0].value, OrEmpty(h)));
      CarryAppends(comb, p[1..], Pairs(comb, hs), c);
      assert Carry(comb, p, h)[1..] == Carry(comb, p[1..], c);
    }
  }

  /** A state stands for lists of one length only. */
  lemma {:induction false} RepresentsSize(comb: Combiner, p: Slots, hs: seq<Hash>, gs: seq<Hash>)
    requires Represents(comb, p, hs) && Represents(comb, p, gs)
    ensures |hs| == |gs|
    decreases p
  {
    if p != [] {
      RepresentsSize(comb, p[1..], Pairs(comb, hs), Pairs(comb, gs));
    }
  }

  lemma PaddedCarryAppends(comb: Combiner, p: Slots, hs: seq<Hash>, h: Option<Hash>)
    requires Represents(comb, p, hs)
    ensures h.Some? || |hs| % 2 == 1 ==> Represents(comb, Carry(comb, Padded(p), h), hs + [OrEmpty(h)])
    ensures h.None? && |hs| % 2 == 0 ==> Represents(comb, Carry(comb, Padded(p), h), hs)
  {
    hide Represents, Carry, Padded;
    PaddedRepresents(comb, p, hs);
    CarryAppends(comb, Padded(p), hs, h);
  }

  lemma {:induction false} CarryAllAppends(comb: Combiner, p: Slots, before: seq<Hash>, hs: seq<Hash>)
    requires Represents(comb, p, before)
    ensures Represents(comb, CarryAll(comb, p, hs), before + hs)
  {
    hide Represents, Carry, Padded;
    if hs == [] {
      assert before + hs == before;
    } else {
      CarryAllAppends(comb, p, before, DropLast(hs));
      PaddedCarryAppends(comb, CarryAll(comb, p, DropLast(hs)), before + DropLast(hs), Some(Last(hs)));
      assert before + DropLast(hs) + [Last(hs)] == before + hs;
    }
  }

  function AsSeq(acc: Option<Hash>): seq<Hash> {
    if acc.Some? then [acc.value] else []
  }

  lemma UpOfAppend(comb: Combiner, hs: seq<Hash>, acc: Option<Hash>)
    ensures var slot := if |hs| % 2 == 1 then Some(hs[|hs| - 1]) else None;
            Up(comb, hs + AsSeq(acc)) == Pairs(comb, hs) + AsSeq(FoldSlot(comb, slot, acc))
  {
    if acc.Some? {
      PairsOfAppend(comb, hs, acc.value);
    } else {
      assert hs + AsSeq(acc) == hs;
    }
  }

  /** Folding the slots gives the Merkle tree hash of the leaves, with `acc` as one more node on the right. */
  lemma {:induction false} FoldIsRoot(comb: Combiner, p: Slots, hs: seq<Hash>, acc: Option<Hash>)
    requires Represents(comb, p, hs)
    ensures Fold(comb, p, acc) ==
            if hs + AsSeq(acc) == [] then None else Some(Root(comb, hs + AsSeq(acc)))
    decreases |p|
  {
    if p == [] {
      assert hs + AsSeq(acc) == AsSeq(acc);
    } else {
      var acc' := FoldSlot(comb, p[0], acc);
      FoldIsRoot(comb, p[1..], Pairs(comb, hs), acc');
      UpOfAppend(comb, hs, acc);
      if hs + AsSeq(acc) != [] {
        RootOfUp(comb, hs + AsSeq(acc));
      } else {
        assert hs == [] && acc.None? && Pairs(comb, hs) == [];
      }
    }
  }

  /** Level `j` of the tree, counting only complete subtrees of 2^j leaves. */
  ghost function Level(comb: Combiner, hs: seq<Hash>, j: nat): seq<Hash>
    decreases j
  {
    if j == 0 then hs else Level(comb, Pairs(comb, hs), j - 1)
  }

  /** `n` is a multiple of 2^j. */
  predicate Divisible(n: nat, j: nat) {
    j == 0 || (n % 2 == 0 && Divisible(n / 2, j - 1))
  }

  /** `GetIntermediate` succeeds exactly where a subtree of 2^height leaves is completed by `h`, and
      returns the two subtrees that were combined. */
  lemma {:induction false} IntermediateIsLastPair(comb: Combiner, p: Slots, hs: seq<Hash>, h: Hash, height: nat)
    requires Represents(comb, p, hs) && height >= 1
    ensures var level := Level(comb, hs + [h], height - 1);
            Intermediate(comb, p, h, height) ==
            if Divisible(|hs| + 1, height) && |level| >= 2 then Some((level[|level| - 2], level[|level| - 1])) else None
    ensures Divisible(|hs| + 1, height) ==> |Level(comb, hs + [h], height - 1)| >= 2
    decreases height
  {
    PairsOfAppend(comb, hs, h);
    if p == [] {
      assert hs == [];
    } else if p[0].Some? {
      if height > 1 {
        IntermediateIsLastPair(comb, p[1..], Pairs(comb, hs), comb(p[0].value, h), height - 1);
        assert |Pairs(comb, hs)| + 1 == (|hs| + 1) / 2;
      } else {
        assert Divisible((|hs| + 1) / 2, 0);
      }
    }
  }

  /** A stored copy of a Merkle state. The count is a signed number, read from the wire like the rest. */
  datatype Snapshot = Snapshot(count: int, pending: Slots, hashList: seq<Hash>) {
    ghost predicate Holds(comb: Combiner, hs: seq<Hash>) {
      count == |hs| && Represents(comb, pending, hs)
    }
  }

  /** The Merkle state as the source keeps it; `comb` is SHA-256 over the concatenation. */
  class MerkleState {
    const comb: Combiner
    var count: int
    var pending: Slots
    var hashList: seq<Hash>

    ghost predicate Holds(hs: seq<Hash>)
      reads this
    {
      count == |hs| && Represents(comb, pending, hs)
    }

    constructor (comb: Combiner)
      ensures this.comb == comb && Holds([]) && hashList == [] && pending == []
    {
      this.comb := comb;
      count, pending, hashList := 0, [], [];
    }

    constructor Load(comb: Combiner, snapshot: Snapshot)
      ensures this.comb == comb && Value() == snapshot
    {
      this.comb := comb;
      count, pending, hashList := snapshot.count, snapshot.pending, snapshot.hashList;
    }

    function Value(): Snapshot
      reads this
    {
      Snapshot(count, pending, hashList)
    }

    method PadPending()
      modifies this`pending
      ensures pending == Padded(old(pending))
      ensures forall hs :: old(Holds(hs)) ==> Holds(hs)
    {
      if |pending| == 0 || pending[|pending| - 1].Some? {
        pending := pending + [None];
      }
      forall hs | old(Holds(hs)) ensures Holds(hs) {
        PaddedRepresents(comb, old(pending), hs);
      }
    }

    method Trim()
      modifies this`pending
      ensures pending == Trimmed(old(pending))
      ensures forall hs :: old(Holds(hs)) ==> Holds(hs)
    {
      while |pending| > 0 && pending[|pending| - 1].None?
        invariant Trimmed(pending) == Trimmed(old(pending))
        decreases |pending|
      {
        pending := pending[..|pending| - 1];
      }
      forall hs | old(Holds(hs)) ensures Holds(hs) {
        TrimmedRepresents(comb, old(pending), hs);
      }
    }

    /** A hash becomes one more leaf. A nil hash becomes an empty leaf if there is an unpaired leaf, and
        otherwise only raises the count, so that the state stands for no list any more. */
    method AddToMerkleTree(h: Option<Hash>)
      modifies this
      ensures pending == Carry(comb, Padded(old(pending)), h)
      ensures hashList == old(hashList) + [OrEmpty(h)] && count == old(count) + 1
      ensures forall hs :: old(Holds(hs)) && (h.Some? || |hs| % 2 == 1) ==> Holds(hs + [OrEmpty(h)])
      ensures forall hs, gs :: old(Holds(hs)) && h.None? && |hs| % 2 == 0 ==> !Holds(gs)
    {
      hide Represents, Carry, Padded;
      hashList := hashList + [OrEmpty(h)];
      count := count + 1;
      CarryUp(h);
      forall hs | old(Holds(hs))
        ensures h.Some? || |hs| % 2 == 1 ==> Holds(hs + [OrEmpty(h)])
        ensures h.None? && |hs| % 2 == 0 ==> Represents(comb, pending, hs)
      {
        PaddedCarryAppends(comb, old(pending), hs, h);
      }
      forall hs, gs | old(Holds(hs)) && h.None? && |hs| % 2 == 0 && Holds(gs) ensures false {
        RepresentsSize(comb, pending, hs, gs);
      }
    }

    /** The loop of AddToMerkleTree. */
    method CarryUp(h: Option<Hash>)
      modifies this`pending
      ensures pending == Carry(comb, Padded(old(pending)), h)
    {
      hide Carry, Represents;
      PadPending();
      ghost var padded := pending;
      var hash, i := h, 0;
      assert padded[0..] == padded && pending[..0] + Carry(comb, padded, hash) == Carry(comb, padded, h);
      while pending[i].Some?
        invariant 0 <= i < |padded| == |pending| && padded[|padded| - 1].None?
        invariant pending[i..] == padded[i..]
        invariant Carry(comb, padded, h) == pending[..i] + Carry(comb, padded[i..], hash)
        decreases |pending| - i
      {
        CarryStep(comb, padded, pending, i, hash);
        hash := Some(comb(pending[i].value, OrEmpty(hash)));
        pending := pending[i := None];
        i := i + 1;
      }
      CarryStep(comb, padded, pending, i, hash);
      pending := pending[i := hash];
    }

    method GetMDRoot() returns (root: Option<Hash>)
      ensures root == if count == 0 then None else Fold(comb, pending, None)
      ensures forall hs :: Holds(hs) ==> root == if hs == [] then None else Some(Root(comb, hs))
    {
      root := None;
      if count != 0 {
        var i := 0;
        while i < |pending|
          invariant 0 <= i <= |pending|
          invariant Fold(comb, pending, None) == Fold(comb, pending[i..], root)
        {
          assert pending[i..][1..] == pending[i + 1..];
          root := if root.None? then pending[i]
                  else if pending[i].Some? then Some(comb(pending[i].value, root.value))
                  else root;
          i := i + 1;
        }
        assert pending[i..] == [];
      }
      forall hs | Holds(hs) ensures root == if hs == [] then None else Some(Root(comb, hs)) {
        FoldIsRoot(comb, pending, hs, None);
        assert hs + AsSeq(None) == hs;
      }
    }

    method GetIntermediate(h: Hash, height: int) returns (r: Option<(Hash, Hash)>)
      modifies this`pending
      ensures pending == Padded(old(pending))
      ensures r == Intermediate(comb, pending, h, height)
      ensures forall hs :: old(Holds(hs)) ==> Holds(hs)
    {
      PadPending();
      var hash, i := h, 0;
      while i < |pending|
        invariant 0 <= i <= |pending|
        invariant height <= i ==> height <= 0
        invariant Intermediate(comb, pending, h, height) == Intermediate(comb, pending[i..], hash, height - i)
      {
        assert pending[i..][1..] == pending[i + 1..];
        if pending[i].None? {
          return None;
        }
        if i + 1 == height {
          return Some((pending[i].value, hash));
        }
        hash := comb(pending[i].value, hash);
        i := i + 1;
      }
      r := None;
    }
  }

  /** The hash of a list of hashes (internal/encoding/hash/hasher.go): 32 zero bytes when it is empty. */
  method MerkleHash(comb: Combiner, hashes: seq<Hash>) returns (r: Hash)
    ensures r == if hashes == [] then seq(32, _ => 0) else Root(comb, hashes)
  {
    if hashes == [] {
      return seq(32, _ => 0);
    }
    var merkle := new MerkleState(comb);
    var i := 0;
    while i < |hashes|
      invariant 0 <= i <= |hashes|
      invariant fresh(merkle) && merkle.comb == comb && merkle.Holds(hashes[..i])
    {
      merkle.AddToMerkleTree(Some(hashes[i]));
      i := i + 1;
      assert hashes[..i] == hashes[..i - 1] + [hashes[i - 1]];
    }
    assert hashes[..i] == hashes;
    var root := merkle.GetMDRoot();
    assert merkle.Holds(hashes);
    r := root.value;
  }
}
