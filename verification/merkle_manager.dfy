/**
 The chain manager (smt/managed/merklemanager.go): a chain of hashes whose Merkle state is stored only
 at mark points, every 2^markPower elements, and rebuilt everywhere else.
 */
module MerkleManagement {
  import opened Common
  import opened MerkleTree
  import opened StatefulMerkle

  /** The low `k` bits of `x`: `x & (2^k - 1)`. */
  function Low(x: nat, k: nat): (r: nat)
    ensures r <= x && r < Pow2(k)
  {
    if k == 0 then 0 else x % 2 + 2 * Low(x / 2, k - 1)
  }

  /** `x` with its low `k` bits cleared: `x & ^(2^k - 1)`. */
  function High(x: nat, k: nat): nat {
    x - Low(x, k)
  }

  /** What remains when multiples of 2^k are taken off. */
  lemma {:induction false} LowIsRemainder(x: nat, k: nat) returns (q: nat)
    ensures x == Pow2(k) * q + Low(x, k)
  {
    if k == 0 {
      q := x;
    } else {
      q := LowIsRemainder(x / 2, k - 1);
      Doubled(Pow2(k - 1), q);
    }
  }

  lemma Doubled(p: nat, q: nat)
    ensures 2 * p * q == 2 * (p * q)
  {
  }

  lemma {:induction false} LowStep(x: nat, k: nat)
    ensures Low(x + 1, k) == if Low(x, k) + 1 == Pow2(k) then 0 else Low(x, k) + 1
  {
    if k > 0 {
      LowStep(x / 2, k - 1);
      assert (x + 1) / 2 == if x % 2 == 1 then x / 2 + 1 else x / 2;
    }
  }

  lemma {:induction false} LowOfHigh(x: nat, k: nat)
    ensures Low(High(x, k), k) == 0
  {
    if k > 0 {
      LowOfHigh(x / 2, k - 1);
      assert High(x, k) == 2 * High(x / 2, k - 1);
    }
  }

  /** The high bits are constant within a mark set. */
  lemma {:induction false} HighIsConstant(x: nat, y: nat, k: nat)
    requires x <= y < High(x, k) + Pow2(k)
    ensures High(y, k) == High(x, k)
    decreases y
  {
    if x < y {
      HighIsConstant(x, y - 1, k);
      LowStep(y - 1, k);
    }
  }

  /** Where the mark set of the last of `n` elements starts. */
  function MarkStart(n: nat, k: nat): (r: nat)
    ensures r <= n
  {
    if n == 0 then 0 else High(n - 1, k)
  }

  /** The hash list of the state after `elements`: the elements of the current mark set, or all of them if every
      element is a mark point. */
  ghost predicate ListOk(k: nat, elements: seq<Hash>, list: seq<Hash>) {
    list == elements[if k == 0 then 0 else MarkStart(|elements|, k)..]
  }

  ghost predicate MarkOk(comb: Combiner, k: nat, elements: seq<Hash>, s: Snapshot) {
    s.Holds(comb, elements) && ListOk(k, elements, s.hashList)
  }

  /** A state is stored at exactly the mark points, and it is the state after that element. */
  ghost predicate MarksOk(comb: Combiner, k: nat, elements: seq<Hash>, states: map<nat, Snapshot>) {
    && (forall i :: i in states ==>
          i < |elements| && Low(i + 1, k) == 0 && MarkOk(comb, k, elements[..i + 1], states[i]))
    && (forall i :: 0 <= i < |elements| && Low(i + 1, k) == 0 ==> i in states)
  }

  /** The index maps every element to its first position. */
  ghost predicate IndexOk(elements: seq<Hash>, index: map<Hash, nat>) {
    && (forall h :: h in index <==> h in elements)
    && (forall h :: h in index ==> index[h] < |elements| && elements[index[h]] == h && h !in elements[..index[h]])
  }

  lemma {:induction false} NothingOk(comb: Combiner, k: nat)
    ensures MarkOk(comb, k, [], Snapshot(0, [], [])) && MarksOk(comb, k, [], map[]) && IndexOk([], map[])
  {
    hide Low, MarkOk, MarkStart, IndexOk;
    EmptyHead(comb, k);
    EmptyIndex();
  }

  lemma EmptyHead(comb: Combiner, k: nat)
    ensures MarkOk(comb, k, [], Snapshot(0, [], []))
  {
    assert Represents(comb, [], []) && MarkStart(0, k) == 0;
    hide Represents, MarkStart;
    assert ListOk(k, [], []);
  }

  lemma EmptyIndex()
    ensures IndexOk([], map[])
  {
  }

  /** A mark set starts at the element whose count has the remainder 1. */
  lemma MarkStartStep(n: nat, k: nat)
    requires k > 0
    ensures MarkStart(n + 1, k) == if Low(n + 1, k) == 1 then n else MarkStart(n, k)
  {
    LowOfZero(k);
    assert Pow2(k) == 2 * Pow2(k - 1);
    LowStep(n, k);
    if n > 0 {
      LowStep(n - 1, k);
    }
  }

  lemma LowOfZero(k: nat)
    ensures Low(0, k) == 0
  {
  }

  lemma {:induction false} ListStep(k: nat, elements: seq<Hash>, list: seq<Hash>, hash: Hash)
    requires ListOk(k, elements, list)
    ensures ListOk(k, elements + [hash], (if Low(|elements| + 1, k) == 1 then [] else list) + [hash])
  {
    if k > 0 {
      MarkStartStep(|elements|, k);
    }
    hide MarkStart;
  }

  lemma MarksStep(comb: Combiner, k: nat, elements: seq<Hash>, states: map<nat, Snapshot>, hash: Hash, s: Snapshot)
    requires MarksOk(comb, k, elements, states) && MarkOk(comb, k, elements + [hash], s)
    ensures MarksOk(comb, k, elements + [hash],
                    if Low(|elements| + 1, k) == 0 then states[|elements| := s] else states)
  {
    hide MarkOk, Low;
    var elements' := elements + [hash];
    var states' := if Low(|elements| + 1, k) == 0 then states[|elements| := s] else states;
    forall i | i in states'
      ensures i < |elements'| && Low(i + 1, k) == 0 && MarkOk(comb, k, elements'[..i + 1], states'[i])
    {
      assert elements'[..i + 1] == if i in states && i != |elements| then elements[..i + 1] else elements';
    }
  }

  lemma IndexStep(elements: seq<Hash>, index: map<Hash, nat>, hash: Hash)
    requires IndexOk(elements, index)
    ensures hash in index <==> hash in elements
    ensures IndexOk(elements + [hash], if hash in index then index else index[hash := |elements|])
  {
    var elements' := elements + [hash];
    forall h | h in index
      ensures elements'[..index[h]] == elements[..index[h]]
    {
    }
    assert elements'[..|elements|] == elements;
  }

  /** The hash list of any state in the mark set of `element` starts where that set starts. */
  lemma ListOfMarkSet(k: nat, elements: seq<Hash>, element: nat, stop: nat, list: seq<Hash>)
    requires k > 0 && element < stop <= |elements| && stop <= High(element, k) + Pow2(k)
    requires ListOk(k, elements[..stop], list)
    ensures list == elements[High(element, k)..stop]
  {
    HighIsConstant(element, stop - 1, k);
    assert elements[..stop][MarkStart(stop, k)..] == elements[High(element, k)..stop];
  }

  lemma OneMoreOf(elements: seq<Hash>, start: nat, list: seq<Hash>, i: nat)
    requires start + |list| <= |elements| && list == elements[start..start + |list|] && i < |list|
    ensures elements[..start + (i + 1)] == elements[..start + i] + [list[i]] && list[..i + 1] == list[..i] + [list[i]]
  {
  }

  /** A mark set ends at a mark point, and so does the set before it. */
  lemma MarkPoints(x: nat, k: nat)
    ensures Low(High(x, k), k) == 0 && High(x, k) <= x
    ensures x < High(x, k) + Pow2(k) && Low(High(x, k) + Pow2(k), k) == 0
    ensures k == 0 ==> Low(x + 1, k) == 0
  {
    LowOfHigh(x, k);
    var y := High(x, k) + Pow2(k) - 1;
    HighIsConstant(x, y, k);
    LowStep(y, k);
  }

  /** The state of a tree to which only a nil hash was added: one element, but no subtree. */
  function NilState(): Snapshot {
    Snapshot(1, [None], [[]])
  }

  class MerkleManager {
    const comb: Combiner
    const markPower: nat
    var head: Snapshot
    var states: map<nat, Snapshot>
    var elements: seq<Hash>
    var elementIndex: map<Hash, nat>

    ghost predicate Valid()
      reads this
    {
      && MarkOk(comb, markPower, elements, head)
      && MarksOk(comb, markPower, elements, states)
      && IndexOk(elements, elementIndex)
    }

    constructor (comb: Combiner, markPower: nat)
      ensures Valid() && elements == [] && this.comb == comb && this.markPower == markPower
    {
      this.comb, this.markPower := comb, markPower;
      head := Snapshot(0, [], []);
      states, elements, elementIndex := map[], [], map[];
      NothingOk(comb, markPower);
      hide MarkOk, MarksOk, IndexOk;
    }

    method AddHash(hash: Hash, unique: bool)
      requires Valid()
      modifies this
      ensures Valid()
      ensures elements == if unique && hash in old(elements) then old(elements) else old(elements) + [hash]
    {
      hide IndexOk, MarksOk, ListOk, Low, Represents, Carry, Padded;
      IndexStep(elements, elementIndex, hash);
      if hash !in elementIndex {
        elementIndex := elementIndex[hash := head.count];
      } else if unique {
        return;
      }
      ghost var before := elements;
      elements := elements + [hash];
      var ms := new MerkleState.Load(comb, head);
      var marked := Low(head.count + 1, markPower);
      if marked == 1 {
        ms.hashList := [];
      }
      assert ms.Holds(before);
      ms.AddToMerkleTree(Some(hash));
      if marked == 0 {
        states := states[ms.count - 1 := ms.Value()];
      }
      ListStep(markPower, before, head.hashList, hash);
      head := ms.Value();
      MarksStep(comb, markPower, before, old(states), hash, head);
    }

    /** The stored state after `element`, or null. On an empty chain the source builds a state around
        the nil hash that its failed lookup returned. */
    method GetState(element: int) returns (ms: MerkleState?)
      requires Valid() && element >= -1
      ensures ms != null ==> fresh(ms) && ms.comb == comb
      ensures elements != [] ==> (ms != null <==> element in states)
      ensures elements != [] && ms != null ==> ms.Value() == states[element]
      ensures elements == [] ==> ms != null && ms.Value() == NilState()
    {
      if head.count == 0 {
        ms := new MerkleState(comb);
        ms.AddToMerkleTree(None);
      } else if element in states {
        ms := new MerkleState.Load(comb, states[element]);
      } else {
        ms := null;
      }
    }

    /** The state after any element of the chain, rebuilt from the mark points on both sides of it. */
    method GetAnyState(element: int) returns (ms: MerkleState?)
      requires Valid() && element >= -1
      ensures ms != null ==> fresh(ms) && ms.comb == comb
      ensures element == -1 ==> ms != null && ms.Holds([])
      // What the head was after that element.
      ensures 0 <= element < |elements| ==>
                && ms != null && ms.Holds(elements[..element + 1])
                && ListOk(markPower, elements[..element + 1], ms.hashList)
      ensures elements != [] && element >= |elements| ==> ms == null
      ensures elements == [] && element >= 0 ==> ms != null && ms.Value() == NilState()
    {
      hide IndexOk, Represents, Low, Pow2;
      if element == -1 {
        ms := new MerkleState(comb);
        return;
      }
      ms := GetState(element);
      if ms != null {
        return;
      }
      if element >= head.count {
        return null;
      }
      ms := Rebuild(element);
    }

    /** The part of GetAnyState for an element between two mark points. */
    method Rebuild(element: nat) returns (ms: MerkleState)
      requires Valid() && element < |elements| && element !in states
      ensures fresh(ms) && ms.comb == comb && ms.Holds(elements[..element + 1])
      ensures ListOk(markPower, elements[..element + 1], ms.hashList)
    {
      hide Low, Represents, IndexOk;
      ms := MarkBefore(element);
      var list := MarkSetAround(element);
      ghost var start := High(element, markPower);
      Replay(ms, list, element, start);
      MarkPoints(element, markPower);
      assert list[..element + 1 - start] == elements[..element + 1][start..];
      ms.hashList := if Low(ms.count, markPower) == 0 then [] else ms.hashList;
    }

    method MarkBefore(element: nat) returns (ms: MerkleState)
      requires Valid() && element < |elements|
      ensures fresh(ms) && ms.comb == comb && High(element, markPower) <= element
      ensures ms.Holds(elements[..High(element, markPower)]) && ms.hashList == []
    {
      hide Low, Represents, ListOk, IndexOk;
      MarkPoints(element, markPower);
      var mark := High(element, markPower) - 1;
      if mark < 0 {
        ms := new MerkleState(comb);
      } else {
        var state := GetState(mark);
        ms := state;
        ms.hashList := [];
      }
    }

    method MarkSetAround(element: nat) returns (list: seq<Hash>)
      requires Valid() && element < |elements| && element !in states
      ensures var start := High(element, markPower);
              start <= element < start + |list| <= |elements| && list == elements[start..start + |list|]
    {
      hide Low, Represents, ListOk, IndexOk;
      MarkPoints(element, markPower);
      var mark := High(element, markPower) - 1 + Pow2(markPower);
      if mark >= head.count {
        list := head.hashList;
        assert elements[..|elements|] == elements;
        ListOfMarkSet(markPower, elements, element, |elements|, list);
      } else {
        var state := GetState(mark);
        list := state.hashList;
        ListOfMarkSet(markPower, elements, element, mark + 1, list);
      }
    }

    /** The loop of GetAnyState: add hashes until the state is the one after `element`. */
    method Replay(ms: MerkleState, list: seq<Hash>, element: nat, ghost start: nat)
      requires start <= element < |elements| && element < start + |list| <= |elements|
      requires ms.comb == comb && ms.Holds(elements[..start])
      requires list == elements[start..start + |list|]
      modifies ms
      ensures ms.Holds(elements[..element + 1]) && ms.hashList == old(ms.hashList) + list[..element + 1 - start]
    {
      hide Represents, Carry, Padded;
      var i := 0;
      while i < |list| && element + 1 != ms.count
        invariant 0 <= i <= |list| && start + i <= element + 1
        invariant ms.Holds(elements[..start + i]) && ms.hashList == old(ms.hashList) + list[..i]
      {
        OneMoreOf(elements, start, list, i);
        ms.AddToMerkleTree(Some(list[i]));
        i := i + 1;
      }
    }

    /** The two subtrees combined at `height` when `element` was added. */
    method GetIntermediate(element: nat, height: nat) returns (r: Option<(Hash, Hash)>)
      requires Valid() && height >= 1
      ensures element >= |elements| ==> r.None?
      ensures element < |elements| ==>
                var level := Level(comb, elements[..element + 1], height - 1);
                && (Divisible(element + 1, height) ==> |level| >= 2)
                && r == if Divisible(element + 1, height) then Some((level[|level| - 2], level[|level| - 1])) else None
    {
      hide MarksOk, MarkOk, IndexOk, ListOk, Represents, Low;
      if element >= |elements| {
        return None;
      }
      var s := GetAnyState(element - 1);
      if s == null {
        return None;
      }
      r := s.GetIntermediate(elements[element], height);
      IntermediateIsLastPair(comb, s.pending, elements[..element], elements[element], height);
      assert elements[..element] + [elements[element]] == elements[..element + 1];
    }
  }
}
