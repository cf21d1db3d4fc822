/**
 The states that receipt lists bring along (smt/managed/receiptlist.go, smt/managed/hash.go). If the slots are those
 of the count, then the tree of a list is split like that of a chain, and its leaves stand for pieces of the chain.
 */
module MerkleSlots {
  import opened Common
  import opened MerkleTree
  import opened StatefulMerkle
  import opened MerkleSoundness
  import opened MerkleLists

  // ---- States whose slots are the set bits of their count ----

  /** Slot `i` is filled exactly if bit `i` of the count is set. */
  predicate Shaped(p: Slots, count: nat) {
    if p == [] then count == 0 else (p[0].Some? <==> count % 2 == 1) && Shaped(p[1..], count / 2)
  }

  ghost function Size(t: Tree): nat {
    match t
    case Leaf(_, n) => n
    case Node(l, r) => Size(l) + Size(r)
  }

  /** Split like the tree of a chain with that many elements. */
  ghost predicate Balanced(t: Tree) {
    match t
    case Leaf(_, n) => n >= 1
    case Node(l, r) =>
      Balanced(l) && Balanced(r) && Size(l) >= 1 && Size(r) >= 1 && Size(l) == Split(Size(l) + Size(r))
  }

  /** The tree in slot `i` has 2^i elements. */
  ghost predicate BalancedSlots(p: Forest, i: nat) {
    p == [] || ((p[0].Some? ==> Balanced(p[0].value) && Size(p[0].value) == Pow2(i)) && BalancedSlots(p[1..], i + 1))
  }

  ghost function SizeOf(t: Option<Tree>): nat {
    if t.Some? then Size(t.value) else 0
  }

  ghost function TotalSize(p: Forest): nat {
    if p == [] then 0 else TotalSize(p[1..]) + SizeOf(p[0])
  }

  lemma {:induction false} SplitOfPow2(i: nat, w: nat)
    requires 1 <= w <= Pow2(i)
    ensures Split(Pow2(i) + w) == Pow2(i)
    decreases i
  {
    if i > 0 {
      SplitOfPow2(i - 1, (w + 1) / 2);
      assert (Pow2(i) + w + 1) / 2 == Pow2(i - 1) + (w + 1) / 2;
    }
  }

  lemma JoinIsBalanced(i: nat, l: Tree, r: Tree)
    requires Balanced(l) && Size(l) == Pow2(i) && Balanced(r) && 1 <= Size(r) <= Pow2(i)
    ensures Balanced(Node(l, r)) && Size(Node(l, r)) == Size(l) + Size(r)
    ensures Size(r) == Pow2(i) ==> Size(Node(l, r)) == Pow2(i + 1)
  {
    SplitOfPow2(i, Size(r));
  }

  lemma {:induction false} BalancedPadded(p: Forest, i: nat)
    requires BalancedSlots(p, i)
    ensures BalancedSlots(p + [None], i) && TotalSize(p + [None]) == TotalSize(p)
    decreases p
  {
    if p == [] {
      var one: Forest := [None];
      assert p + [None] == one && one[1..] == [];
    } else {
      BalancedPadded(p[1..], i + 1);
      assert (p + [None])[1..] == p[1..] + [None];
    }
  }

  lemma {:induction false} BalancedCarry(p: Forest, i: nat, t: Tree)
    requires BalancedSlots(p, i) && Balanced(t) && Size(t) == Pow2(i)
    ensures BalancedSlots(CarryTree(p, t), i) && TotalSize(CarryTree(p, t)) == TotalSize(p) + Size(t)
    decreases p
  {
    hide Balanced, Pow2;
    var q := CarryTree(p, t);
    if p == [] {
      assert q[1..] == [];
    } else if p[0].None? {
      assert q[1..] == p[1..];
    } else {
      JoinIsBalanced(i, p[0].value, t);
      BalancedCarry(p[1..], i + 1, Node(p[0].value, t));
      assert q[1..] == CarryTree(p[1..], Node(p[0].value, t));
    }
  }

  lemma {:induction false} BalancedElements(p: Forest, es: seq<Hash>)
    requires BalancedSlots(p, 0)
    ensures BalancedSlots(CarryElements(p, es), 0) && TotalSize(CarryElements(p, es)) == TotalSize(p) + |es|
    decreases |es|
  {
    hide BalancedSlots, TotalSize, CarryTree;
    if es != [] {
      BalancedElements(p, DropLast(es));
      var q := CarryElements(p, DropLast(es));
      BalancedPadded(q, 0);
      BalancedCarry(Padded(q), 0, Leaf(Last(es), 1));
    }
  }

  lemma {:induction false} BalancedFold(p: Forest, i: nat, acc: Option<Tree>)
    requires BalancedSlots(p, i) && (acc.Some? ==> Balanced(acc.value) && 1 <= Size(acc.value) <= Pow2(i))
    ensures var t := FoldTrees(p, acc);
            SizeOf(t) == TotalSize(p) + SizeOf(acc) && (t.Some? ==> Balanced(t.value))
    decreases |p|
  {
    hide Balanced, Pow2;
    if p != [] {
      DoublePow2(i);
      if acc.Some? && p[0].Some? {
        JoinIsBalanced(i, p[0].value, acc.value);
        BalancedFold(p[1..], i + 1, Some(Node(p[0].value, acc.value)));
      } else {
        BalancedFold(p[1..], i + 1, if acc.None? then p[0] else acc);
      }
    }
  }

  lemma DoublePow2(i: nat)
    ensures Pow2(i + 1) == 2 * Pow2(i)
  {
  }

  lemma {:induction false} ShapedSlots(p: Slots, i: nat, count: nat)
    requires Shaped(p, count)
    ensures BalancedSlots(SlotLeaves(p, Pow2(i)), i) && TotalSize(SlotLeaves(p, Pow2(i))) == count * Pow2(i)
    decreases p
  {
    if p != [] {
      DoublePow2(i);
      hide Pow2;
      ShapedSlots(p[1..], i + 1, count / 2);
      var f := SlotLeaves(p, Pow2(i));
      assert f[1..] == SlotLeaves(p[1..], Pow2(i + 1));
      Halved(count, Pow2(i));
    }
  }

  lemma Halved(count: nat, u: nat)
    ensures count * u == count / 2 * (2 * u) + count % 2 * u
  {
    assert count == 2 * (count / 2) + count % 2;
  }

  lemma ListIsBalanced(p: Slots, count: nat, es: seq<Hash>)
    requires Shaped(p, count) && ListTree(p, es).Some?
    ensures Balanced(ListTree(p, es).value) && Size(ListTree(p, es).value) == count + |es|
  {
    hide BalancedSlots, TotalSize, FoldTrees, CarryElements;
    ShapedSlots(p, 0, count);
    BalancedElements(SlotLeaves(p, 1), es);
    BalancedFold(CarryElements(SlotLeaves(p, 1), es), 0, None);
  }

  // ---- What the leaves stand for ----

  /** From the right, every hash is the root of as many elements as it stands for. */
  ghost predicate Covers(comb: Combiner, ls: seq<Sized>, hs: seq<Hash>)
    decreases |ls|
  {
    if ls == [] then hs == []
    else
      var n := Last(ls).size;
      && 1 <= n <= |hs| && Last(ls).hash == Root(comb, hs[|hs| - n..])
      && Covers(comb, DropLast(ls), hs[..|hs| - n])
  }

  lemma {:induction false} CoversBoth(comb: Combiner, ls: seq<Sized>, hs: seq<Hash>, rs: seq<Sized>, gs: seq<Hash>)
    requires Covers(comb, ls, hs) && Covers(comb, rs, gs)
    ensures Covers(comb, ls + rs, hs + gs)
    decreases |rs|
  {
    hide Root;
    if rs == [] {
      assert ls + rs == ls && hs + gs == hs;
    } else {
      var n := Last(rs).size;
      CoversBoth(comb, ls, hs, DropLast(rs), gs[..|gs| - n]);
      assert DropLast(ls + rs) == ls + DropLast(rs) && Last(ls + rs) == Last(rs);
      assert (hs + gs)[|hs + gs| - n..] == gs[|gs| - n..] && (hs + gs)[..|hs + gs| - n] == hs + gs[..|gs| - n];
    }
  }

  lemma CoversOne(comb: Combiner, h: Hash, hs: seq<Hash>)
    requires hs != [] && h == Root(comb, hs)
    ensures Covers(comb, [Sized(h, |hs|)], hs)
  {
    hide Root;
    var ls := [Sized(h, |hs|)];
    assert DropLast(ls) == [] && hs[0..] == hs && hs[..0] == [];
  }

  /** A tree that is split like that of the chain and meets it. */
  lemma {:induction false} MeetingCovers(sha: HashFunc, t: Tree, hs: seq<Hash>)
    requires hs != [] && Meets(sha, t, hs) && Balanced(t) && Size(t) == |hs|
    ensures Covers(HashPair(sha), Leaves(t), hs)
    decreases t
  {
    hide Root, Meets, Covers, Split;
    if t.Leaf? {
      MeetsEnd(sha, t, hs);
      CoversOne(HashPair(sha), t.hash, hs);
    } else {
      var k := Split(|hs|);
      var a, b := hs[..k], hs[k..];
      assert hs == a + b;
      MeetsStep(sha, t, hs, a, b);
      MeetingCovers(sha, t.left, a);
      MeetingCovers(sha, t.right, b);
      CoversBoth(HashPair(sha), Leaves(t.left), a, Leaves(t.right), b);
    }
  }

  lemma {:induction false} CoversUnits(comb: Combiner, ls: seq<Sized>, es: seq<Hash>, hs: seq<Hash>)
    requires Covers(comb, ls + Units(es), hs)
    ensures EndsWith(hs, es) && Covers(comb, ls, hs[..|hs| - |es|])
    decreases |es|
  {
    if es == [] {
      assert ls + Units(es) == ls && hs[..|hs|] == hs;
    } else {
      UnitsEnd(es);
      hide *;
      var init := ls + Units(DropLast(es));
      Associate(ls, Units(DropLast(es)), [Sized(Last(es), 1)]);
      CoversUnit(comb, init, Last(es), hs);
      CoversUnits(comb, ls, DropLast(es), DropLast(hs));
      EndsWithMore(hs, es);
    }
  }

  lemma EndsWithMore(hs: seq<Hash>, es: seq<Hash>)
    requires hs != [] && es != [] && EndsWith(DropLast(hs), DropLast(es)) && Last(hs) == Last(es)
    ensures EndsWith(hs, es) && DropLast(hs)[..|DropLast(hs)| - |DropLast(es)|] == hs[..|hs| - |es|]
  {
    var k := |hs| - |es|;
    assert hs[k..] == DropLast(hs)[k..] + [Last(hs)];
    assert es == DropLast(es) + [Last(es)];
  }

  // ---- The slots then represent the chain so far ----

  lemma FlatSlots(p: Slots, size: nat)
    requires p != []
    ensures p[0].Some? ==>
              Flat(SlotLeaves(p, size)) == Flat(SlotLeaves(p[1..], 2 * size)) + [Sized(p[0].value, size)]
    ensures p[0].None? ==> Flat(SlotLeaves(p, size)) == Flat(SlotLeaves(p[1..], 2 * size))
  {
    var rest := Flat(SlotLeaves(p[1..], 2 * size));
    assert SlotLeaves(p, size)[1..] == SlotLeaves(p[1..], 2 * size);
    assert rest + [] == rest;
  }

  lemma CoversEnd(comb: Combiner, ls: seq<Sized>, h: Hash, n: nat, hs: seq<Hash>)
    ensures Covers(comb, ls + [Sized(h, n)], hs) <==>
            1 <= n <= |hs| && h == Root(comb, hs[|hs| - n..]) && Covers(comb, ls, hs[..|hs| - n])
  {
    hide Root;
    var all := ls + [Sized(h, n)];
    assert DropLast(all) == ls && Last(all) == Sized(h, n);
  }

  lemma CoversUnit(comb: Combiner, ls: seq<Sized>, h: Hash, hs: seq<Hash>)
    requires Covers(comb, ls + [Sized(h, 1)], hs)
    ensures hs != [] && Last(hs) == h && Covers(comb, ls, DropLast(hs))
  {
    hide Covers, Root;
    CoversEnd(comb, ls, h, 1, hs);
    SinglePath(comb, hs[|hs| - 1..]);
  }

  lemma PairsOfParts(comb: Combiner, a: seq<Hash>, b: seq<Hash>)
    requires |a| % 2 == 0 && |b| % 2 == 0
    ensures Pairs(comb, a + b) == Pairs(comb, a) + Pairs(comb, b)
    ensures Pairs(comb, a + b)[..|a| / 2] == Pairs(comb, a) && Pairs(comb, a + b)[|a| / 2..] == Pairs(comb, b)
  {
  }

  lemma RootOfPairs(comb: Combiner, b: seq<Hash>)
    requires b != [] && |b| % 2 == 0
    ensures Pairs(comb, b) != [] && Root(comb, Pairs(comb, b)) == Root(comb, b)
  {
    RootOfUp(comb, b);
    assert Up(comb, b) == Pairs(comb, b);
  }

  /** One level up, every hash stands for half as many. */
  lemma {:induction false} HalveCovers(comb: Combiner, p: Slots, size: nat, hs: seq<Hash>)
    requires size >= 1 && Covers(comb, Flat(SlotLeaves(p, 2 * size)), hs)
    ensures |hs| % 2 == 0 && Covers(comb, Flat(SlotLeaves(p, size)), Pairs(comb, hs))
    decreases p
  {
    if p != [] {
      var double := 2 * size;
      FlatSlots(p, double);
      FlatSlots(p, size);
      hide *;
      if p[0].None? {
        HalveCovers(comb, p[1..], double, hs);
      } else {
        CoversEnd(comb, Flat(SlotLeaves(p[1..], 2 * double)), p[0].value, double, hs);
        var a, b := hs[..|hs| - double], hs[|hs| - double..];
        assert hs == a + b;
        HalveCovers(comb, p[1..], double, a);
        HalveLast(comb, Flat(SlotLeaves(p[1..], double)), p[0].value, size, a, b);
      }
    }
  }

  lemma HalveLast(comb: Combiner, ls: seq<Sized>, h: Hash, n: nat, a: seq<Hash>, b: seq<Hash>)
    requires n >= 1 && |b| == 2 * n && |a| % 2 == 0 && h == Root(comb, b) && Covers(comb, ls, Pairs(comb, a))
    ensures |a + b| % 2 == 0 && Covers(comb, ls + [Sized(h, n)], Pairs(comb, a + b))
  {
    hide Covers, Root, Pairs;
    PairsOfParts(comb, a, b);
    RootOfPairs(comb, b);
    CoversEnd(comb, ls, h, n, Pairs(comb, a + b));
  }

  lemma PairsSize(comb: Combiner, hs: seq<Hash>)
    ensures |Pairs(comb, hs)| == |hs| / 2
  {
  }

  lemma {:induction false} SlotsRepresent(comb: Combiner, p: Slots, hs: seq<Hash>)
    requires Covers(comb, Flat(SlotLeaves(p, 1)), hs)
    ensures Represents(comb, p, hs)
    decreases p
  {
    if p != [] {
      FlatSlots(p, 1);
      hide *;
      if p[0].None? {
        HalveCovers(comb, p[1..], 1, hs);
        SlotsRepresent(comb, p[1..], Pairs(comb, hs));
        EvenRepresents(comb, p, hs);
      } else {
        CoversUnit(comb, Flat(SlotLeaves(p[1..], 2)), p[0].value, hs);
        HalveCovers(comb, p[1..], 1, DropLast(hs));
        SlotsRepresent(comb, p[1..], Pairs(comb, DropLast(hs)));
        OddRepresents(comb, p, hs, p[0].value);
      }
    }
  }

  lemma EvenRepresents(comb: Combiner, p: Slots, hs: seq<Hash>)
    requires p != [] && p[0].None? && |hs| % 2 == 0 && Represents(comb, p[1..], Pairs(comb, hs))
    ensures Represents(comb, p, hs)
  {
  }

  lemma OddRepresents(comb: Combiner, p: Slots, hs: seq<Hash>, h: Hash)
    requires p != [] && p[0] == Some(h) && hs != [] && Last(hs) == h
    requires |DropLast(hs)| % 2 == 0 && Represents(comb, p[1..], Pairs(comb, DropLast(hs)))
    ensures Represents(comb, p, hs)
  {
    PairsOfAppend(comb, DropLast(hs), h);
    assert hs == DropLast(hs) + [h];
  }

  lemma {:induction false} RepresentsIsShaped(comb: Combiner, p: Slots, hs: seq<Hash>)
    requires Represents(comb, p, hs)
    ensures Shaped(p, |hs|)
    decreases p
  {
    if p != [] {
      RepresentsIsShaped(comb, p[1..], Pairs(comb, hs));
      PairsSize(comb, hs);
    }
  }

  /** A state with the slots of its count, and elements that add up to the chain with it. */
  lemma ShapedMeansSlice(sha: HashFunc, p: Slots, count: nat, es: seq<Hash>, hs: seq<Hash>)
    requires hs != [] && ListTree(p, es).Some? && Meets(sha, ListTree(p, es).value, hs)
    requires Shaped(p, count) && count + |es| == |hs|
    ensures es == hs[count..] && Represents(HashPair(sha), p, hs[..count])
  {
    hide ListTree, Meets, Covers, Flat, Represents, SlotLeaves, Units;
    ListIsBalanced(p, count, es);
    MeetingCovers(sha, ListTree(p, es).value, hs);
    LeavesOfList(p, es);
    CoversUnits(HashPair(sha), Flat(SlotLeaves(p, 1)), es, hs);
    SlotsRepresent(HashPair(sha), p, hs[..count]);
  }

  // ---- What a list shows about a chain with its anchor as root ----

  /** The strings that are hashed when the elements are added to the state and its root is computed. */
  ghost function ListStrings(sha: HashFunc, p: Slots, es: seq<Hash>): set<Bytes> {
    if ListTree(p, es).Some? then Strings(sha, ListTree(p, es).value) else {}
  }

  lemma ListMeets(sha: HashFunc, p: Slots, es: seq<Hash>, hs: seq<Hash>)
    requires Gives32(sha) && All32(hs) && hs != [] && es != [] && forall h :: h in es ==> |h| == 32
    requires Fold(HashPair(sha), CarryAll(HashPair(sha), p, es), None) == Some(Root(HashPair(sha), hs))
    requires !Collide(sha, ListStrings(sha, p, es), Hashed(sha, hs))
    ensures ListTree(p, es).Some? && Meets(sha, ListTree(p, es).value, hs)
    ensures Leaves(ListTree(p, es).value) == Flat(SlotLeaves(p, 1)) + Units(es)
  {
    hide *;
    ListIs32(sha, p, es);
    AnchorIsValue(sha, p, es);
    LeavesOfList(p, es);
    ListOfSome(sha, p, es);
    ValueMeets(sha, ListTree(p, es).value, hs);
  }

  lemma ListOfSome(sha: HashFunc, p: Slots, es: seq<Hash>)
    requires ListTree(p, es).Some? && Is32(sha, ListTree(p, es).value)
    ensures var t := ListTree(p, es).value;
            && ListStrings(sha, p, es) == Strings(sha, t) && Rights32(sha, t)
            && ValueOf(sha, ListTree(p, es)) == Some(Value(sha, t)) && LeavesOf(ListTree(p, es)) == Leaves(t)
  {
  }

  predicate Slots32(p: Slots) {
    forall i :: 0 <= i < |p| && p[i].Some? ==> |p[i].value| == 32
  }

  ghost predicate Sized32(ls: seq<Sized>) {
    forall l :: l in ls ==> |l.hash| == 32
  }

  lemma {:induction false} SlotLeaves32(p: Slots, size: nat)
    requires Slots32(p)
    ensures Sized32(Flat(SlotLeaves(p, size)))
    decreases p
  {
    if p != [] {
      FlatSlots(p, size);
      SlotLeaves32(p[1..], 2 * size);
    }
  }

  lemma {:induction false} Strings64(sha: HashFunc, t: Tree)
    requires Gives32(sha) && Sized32(Leaves(t))
    ensures |Value(sha, t)| == 32 && forall m :: m in Strings(sha, t) ==> |m| == 64
  {
    match t
    case Leaf(h, n) =>
      assert Sized(h, n) in Leaves(t);
    case Node(l, r) =>
      assert forall x :: x in Leaves(l) ==> x in Leaves(t);
      assert forall x :: x in Leaves(r) ==> x in Leaves(t);
      Strings64(sha, l);
      Strings64(sha, r);
      CatSize(Value(sha, l), Value(sha, r));
  }

  /** Hashes of strings of other lengths are no inner nodes of the tree of a list whose slots have 32 bytes. */
  lemma NoListNodes(sha: HashFunc, hs: seq<Hash>, ms: seq<Bytes>, p: Slots, es: seq<Hash>)
    requires Gives32(sha) && Slots32(p) && (forall h :: h in es ==> |h| == 32) && ListTree(p, es).Some?
    requires HashesOf(sha, hs, ms) && !Collide(sha, AsSet(ms), ListStrings(sha, p, es))
    ensures !AnyInverted(sha, hs, ListStrings(sha, p, es))
  {
    hide SlotLeaves, Flat, Strings, ListTree;
    LeavesOfList(p, es);
    SlotLeaves32(p, 1);
    Strings64(sha, ListTree(p, es).value);
    forall h | h in hs ensures !Inverted(sha, h, ListStrings(sha, p, es)) {
      var i :| 0 <= i < |hs| && hs[i] == h;
      assert ms[i] in AsSet(ms);
    }
  }

  // ---- Received slots (smt/managed/hash.go) ----

  /** The slots read for a count: one string for every set bit, and an empty string is read as nil. */
  function SlotsFrom(count: nat, hashes: seq<Bytes>): Option<Slots> {
    if count == 0 then Some([])
    else if count % 2 == 0 then Prepend(None, SlotsFrom(count / 2, hashes))
    else if hashes == [] then None
    else Prepend(if hashes[0] == [] then None else Some(hashes[0]), SlotsFrom(count / 2, hashes[1..]))
  }

  function Prepend(slot: Option<Hash>, rest: Option<Slots>): Option<Slots> {
    if rest.None? then None else Some([slot] + rest.value)
  }

  function SetBits(count: nat): nat {
    if count == 0 then 0 else count % 2 + SetBits(count / 2)
  }

  /** They are the slots of the count exactly if no string that was read is empty. */
  lemma {:induction false} ReceivedShape(count: nat, hashes: seq<Bytes>)
    ensures SlotsFrom(count, hashes).Some? <==> SetBits(count) <= |hashes|
    ensures SlotsFrom(count, hashes).Some? ==>
              (Shaped(SlotsFrom(count, hashes).value, count) <==> [] !in hashes[..SetBits(count)])
    decreases count
  {
    if count > 0 && count % 2 == 0 {
      ReceivedShape(count / 2, hashes);
    } else if count > 0 && hashes != [] {
      ReceivedShape(count / 2, hashes[1..]);
      if SetBits(count) <= |hashes| {
        assert hashes[..SetBits(count)] == [hashes[0]] + hashes[1..][..SetBits(count / 2)];
      }
    }
  }

  /** SparseHashList.UnmarshalBinary, over the byte strings that follow the count. */
  method UnmarshalSlots(height: int, hashes: seq<Bytes>) returns (p: Option<Slots>)
    ensures p == SlotsFrom(Wrap64(height), hashes)
  {
    var bits, rest, slots: Slots := Wrap64(height), hashes, [];
    NothingJoined(SlotsFrom(bits, rest));
    while bits > 0
      invariant bits >= 0
      invariant SlotsFrom(Wrap64(height), hashes) == Joined(slots, SlotsFrom(bits, rest))
      decreases bits
    {
      JoinedStep(slots, bits, rest);
      if bits % 2 == 1 {
        if rest == [] {
          return None;
        }
        slots := slots + [if rest[0] == [] then None else Some(rest[0])];
        rest := rest[1..];
      } else {
        slots := slots + [None];
      }
      bits := bits / 2;
    }
    p := Some(slots);
    assert slots + [] == slots;
  }

  function Joined(slots: Slots, rest: Option<Slots>): Option<Slots> {
    if rest.None? then None else Some(slots + rest.value)
  }

  lemma NothingJoined(rest: Option<Slots>)
    ensures Joined([], rest) == rest
  {
    if rest.Some? {
      assert [] + rest.value == rest.value;
    }
  }

  lemma JoinedMore(slots: Slots, slot: Option<Hash>, rest: Option<Slots>)
    ensures Joined(slots, Prepend(slot, rest)) == Joined(slots + [slot], rest)
  {
    if rest.Some? {
      assert slots + ([slot] + rest.value) == slots + [slot] + rest.value;
    }
  }

  lemma JoinedStep(slots: Slots, bits: nat, rest: seq<Bytes>)
    requires bits > 0
    ensures bits % 2 == 0 ==>
              Joined(slots, SlotsFrom(bits, rest)) == Joined(slots + [None], SlotsFrom(bits / 2, rest))
    ensures bits % 2 == 1 && rest == [] ==> Joined(slots, SlotsFrom(bits, rest)) == None
    ensures bits % 2 == 1 && rest != [] ==>
              Joined(slots, SlotsFrom(bits, rest)) ==
              Joined(slots + [if rest[0] == [] then None else Some(rest[0])], SlotsFrom(bits / 2, rest[1..]))
  {
    if bits % 2 == 0 {
      JoinedMore(slots, None, SlotsFrom(bits / 2, rest));
    } else if rest != [] {
      JoinedMore(slots, if rest[0] == [] then None else Some(rest[0]), SlotsFrom(bits / 2, rest[1..]));
    }
  }
}
