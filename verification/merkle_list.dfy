/**
 The tree that a receipt list builds (smt/managed/receiptlist.go): the state it brings along has slots that are
 leaves of this tree, whatever they hold, and the elements are carried into them and folded to the anchor.
 */
module MerkleLists {
  import opened Common
  import opened MerkleTree
  import opened StatefulMerkle
  import opened MerkleSoundness

  /** A leaf stands for `size` elements of a chain. */
  datatype Tree = Leaf(hash: Hash, size: nat) | Node(left: Tree, right: Tree)

  type Forest = seq<Option<Tree>>

  ghost function Value(sha: HashFunc, t: Tree): Hash {
    match t
    case Leaf(h, _) => h
    case Node(l, r) => sha(Cat(Value(sha, l), Value(sha, r)))
  }

  /** The strings that are hashed on the way from the leaves to the root. */
  ghost function Strings(sha: HashFunc, t: Tree): set<Bytes> {
    match t
    case Leaf(_, _) => {}
    case Node(l, r) => {Cat(Value(sha, l), Value(sha, r))} + Strings(sha, l) + Strings(sha, r)
  }

  /** A hash, and the number of elements it stands for. */
  datatype Sized = Sized(hash: Hash, size: nat)

  ghost function Leaves(t: Tree): (ls: seq<Sized>)
    ensures ls != []
  {
    match t
    case Leaf(h, n) => [Sized(h, n)]
    case Node(l, r) => Leaves(l) + Leaves(r)
  }

  // ---- Carrying and folding trees ----

  ghost function CarryTree(p: Forest, t: Tree): Forest {
    if p == [] then [Some(t)]
    else if p[0].None? then [Some(t)] + p[1..]
    else [None] + CarryTree(p[1..], Node(p[0].value, t))
  }

  ghost function CarryElements(p: Forest, es: seq<Hash>): Forest {
    if es == [] then p else CarryTree(Padded(CarryElements(p, DropLast(es))), Leaf(Last(es), 1))
  }

  ghost function FoldTrees(p: Forest, acc: Option<Tree>): Option<Tree> {
    if p == [] then acc
    else
      FoldTrees(p[1..], if acc.None? then p[0] else if p[0].Some? then Some(Node(p[0].value, acc.value)) else acc)
  }

  /** The slots of a state as leaves; slot `i` stands for 2^i elements. */
  ghost function SlotLeaves(p: Slots, size: nat): (f: Forest)
    ensures |f| == |p|
  {
    if p == [] then []
    else [if p[0].Some? then Some(Leaf(p[0].value, size)) else None] + SlotLeaves(p[1..], 2 * size)
  }

  /** The tree of a list with this state and these elements. */
  ghost function ListTree(p: Slots, es: seq<Hash>): Option<Tree> {
    FoldTrees(CarryElements(SlotLeaves(p, 1), es), None)
  }

  // ---- It is what the code computes ----

  ghost function ValueOf(sha: HashFunc, t: Option<Tree>): Option<Hash> {
    if t.Some? then Some(Value(sha, t.value)) else None
  }

  ghost function Values(sha: HashFunc, p: Forest): (s: Slots)
    ensures |s| == |p|
  {
    seq(|p|, i requires 0 <= i < |p| => ValueOf(sha, p[i]))
  }

  lemma ValuesTail(sha: HashFunc, p: Forest)
    requires p != []
    ensures Values(sha, p) == [ValueOf(sha, p[0])] + Values(sha, p[1..])
    ensures Values(sha, p)[0] == ValueOf(sha, p[0]) && Values(sha, p)[1..] == Values(sha, p[1..])
  {
  }

  lemma {:induction false} ValuesOfSlots(sha: HashFunc, p: Slots, size: nat)
    ensures Values(sha, SlotLeaves(p, size)) == p
    decreases p
  {
    if p != [] {
      ValuesOfSlots(sha, p[1..], 2 * size);
      ValuesTail(sha, SlotLeaves(p, size));
      hide Values;
      assert SlotLeaves(p, size)[1..] == SlotLeaves(p[1..], 2 * size);
    }
  }

  lemma ValuesOfPadded(sha: HashFunc, p: Forest)
    ensures Values(sha, Padded(p)) == Padded(Values(sha, p))
  {
  }

  lemma {:induction false} ValuesOfCarry(sha: HashFunc, p: Forest, t: Tree)
    ensures Values(sha, CarryTree(p, t)) == Carry(HashPair(sha), Values(sha, p), Some(Value(sha, t)))
    decreases p
  {
    var q := CarryTree(p, t);
    ValuesTail(sha, q);
    if p != [] {
      ValuesTail(sha, p);
      if p[0].Some? {
        ValuesOfCarry(sha, p[1..], Node(p[0].value, t));
        assert q[1..] == CarryTree(p[1..], Node(p[0].value, t));
      } else {
        assert q[1..] == p[1..];
      }
    } else {
      assert Values(sha, q[1..]) == [];
    }
  }

  lemma {:induction false} ValuesOfElements(sha: HashFunc, p: Forest, es: seq<Hash>)
    ensures Values(sha, CarryElements(p, es)) == CarryAll(HashPair(sha), Values(sha, p), es)
    decreases |es|
  {
    hide Values, Padded, CarryTree, Carry;
    if es != [] {
      ValuesOfElements(sha, p, DropLast(es));
      var q := CarryElements(p, DropLast(es));
      ValuesOfPadded(sha, q);
      ValuesOfCarry(sha, Padded(q), Leaf(Last(es), 1));
    }
  }

  lemma {:induction false} ValueOfFold(sha: HashFunc, p: Forest, acc: Option<Tree>)
    ensures Fold(HashPair(sha), Values(sha, p), ValueOf(sha, acc)) == ValueOf(sha, FoldTrees(p, acc))
    decreases |p|
  {
    if p != [] {
      ValuesTail(sha, p);
      hide Values;
      var acc' := if acc.None? then p[0] else if p[0].Some? then Some(Node(p[0].value, acc.value)) else acc;
      ValueOfFold(sha, p[1..], acc');
    }
  }

  /** The anchor that Validate computes is the hash of the tree. */
  lemma AnchorIsValue(sha: HashFunc, p: Slots, es: seq<Hash>)
    ensures Fold(HashPair(sha), CarryAll(HashPair(sha), p, es), None) == ValueOf(sha, ListTree(p, es))
  {
    hide Values, CarryElements, FoldTrees, Fold, CarryAll;
    ValuesOfSlots(sha, p, 1);
    ValuesOfElements(sha, SlotLeaves(p, 1), es);
    ValueOfFold(sha, CarryElements(SlotLeaves(p, 1), es), None);
  }

  // ---- Its leaves are the slots and then the elements ----

  ghost function LeavesOf(t: Option<Tree>): seq<Sized> {
    if t.Some? then Leaves(t.value) else []
  }

  ghost function Flat(p: Forest): seq<Sized> {
    if p == [] then [] else Flat(p[1..]) + LeavesOf(p[0])
  }

  /** The elements, each of which stands for itself. */
  ghost function Units(es: seq<Hash>): seq<Sized> {
    seq(|es|, i requires 0 <= i < |es| => Sized(es[i], 1))
  }

  lemma UnitsEnd(es: seq<Hash>)
    requires es != []
    ensures Units(es) == Units(DropLast(es)) + [Sized(Last(es), 1)]
  {
  }

  lemma {:induction false} FlatPadded(p: Forest)
    ensures Flat(p + [None]) == Flat(p) && Flat(Padded(p)) == Flat(p)
  {
    if p == [] {
      var one: Forest := [None];
      assert one[1..] == [] && p + [None] == one;
    } else {
      FlatPadded(p[1..]);
      assert (p + [None])[1..] == p[1..] + [None];
    }
  }

  lemma {:induction false} FlatCarry(p: Forest, t: Tree)
    ensures Flat(CarryTree(p, t)) == Flat(p) + Leaves(t)
    decreases p
  {
    var q := CarryTree(p, t);
    if p == [] {
      assert q[1..] == [];
    } else if p[0].None? {
      assert q[1..] == p[1..];
    } else {
      FlatCarry(p[1..], Node(p[0].value, t));
      assert q[1..] == CarryTree(p[1..], Node(p[0].value, t));
    }
  }

  lemma {:induction false} FlatElements(p: Forest, es: seq<Hash>)
    ensures Flat(CarryElements(p, es)) == Flat(p) + Units(es)
    decreases |es|
  {
    hide Flat, Padded, CarryTree;
    if es != [] {
      UnitsEnd(es);
      hide Units;
      FlatElements(p, DropLast(es));
      var q := CarryElements(p, DropLast(es));
      FlatPadded(q);
      FlatCarry(Padded(q), Leaf(Last(es), 1));
    }
  }

  lemma Associate(a: seq<Sized>, b: seq<Sized>, c: seq<Sized>)
    ensures a + (b + c) == a + b + c
  {
  }

  lemma {:induction false} FlatFold(p: Forest, acc: Option<Tree>)
    ensures LeavesOf(FoldTrees(p, acc)) == Flat(p) + LeavesOf(acc)
    decreases |p|
  {
    if p != [] {
      var acc' := if acc.None? then p[0] else if p[0].Some? then Some(Node(p[0].value, acc.value)) else acc;
      FlatFold(p[1..], acc');
      var a, b, c := Flat(p[1..]), LeavesOf(p[0]), LeavesOf(acc);
      assert LeavesOf(acc') == b + c;
      Associate(a, b, c);
    }
  }

  lemma LeavesOfList(p: Slots, es: seq<Hash>)
    ensures LeavesOf(ListTree(p, es)) == Flat(SlotLeaves(p, 1)) + Units(es)
  {
    hide Flat, Units, CarryElements, FoldTrees, SlotLeaves;
    FlatElements(SlotLeaves(p, 1), es);
    FlatFold(CarryElements(SlotLeaves(p, 1), es), None);
  }

  // ---- Only slots can have other lengths, and they are on the left ----

  ghost predicate Rights32(sha: HashFunc, t: Tree) {
    t.Node? ==> |Value(sha, t.right)| == 32 && Rights32(sha, t.left) && Rights32(sha, t.right)
  }

  ghost predicate Is32(sha: HashFunc, t: Tree) {
    Rights32(sha, t) && |Value(sha, t)| == 32
  }

  ghost predicate AllRights32(sha: HashFunc, p: Forest) {
    forall i :: 0 <= i < |p| && p[i].Some? ==> Rights32(sha, p[i].value)
  }

  /** The lowest tree, which the fold starts with. */
  ghost predicate Lowest32(sha: HashFunc, p: Forest) {
    p != [] && if p[0].Some? then Is32(sha, p[0].value) else Lowest32(sha, p[1..])
  }

  lemma {:induction false} CarryIs32(sha: HashFunc, p: Forest, t: Tree)
    requires Gives32(sha) && AllRights32(sha, p) && Is32(sha, t)
    ensures AllRights32(sha, CarryTree(p, t)) && Lowest32(sha, CarryTree(p, t))
    decreases p
  {
    if p != [] && p[0].Some? {
      CarryIs32(sha, p[1..], Node(p[0].value, t));
      assert CarryTree(p, t)[1..] == CarryTree(p[1..], Node(p[0].value, t));
    }
  }

  lemma {:induction false} SlotsAreLeaves(sha: HashFunc, p: Slots, size: nat)
    ensures AllRights32(sha, SlotLeaves(p, size))
    decreases p
  {
    if p != [] {
      SlotsAreLeaves(sha, p[1..], 2 * size);
    }
  }

  lemma {:induction false} ElementsAre32(sha: HashFunc, p: Forest, es: seq<Hash>)
    requires Gives32(sha) && AllRights32(sha, p) && forall h :: h in es ==> |h| == 32
    ensures AllRights32(sha, CarryElements(p, es)) && (es != [] ==> Lowest32(sha, CarryElements(p, es)))
    decreases |es|
  {
    if es != [] {
      ElementsAre32(sha, p, DropLast(es));
      CarryIs32(sha, Padded(CarryElements(p, DropLast(es))), Leaf(Last(es), 1));
    }
  }

  lemma {:induction false} FoldIs32(sha: HashFunc, p: Forest, acc: Option<Tree>)
    requires Gives32(sha) && AllRights32(sha, p) && if acc.Some? then Is32(sha, acc.value) else Lowest32(sha, p)
    ensures FoldTrees(p, acc).Some? && Is32(sha, FoldTrees(p, acc).value)
    decreases |p|
  {
    if p != [] {
      var acc' := if acc.None? then p[0] else if p[0].Some? then Some(Node(p[0].value, acc.value)) else acc;
      FoldIs32(sha, p[1..], acc');
    }
  }

  lemma ListIs32(sha: HashFunc, p: Slots, es: seq<Hash>)
    requires Gives32(sha) && es != [] && forall h :: h in es ==> |h| == 32
    ensures ListTree(p, es).Some? && Is32(sha, ListTree(p, es).value)
  {
    hide CarryElements, FoldTrees, Is32, AllRights32, Lowest32;
    SlotsAreLeaves(sha, p, 1);
    ElementsAre32(sha, SlotLeaves(p, 1), es);
    FoldIs32(sha, CarryElements(SlotLeaves(p, 1), es), None);
  }

  // ---- Meeting the tree of a chain ----

  /** The two trees are the same from the root down to where one of them has a leaf. */
  ghost predicate Meets(sha: HashFunc, t: Tree, hs: seq<Hash>)
    requires hs != []
    decreases t
  {
    if t.Leaf? || |hs| == 1 then Value(sha, t) == Root(HashPair(sha), hs)
    else
      var k := Split(|hs|);
      Meets(sha, t.left, hs[..k]) && Meets(sha, t.right, hs[k..])
  }

  lemma MeetsStep(sha: HashFunc, t: Tree, hs: seq<Hash>, a: seq<Hash>, b: seq<Hash>)
    requires t.Node? && Sides(hs, a, b)
    ensures a != [] && b != [] && (Meets(sha, t, hs) <==> Meets(sha, t.left, a) && Meets(sha, t.right, b))
  {
    hide Root;
    assert hs[..|a|] == a && hs[|a|..] == b;
  }

  lemma {:induction false} RightSplitEqual(a: Bytes, b: Bytes, c: Bytes, d: Bytes)
    requires Cat(a, b) == Cat(c, d) && |b| == |d|
    ensures a == c && b == d
  {
    assert |a| == |Cat(a, b)| - |b| && |c| == |Cat(c, d)| - |d|;
    SplitEqual(a, b, c, d);
  }

  lemma {:induction false} ValueMeets(sha: HashFunc, t: Tree, hs: seq<Hash>)
    requires Gives32(sha) && All32(hs) && hs != [] && Rights32(sha, t)
    requires !Collide(sha, Strings(sha, t), Hashed(sha, hs)) && Value(sha, t) == Root(HashPair(sha), hs)
    ensures Meets(sha, t, hs)
    decreases t
  {
    hide Root, Hashed, Collide, Meets, Split;
    if t.Leaf? || |hs| == 1 {
      MeetsEnd(sha, t, hs);
    } else {
      var k := Split(|hs|);
      var a, b := hs[..k], hs[k..];
      assert hs == a + b;
      HashedSides(sha, hs, a, b);
      SidesAre32(sha, hs, a, b);
      MeetsStep(sha, t, hs, a, b);
      var l, r, l', r' := Value(sha, t.left), Value(sha, t.right), Root(HashPair(sha), a), Root(HashPair(sha), b);
      NoCollision(sha, Strings(sha, t), Hashed(sha, hs), Cat(l, r), Cat(l', r'));
      RightSplitEqual(l, r, l', r');
      NoCollisionInParts(sha, Strings(sha, t.left), Hashed(sha, a), Strings(sha, t), Hashed(sha, hs));
      NoCollisionInParts(sha, Strings(sha, t.right), Hashed(sha, b), Strings(sha, t), Hashed(sha, hs));
      ValueMeets(sha, t.left, a);
      ValueMeets(sha, t.right, b);
    }
  }

  lemma MeetsEnd(sha: HashFunc, t: Tree, hs: seq<Hash>)
    requires hs != [] && (t.Leaf? || |hs| == 1)
    ensures Meets(sha, t, hs) <==> Value(sha, t) == Root(HashPair(sha), hs)
  {
  }

  lemma {:induction false} MeetsGivesValue(sha: HashFunc, t: Tree, hs: seq<Hash>)
    requires hs != [] && Meets(sha, t, hs)
    ensures Value(sha, t) == Root(HashPair(sha), hs)
    decreases t
  {
    hide Root, Hashed, Meets, Split;
    if t.Leaf? || |hs| == 1 {
      MeetsEnd(sha, t, hs);
    } else {
      var k := Split(|hs|);
      var a, b := hs[..k], hs[k..];
      assert hs == a + b;
      MeetsStep(sha, t, hs, a, b);
      HashedSides(sha, hs, a, b);
      MeetsGivesValue(sha, t.left, a);
      MeetsGivesValue(sha, t.right, b);
    }
  }

  /** A leaf of the tree is in the chain, or an inner node there, or below one of its elements. */
  lemma {:induction false} LeafMet(sha: HashFunc, t: Tree, hs: seq<Hash>, h: Hash, n: nat)
    requires hs != [] && Meets(sha, t, hs) && Sized(h, n) in Leaves(t)
    ensures h in hs || Inverted(sha, h, Hashed(sha, hs)) || AnyInverted(sha, hs, Strings(sha, t))
    decreases t
  {
    hide Root, Hashed, Meets, Inverted, AnyInverted, Split;
    if |hs| == 1 {
      MeetsEnd(sha, t, hs);
      SinglePath(HashPair(sha), hs);
      if t.Node? {
        StepInverted(sha, hs, Strings(sha, t), Cat(Value(sha, t.left), Value(sha, t.right)));
      }
    } else {
      var k := Split(|hs|);
      var a, b := hs[..k], hs[k..];
      assert hs == a + b;
      HashedSides(sha, hs, a, b);
      if t.Leaf? {
        MeetsEnd(sha, t, hs);
        NodeInverted(sha, h, Hashed(sha, hs), Cat(Root(HashPair(sha), a), Root(HashPair(sha), b)));
      } else {
        MeetsStep(sha, t, hs, a, b);
        if Sized(h, n) in Leaves(t.left) {
          LeafMet(sha, t.left, a, h, n);
        } else {
          LeafMet(sha, t.right, b, h, n);
        }
        OneInvertedInWhole(sha, h, hs, a, b);
        StringsInWhole(sha, t, hs, a, b);
      }
    }
  }

  lemma StringsInWhole(sha: HashFunc, t: Tree, hs: seq<Hash>, a: seq<Hash>, b: seq<Hash>)
    requires t.Node? && Sides(hs, a, b)
    ensures AnyInverted(sha, a, Strings(sha, t.left)) || AnyInverted(sha, b, Strings(sha, t.right)) ==>
              AnyInverted(sha, hs, Strings(sha, t))
  {
    hide AnyInverted;
    MembersOfSides(hs, a, b);
    if AnyInverted(sha, a, Strings(sha, t.left)) {
      AnyInvertedMonotone(sha, a, hs, Strings(sha, t.left), Strings(sha, t));
    }
    if AnyInverted(sha, b, Strings(sha, t.right)) {
      AnyInvertedMonotone(sha, b, hs, Strings(sha, t.right), Strings(sha, t));
    }
  }

  // ---- The last leaves ----

  lemma PartNotInverted(sha: HashFunc, part: seq<Hash>, whole: seq<Hash>, a: set<Bytes>, b: set<Bytes>)
    requires (forall h :: h in part ==> h in whole) && a <= b && !AnyInverted(sha, whole, b)
    ensures !AnyInverted(sha, part, a)
  {
    hide AnyInverted;
    if AnyInverted(sha, part, a) {
      AnyInvertedMonotone(sha, part, whole, a, b);
    }
  }

  /** Two lists that are put together in two ways: the later parts meet. */
  lemma CutLeaves(l: seq<Sized>, r: seq<Sized>, s: seq<Sized>, es: seq<Hash>)
    requires l + r == s + Units(es)
    ensures |es| <= |r| ==> |l| <= |s| && r == s[|l|..] + Units(es)
    ensures |es| > |r| ==> l == s + Units(es[..|es| - |r|]) && r == Units(es[|es| - |r|..])
  {
    var u := Units(es);
    assert |l| + |r| == |s| + |u|;
    if |es| <= |r| {
      assert r == (l + r)[|l|..] == (s + u)[|l|..] == s[|l|..] + u;
    } else {
      var k := |es| - |r|;
      assert l == (l + r)[..|l|] == (s + u)[..|l|] == s + u[..k];
      assert r == (l + r)[|l|..] == (s + u)[|l|..] == u[k..];
      assert u[..k] == Units(es[..k]) && u[k..] == Units(es[k..]);
    }
  }

  ghost predicate EndsWith(hs: seq<Hash>, es: seq<Hash>) {
    |es| <= |hs| && hs[|hs| - |es|..] == es
  }

  /** The last leaves are the last elements of the chain, unless one of them is an inner node there or an element of
      the chain is an inner node of the tree. */
  lemma {:induction false} LastLeavesMet(sha: HashFunc, t: Tree, hs: seq<Hash>, s: seq<Sized>, es: seq<Hash>)
    requires hs != [] && Meets(sha, t, hs) && Leaves(t) == s + Units(es)
    requires !AnyInverted(sha, es, Hashed(sha, hs)) && !AnyInverted(sha, hs, Strings(sha, t))
    ensures EndsWith(hs, es) && (s == [] ==> hs == es)
    decreases t
  {
    hide Root, Hashed, Meets, AnyInverted, Split, Leaves, Units, EndsWith, Strings, Value;
    if |hs| == 1 {
      MeetsEnd(sha, t, hs);
      LastLeafMet(sha, t, hs, s, es);
    } else {
      var k := Split(|hs|);
      var a, b := hs[..k], hs[k..];
      assert hs == a + b;
      if t.Leaf? {
        MeetsEnd(sha, t, hs);
        LeafIsNoElement(sha, t, hs, a, b, s, es);
        EndsInRight(hs, [], es);
      } else {
        MeetsStep(sha, t, hs, a, b);
        NodeLeaves(t);
        SidesNotInverted(sha, t, hs, a, b);
        var l, r := Leaves(t.left), Leaves(t.right);
        CutLeaves(l, r, s, es);
        if |es| <= |r| {
          ElementsNotInverted(sha, hs, a, b, es, [], es);
          LastLeavesMet(sha, t.right, b, s[|l|..], es);
          EndsInRight(a, b, es);
        } else {
          var es', es'' := es[..|es| - |r|], es[|es| - |r|..];
          assert es == es' + es'';
          ElementsNotInverted(sha, hs, a, b, es, es', es'');
          LastLeavesMet(sha, t.left, a, s, es');
          assert [] + Units(es'') == Units(es'');
          LastLeavesMet(sha, t.right, b, [], es'');
          EndsInBoth(a, b, es', es'');
        }
      }
    }
  }

  lemma EndsInRight(a: seq<Hash>, b: seq<Hash>, es: seq<Hash>)
    ensures EndsWith(b, es) ==> EndsWith(a + b, es)
    ensures es == [] ==> EndsWith(a, es)
  {
  }

  lemma EndsInBoth(a: seq<Hash>, b: seq<Hash>, es: seq<Hash>, fs: seq<Hash>)
    requires EndsWith(a, es) && b == fs
    ensures EndsWith(a + b, es + fs)
  {
  }

  lemma NodeLeaves(t: Tree)
    requires t.Node?
    ensures Leaves(t) == Leaves(t.left) + Leaves(t.right)
  {
  }

  lemma OneLeaf(l: Sized, s: seq<Sized>, es: seq<Hash>)
    requires [l] == s + Units(es)
    ensures if es == [] then s == [l] else s == [] && es == [l.hash]
  {
    assert |s| + |es| == 1;
    if es != [] {
      assert l == (s + Units(es))[0] == Sized(es[0], 1);
    }
  }

  lemma LastLeafMet(sha: HashFunc, t: Tree, hs: seq<Hash>, s: seq<Sized>, es: seq<Hash>)
    requires |hs| == 1 && Value(sha, t) == Root(HashPair(sha), hs) && Leaves(t) == s + Units(es)
    requires !AnyInverted(sha, hs, Strings(sha, t))
    ensures EndsWith(hs, es) && (s == [] ==> hs == es)
  {
    hide Root, AnyInverted;
    SinglePath(HashPair(sha), hs);
    if t.Node? {
      StepInverted(sha, hs, Strings(sha, t), Cat(Value(sha, t.left), Value(sha, t.right)));
    } else {
      OneLeaf(Sized(t.hash, t.size), s, es);
      assert hs == [t.hash];
    }
  }

  lemma LeafIsNoElement(sha: HashFunc, t: Tree, hs: seq<Hash>, a: seq<Hash>, b: seq<Hash>,
                        s: seq<Sized>, es: seq<Hash>)
    requires t.Leaf? && Sides(hs, a, b) && Value(sha, t) == Root(HashPair(sha), hs) && Leaves(t) == s + Units(es)
    requires !AnyInverted(sha, es, Hashed(sha, hs))
    ensures es == [] && s != []
  {
    hide Hashed, Root;
    HashedSides(sha, hs, a, b);
    if es != [] {
      OneLeaf(Sized(t.hash, t.size), s, es);
      StepInverted(sha, es, Hashed(sha, hs), Cat(Root(HashPair(sha), a), Root(HashPair(sha), b)));
    }
  }

  lemma SidesNotInverted(sha: HashFunc, t: Tree, hs: seq<Hash>, a: seq<Hash>, b: seq<Hash>)
    requires t.Node? && Sides(hs, a, b) && !AnyInverted(sha, hs, Strings(sha, t))
    ensures !AnyInverted(sha, a, Strings(sha, t.left)) && !AnyInverted(sha, b, Strings(sha, t.right))
  {
    hide AnyInverted;
    StringsInWhole(sha, t, hs, a, b);
  }

  lemma ElementsNotInverted(
    sha: HashFunc, hs: seq<Hash>, a: seq<Hash>, b: seq<Hash>, es: seq<Hash>, es': seq<Hash>, es'': seq<Hash>)
    requires Sides(hs, a, b) && es == es' + es'' && !AnyInverted(sha, es, Hashed(sha, hs))
    ensures !AnyInverted(sha, es', Hashed(sha, a)) && !AnyInverted(sha, es'', Hashed(sha, b))
  {
    hide AnyInverted, Hashed, Root;
    HashedSides(sha, hs, a, b);
    PartNotInverted(sha, es', es, Hashed(sha, a), Hashed(sha, hs));
    PartNotInverted(sha, es'', es, Hashed(sha, b), Hashed(sha, hs));
  }
}
