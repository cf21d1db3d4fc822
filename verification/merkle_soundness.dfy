/**
 What roots and receipts commit to. The source combines two hashes by hashing their concatenation
 (smt/managed/hash.go), a `Hash` there may have any length, and leaves are not told apart from inner nodes.
 No hash function is free of collisions, so nothing is assumed of it beyond the length of its results: each
 theorem names the collision that would have to be found among the very strings that the trees and the
 receipt at hand hash.
 */
module MerkleSoundness {
  import opened Common
  import opened MerkleTree

  type HashFunc = Bytes -> Bytes

  function Cat(l: Hash, r: Hash): Bytes {
    l + r
  }

  /** Hash.Combine. */
  function HashPair(sha: HashFunc): Combiner {
    (l: Hash, r: Hash) => sha(Cat(l, r))
  }

  ghost predicate Gives32(sha: HashFunc) {
    forall m :: |sha(m)| == 32
  }

  predicate All32(hs: seq<Hash>) {
    forall i :: 0 <= i < |hs| ==> |hs[i]| == 32
  }

  // ---- The strings that are hashed ----

  /** Those hashed on the way from the leaves to the root. */
  ghost function Hashed(sha: HashFunc, hs: seq<Hash>): set<Bytes>
    decreases |hs|
  {
    if |hs| <= 1 then {}
    else
      var k := Split(|hs|);
      {Cat(Root(HashPair(sha), hs[..k]), Root(HashPair(sha), hs[k..]))} + Hashed(sha, hs[..k]) + Hashed(sha, hs[k..])
  }

  /** The string that one receipt entry hashes. */
  function Message(e: ReceiptEntry, x: Hash): Bytes {
    if e.right then Cat(x, e.hash) else Cat(e.hash, x)
  }

  /** Those hashed when a receipt is validated. */
  ghost function Applied(sha: HashFunc, entries: seq<ReceiptEntry>, x: Hash): set<Bytes> {
    if entries == [] then {}
    else {Message(entries[0], x)} + Applied(sha, entries[1..], Apply(HashPair(sha), entries[0], x))
  }

  /** Two different strings, one of each set, have the same hash. */
  ghost predicate Collide(sha: HashFunc, a: set<Bytes>, b: set<Bytes>) {
    exists m, n :: m in a && n in b && m != n && sha(m) == sha(n)
  }

  /** A given hash is that of one of the strings. */
  ghost predicate Inverted(sha: HashFunc, h: Hash, a: set<Bytes>) {
    exists m :: m in a && sha(m) == h
  }

  ghost predicate AnyInverted(sha: HashFunc, hs: seq<Hash>, a: set<Bytes>) {
    exists h :: h in hs && Inverted(sha, h, a)
  }

  lemma NoCollision(sha: HashFunc, a: set<Bytes>, b: set<Bytes>, m: Bytes, n: Bytes)
    requires !Collide(sha, a, b) && m in a && n in b && sha(m) == sha(n)
    ensures m == n
  {
  }

  lemma CollideMonotone(sha: HashFunc, a: set<Bytes>, b: set<Bytes>, a': set<Bytes>, b': set<Bytes>)
    requires a <= a' && b <= b' && Collide(sha, a, b)
    ensures Collide(sha, a', b')
  {
  }

  lemma NoCollisionInParts(sha: HashFunc, a: set<Bytes>, b: set<Bytes>, a': set<Bytes>, b': set<Bytes>)
    requires a <= a' && b <= b' && !Collide(sha, a', b')
    ensures !Collide(sha, a, b)
  {
    if Collide(sha, a, b) {
      CollideMonotone(sha, a, b, a', b');
    }
  }

  lemma InvertedMonotone(sha: HashFunc, h: Hash, a: set<Bytes>, b: set<Bytes>)
    requires a <= b && Inverted(sha, h, a)
    ensures Inverted(sha, h, b)
  {
  }

  lemma AnyInvertedMonotone(sha: HashFunc, hs: seq<Hash>, gs: seq<Hash>, a: set<Bytes>, b: set<Bytes>)
    requires a <= b && (forall h :: h in hs ==> h in gs) && AnyInverted(sha, hs, a)
    ensures AnyInverted(sha, gs, b)
  {
    hide Inverted;
    var h :| h in hs && Inverted(sha, h, a);
    InvertedMonotone(sha, h, a, b);
  }

  // ---- Lists of leaves ----

  predicate SameSizes(hs: seq<Hash>, gs: seq<Hash>) {
    |hs| == |gs| && forall i :: 0 <= i < |hs| ==> |hs[i]| == |gs[i]|
  }

  /** All hashes have 32 bytes, or the same lengths on both sides. */
  predicate Comparable(hs: seq<Hash>, gs: seq<Hash>) {
    (All32(hs) && All32(gs)) || SameSizes(hs, gs)
  }

  /** The two sides of a tree. */
  predicate Sides(hs: seq<Hash>, a: seq<Hash>, b: seq<Hash>) {
    |hs| > 1 && hs == a + b && |a| == Split(|hs|)
  }

  lemma RootSize(sha: HashFunc, hs: seq<Hash>)
    requires Gives32(sha) && hs != []
    ensures |Root(HashPair(sha), hs)| == if |hs| == 1 then |hs[0]| else 32
  {
    if |hs| > 1 {
      var k := Split(|hs|);
      HashedSides(sha, hs, hs[..k], hs[k..]);
    }
  }

  lemma {:induction false} HashedSides(sha: HashFunc, hs: seq<Hash>, a: seq<Hash>, b: seq<Hash>)
    requires Sides(hs, a, b)
    ensures a != [] && b != [] && |a| < |hs| && |b| < |hs|
    ensures var m := Cat(Root(HashPair(sha), a), Root(HashPair(sha), b));
            && m in Hashed(sha, hs) && Root(HashPair(sha), hs) == sha(m)
            && Hashed(sha, a) <= Hashed(sha, hs) && Hashed(sha, b) <= Hashed(sha, hs)
  {
    hide Cat;
    RootSplits(HashPair(sha), hs);
    assert hs[..|a|] == a && hs[|a|..] == b;
  }

  lemma MembersOfSides(hs: seq<Hash>, a: seq<Hash>, b: seq<Hash>)
    requires Sides(hs, a, b)
    ensures forall h :: h in hs <==> h in a || h in b
  {
  }

  /** Two strings that are equal and whose first parts have one length have equal parts. */
  lemma SplitEqual(a: Bytes, b: Bytes, c: Bytes, d: Bytes)
    requires Cat(a, b) == Cat(c, d) && |a| == |c|
    ensures a == c && b == d
  {
    assert (a + b)[..|a|] == a && (c + d)[..|c|] == c;
    assert (a + b)[|a|..] == b && (c + d)[|c|..] == d;
  }

  lemma {:induction false} ComparableSides(sha: HashFunc, hs: seq<Hash>, gs: seq<Hash>, a: seq<Hash>, b: seq<Hash>,
                                           c: seq<Hash>, d: seq<Hash>)
    requires Gives32(sha) && Sides(hs, a, b) && Sides(gs, c, d) && Comparable(hs, gs)
    ensures Comparable(a, c) && Comparable(b, d)
    ensures |Root(HashPair(sha), a)| == |Root(HashPair(sha), c)|
  {
    hide Root;
    assert a != [] && c != [] && a[0] == hs[0] && c[0] == gs[0];
    RootSize(sha, a);
    RootSize(sha, c);
    hide Gives32;
    if SameSizes(hs, gs) {
      assert forall i :: 0 <= i < |a| ==> a[i] == hs[i] && c[i] == gs[i];
      assert forall i :: 0 <= i < |b| ==> b[i] == hs[|a| + i] && d[i] == gs[|a| + i];
    } else {
      assert forall i :: 0 <= i < |a| ==> a[i] == hs[i];
      assert forall i :: 0 <= i < |c| ==> c[i] == gs[i];
      assert forall i :: 0 <= i < |b| ==> b[i] == hs[|a| + i];
      assert forall i :: 0 <= i < |d| ==> d[i] == gs[|c| + i];
    }
  }

  /** The sides of trees whose roots hash one string. */
  lemma {:induction false} RootsOfSides(sha: HashFunc, hs: seq<Hash>, gs: seq<Hash>, m: Bytes, n: Bytes,
                     l: Hash, r: Hash, l': Hash, r': Hash)
    requires !Collide(sha, Hashed(sha, hs), Hashed(sha, gs)) && m in Hashed(sha, hs) && n in Hashed(sha, gs)
    requires m == Cat(l, r) && n == Cat(l', r') && sha(m) == sha(n) && |l| == |l'|
    ensures l == l' && r == r'
  {
    hide Hashed, Collide, Cat;
    NoCollision(sha, Hashed(sha, hs), Hashed(sha, gs), m, n);
    SplitEqual(l, r, l', r');
  }

  lemma {:induction false} NoCollisionInSides(sha: HashFunc, hs: seq<Hash>, gs: seq<Hash>,
                           a: seq<Hash>, b: seq<Hash>, c: seq<Hash>, d: seq<Hash>)
    requires Sides(hs, a, b) && Sides(gs, c, d) && !Collide(sha, Hashed(sha, hs), Hashed(sha, gs))
    ensures !Collide(sha, Hashed(sha, a), Hashed(sha, c)) && !Collide(sha, Hashed(sha, b), Hashed(sha, d))
  {
    hide Hashed, Collide, Cat, Root;
    HashedSides(sha, hs, a, b);
    HashedSides(sha, gs, c, d);
    NoCollisionInParts(sha, Hashed(sha, a), Hashed(sha, c), Hashed(sha, hs), Hashed(sha, gs));
    NoCollisionInParts(sha, Hashed(sha, b), Hashed(sha, d), Hashed(sha, hs), Hashed(sha, gs));
  }

  /** The two sides of trees with equal roots. */
  lemma {:induction false} SidesAgree(sha: HashFunc, hs: seq<Hash>, gs: seq<Hash>,
                   a: seq<Hash>, b: seq<Hash>, c: seq<Hash>, d: seq<Hash>)
    requires Gives32(sha) && Sides(hs, a, b) && Sides(gs, c, d) && Comparable(hs, gs)
    requires !Collide(sha, Hashed(sha, hs), Hashed(sha, gs)) && Root(HashPair(sha), hs) == Root(HashPair(sha), gs)
    ensures a != [] && b != [] && c != [] && d != []
    ensures Root(HashPair(sha), a) == Root(HashPair(sha), c) && Root(HashPair(sha), b) == Root(HashPair(sha), d)
  {
    hide *;
    HashedSides(sha, hs, a, b);
    HashedSides(sha, gs, c, d);
    ComparableSides(sha, hs, gs, a, b, c, d);
    var l, r, l', r' := Root(HashPair(sha), a), Root(HashPair(sha), b), Root(HashPair(sha), c), Root(HashPair(sha), d);
    RootsOfSides(sha, hs, gs, Cat(l, r), Cat(l', r'), l, r, l', r');
  }

  /** The two trees are the same from the root down to where one of them has a leaf; the other one may have more
      of the tree there, with the leaf as its root. */
  ghost predicate SameTree(sha: HashFunc, hs: seq<Hash>, gs: seq<Hash>)
    requires hs != [] && gs != []
    decreases |hs|
  {
    if |hs| == 1 || |gs| == 1 then Root(HashPair(sha), hs) == Root(HashPair(sha), gs)
    else
      var k, l := Split(|hs|), Split(|gs|);
      SameTree(sha, hs[..k], gs[..l]) && SameTree(sha, hs[k..], gs[l..])
  }

  lemma {:induction false} RootsGiveSameTree(sha: HashFunc, hs: seq<Hash>, gs: seq<Hash>)
    requires Gives32(sha) && hs != [] && gs != [] && Comparable(hs, gs)
    requires !Collide(sha, Hashed(sha, hs), Hashed(sha, gs)) && Root(HashPair(sha), hs) == Root(HashPair(sha), gs)
    ensures SameTree(sha, hs, gs)
    decreases |hs|
  {
    hide Hashed, Collide, Comparable, Root;
    if |hs| > 1 && |gs| > 1 {
      var k, l := Split(|hs|), Split(|gs|);
      var a, b, c, d := hs[..k], hs[k..], gs[..l], gs[l..];
      assert hs == a + b && gs == c + d;
      SidesAgree(sha, hs, gs, a, b, c, d);
      NoCollisionInSides(sha, hs, gs, a, b, c, d);
      ComparableSides(sha, hs, gs, a, b, c, d);
      RootsGiveSameTree(sha, a, c);
      RootsGiveSameTree(sha, b, d);
    }
  }

  lemma {:induction false} SameTreeGivesRoots(sha: HashFunc, hs: seq<Hash>, gs: seq<Hash>)
    requires hs != [] && gs != [] && SameTree(sha, hs, gs)
    ensures Root(HashPair(sha), hs) == Root(HashPair(sha), gs)
    decreases |hs|
  {
    if |hs| > 1 && |gs| > 1 {
      var k, l := Split(|hs|), Split(|gs|);
      SameTreeGivesRoots(sha, hs[..k], gs[..l]);
      SameTreeGivesRoots(sha, hs[k..], gs[l..]);
      RootSplits(HashPair(sha), hs);
      RootSplits(HashPair(sha), gs);
    }
  }

  /** Trees with one number of leaves have one shape. */
  lemma {:induction false} SameTreeSameLeaves(sha: HashFunc, hs: seq<Hash>, gs: seq<Hash>)
    requires hs != [] && |hs| == |gs| && SameTree(sha, hs, gs)
    ensures hs == gs
    decreases |hs|
  {
    if |hs| == 1 {
      assert hs == [hs[0]] && gs == [gs[0]];
    } else {
      var k := Split(|hs|);
      SameTreeSameLeaves(sha, hs[..k], gs[..k]);
      SameTreeSameLeaves(sha, hs[k..], gs[k..]);
      assert hs == hs[..k] + hs[k..] && gs == gs[..k] + gs[k..];
    }
  }

  /** On lists of 32-byte hashes, equal roots mean trees that are the same down to their leaves, unless the two
      trees give away a collision; and then the lists are equal exactly if they are equally long. */
  lemma RootsExactly(sha: HashFunc, hs: seq<Hash>, gs: seq<Hash>)
    requires Gives32(sha) && hs != [] && gs != [] && All32(hs) && All32(gs)
    requires !Collide(sha, Hashed(sha, hs), Hashed(sha, gs))
    ensures Root(HashPair(sha), hs) == Root(HashPair(sha), gs) <==> SameTree(sha, hs, gs)
    ensures Root(HashPair(sha), hs) == Root(HashPair(sha), gs) ==> (hs == gs <==> |hs| == |gs|)
  {
    if Root(HashPair(sha), hs) == Root(HashPair(sha), gs) {
      RootsGiveSameTree(sha, hs, gs);
      if |hs| == |gs| {
        SameTreeSameLeaves(sha, hs, gs);
      }
    }
    if SameTree(sha, hs, gs) {
      SameTreeGivesRoots(sha, hs, gs);
    }
  }

  /** The root commits to the list of leaves: lists of any hashes with one root are equal exactly if they are
      equally long and the lengths of their hashes agree, which a caller who knows them can check. */
  lemma RootDeterminesLeaves(sha: HashFunc, hs: seq<Hash>, gs: seq<Hash>)
    requires Gives32(sha) && hs != [] && gs != [] && !Collide(sha, Hashed(sha, hs), Hashed(sha, gs))
    requires Root(HashPair(sha), hs) == Root(HashPair(sha), gs)
    ensures hs == gs <==> SameSizes(hs, gs)
  {
    if SameSizes(hs, gs) {
      RootsGiveSameTree(sha, hs, gs);
      SameTreeSameLeaves(sha, hs, gs);
    }
  }

  /** The smallest lists of 32-byte hashes with one root: an inner node of the first is a leaf of the second. */
  lemma InnerNodeAsLeaf(sha: HashFunc, a: Hash, b: Hash, c: Hash)
    requires Gives32(sha) && |a| == 32 && |b| == 32 && |c| == 32
    ensures var x := sha(a + b);
            && Root(HashPair(sha), [a, b, c]) == Root(HashPair(sha), [x, c]) == sha(x + c)
            && Hashed(sha, [x, c]) <= Hashed(sha, [a, b, c])
  {
    hide Cat;
    var hs: seq<Hash>, x := [a, b, c], sha(Cat(a, b));
    HashedPair(sha, [a, b], a, b);
    HashedPair(sha, [x, c], x, c);
    assert hs[..2] == [a, b] && hs[2..] == [c];
    HashedSides(sha, hs, [a, b], [c]);
    SinglePath(HashPair(sha), [c]);
    CatIsPlus(a, b);
    CatIsPlus(x, c);
  }

  lemma CatIsPlus(l: Hash, r: Hash)
    ensures Cat(l, r) == l + r
  {
  }

  // ---- Lists whose leaves are known to be no inner nodes ----

  /** A single leaf with the root of a larger tree is the hash of a string hashed there. */
  lemma {:induction false} LeafInverted(sha: HashFunc, one: seq<Hash>, big: seq<Hash>)
    requires |one| == 1 < |big| && Root(HashPair(sha), one) == Root(HashPair(sha), big)
    ensures AnyInverted(sha, one, Hashed(sha, big))
  {
    var k := Split(|big|);
    HashedSides(sha, big, big[..k], big[k..]);
    SinglePath(HashPair(sha), one);
    hide Hashed, Cat, Root;
    assert Inverted(sha, one[0], Hashed(sha, big));
  }

  lemma SameTreeEnds(sha: HashFunc, hs: seq<Hash>, gs: seq<Hash>)
    requires hs != [] && gs != [] && SameTree(sha, hs, gs)
    ensures |hs| == 1 || |gs| == 1 ==> Root(HashPair(sha), hs) == Root(HashPair(sha), gs)
    ensures |hs| > 1 && |gs| > 1 ==>
              var k, l := Split(|hs|), Split(|gs|);
              SameTree(sha, hs[..k], gs[..l]) && SameTree(sha, hs[k..], gs[l..])
  {
  }

  /** If the trees are the same and the lists are not, then a leaf of one list is an inner node of the other. */
  lemma {:induction false} SameTreeOtherLeaves(sha: HashFunc, hs: seq<Hash>, gs: seq<Hash>)
    requires hs != [] && gs != [] && SameTree(sha, hs, gs)
    ensures hs == gs || AnyInverted(sha, hs, Hashed(sha, gs)) || AnyInverted(sha, gs, Hashed(sha, hs))
    decreases |hs|
  {
    hide Hashed, AnyInverted, Root, SameTree, Split;
    SameTreeEnds(sha, hs, gs);
    if |hs| == 1 && |gs| == 1 {
      SinglePath(HashPair(sha), hs);
      SinglePath(HashPair(sha), gs);
      assert hs == [hs[0]] && gs == [gs[0]];
    } else if |hs| == 1 {
      LeafInverted(sha, hs, gs);
    } else if |gs| == 1 {
      LeafInverted(sha, gs, hs);
    } else {
      var k, l := Split(|hs|), Split(|gs|);
      var a, b, c, d := hs[..k], hs[k..], gs[..l], gs[l..];
      SameTreeOtherLeaves(sha, a, c);
      SameTreeOtherLeaves(sha, b, d);
      assert hs == a + b && gs == c + d;
      InvertedInWhole(sha, hs, gs, a, b, c, d);
      InvertedInWhole(sha, gs, hs, c, d, a, b);
    }
  }

  lemma {:induction false} InvertedInWhole(sha: HashFunc, hs: seq<Hash>, gs: seq<Hash>,
                        a: seq<Hash>, b: seq<Hash>, c: seq<Hash>, d: seq<Hash>)
    requires Sides(hs, a, b) && Sides(gs, c, d)
    ensures AnyInverted(sha, a, Hashed(sha, c)) || AnyInverted(sha, b, Hashed(sha, d)) ==>
              AnyInverted(sha, hs, Hashed(sha, gs))
  {
    HashedSides(sha, gs, c, d);
    MembersOfSides(hs, a, b);
    hide Hashed, AnyInverted, Root;
    if AnyInverted(sha, a, Hashed(sha, c)) {
      AnyInvertedMonotone(sha, a, hs, Hashed(sha, c), Hashed(sha, gs));
    }
    if AnyInverted(sha, b, Hashed(sha, d)) {
      AnyInvertedMonotone(sha, b, hs, Hashed(sha, d), Hashed(sha, gs));
    }
  }

  lemma OneInvertedInWhole(sha: HashFunc, h: Hash, gs: seq<Hash>, c: seq<Hash>, d: seq<Hash>)
    requires Sides(gs, c, d)
    ensures Inverted(sha, h, Hashed(sha, c)) || Inverted(sha, h, Hashed(sha, d)) ==> Inverted(sha, h, Hashed(sha, gs))
    ensures h in c || h in d ==> h in gs
  {
    hide Hashed, Inverted, Root, Cat;
    HashedSides(sha, gs, c, d);
    if Inverted(sha, h, Hashed(sha, c)) {
      InvertedMonotone(sha, h, Hashed(sha, c), Hashed(sha, gs));
    }
    if Inverted(sha, h, Hashed(sha, d)) {
      InvertedMonotone(sha, h, Hashed(sha, d), Hashed(sha, gs));
    }
  }

  /** The leaves are hashes of these strings, none of which has the length of two hashes. */
  predicate HashesOf(sha: HashFunc, hs: seq<Hash>, ms: seq<Bytes>) {
    |hs| == |ms| && forall i :: 0 <= i < |hs| ==> hs[i] == sha(ms[i]) && |ms[i]| != 64
  }

  ghost function AsSet(ms: seq<Bytes>): set<Bytes> {
    set m | m in ms
  }

  /** Then no leaf is an inner node of a tree of 32-byte hashes, unless one of the strings collides with one that
      is hashed there. */
  lemma NoInnerNodes(sha: HashFunc, hs: seq<Hash>, ms: seq<Bytes>, gs: seq<Hash>)
    requires Gives32(sha) && All32(gs) && HashesOf(sha, hs, ms) && !Collide(sha, AsSet(ms), Hashed(sha, gs))
    ensures !AnyInverted(sha, hs, Hashed(sha, gs))
  {
    Hashed64(sha, gs);
    hide Hashed;
    forall h | h in hs ensures !Inverted(sha, h, Hashed(sha, gs)) {
      var i :| 0 <= i < |hs| && hs[i] == h;
      assert ms[i] in AsSet(ms);
    }
  }

  lemma {:induction false} Hashed64(sha: HashFunc, hs: seq<Hash>)
    requires Gives32(sha) && All32(hs)
    ensures forall m :: m in Hashed(sha, hs) ==> |m| == 64
    decreases |hs|
  {
    if |hs| > 1 {
      var k := Split(|hs|);
      assert hs == hs[..k] + hs[k..];
      SidesAre32(sha, hs, hs[..k], hs[k..]);
      Hashed64(sha, hs[..k]);
      Hashed64(sha, hs[k..]);
      CatSize(Root(HashPair(sha), hs[..k]), Root(HashPair(sha), hs[k..]));
      hide Root, Cat;
    }
  }

  lemma CatSize(l: Hash, r: Hash)
    ensures |Cat(l, r)| == |l| + |r|
  {
  }

  /** So lists of hashes of such strings are determined by their root, whatever their lengths. */
  lemma {:induction false} PreimagesDetermineLeaves(sha: HashFunc, hs: seq<Hash>, ms: seq<Bytes>, gs: seq<Hash>,
                                                    ns: seq<Bytes>)
    requires Gives32(sha) && hs != [] && gs != [] && HashesOf(sha, hs, ms) && HashesOf(sha, gs, ns)
    requires !Collide(sha, Hashed(sha, hs), Hashed(sha, gs))
    requires !Collide(sha, AsSet(ms), Hashed(sha, gs)) && !Collide(sha, AsSet(ns), Hashed(sha, hs))
    requires Root(HashPair(sha), hs) == Root(HashPair(sha), gs)
    ensures hs == gs
  {
    assert All32(hs) && All32(gs);
    hide Hashed, Collide, Root, AnyInverted;
    RootsGiveSameTree(sha, hs, gs);
    SameTreeOtherLeaves(sha, hs, gs);
    NoInnerNodes(sha, hs, ms, gs);
    NoInnerNodes(sha, gs, ns, hs);
  }

  /** The smallest lists of other lengths with one root, whatever the hash function. */
  lemma OddSizesShareRoot(sha: HashFunc)
    ensures Root(HashPair(sha), [[1], [2, 3]]) == Root(HashPair(sha), [[1, 2], [3]])
    ensures Hashed(sha, [[1], [2, 3]]) == Hashed(sha, [[1, 2], [3]])
  {
    var hs: seq<Hash>, gs: seq<Hash> := [[1], [2, 3]], [[1, 2], [3]];
    HashedPair(sha, hs, [1], [2, 3]);
    HashedPair(sha, gs, [1, 2], [3]);
    assert Cat([1], [2, 3]) == Cat([1, 2], [3]);
  }

  lemma HashedPair(sha: HashFunc, hs: seq<Hash>, h: Hash, s: Hash)
    requires hs == [h, s]
    ensures Root(HashPair(sha), hs) == sha(Cat(h, s)) && Hashed(sha, hs) == {Cat(h, s)}
  {
    hide Cat;
    HashedSides(sha, hs, [h], [s]);
    assert hs[..1] == [h] && hs[1..] == [s];
    assert Hashed(sha, [h]) == {} && Hashed(sha, [s]) == {};
  }

  // ---- Receipts ----

  lemma {:induction false} AppliedConcat(sha: HashFunc, a: seq<ReceiptEntry>, b: seq<ReceiptEntry>, x: Hash)
    ensures Applied(sha, a + b, x) == Applied(sha, a, x) + Applied(sha, b, ApplyAll(HashPair(sha), a, x))
  {
    if a == [] {
      assert a + b == b;
    } else {
      assert (a + b)[1..] == a[1..] + b;
      AppliedConcat(sha, a[1..], b, Apply(HashPair(sha), a[0], x));
    }
  }

  /** The last step of a receipt. */
  lemma LastStep(sha: HashFunc, entries: seq<ReceiptEntry>, x: Hash)
    requires entries != []
    ensures var y := ApplyAll(HashPair(sha), DropLast(entries), x);
            var n := Message(Last(entries), y);
            && ApplyAll(HashPair(sha), entries, x) == sha(n) && n in Applied(sha, entries, x)
            && Applied(sha, DropLast(entries), x) <= Applied(sha, entries, x)
  {
    hide Cat;
    var a, b := DropLast(entries), [Last(entries)];
    var y := ApplyAll(HashPair(sha), a, x);
    assert entries == a + b && b[1..] == [];
    ApplyAllConcat(HashPair(sha), a, b, x);
    AppliedConcat(sha, a, b, x);
    assert ApplyAll(HashPair(sha), b, y) == Apply(HashPair(sha), b[0], y);
    assert Applied(sha, b, y) == {Message(b[0], y)};
  }

  lemma {:induction false} AppliedSize(sha: HashFunc, entries: seq<ReceiptEntry>, x: Hash)
    requires Gives32(sha)
    ensures |ApplyAll(HashPair(sha), entries, x)| == if entries == [] then |x| else 32
  {
    if entries != [] {
      LastStep(sha, entries, x);
    }
  }

  /** Two steps that hash the same string, with results of one length. */
  lemma SameMessage(e: ReceiptEntry, x: Hash, f: ReceiptEntry, y: Hash)
    requires Message(e, x) == Message(f, y) && |x| == |y|
    ensures e.right == f.right ==> e.hash == f.hash && x == y
    ensures |e.hash| == |x| && e.right != f.right ==> e.hash == y && f.hash == x
  {
    assert |Message(e, x)| == |e.hash| + |x| && |Message(f, y)| == |f.hash| + |y|;
    if e.right && f.right {
      SplitEqual(x, e.hash, y, f.hash);
    } else if e.right {
      if |e.hash| == |x| {
        SplitEqual(x, e.hash, f.hash, y);
      }
    } else if f.right {
      if |e.hash| == |x| {
        SplitEqual(e.hash, x, y, f.hash);
      }
    } else {
      SplitEqual(e.hash, x, f.hash, y);
    }
  }

  /** The receipt is that of one of the leaves. */
  ghost predicate IsLeafReceipt(sha: HashFunc, hs: seq<Hash>, entries: seq<ReceiptEntry>, x: Hash) {
    exists i :: 0 <= i < |hs| && x == hs[i] && entries == AuditPath(HashPair(sha), hs, i)
  }

  /** The receipt follows the tree: its last entries are siblings on the way from a node to the root. It may start
      at an inner node. Below a leaf, where there is no more tree, it may do as it likes, and that is how receipts
      of one tree are continued in another one that has its root as a leaf. */
  ghost predicate Leads(sha: HashFunc, hs: seq<Hash>, entries: seq<ReceiptEntry>, x: Hash)
    requires hs != []
    decreases |hs|
  {
    if |hs| == 1 then ApplyAll(HashPair(sha), entries, x) == hs[0]
    else if entries == [] then x == Root(HashPair(sha), hs)
    else
      var k, e := Split(|hs|), Last(entries);
      if e.right then e.hash == Root(HashPair(sha), hs[k..]) && Leads(sha, hs[..k], DropLast(entries), x)
      else e.hash == Root(HashPair(sha), hs[..k]) && Leads(sha, hs[k..], DropLast(entries), x)
  }

  lemma {:induction false} LeadsStep(sha: HashFunc, hs: seq<Hash>, a: seq<Hash>, b: seq<Hash>,
                                     entries: seq<ReceiptEntry>, x: Hash)
    requires Sides(hs, a, b) && entries != []
    ensures a != [] && b != [] && |a| < |hs| && |b| < |hs|
    ensures var e := Last(entries);
            Leads(sha, hs, entries, x) <==>
            if e.right then e.hash == Root(HashPair(sha), b) && Leads(sha, a, DropLast(entries), x)
            else e.hash == Root(HashPair(sha), a) && Leads(sha, b, DropLast(entries), x)
  {
    hide Root, ApplyAll;
    assert hs[..|a|] == a && hs[|a|..] == b;
  }

  lemma LeadsEnds(sha: HashFunc, hs: seq<Hash>, entries: seq<ReceiptEntry>, x: Hash)
    requires hs != []
    ensures |hs| == 1 ==> (Leads(sha, hs, entries, x) <==> ApplyAll(HashPair(sha), entries, x) == hs[0])
    ensures |hs| > 1 && entries == [] ==> (Leads(sha, hs, entries, x) <==> x == Root(HashPair(sha), hs))
  {
  }

  /** Where the last step of a receipt meets the root of the tree. */
  lemma {:induction false} LastStepMeetsRoot(sha: HashFunc, hs: seq<Hash>, a: seq<Hash>, b: seq<Hash>,
                          entries: seq<ReceiptEntry>, x: Hash)
    requires Gives32(sha) && All32(hs) && |x| == 32 && Sides(hs, a, b) && entries != []
    requires !Collide(sha, Hashed(sha, hs), Applied(sha, entries, x))
    requires ApplyAll(HashPair(sha), entries, x) == Root(HashPair(sha), hs)
    ensures a != [] && b != []
    ensures var y := ApplyAll(HashPair(sha), DropLast(entries), x);
            var l, r := Root(HashPair(sha), a), Root(HashPair(sha), b);
            if Last(entries).right then y == l && Last(entries).hash == r else Last(entries).hash == l && y == r
  {
    var comb, init, e := HashPair(sha), DropLast(entries), Last(entries);
    LastStep(sha, entries, x);
    HashedSides(sha, hs, a, b);
    AppliedSize(sha, init, x);
    SidesAre32(sha, hs, a, b);
    hide *;
    var l, r, y := Root(comb, a), Root(comb, b), ApplyAll(comb, init, x);
    NoCollision(sha, Hashed(sha, hs), Applied(sha, entries, x), Cat(l, r), Message(e, y));
    CatIsMessage(l, r);
    SameMessage(ReceiptEntry(r, true), l, e, y);
  }

  lemma CatIsMessage(l: Hash, r: Hash)
    ensures Cat(l, r) == Message(ReceiptEntry(r, true), l)
  {
  }

  lemma SidesAre32(sha: HashFunc, hs: seq<Hash>, a: seq<Hash>, b: seq<Hash>)
    requires Gives32(sha) && All32(hs) && Sides(hs, a, b)
    ensures a != [] && b != [] && All32(a) && All32(b)
    ensures |Root(HashPair(sha), a)| == 32 && |Root(HashPair(sha), b)| == 32
  {
    assert forall i :: 0 <= i < |a| ==> a[i] == hs[i];
    assert forall i :: 0 <= i < |b| ==> b[i] == hs[|a| + i];
    RootSize(sha, a);
    RootSize(sha, b);
  }

  lemma NoSteps(comb: Combiner, x: Hash)
    ensures ApplyAll(comb, [], x) == x
  {
  }

  lemma {:induction false} ReachingLeads(sha: HashFunc, hs: seq<Hash>, entries: seq<ReceiptEntry>, x: Hash)
    requires Gives32(sha) && All32(hs) && hs != [] && |x| == 32
    requires !Collide(sha, Hashed(sha, hs), Applied(sha, entries, x))
    requires ApplyAll(HashPair(sha), entries, x) == Root(HashPair(sha), hs)
    ensures Leads(sha, hs, entries, x)
    decreases |hs|
  {
    hide Hashed, Applied, Root, ApplyAll, Collide, Leads;
    LeadsEnds(sha, hs, entries, x);
    if |hs| == 1 {
      SinglePath(HashPair(sha), hs);
    } else if entries == [] {
      NoSteps(HashPair(sha), x);
    } else {
      var k := Split(|hs|);
      var a, b := hs[..k], hs[k..];
      assert hs == a + b;
      LeadsStep(sha, hs, a, b, entries, x);
      HashedSides(sha, hs, a, b);
      LastStepMeetsRoot(sha, hs, a, b, entries, x);
      SidesAre32(sha, hs, a, b);
      LastStep(sha, entries, x);
      var side := if Last(entries).right then a else b;
      NoCollisionInParts(sha, Hashed(sha, side), Applied(sha, DropLast(entries), x),
                         Hashed(sha, hs), Applied(sha, entries, x));
      ReachingLeads(sha, side, DropLast(entries), x);
    }
  }

  lemma {:induction false} LeadingReaches(sha: HashFunc, hs: seq<Hash>, entries: seq<ReceiptEntry>, x: Hash)
    requires hs != [] && Leads(sha, hs, entries, x)
    ensures ApplyAll(HashPair(sha), entries, x) == Root(HashPair(sha), hs)
    decreases |hs|
  {
    hide Hashed, Applied, Root, ApplyAll, Leads, Cat;
    LeadsEnds(sha, hs, entries, x);
    if |hs| == 1 {
      SinglePath(HashPair(sha), hs);
    } else if entries == [] {
      NoSteps(HashPair(sha), x);
    } else {
      var k := Split(|hs|);
      var a, b := hs[..k], hs[k..];
      assert hs == a + b;
      LeadsStep(sha, hs, a, b, entries, x);
      LeadingReaches(sha, if Last(entries).right then a else b, DropLast(entries), x);
      LastStep(sha, entries, x);
      HashedSides(sha, hs, a, b);
    }
  }

  // ---- Which receipts are those of leaves ----

  /** The turns of the receipt, read from the root of a tree with `n` leaves, end at a leaf and not before or
      after. */
  predicate AtLeaf(n: nat, entries: seq<ReceiptEntry>)
    decreases n
  {
    if n <= 1 then entries == []
    else entries != [] && AtLeaf(if Last(entries).right then Split(n) else n - Split(n), DropLast(entries))
  }

  /** The position of that leaf. */
  function Position(n: nat, entries: seq<ReceiptEntry>): nat
    decreases n
  {
    if n <= 1 || entries == [] then 0
    else if Last(entries).right then Position(Split(n), DropLast(entries))
    else Split(n) + Position(n - Split(n), DropLast(entries))
  }

  lemma {:induction false} PositionInRange(n: nat, entries: seq<ReceiptEntry>)
    requires n > 0
    ensures Position(n, entries) < n
    decreases n
  {
    if n > 1 && entries != [] {
      PositionInRange(if Last(entries).right then Split(n) else n - Split(n), DropLast(entries));
    }
  }

  lemma TurnStep(n: nat, k: nat, entries: seq<ReceiptEntry>)
    requires n > 1 && k == Split(n) && AtLeaf(n, entries)
    ensures entries != [] && AtLeaf(if Last(entries).right then k else n - k, DropLast(entries))
    ensures Position(n, entries) ==
            if Last(entries).right then Position(k, DropLast(entries)) else k + Position(n - k, DropLast(entries))
  {
  }

  /** The leaf at `j` of a side, and its path in the whole tree. */
  lemma {:induction false} LeafOfSide(comb: Combiner, hs: seq<Hash>, a: seq<Hash>, b: seq<Hash>, j: nat)
    requires Sides(hs, a, b)
    ensures b != [] && (j < |a| ==>
              && j < |hs| && hs[j] == a[j]
              && AuditPath(comb, hs, j) == AuditPath(comb, a, j) + [ReceiptEntry(Root(comb, b), true)])
    ensures a != [] && (j < |b| ==>
              && |a| + j < |hs| && hs[|a| + j] == b[j]
              && AuditPath(comb, hs, |a| + j) == AuditPath(comb, b, j) + [ReceiptEntry(Root(comb, a), false)])
  {
    hide AuditPath, Root;
    assert hs[..|a|] == a && hs[|a|..] == b;
    if j < |a| {
      AuditPathTop(comb, hs, |a|, j);
    }
    if j < |b| {
      AuditPathTop(comb, hs, |a|, |a| + j);
    }
  }

  lemma {:induction false} LeadsAtLeaf(sha: HashFunc, hs: seq<Hash>, entries: seq<ReceiptEntry>, x: Hash)
    requires hs != [] && Leads(sha, hs, entries, x) && AtLeaf(|hs|, entries)
    ensures var i := Position(|hs|, entries);
            i < |hs| && x == hs[i] && entries == AuditPath(HashPair(sha), hs, i)
    decreases |hs|
  {
    hide Root, Leads, ApplyAll, AuditPath, Split;
    LeadsEnds(sha, hs, entries, x);
    if |hs| == 1 {
      NoSteps(HashPair(sha), x);
      SinglePath(HashPair(sha), hs);
    } else {
      var k := Split(|hs|);
      var a, b := hs[..k], hs[k..];
      assert hs == a + b;
      TurnStep(|hs|, k, entries);
      LeadsStep(sha, hs, a, b, entries, x);
      WholeIsInitAndLast(entries);
      hide AtLeaf, Position;
      var side := if Last(entries).right then a else b;
      LeadsAtLeaf(sha, side, DropLast(entries), x);
      LeafOfSide(HashPair(sha), hs, a, b, Position(|side|, DropLast(entries)));
    }
  }

  lemma {:induction false} AuditPathAtLeaf(comb: Combiner, hs: seq<Hash>, i: nat)
    requires i < |hs|
    ensures AtLeaf(|hs|, AuditPath(comb, hs, i)) && Position(|hs|, AuditPath(comb, hs, i)) == i
    decreases |hs|
  {
    hide Root;
    if |hs| > 1 {
      var k := Split(|hs|);
      var side, j := if i < k then hs[..k] else hs[k..], if i < k then i else i - k;
      AuditPathAtLeaf(comb, side, j);
      AuditPathTop(comb, hs, k, i);
      var path := AuditPath(comb, hs, i);
      hide AuditPath;
      assert DropLast(path) == AuditPath(comb, side, j);
    }
  }

  /** What Validate means on a chain of 32-byte hashes. A receipt with a start of 32 bytes reaches the root exactly
      if it follows the tree; and it is that of a leaf exactly if, besides, its turns end at a leaf of a tree of
      that size. Validate checks neither, but both can be checked without the tree. */
  lemma OnlyLeavesAreProved(sha: HashFunc, hs: seq<Hash>, entries: seq<ReceiptEntry>, x: Hash)
    requires Gives32(sha) && All32(hs) && hs != [] && !Collide(sha, Hashed(sha, hs), Applied(sha, entries, x))
    ensures |x| == 32 ==>
              (ApplyAll(HashPair(sha), entries, x) == Root(HashPair(sha), hs) <==> Leads(sha, hs, entries, x))
    ensures ApplyAll(HashPair(sha), entries, x) == Root(HashPair(sha), hs) ==>
              (IsLeafReceipt(sha, hs, entries, x) <==> |x| == 32 && AtLeaf(|hs|, entries))
    ensures IsLeafReceipt(sha, hs, entries, x) ==>
              var i := Position(|hs|, entries);
              i < |hs| && x == hs[i] && entries == AuditPath(HashPair(sha), hs, i)
  {
    hide Hashed, Applied, Collide, Root, ApplyAll, AuditPath, AtLeaf, Position, Leads;
    if |x| == 32 && ApplyAll(HashPair(sha), entries, x) == Root(HashPair(sha), hs) {
      ReachingLeads(sha, hs, entries, x);
      if AtLeaf(|hs|, entries) {
        LeadsAtLeaf(sha, hs, entries, x);
      }
    }
    if Leads(sha, hs, entries, x) {
      LeadingReaches(sha, hs, entries, x);
    }
    if IsLeafReceipt(sha, hs, entries, x) {
      var i :| 0 <= i < |hs| && x == hs[i] && entries == AuditPath(HashPair(sha), hs, i);
      AuditPathAtLeaf(HashPair(sha), hs, i);
    }
  }

  lemma PreimageIsNoNode(sha: HashFunc, hs: seq<Hash>, m: Bytes)
    requires Gives32(sha) && All32(hs) && |m| != 64 && !Collide(sha, {m}, Hashed(sha, hs))
    ensures !Inverted(sha, sha(m), Hashed(sha, hs))
  {
    hide Hashed, Inverted, Collide;
    assert AsSet([m]) == {m};
    NoInnerNodes(sha, [sha(m)], [m], hs);
    assert sha(m) in [sha(m)];
  }

  /** Without the size of the tree: a start that is known to be the hash of a string of another length than two
      hashes is no inner node, unless that string collides with one hashed in the tree. The receipt is then that
      of a leaf, or it begins below one. */
  lemma PreimageProvesLeaf(sha: HashFunc, hs: seq<Hash>, entries: seq<ReceiptEntry>, m: Bytes)
    requires Gives32(sha) && All32(hs) && hs != [] && |m| != 64 && !Collide(sha, {m}, Hashed(sha, hs))
    requires !Collide(sha, Hashed(sha, hs), Applied(sha, entries, sha(m)))
    requires ApplyAll(HashPair(sha), entries, sha(m)) == Root(HashPair(sha), hs)
    ensures IsLeafReceipt(sha, hs, entries, sha(m)) || AnyInverted(sha, hs, Applied(sha, entries, sha(m)))
  {
    var x := sha(m);
    PreimageIsNoNode(sha, hs, m);
    ReachingLeads(sha, hs, entries, x);
    LeadsSomewhere(sha, hs, entries, x);
    if AtLeaf(|hs|, entries) {
      LeadsAtLeaf(sha, hs, entries, x);
    }
  }

  /** A receipt that follows the tree starts at a leaf, at an inner node or below a leaf. */
  lemma {:induction false} LeadsSomewhere(sha: HashFunc, hs: seq<Hash>, entries: seq<ReceiptEntry>, x: Hash)
    requires hs != [] && Leads(sha, hs, entries, x)
    ensures AtLeaf(|hs|, entries) || Inverted(sha, x, Hashed(sha, hs)) || AnyInverted(sha, hs, Applied(sha, entries, x))
    decreases |hs|
  {
    hide Hashed, Applied, AnyInverted, Inverted, Root, ApplyAll, Leads, Cat, Message;
    LeadsEnds(sha, hs, entries, x);
    if |hs| == 1 {
      if entries != [] {
        LastStep(sha, entries, x);
        var y := ApplyAll(HashPair(sha), DropLast(entries), x);
        StepInverted(sha, hs, Applied(sha, entries, x), Message(Last(entries), y));
      }
    } else {
      var k := Split(|hs|);
      var a, b := hs[..k], hs[k..];
      assert hs == a + b;
      HashedSides(sha, hs, a, b);
      if entries == [] {
        NodeInverted(sha, x, Hashed(sha, hs), Cat(Root(HashPair(sha), a), Root(HashPair(sha), b)));
      } else {
        var side, init := if Last(entries).right then a else b, DropLast(entries);
        LeadsStep(sha, hs, a, b, entries, x);
        LeadsSomewhere(sha, side, init, x);
        LastStep(sha, entries, x);
        MembersOfSides(hs, a, b);
        if Inverted(sha, x, Hashed(sha, side)) {
          InvertedMonotone(sha, x, Hashed(sha, side), Hashed(sha, hs));
        }
        if AnyInverted(sha, side, Applied(sha, init, x)) {
          AnyInvertedMonotone(sha, side, hs, Applied(sha, init, x), Applied(sha, entries, x));
        }
      }
    }
  }

  lemma NodeInverted(sha: HashFunc, x: Hash, a: set<Bytes>, m: Bytes)
    requires m in a && sha(m) == x
    ensures Inverted(sha, x, a)
  {
  }

  lemma StepInverted(sha: HashFunc, hs: seq<Hash>, a: set<Bytes>, m: Bytes)
    requires |hs| == 1 && m in a && sha(m) == hs[0]
    ensures AnyInverted(sha, hs, a)
  {
    assert hs[0] in hs && Inverted(sha, hs[0], a);
  }

  /** The smallest receipt with a start of another length: it starts at both leaves at once. */
  lemma LongStartIsAccepted(sha: HashFunc, h: Hash, s: Hash)
    requires |h| == 32 && |s| == 32
    ensures var hs, entries, x := [h, s], [ReceiptEntry([], true)], h + s;
            && ApplyAll(HashPair(sha), entries, x) == Root(HashPair(sha), hs)
            && !IsLeafReceipt(sha, hs, entries, x) && AtLeaf(|hs|, entries)
            && Applied(sha, entries, x) <= Hashed(sha, hs)
  {
    var hs, entries, x := [h, s], [ReceiptEntry([], true)], h + s;
    HashedPair(sha, hs, h, s);
    LastStep(sha, entries, x);
    assert DropLast(entries) == [];
    assert Cat(x, []) == x == Cat(h, s);
    assert Applied(sha, entries, x) == {x} by {
      assert entries[1..] == [];
    }
    assert forall i :: 0 <= i < |hs| ==> |hs[i]| == 32 < |x|;
  }

  /** The smallest receipt with a start of 32 bytes that is no leaf: it starts at an inner node. */
  lemma InnerNodeIsAccepted(sha: HashFunc, a: Hash, b: Hash, c: Hash)
    requires Gives32(sha) && |a| == 32 && |b| == 32 && |c| == 32 && sha(a + b) !in [a, b, c]
    ensures var hs, entries, x := [a, b, c], [ReceiptEntry(c, true)], sha(a + b);
            && |x| == 32 && ApplyAll(HashPair(sha), entries, x) == Root(HashPair(sha), hs)
            && !IsLeafReceipt(sha, hs, entries, x) && !AtLeaf(|hs|, entries)
            && Applied(sha, entries, x) <= Hashed(sha, hs)
  {
    var hs, entries, x := [a, b, c], [ReceiptEntry(c, true)], sha(a + b);
    InnerNodeAsLeaf(sha, a, b, c);
    HashedPair(sha, [x, c], x, c);
    LastStep(sha, entries, x);
    NoSteps(HashPair(sha), x);
    assert DropLast(entries) == [] && entries[1..] == [];
    assert Applied(sha, entries, x) == {Cat(x, c)};
    hide Cat, Root, ApplyAll, Hashed, AuditPath;
    CatIsPlus(x, c);
  }

  // ---- Two receipts for one anchor ----

  /** Two receipts that turn the same way at every step. */
  predicate SameTurns(a: seq<ReceiptEntry>, b: seq<ReceiptEntry>) {
    |a| == |b| && forall i :: 0 <= i < |a| ==> a[i].right == b[i].right
  }

  /** The turns fix the position of the start. Two receipts for one position and one anchor are equal exactly
      if their starts have one length, unless they give away a collision. */
  lemma ReceiptIsUnique(sha: HashFunc, a: seq<ReceiptEntry>, x: Hash, b: seq<ReceiptEntry>, y: Hash)
    requires Gives32(sha) && SameTurns(a, b) && !Collide(sha, Applied(sha, a, x), Applied(sha, b, y))
    requires ApplyAll(HashPair(sha), a, x) == ApplyAll(HashPair(sha), b, y)
    ensures a == b && x == y <==> |x| == |y|
  {
    if |x| == |y| {
      SameReceipt(sha, a, x, b, y);
    }
  }

  lemma WholeIsInitAndLast(a: seq<ReceiptEntry>)
    requires a != []
    ensures a == DropLast(a) + [Last(a)]
  {
  }

  lemma TurnsOfInit(a: seq<ReceiptEntry>, b: seq<ReceiptEntry>)
    requires SameTurns(a, b) && a != []
    ensures b != [] && SameTurns(DropLast(a), DropLast(b)) && Last(a).right == Last(b).right
  {
  }

  lemma {:induction false} SameReceipt(sha: HashFunc, a: seq<ReceiptEntry>, x: Hash, b: seq<ReceiptEntry>, y: Hash)
    requires Gives32(sha) && SameTurns(a, b) && !Collide(sha, Applied(sha, a, x), Applied(sha, b, y))
    requires ApplyAll(HashPair(sha), a, x) == ApplyAll(HashPair(sha), b, y) && |x| == |y|
    ensures a == b && x == y
    decreases |a|
  {
    if a != [] {
      var a', b' := DropLast(a), DropLast(b);
      TurnsOfInit(a, b);
      LastStep(sha, a, x);
      LastStep(sha, b, y);
      AppliedSize(sha, a', x);
      AppliedSize(sha, b', y);
      hide *;
      var u, v := ApplyAll(HashPair(sha), a', x), ApplyAll(HashPair(sha), b', y);
      NoCollision(sha, Applied(sha, a, x), Applied(sha, b, y), Message(Last(a), u), Message(Last(b), v));
      SameMessage(Last(a), u, Last(b), v);
      if Collide(sha, Applied(sha, a', x), Applied(sha, b', y)) {
        CollideMonotone(sha, Applied(sha, a', x), Applied(sha, b', y), Applied(sha, a, x), Applied(sha, b, y));
      }
      SameReceipt(sha, a', x, b', y);
      WholeIsInitAndLast(a);
      WholeIsInitAndLast(b);
    }
  }
}
