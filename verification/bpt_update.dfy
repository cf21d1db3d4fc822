/**
 Batched hashing of the Binary Patricia Tree (smt/pmt/bpt.go, smt/pmt/bpt_receipt.go). Dirty nodes wait in
 a map by node key, and Update recomputes them from the highest down to the root. Nodes of height 255 have
 one key in common: marking one of them displaces another from the map, and the displaced node is not
 recomputed.
 */
module PatriciaUpdates {
  import opened Common
  import opened MerkleTree
  import opened PatriciaTrees
  import opened PatriciaNodeKeys
  import opened PatriciaInserts

  // ---- The dirty map ----

  /** A node is named by its path. */
  type DirtyMap = map<TreeKey, Path>

  ghost predicate Keyed(d: DirtyMap) {
    forall k :: k in d ==> |d[k]| <= 255 && NodeKey(d[k]) == k
  }

  /** The node of height 255 that is dirty, if there is one. */
  function Lowest(d: DirtyMap): Option<Path> {
    if Blank() in d then Some(d[Blank()]) else None
  }

  /** Dirty, for each of the marks in turn. */
  function DirtyAll(d: DirtyMap, marks: seq<Path>): DirtyMap {
    if marks == [] then d else DirtyAll(d, DropLast(marks))[NodeKey(Last(marks)) := Last(marks)]
  }

  lemma LowestIsOnly(d: DirtyMap, p: Path)
    requires Keyed(d) && |p| == 255
    ensures p in d.Values <==> Lowest(d) == Some(p)
  {
    hide NodeKey;
    NodeKeysAgree(p, p);
    BlankKey(p);
    if p in d.Values {
      var k :| k in d && d[k] == p;
    }
    if Lowest(d) == Some(p) {
      assert d[Blank()] in d.Values;
    }
  }

  lemma BlankKey(p: Path)
    requires |p| <= 255
    ensures NodeKey(p) == Blank() <==> |p| == 255
  {
    if |p| <= 254 {
      NotBlank(p);
    }
  }

  lemma DirtyOne(d: DirtyMap, p: Path)
    requires Keyed(d) && |p| <= 255
    ensures var d' := d[NodeKey(p) := p];
            && Keyed(d') && Lowest(d') == (if |p| == 255 then Some(p) else Lowest(d))
            && forall q :: q in d'.Values <==> q == p || (q in d.Values && !(|p| == 255 && |q| == 255))
  {
    hide NodeKey;
    var d' := d[NodeKey(p) := p];
    BlankKey(p);
    forall q ensures q in d'.Values <==> q == p || (q in d.Values && !(|p| == 255 && |q| == 255)) {
      if q in d'.Values {
        var k :| k in d' && d'[k] == q;
        if k != NodeKey(p) {
          assert d[k] in d.Values && NodeKey(q) == k;
          NodeKeysAgree(p, q);
        }
      }
      if q in d.Values && !(|p| == 255 && |q| == 255) && q != p {
        var k :| k in d && d[k] == q;
        NodeKeysAgree(p, q);
        assert d'[k] == q;
      }
      assert d'[NodeKey(p)] == p;
    }
  }

  /** After marking nodes on one path, everything that was dirty still is, but for another node of height 255. */
  lemma {:induction false} DirtyMarks(d: DirtyMap, marks: seq<Path>, low: Path)
    requires Keyed(d) && |low| == 255 && forall p :: p in marks ==> |p| <= 255 && (|p| == 255 ==> p == low)
    ensures var d' := DirtyAll(d, marks);
            && Keyed(d') && Lowest(d') == (if low in marks then Some(low) else Lowest(d))
            && forall q :: q in d'.Values <==> q in marks || (q in d.Values && !(low in marks && |q| == 255))
  {
    hide NodeKey, Keyed;
    if marks != [] {
      var rest, p := DropLast(marks), Last(marks);
      assert marks == rest + [p];
      DirtyMarks(d, rest, low);
      DirtyOne(DirtyAll(d, rest), p);
    }
  }

  /** Clean of a dirty node, and Dirty of its parent. */
  function CleanUp(d: DirtyMap, n: Path): DirtyMap {
    var d' := d - {NodeKey(n)};
    if n == [] then d' else d'[NodeKey(DropLast(n)) := DropLast(n)]
  }

  function ParentOf(n: Path): set<Path> {
    if n == [] then {} else {DropLast(n)}
  }

  lemma CleanOne(d: DirtyMap, n: Path)
    requires Keyed(d) && n in d.Values
    ensures Keyed(d - {NodeKey(n)}) && (d - {NodeKey(n)}).Values == d.Values - {n}
  {
    hide NodeKey;
    var d' := d - {NodeKey(n)};
    forall q ensures q in d'.Values <==> q in d.Values && q != n {
      if q in d'.Values {
        var k :| k in d' && d'[k] == q;
        assert d[k] in d.Values;
      }
      if q in d.Values && q != n {
        var k :| k in d && d[k] == q;
        var k' :| k' in d && d[k'] == n;
        assert d'[k] == q;
      }
    }
  }

  lemma CleanUpValues(d: DirtyMap, n: Path)
    requires Keyed(d) && n in d.Values
    ensures Keyed(CleanUp(d, n)) && CleanUp(d, n).Values == d.Values - {n} + ParentOf(n)
  {
    hide NodeKey, Keyed;
    CleanOne(d, n);
    if n != [] {
      KeyedSize(d, n);
      DirtyOne(d - {NodeKey(n)}, DropLast(n));
    }
  }

  lemma KeyedSize(d: DirtyMap, n: Path)
    requires Keyed(d) && n in d.Values
    ensures |n| <= 255
  {
  }

  // ---- Rehashing one node ----

  /** GetNodeHash for the node at `n`. A node without children would panic; there is none. */
  function Rehash(comb: Combiner, e: Cached, path: Path, n: Path): (r: Cached)
    requires Live(e)
    ensures Strip(r) == Strip(e) && Live(r) && r.CNode? == e.CNode?
    ensures path != n ==> Stored(r) == Stored(e)
  {
    match e
    case CNode(h, l, r) =>
      var l', r' := Rehash(comb, l, path + [true], n), Rehash(comb, r, path + [false], n);
      CNode(if path == n then Join(comb, Stored(l'), Stored(r')).value else h, l', r')
    case _ => e
  }

  lemma {:induction false} RehashSub(comb: Combiner, e: Cached, path: Path, n: Path, q: Path)
    requires Live(e)
    ensures path + q != n ==> Stored(Sub(Rehash(comb, e, path, n), q)) == Stored(Sub(e, q))
    decreases q
  {
    if q == [] {
      assert path + q == path;
    } else if e.CNode? {
      RehashSub(comb, if q[0] then e.left else e.right, path + [q[0]], n, q[1..]);
      assert path + [q[0]] + q[1..] == path + q;
    }
  }

  /** The stored hash of a node, or of the value in its place. */
  function StoredAt(e: Cached, q: Path): Hash {
    if Stored(Sub(e, q)).Some? then Stored(Sub(e, q)).value else NewHash()
  }

  /** The notes after the node at `n` was rehashed: it used the stored hashes of its children, and its parent will
      use its own. */
  function Refresh(seen: Seen, root: Cached, n: Path): Seen {
    map p | p in seen && p != n :: if p != [] && DropLast(p) == n then StoredAt(root, p) else seen[p]
  }

  /** The notes agree with that below an entry. */
  ghost predicate Refreshed(e: Cached, path: Path, n: Path, seen: Seen, seen': Seen) {
    && n !in seen'
    && (forall p :: p != n && (p == [] || DropLast(p) != n) ==>
                      (p in seen <==> p in seen') && (p in seen && p in seen' ==> seen[p] == seen'[p]))
    && (path <= n ==> forall bit ::
                        n + [bit] in seen' ==> seen'[n + [bit]] == StoredAt(e, n[|path|..] + [bit]))
  }

  lemma RefreshedBelow(e: Cached, path: Path, bit: bool, n: Path, seen: Seen, seen': Seen)
    requires e.CNode? && Refreshed(e, path, n, seen, seen')
    ensures Refreshed(if bit then e.left else e.right, path + [bit], n, seen, seen')
  {
    var e' := if bit then e.left else e.right;
    if path + [bit] <= n {
      forall b | n + [b] in seen' ensures seen'[n + [b]] == StoredAt(e', n[|path + [bit]|..] + [b]) {
        var q := n[|path|..] + [b];
        assert q[0] == bit && q[1..] == n[|path + [bit]|..] + [b];
      }
    }
  }

  lemma RefreshedAt(e: Cached, n: Path, seen: Seen, seen': Seen)
    requires e.CNode? && Refreshed(e, n, n, seen, seen')
    ensures SeenHash(e.left, n + [true], seen') == Stored(e.left)
    ensures SeenHash(e.right, n + [false], seen') == Stored(e.right)
  {
    assert n[|n|..] == [];
    var l, r: Path := [true], [false];
    assert [] + l == l && [] + r == r && l[1..] == [] && r[1..] == [];
    assert Sub(e, l) == e.left && Sub(e, r) == e.right;
  }

  /** The node becomes up to date, and what that upsets is its parent. */
  lemma {:induction false} RehashKeepsSettled(
    comb: Combiner, e: Cached, path: Path, n: Path, own: set<Path>, kids: set<Path>, seen: Seen, seen': Seen)
    requires Live(e) && Settled(comb, e, path, own, kids, seen) && Refreshed(e, path, n, seen, seen')
    ensures Settled(comb, Rehash(comb, e, path, n), path, own - {n} + ParentOf(n), kids - {n} + ParentOf(n), seen')
    decreases e
  {
    if e.CNode? {
      RefreshedBelow(e, path, true, n, seen, seen');
      RefreshedBelow(e, path, false, n, seen, seen');
      RehashKeepsSettled(comb, e.left, path + [true], n, own, kids, seen, seen');
      RehashKeepsSettled(comb, e.right, path + [false], n, own, kids, seen, seen');
      RehashKeepsExcused(comb, e, path, n, own, kids, seen, seen');
    }
  }

  lemma {:induction false} RehashKeepsExcused(
    comb: Combiner, e: Cached, path: Path, n: Path, own: set<Path>, kids: set<Path>, seen: Seen, seen': Seen)
    requires e.CNode? && Live(e) && Excused(comb, e, path, own, kids, seen) && Refreshed(e, path, n, seen, seen')
    ensures Excused(comb, Rehash(comb, e, path, n), path, own - {n} + ParentOf(n), kids - {n} + ParentOf(n), seen')
  {
    assert DropLast(path + [true]) == path && DropLast(path + [false]) == path;
    assert |path + [true]| == |path| + 1 && |path + [false]| == |path| + 1;
    if path == n {
      RefreshedAt(e, n, seen, seen');
    }
  }

  lemma RefreshAgrees(root: Cached, n: Path, seen: Seen)
    ensures Refreshed(root, [], n, seen, Refresh(seen, root, n))
    ensures Refreshed(root, [], n, map[], map[])
  {
    var seen' := Refresh(seen, root, n);
    forall bit | n + [bit] in seen' ensures seen'[n + [bit]] == StoredAt(root, n[0..] + [bit]) {
      assert DropLast(n + [bit]) == n && n[0..] == n;
    }
  }

  /** The nodes in `out` still have their first hash. */
  ghost predicate Untouched(e: Cached, path: Path, out: set<Path>) {
    match e
    case CNode(h, l, r) =>
      (path in out ==> h == NewHash()) && Untouched(l, path + [true], out) && Untouched(r, path + [false], out)
    case _ => true
  }

  lemma {:induction false} RehashElsewhere(comb: Combiner, e: Cached, path: Path, n: Path, out: set<Path>)
    requires Live(e) && Untouched(e, path, out) && n !in out
    ensures Untouched(Rehash(comb, e, path, n), path, out)
    decreases e
  {
    if e.CNode? {
      RehashElsewhere(comb, e.left, path + [true], n, out);
      RehashElsewhere(comb, e.right, path + [false], n, out);
    }
  }

  // ---- What the hashes are in the end ----

  /** When nothing is excused, every stored hash is the hash of the tree below. */
  lemma {:induction false} CleanIsTreeHash(comb: Combiner, e: Cached, path: Path)
    requires Settled(comb, e, path, {}, {}, map[])
    ensures Stored(e) == TreeHash(comb, Strip(e))
  {
    if e.CNode? {
      CleanIsTreeHash(comb, e.left, path + [true]);
      CleanIsTreeHash(comb, e.right, path + [false]);
    }
  }

  /** The hash of the tree if the nodes in `seen` have the hashes noted there, whatever is below them. */
  function HashWith(comb: Combiner, e: Entry, path: Path, seen: Seen): Option<Hash> {
    match e
    case Nil => None
    case Value(_, h) => Some(h)
    case Node(l, r) =>
      if path in seen then Some(seen[path])
      else Join(comb, HashWith(comb, l, path + [true], seen), HashWith(comb, r, path + [false], seen))
  }

  /** After an update the stored hashes are those of the tree with the noted ones put in. */
  lemma {:induction false} StoredIsHashWith(comb: Combiner, e: Cached, path: Path, seen: Seen)
    requires Settled(comb, e, path, seen.Keys, {}, seen)
    ensures SeenHash(e, path, seen) == HashWith(comb, Strip(e), path, seen)
  {
    if e.CNode? {
      StoredIsHashWith(comb, e.left, path + [true], seen);
      StoredIsHashWith(comb, e.right, path + [false], seen);
    }
  }

  /** These nodes, with the hash of a new node. */
  function New(out: set<Path>): (seen: Seen)
    ensures seen.Keys == out
  {
    map p | p in out :: NewHash()
  }

  lemma {:induction false} NothingPutIn(comb: Combiner, e: Entry, path: Path)
    ensures HashWith(comb, e, path, map[]) == TreeHash(comb, e)
  {
    if e.Node? {
      NothingPutIn(comb, e.left, path + [true]);
      NothingPutIn(comb, e.right, path + [false]);
    }
  }

  lemma {:induction false} FreshIsUntouched(e: Cached, path: Path, touched: set<Path>, out: set<Path>)
    requires Fresh(e, path, touched)
    ensures Untouched(e, path, out)
    decreases e
  {
    if e.CNode? {
      FreshIsUntouched(e.left, path + [true], touched, out);
      FreshIsUntouched(e.right, path + [false], touched, out);
    }
  }

  lemma {:induction false} UntouchedAt(e: Cached, path: Path, out: set<Path>, q: Path)
    requires Untouched(e, path, out) && path + q in out && Sub(e, q).CNode?
    ensures StoredAt(e, q) == NewHash()
    decreases q
  {
    if q == [] {
      assert path + q == path;
    } else {
      assert path + [q[0]] + q[1..] == path + q;
      UntouchedAt(if q[0] then e.left else e.right, path + [q[0]], out, q[1..]);
    }
  }

  /** A value below a node in `seen` does not show in the hash. */
  lemma {:induction false} ValueDoesNotShow(comb: Combiner, e: Entry, path: Path, key: TreeKey, hash: Hash, p: Path,
                                            seen: Seen)
    requires OnPath(e, path) && path <= p && p <= Bits(key) && p in seen && HasNode(e, p[|path|..])
    ensures HashWith(comb, Put(e, |path|, key, hash, path), path, seen) == HashWith(comb, e, path, seen)
    decreases |p| - |path|
  {
    if path in seen {
    } else {
      assert path != p;
      var bit := p[|path|];
      assert Bit(key, |path|) == Bits(key)[|path|] == bit;
      hide Bits, Bit;
      assert path + [bit] <= p && p[|path|..][0] == bit && p[|path|..][1..] == p[|path| + 1..];
      ValueDoesNotShow(comb, if bit then e.left else e.right, path + [bit], key, hash, p, seen);
    }
  }

  /** No two different pairs of children met at the same place have the same hash. */
  ghost predicate NoClash(comb: Combiner, e: Entry, path: Path, seen: Seen) {
    match e
    case Node(l, r) =>
      path in seen ||
      (&& NoClash(comb, l, path + [true], seen) && NoClash(comb, r, path + [false], seen)
       && (var a, b := TreeHash(comb, l), TreeHash(comb, r);
           var c, d := HashWith(comb, l, path + [true], seen), HashWith(comb, r, path + [false], seen);
           a.Some? && b.Some? && c.Some? && d.Some? && comb(a.value, b.value) == comb(c.value, d.value) ==>
             a == c && b == d))
    case _ => true
  }

  /** The nodes in `seen` that are reached first have the hashes noted there. */
  ghost predicate HashToSeen(comb: Combiner, e: Entry, path: Path, seen: Seen) {
    match e
    case Node(l, r) =>
      if path in seen then TreeHash(comb, e) == Some(seen[path])
      else HashToSeen(comb, l, path + [true], seen) && HashToSeen(comb, r, path + [false], seen)
    case _ => true
  }

  lemma {:induction false} TreeHasHash(comb: Combiner, e: Entry, d: nat, m: Contents)
    requires Represents(e, d, m)
    ensures TreeHash(comb, e).Some? <==> !e.Nil?
    decreases e
  {
    if e.Node? {
      TreeHasHash(comb, e.left, d + 1, Side(m, d, true));
      TreeHasHash(comb, e.right, d + 1, Side(m, d, false));
      var a, b :| a in m && b in m && a != b;
      assert a in Side(m, d, Bit(a, d));
    }
  }

  /** Putting hashes in gives the right hash exactly if those are the right ones. */
  lemma {:induction false} PutInShows(comb: Combiner, e: Entry, d: nat, path: Path, seen: Seen, m: Contents)
    requires Represents(e, d, m) && NoClash(comb, e, path, seen)
    ensures HashWith(comb, e, path, seen).Some? <==> !e.Nil?
    ensures HashWith(comb, e, path, seen) == TreeHash(comb, e) <==> HashToSeen(comb, e, path, seen)
    decreases e
  {
    TreeHasHash(comb, e, d, m);
    if e.Node? && path !in seen {
      TreeHasHash(comb, e.left, d + 1, Side(m, d, true));
      TreeHasHash(comb, e.right, d + 1, Side(m, d, false));
      PutInShows(comb, e.left, d + 1, path + [true], seen, Side(m, d, true));
      PutInShows(comb, e.right, d + 1, path + [false], seen, Side(m, d, false));
    }
  }
}
