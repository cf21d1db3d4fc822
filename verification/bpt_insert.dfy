/**
 Inserting into the Binary Patricia Tree with stored hashes (smt/pmt/bpt.go): a node keeps the hash of its
 last update, and an insert only notes which nodes it made dirty. A node is named by the bits that lead
 to it.
 */
module PatriciaInserts {
  import opened Common
  import opened MerkleTree
  import opened PatriciaTrees
  import opened PatriciaNodeKeys

  datatype Cached = CNil | CValue(key: TreeKey, hash: Hash) | CNode(hash: Hash, left: Cached, right: Cached)

  /** The tree without the stored hashes. */
  function Strip(e: Cached): Entry {
    match e
    case CNil => Nil
    case CValue(k, h) => Value(k, h)
    case CNode(_, l, r) => Node(Strip(l), Strip(r))
  }

  /** GetHash of an entry: the stored one for a node. */
  function Stored(e: Cached): Option<Hash> {
    match e
    case CNil => None
    case CValue(_, h) => Some(h)
    case CNode(h, _, _) => Some(h)
  }

  /** The hash of a node that was never updated. */
  function NewHash(): Hash {
    Blank()
  }

  /** The node afterwards, and the nodes that Dirty was called for. */
  datatype Inserted = Inserted(node: Cached, marks: seq<Path>)

  /** insertAtNode. */
  function InsertAtNode(n: Cached, path: Path, key: TreeKey, hash: Hash): (r: Inserted)
    requires n.CNode? && OnPath(Strip(n), path) && path <= Bits(key)
    ensures r.node.CNode? && r.node.hash == n.hash
    ensures Strip(r.node) == Put(Strip(n), |path|, key, hash, path)
    decreases 256 - |path|
  {
    var bit := Bit(key, |path|);
    assert path + [bit] <= Bits(key);
    var r := InsertAtSlot(if bit then n.left else n.right, path, bit, key, hash);
    Inserted(if bit then n.(left := r.node) else n.(right := r.node), r.marks)
  }

  /** The switch over what the slot of the node at `path` holds. */
  function InsertAtSlot(e: Cached, path: Path, bit: bool, key: TreeKey, hash: Hash): (r: Inserted)
    requires |path| < 256 && path + [bit] <= Bits(key) && OnPath(Strip(e), path + [bit])
    ensures Strip(r.node) == Put(Strip(e), |path| + 1, key, hash, path + [bit])
    decreases 256 - |path|, 0
  {
    var below := path + [bit];
    match e
    case CNil => Inserted(CValue(key, hash), [path])
    case CNode(_, _, _) => InsertAtNode(e, below, key, hash)
    case CValue(k, h) =>
      if k == key then Inserted(CValue(k, hash), if h != hash then [path] else [])
      else
        PathEnds(below, k, key);
        assert OnPath(Nil, below + [true]) && OnPath(Nil, below + [false]);
        var first := InsertAtNode(CNode(NewHash(), CNil, CNil), below, key, hash);
        var second := InsertAtNode(first.node, below, k, h);
        Inserted(second.node, first.marks + second.marks)
  }

  ghost function Marked(marks: seq<Path>): set<Path> {
    set p | p in marks
  }

  // ---- Outdated hashes are accounted for ----

  predicate DirtyNode(e: Cached, path: Path, dirty: set<Path>) {
    e.CNode? && path in dirty
  }

  predicate UpToDate(comb: Combiner, n: Cached)
    requires n.CNode?
  {
    Join(comb, Stored(n.left), Stored(n.right)) == Some(n.hash)
  }

  /** The hashes that parents last used for some of their children. */
  type Seen = map<Path, Hash>

  /** The hash of an entry as its parent last used it: the stored one, unless another one is noted. */
  function SeenHash(e: Cached, path: Path, seen: Seen): Option<Hash> {
    if e.CNode? && path in seen then Some(seen[path]) else Stored(e)
  }

  predicate Current(comb: Combiner, n: Cached, path: Path, seen: Seen)
    requires n.CNode?
  {
    Join(comb, SeenHash(n.left, path + [true], seen), SeenHash(n.right, path + [false], seen)) == Some(n.hash)
  }

  /** A node's stored hash is that of the hashes it used, unless the node is in `own` or a child is in `kids`. */
  predicate Excused(comb: Combiner, n: Cached, path: Path, own: set<Path>, kids: set<Path>, seen: Seen)
    requires n.CNode?
  {
    || Current(comb, n, path, seen) || path in own
    || DirtyNode(n.left, path + [true], kids) || DirtyNode(n.right, path + [false], kids)
  }

  ghost predicate Settled(comb: Combiner, e: Cached, path: Path, own: set<Path>, kids: set<Path>, seen: Seen) {
    match e
    case CNode(_, l, r) =>
      && Excused(comb, e, path, own, kids, seen)
      && Settled(comb, l, path + [true], own, kids, seen)
      && Settled(comb, r, path + [false], own, kids, seen)
    case _ => true
  }

  /** Nodes have an entry. */
  predicate Live(e: Cached) {
    match e
    case CNode(_, l, r) => (!l.CNil? || !r.CNil?) && Live(l) && Live(r)
    case _ => true
  }

  ghost predicate SameUnder(path: Path, seen: Seen, seen': Seen) {
    forall p :: path <= p ==> (p in seen <==> p in seen') && (p in seen && p in seen' ==> seen[p] == seen'[p])
  }

  lemma {:induction false} SettledMonotone(
    comb: Combiner, e: Cached, path: Path, own: set<Path>, kids: set<Path>, seen: Seen,
    own': set<Path>, kids': set<Path>, seen': Seen)
    requires Settled(comb, e, path, own, kids, seen) && own <= own' && kids <= kids' && SameUnder(path, seen, seen')
    ensures Settled(comb, e, path, own', kids', seen')
    decreases e
  {
    if e.CNode? {
      UnderSide(path, true, seen, seen');
      UnderSide(path, false, seen, seen');
      SettledMonotone(comb, e.left, path + [true], own, kids, seen, own', kids', seen');
      SettledMonotone(comb, e.right, path + [false], own, kids, seen, own', kids', seen');
      hide SameUnder, Settled;
    }
  }

  lemma UnderSide(path: Path, bit: bool, seen: Seen, seen': Seen)
    requires SameUnder(path, seen, seen')
    ensures SameUnder(path + [bit], seen, seen')
    ensures var q := path + [bit];
            (q in seen <==> q in seen') && (q in seen ==> seen[q] == seen'[q])
  {
  }

  // ---- What an insert does to that ----

  lemma {:induction false} NodeStaysLive(n: Cached, path: Path, key: TreeKey, hash: Hash)
    requires n.CNode? && OnPath(Strip(n), path) && path <= Bits(key) && Live(n.left) && Live(n.right)
    ensures Live(InsertAtNode(n, path, key, hash).node)
    decreases 256 - |path|, 1
  {
    var bit := Bit(key, |path|);
    assert path + [bit] <= Bits(key);
    SlotStaysLive(if bit then n.left else n.right, path, bit, key, hash);
  }

  lemma {:induction false} SlotStaysLive(e: Cached, path: Path, bit: bool, key: TreeKey, hash: Hash)
    requires |path| < 256 && path + [bit] <= Bits(key) && OnPath(Strip(e), path + [bit]) && Live(e)
    ensures var r := InsertAtSlot(e, path, bit, key, hash).node;
            Live(r) && !r.CNil? && (e.CNode? ==> r.CNode?)
    decreases 256 - |path|, 0
  {
    hide Bits, Bit;
    var below := path + [bit];
    match e
    case CNil =>
    case CNode(_, _, _) =>
      NodeStaysLive(e, below, key, hash);
    case CValue(k, h) =>
      if k != key {
        PathEnds(below, k, key);
        var empty := CNode(NewHash(), CNil, CNil);
        NodeStaysLive(empty, below, key, hash);
        NodeStaysLive(InsertAtNode(empty, below, key, hash).node, below, k, h);
      }
  }

  /** The entry that the bits lead to. */
  function Sub(e: Cached, q: Path): Cached {
    if q == [] then e else if e.CNode? then Sub(if q[0] then e.left else e.right, q[1..]) else CNil
  }

  /** One more node of height 255 may be noted, on the path of the key. */
  ghost predicate Noted(seen: Seen, seen': Seen, key: TreeKey) {
    && (forall p :: p in seen ==> p in seen' && seen'[p] == seen[p])
    && (forall p :: p in seen' ==> |p| == 255 && (p in seen || p <= Bits(key)))
  }

  /** It is noted with the hash that the entry there had before, if there was one. */
  ghost predicate NotedAs(e: Cached, path: Path, seen: Seen, seen': Seen, key: TreeKey) {
    var twin := Bits(key)[..255];
    path <= twin && twin in seen' && twin !in seen ==>
      var old_ := Stored(Sub(e, twin[|path|..]));
      old_.None? || old_ == Some(seen'[twin])
  }

  ghost predicate SeenNodes(e: Cached, path: Path, seen: Seen) {
    forall p :: p in seen && path <= p ==> HasNode(Strip(e), p[|path|..])
  }

  /** What was marked is accounted for. */
  ghost predicate MarksKept(marks: seq<Path>, own: set<Path>, kids: set<Path>, seen: Seen) {
    forall p :: p in marks ==> p in own && (p in kids || p in seen)
  }

  lemma NotedBelow(n: Cached, path: Path, bit: bool, seen: Seen, seen': Seen, key: TreeKey)
    requires n.CNode? && path + [bit] <= Bits(key) && NotedAs(n, path, seen, seen', key)
    ensures NotedAs(if bit then n.left else n.right, path + [bit], seen, seen', key)
  {
    hide Bits;
    var twin := Bits(key)[..255];
    if path + [bit] <= twin {
      assert twin[|path|..][0] == bit && twin[|path|..][1..] == twin[|path + [bit]|..];
    }
  }

  lemma SeenBelow(n: Cached, path: Path, bit: bool, seen: Seen)
    requires n.CNode? && SeenNodes(n, path, seen)
    ensures SeenNodes(if bit then n.left else n.right, path + [bit], seen)
  {
    forall p | p in seen && path + [bit] <= p
      ensures HasNode(Strip(if bit then n.left else n.right), p[|path + [bit]|..])
    {
      assert p[|path|..][0] == bit && p[|path|..][1..] == p[|path + [bit]|..];
      assert HasNode(Strip(n), p[|path|..]);
    }
  }

  /** Off the path of the key nothing is noted. */
  lemma OffPath(path: Path, bit: bool, seen: Seen, seen': Seen, key: TreeKey)
    requires path + [bit] <= Bits(key) && Noted(seen, seen', key)
    ensures SameUnder(path + [!bit], seen, seen')
  {
    hide Bits;
    forall p | path + [!bit] <= p && p in seen' ensures p in seen {
      assert p[|path|] == !bit;
      if p <= Bits(key) {
        assert Bits(key)[|path|] == p[|path|];
      }
    }
  }

  /** After an insert every node with an outdated hash is marked or has a marked child. */
  lemma {:induction false} NodeStaysSettled(
    comb: Combiner, n: Cached, path: Path, key: TreeKey, hash: Hash, own: set<Path>, kids: set<Path>, seen: Seen,
    own': set<Path>, kids': set<Path>, seen': Seen)
    requires n.CNode? && OnPath(Strip(n), path) && path <= Bits(key)
    requires Settled(comb, n.left, path + [true], own, kids, seen)
    requires Settled(comb, n.right, path + [false], own, kids, seen)
    requires Excused(comb, n, path, own, kids, seen) || (if Bit(key, |path|) then n.left else n.right).CNil?
    requires own <= own' && kids <= kids' && Noted(seen, seen', key) && NotedAs(n, path, seen, seen', key)
    requires SeenNodes(n, path, seen) && MarksKept(InsertAtNode(n, path, key, hash).marks, own', kids', seen')
    ensures Settled(comb, InsertAtNode(n, path, key, hash).node, path, own', kids', seen')
    decreases 256 - |path|, 1
  {
    NextBit(key, path);
    var bit := Bit(key, |path|);
    var e, other := if bit then n.left else n.right, if bit then n.right else n.left;
    NotedBelow(n, path, bit, seen, seen', key);
    SeenBelow(n, path, bit, seen);
    OffPath(path, bit, seen, seen', key);
    hide Bits, Bit, Noted, NotedAs, SeenNodes, SameUnder, SlotKept, Excused, MarksKept;
    SlotStaysSettled(comb, e, path, bit, key, hash, own, kids, seen, own', kids', seen');
    SettledMonotone(comb, other, path + [!bit], own, kids, seen, own', kids', seen');
    NodeStaysExcused(comb, n, path, key, hash, own, kids, seen, own', kids', seen');
  }

  /** The slot as its parent sees it. */
  ghost predicate SlotKept(e: Cached, e': Cached, below: Path, marks: seq<Path>, kids: set<Path>, seen: Seen,
                           seen': Seen)
  {
    || SeenHash(e', below, seen') == SeenHash(e, below, seen)
    || (below != [] && DropLast(below) in marks)
    || DirtyNode(e', below, kids)
  }

  lemma {:induction false} NodeStaysExcused(
    comb: Combiner, n: Cached, path: Path, key: TreeKey, hash: Hash, own: set<Path>, kids: set<Path>, seen: Seen,
    own': set<Path>, kids': set<Path>, seen': Seen)
    requires n.CNode? && OnPath(Strip(n), path) && path <= Bits(key) && path + [Bit(key, |path|)] <= Bits(key)
    requires Excused(comb, n, path, own, kids, seen) || (if Bit(key, |path|) then n.left else n.right).CNil?
    requires own <= own' && kids <= kids' && SameUnder(path + [!Bit(key, |path|)], seen, seen')
    requires MarksKept(InsertAtNode(n, path, key, hash).marks, own', kids', seen')
    requires var e := if Bit(key, |path|) then n.left else n.right;
             var r := InsertAtSlot(e, path, Bit(key, |path|), key, hash);
             && SlotKept(e, r.node, path + [Bit(key, |path|)], r.marks, kids', seen, seen')
             && (e.CNil? ==> path in r.marks) && (e.CNode? ==> r.node.CNode?)
    ensures Excused(comb, InsertAtNode(n, path, key, hash).node, path, own', kids', seen')
  {
    hide Bits, Bit;
    var bit := Bit(key, |path|);
    var r := InsertAtSlot(if bit then n.left else n.right, path, bit, key, hash);
    assert DropLast(path + [bit]) == path;
    assert r.marks == InsertAtNode(n, path, key, hash).marks;
    if path !in r.marks {
      assert path + [!bit] in seen <==> path + [!bit] in seen';
    }
  }

  lemma {:induction false} SlotStaysSettled(
    comb: Combiner, e: Cached, path: Path, bit: bool, key: TreeKey, hash: Hash, own: set<Path>, kids: set<Path>,
    seen: Seen, own': set<Path>, kids': set<Path>, seen': Seen)
    requires |path| < 256 && path + [bit] <= Bits(key) && OnPath(Strip(e), path + [bit])
    requires Settled(comb, e, path + [bit], own, kids, seen)
    requires own <= own' && kids <= kids' && Noted(seen, seen', key) && NotedAs(e, path + [bit], seen, seen', key)
    requires SeenNodes(e, path + [bit], seen)
    requires MarksKept(InsertAtSlot(e, path, bit, key, hash).marks, own', kids', seen')
    ensures var r := InsertAtSlot(e, path, bit, key, hash);
            && Settled(comb, r.node, path + [bit], own', kids', seen')
            && SlotKept(e, r.node, path + [bit], r.marks, kids', seen, seen')
            && (e.CNil? ==> path in r.marks) && (e.CNode? ==> r.node.CNode?)
    decreases 256 - |path|, 0
  {
    hide Bits, Bit;
    var below := path + [bit];
    assert DropLast(below) == path;
    match e
    case CNil =>
    case CNode(_, _, _) =>
      NodeStaysSettled(comb, e, below, key, hash, own, kids, seen, own', kids', seen');
      SeenAtNode(e, below, seen, seen', key);
    case CValue(k, h) =>
      if k != key {
        PathEnds(below, k, key);
        ForkIsSettled(comb, below, k, h, key, hash, own', kids', seen');
        SeenAtValue(e, below, seen, seen', key);
      }
  }

  lemma SeenAtNode(e: Cached, below: Path, seen: Seen, seen': Seen, key: TreeKey)
    requires e.CNode? && below <= Bits(key) && Noted(seen, seen', key) && NotedAs(e, below, seen, seen', key)
    ensures forall e': Cached ::
              e'.CNode? && e'.hash == e.hash ==> SeenHash(e', below, seen') == SeenHash(e, below, seen)
  {
    hide Bits;
    if below in seen' && below !in seen {
      assert below == Bits(key)[..255] && Bits(key)[..255][|below|..] == [];
    }
  }

  lemma SeenAtValue(e: Cached, below: Path, seen: Seen, seen': Seen, key: TreeKey)
    requires e.CValue? && below <= Bits(key) && Noted(seen, seen', key) && NotedAs(e, below, seen, seen', key)
    requires SeenNodes(e, below, seen)
    ensures below in seen' ==> Some(seen'[below]) == Stored(e)
  {
    hide Bits;
    assert !HasNode(Strip(e), below[|below|..]);
    if below in seen' && below !in seen {
      assert below == Bits(key)[..255] && Bits(key)[..255][|below|..] == [];
    }
  }

  /** All nodes over two values are new and marked. */
  lemma ForkIsSettled(comb: Combiner, path: Path, k: TreeKey, h: Hash, key: TreeKey, hash: Hash, own: set<Path>,
                      kids: set<Path>, seen: Seen)
    requires |path| < 256 && path <= Bits(k) && path <= Bits(key) && k != key
    requires var first := InsertAtNode(CNode(NewHash(), CNil, CNil), path, key, hash);
             MarksKept(first.marks + InsertAtNode(first.node, path, k, h).marks, own, kids, seen)
    ensures var first := InsertAtNode(CNode(NewHash(), CNil, CNil), path, key, hash);
            var second := InsertAtNode(first.node, path, k, h);
            Settled(comb, second.node, path, own, kids, seen) && path in first.marks
  {
    hide Bits, Bit;
    var empty := CNode(NewHash(), CNil, CNil);
    var first := InsertAtNode(empty, path, key, hash);
    var second := InsertAtNode(first.node, path, k, h);
    EmptyIsMarked(path, key, hash);
    NodeStaysFresh(empty, path, key, hash, {});
    NodeStaysFresh(first.node, path, k, h, {} + Marked(first.marks));
    FreshMonotone(second.node, path, {} + Marked(first.marks) + Marked(second.marks), own);
    FreshIsSettled(comb, second.node, path, own, kids, seen);
  }

  lemma EmptyIsMarked(path: Path, key: TreeKey, hash: Hash)
    requires |path| < 256 && path <= Bits(key)
    ensures path in InsertAtNode(CNode(NewHash(), CNil, CNil), path, key, hash).marks
  {
    hide Bits, Bit;
  }

  lemma {:induction false} FreshIsSettled(comb: Combiner, e: Cached, path: Path, touched: set<Path>, kids: set<Path>,
                                          seen: Seen)
    requires Fresh(e, path, touched)
    ensures Settled(comb, e, path, touched, kids, seen)
    decreases e
  {
    if e.CNode? {
      FreshIsSettled(comb, e.left, path + [true], touched, kids, seen);
      FreshIsSettled(comb, e.right, path + [false], touched, kids, seen);
    }
  }

  // ---- A tree that was never updated ----

  /** All nodes have their first hash and were marked. */
  ghost predicate Fresh(e: Cached, path: Path, touched: set<Path>) {
    match e
    case CNode(h, l, r) =>
      path in touched && h == NewHash() && Fresh(l, path + [true], touched) && Fresh(r, path + [false], touched)
    case _ => true
  }

  lemma {:induction false} FreshMonotone(e: Cached, path: Path, touched: set<Path>, touched': set<Path>)
    requires Fresh(e, path, touched) && touched <= touched'
    ensures Fresh(e, path, touched')
    decreases e
  {
    if e.CNode? {
      FreshMonotone(e.left, path + [true], touched, touched');
      FreshMonotone(e.right, path + [false], touched, touched');
    }
  }

  lemma {:induction false} NodeStaysFresh(n: Cached, path: Path, key: TreeKey, hash: Hash, touched: set<Path>)
    requires n.CNode? && OnPath(Strip(n), path) && path <= Bits(key) && n.hash == NewHash()
    requires Fresh(n.left, path + [true], touched) && Fresh(n.right, path + [false], touched)
    requires path in touched || (if Bit(key, |path|) then n.left else n.right).CNil?
    ensures Fresh(InsertAtNode(n, path, key, hash).node, path, touched + Marked(InsertAtNode(n, path, key, hash).marks))
    decreases 256 - |path|, 1
  {
    var bit := Bit(key, |path|);
    assert path + [bit] <= Bits(key);
    SlotStaysFresh(if bit then n.left else n.right, path, bit, key, hash, touched);
    var r := InsertAtSlot(if bit then n.left else n.right, path, bit, key, hash);
    FreshMonotone(if bit then n.right else n.left, path + [!bit], touched, touched + Marked(r.marks));
  }

  lemma {:induction false} SlotStaysFresh(e: Cached, path: Path, bit: bool, key: TreeKey, hash: Hash,
                                          touched: set<Path>)
    requires |path| < 256 && path + [bit] <= Bits(key) && OnPath(Strip(e), path + [bit])
    requires Fresh(e, path + [bit], touched)
    ensures var r := InsertAtSlot(e, path, bit, key, hash);
            Fresh(r.node, path + [bit], touched + Marked(r.marks)) && (e.CNil? ==> path in r.marks)
    decreases 256 - |path|, 0
  {
    hide Bits, Bit;
    var below := path + [bit];
    match e
    case CNil =>
    case CNode(_, _, _) =>
      NodeStaysFresh(e, below, key, hash, touched);
    case CValue(k, h) =>
      if k != key {
        PathEnds(below, k, key);
        var empty := CNode(NewHash(), CNil, CNil);
        NodeStaysFresh(empty, below, key, hash, touched);
        var first := InsertAtNode(empty, below, key, hash);
        NodeStaysFresh(first.node, below, k, h, touched + Marked(first.marks));
        var second := InsertAtNode(first.node, below, k, h);
        assert touched + Marked(first.marks) + Marked(second.marks) == touched + Marked(first.marks + second.marks);
      }
  }

  // ---- What is marked ----

  /** Marks are nodes of the new tree on the path of the key, and nodes stay nodes. */
  lemma {:induction false} MarksAreNodes(n: Cached, path: Path, key: TreeKey, hash: Hash, p: Path)
    requires n.CNode? && OnPath(Strip(n), path) && path <= Bits(key)
    ensures var r := InsertAtNode(n, path, key, hash);
            && (p in r.marks ==> path <= p && p <= Bits(key) && |p| < 256 && HasNode(Strip(r.node), p[|path|..]))
            && (path <= p && HasNode(Strip(n), p[|path|..]) ==> HasNode(Strip(r.node), p[|path|..]))
    decreases 256 - |path|, 1
  {
    var bit := Bit(key, |path|);
    assert path + [bit] <= Bits(key);
    SlotMarksAreNodes(if bit then n.left else n.right, path, bit, key, hash, p);
    hide Bits, Bit, OnPath;
    if path < p {
      assert p[|path|..][0] == p[|path|] && p[|path|..][1..] == p[|path| + 1..];
      assert p[|path|] == bit ==> path + [bit] <= p;
    }
  }

  lemma {:induction false} SlotMarksAreNodes(e: Cached, path: Path, bit: bool, key: TreeKey, hash: Hash, p: Path)
    requires |path| < 256 && path + [bit] <= Bits(key) && OnPath(Strip(e), path + [bit])
    ensures var r := InsertAtSlot(e, path, bit, key, hash);
            && (p in r.marks ==>
                  || p == path
                  || (path + [bit] <= p && p <= Bits(key) && |p| < 256 && HasNode(Strip(r.node), p[|path| + 1..])))
            && (path + [bit] <= p && HasNode(Strip(e), p[|path| + 1..]) ==> HasNode(Strip(r.node), p[|path| + 1..]))
    decreases 256 - |path|, 0
  {
    hide Bits, Bit;
    var below := path + [bit];
    match e
    case CNil =>
    case CNode(_, _, _) =>
      MarksAreNodes(e, below, key, hash, p);
    case CValue(k, h) =>
      if k != key {
        PathEnds(below, k, key);
        var empty := CNode(NewHash(), CNil, CNil);
        var first := InsertAtNode(empty, below, key, hash);
        var second := InsertAtNode(first.node, below, k, h);
        MarksAreNodes(empty, below, key, hash, p);
        MarksAreNodes(first.node, below, k, h, p);
        if p in second.marks {
          ForkNodes(below, key, hash, k, h, p);
        }
      }
  }

  /** The nodes over two values are on the paths of both. */
  lemma {:induction false} ForkNodes(path: Path, key: TreeKey, hash: Hash, k: TreeKey, h: Hash, p: Path)
    requires |path| < 256 && path <= Bits(k) && path <= Bits(key) && k != key && path <= p && |p| < 256
    requires var first := InsertAtNode(CNode(NewHash(), CNil, CNil), path, key, hash);
             HasNode(Strip(InsertAtNode(first.node, path, k, h).node), p[|path|..])
    ensures p <= Bits(key) && p <= Bits(k)
  {
    hide Bits, Bit, Represents, HasNode;
    ForkRepresents(|path|, k, h, key, hash, path);
    var m: Contents := map[k := h][key := hash];
    NodesAreShared(Put(Value(k, h), |path|, key, hash, path), path, p[|path|..], m);
    assert path + p[|path|..] == p;
    hide InsertAtNode, Put;
    var a, b :| a in m && b in m && a != b && p <= Bits(a) && p <= Bits(b);
  }

  /** Nothing is marked exactly if the tree has that value already. */
  lemma {:induction false} MarksMeanChange(n: Cached, path: Path, key: TreeKey, hash: Hash, m: Contents)
    requires n.CNode? && OnPath(Strip(n), path) && path <= Bits(key) && Sides(Strip(n.left), Strip(n.right), |path|, m)
    ensures InsertAtNode(n, path, key, hash).marks == [] <==> key in m && m[key] == hash
    decreases 256 - |path|, 1
  {
    var bit := Bit(key, |path|);
    assert path + [bit] <= Bits(key);
    hide Bits, OnPath;
    SlotMarksMeanChange(if bit then n.left else n.right, path, bit, key, hash, Side(m, |path|, bit));
  }

  lemma {:induction false} SlotMarksMeanChange(e: Cached, path: Path, bit: bool, key: TreeKey, hash: Hash, m: Contents)
    requires |path| < 256 && path + [bit] <= Bits(key) && OnPath(Strip(e), path + [bit])
    requires Represents(Strip(e), |path| + 1, m)
    ensures InsertAtSlot(e, path, bit, key, hash).marks == [] <==> key in m && m[key] == hash
    decreases 256 - |path|, 0
  {
    hide Bits, Bit;
    var below := path + [bit];
    match e
    case CNil =>
    case CNode(_, _, _) =>
      MarksMeanChange(e, below, key, hash, m);
    case CValue(k, h) =>
      if k != key {
        PathEnds(below, k, key);
        MarksMeanChange(CNode(NewHash(), CNil, CNil), below, key, hash, map[]);
      }
  }

  /** If anything is marked, so is a node of height 255 on the path of the key. */
  lemma {:induction false} LowestNodeIsMarked(n: Cached, path: Path, key: TreeKey, hash: Hash, p: Path)
    requires n.CNode? && OnPath(Strip(n), path) && path <= Bits(key)
    requires path <= p && p <= Bits(key) && |p| == 255
    requires HasNode(Strip(InsertAtNode(n, path, key, hash).node), p[|path|..])
    requires InsertAtNode(n, path, key, hash).marks != []
    ensures p in InsertAtNode(n, path, key, hash).marks
    decreases 256 - |path|, 1
  {
    var bit := Bit(key, |path|);
    assert path + [bit] <= Bits(key);
    var e := if bit then n.left else n.right;
    if |path| == 255 {
      assert p == path;
      LowestSlot(e, path, bit, key, hash);
    } else {
      assert p[|path|] == bit && path + [bit] <= p;
      assert p[|path|..][0] == p[|path|] && p[|path|..][1..] == p[|path| + 1..];
      LowestSlotNode(e, path, bit, key, hash, p);
    }
  }

  lemma LowestSlot(e: Cached, path: Path, bit: bool, key: TreeKey, hash: Hash)
    requires |path| == 255 && path + [bit] <= Bits(key) && OnPath(Strip(e), path + [bit])
    requires InsertAtSlot(e, path, bit, key, hash).marks != []
    ensures path in InsertAtSlot(e, path, bit, key, hash).marks
  {
    hide Bits;
    if e.CValue? && e.key != key {
      PathEnds(path + [bit], e.key, key);
    }
  }

  lemma {:induction false} LowestSlotNode(e: Cached, path: Path, bit: bool, key: TreeKey, hash: Hash, p: Path)
    requires |path| < 255 && path + [bit] <= Bits(key) && OnPath(Strip(e), path + [bit])
    requires path + [bit] <= p && p <= Bits(key) && |p| == 255
    requires HasNode(Strip(InsertAtSlot(e, path, bit, key, hash).node), p[|path| + 1..])
    requires InsertAtSlot(e, path, bit, key, hash).marks != []
    ensures p in InsertAtSlot(e, path, bit, key, hash).marks
    decreases 256 - |path|, 0
  {
    hide Bits, Bit;
    var below := path + [bit];
    match e
    case CNil =>
    case CNode(_, _, _) =>
      LowestNodeIsMarked(e, below, key, hash, p);
    case CValue(k, h) =>
      if k != key {
        PathEnds(below, k, key);
        var empty := CNode(NewHash(), CNil, CNil);
        var first := InsertAtNode(empty, below, key, hash);
        ForkNodes(below, key, hash, k, h, p);
        SecondIsMarked(below, key, hash, k, h);
        LowestNodeIsMarked(first.node, below, k, h, p);
      }
  }

  lemma SecondIsMarked(path: Path, key: TreeKey, hash: Hash, k: TreeKey, h: Hash)
    requires |path| < 256 && path <= Bits(k) && path <= Bits(key) && k != key
    ensures var first := InsertAtNode(CNode(NewHash(), CNil, CNil), path, key, hash);
            InsertAtNode(first.node, path, k, h).marks != []
  {
    hide Bits, Bit;
    var first := InsertAtNode(CNode(NewHash(), CNil, CNil), path, key, hash);
    PutInNode(Nil, Nil, |path|, key, hash, path, map[]);
    MarksMeanChange(first.node, path, k, h, map[][key := hash]);
  }
}
