/**
 The Binary Patricia Tree object (smt/pmt/bpt.go, smt/pmt/bpt_receipt.go): inserts, updates and receipts.
 */
module PatriciaState {
  import opened Common
  import opened MerkleTree
  import opened PatriciaTrees
  import opened PatriciaNodeKeys
  import opened PatriciaInserts
  import opened PatriciaUpdates
  import opened PatriciaReceipts

  // ---- Nodes of height 255 ----

  /** Two keys that differ in their last bit only; their node has height 255. */
  ghost predicate IsPair(m: Contents, p: Path) {
    |p| == 255 && Shared(m, p)
  }

  ghost predicate AtMostOnePair(m: Contents) {
    forall p, q :: IsPair(m, p) && IsPair(m, q) ==> p == q
  }

  function AsSet(p: Option<Path>): set<Path> {
    if p.Some? then {p.value} else {}
  }

  lemma RootNodes(l: Entry, r: Entry, m: Contents, p: Path)
    requires Sides(l, r, 0, m) && 0 < |p| <= 256
    ensures HasNode(Node(l, r), p) <==> Shared(m, p)
  {
    hide Bits, Bit;
    assert [] + [p[0]] == [p[0]] && [p[0]] + p[1..] == p;
    SideUnder(m, [], p[0]);
    SharedInSide(m, [], p[0], p);
    NodesAreShared(if p[0] then l else r, [p[0]], p[1..], Side(m, 0, p[0]));
  }

  lemma {:induction false} FreshNodes(e: Cached, path: Path, touched: set<Path>, q: Path)
    requires Fresh(e, path, touched) && HasNode(Strip(e), q)
    ensures path + q in touched
    decreases e
  {
    if q == [] {
      assert path + q == path;
    } else {
      FreshNodes(if q[0] then e.left else e.right, path + [q[0]], touched, q[1..]);
      assert path + [q[0]] + q[1..] == path + q;
    }
  }

  /** The dirty nodes and the displaced ones after an insert are those from before and those that were marked. */
  lemma TouchedGrows(d: DirtyMap, displaced: set<Path>, marks: seq<Path>, low: Path)
    requires Keyed(d) && |low| == 255 && forall p :: p in marks ==> |p| <= 255 && (|p| == 255 ==> p == low)
    requires forall p :: p in displaced ==> |p| == 255 && p !in d.Values
    ensures var d' := DirtyAll(d, marks);
            var displaced' := displaced + AsSet(Lowest(d)) - AsSet(Lowest(d'));
            && Keyed(d') && Lowest(d') == (if low in marks then Some(low) else Lowest(d))
            && d'.Values + displaced' == d.Values + displaced + Marked(marks)
            && (forall p :: p in displaced' ==> |p| == 255 && p !in d'.Values)
            && (displaced' != {} ==> Lowest(d').Some? || displaced != {})
  {
    hide DirtyAll, Keyed;
    DirtyMarks(d, marks, low);
    var d' := DirtyAll(d, marks);
    var displaced' := displaced + AsSet(Lowest(d)) - AsSet(Lowest(d'));
    forall p: Path | |p| == 255
      ensures (p in d.Values <==> Lowest(d) == Some(p)) && (p in d'.Values <==> Lowest(d') == Some(p))
    {
      LowestIsOnly(d, p);
      LowestIsOnly(d', p);
    }
    LowestSize(d);
    LowestSize(d');
  }

  lemma LowestSize(d: DirtyMap)
    requires Keyed(d)
    ensures Lowest(d).Some? ==> |Lowest(d).value| == 255
  {
    if Lowest(d).Some? {
      BlankKey(d[Blank()]);
    }
  }

  /** Before the first update, the displaced nodes are all pairs but the one marked last. */
  lemma DisplacedPairs(root: Cached, m: Contents, d: DirtyMap, displaced: set<Path>, p: Path)
    requires root.CNode? && Sides(Strip(root.left), Strip(root.right), 0, m) && Keyed(d)
    requires forall q :: q in displaced ==> |q| == 255 && q !in d.Values
    requires forall q :: q in d.Values + displaced ==> HasNode(Strip(root), q)
    requires Fresh(root, [], d.Values + displaced)
    ensures p in displaced <==> IsPair(m, p) && Lowest(d) != Some(p)
  {
    hide Bits, Keyed, Sides, Fresh, HasNode;
    if |p| == 255 {
      RootNodes(Strip(root.left), Strip(root.right), m, p);
      LowestIsOnly(d, p);
      if HasNode(Strip(root), p) {
        FreshNodes(root, [], d.Values + displaced, p);
        assert [] + p == p;
      }
    }
  }

  lemma OnePair(root: Cached, m: Contents, d: DirtyMap, displaced: set<Path>)
    requires root.CNode? && Sides(Strip(root.left), Strip(root.right), 0, m) && Keyed(d)
    requires forall q :: q in displaced ==> |q| == 255 && q !in d.Values
    requires forall q :: q in d.Values + displaced ==> HasNode(Strip(root), q)
    requires Fresh(root, [], d.Values + displaced) && (displaced != {} ==> Lowest(d).Some?)
    ensures displaced == {} <==> AtMostOnePair(m)
  {
    hide Bits, Keyed, Sides, Fresh, HasNode, Shared;
    forall p ensures p in displaced <==> IsPair(m, p) && Lowest(d) != Some(p) {
      DisplacedPairs(root, m, d, displaced, p);
    }
    if displaced != {} {
      var p :| p in displaced;
      var q := Lowest(d).value;
      LowestSize(d);
      LowestIsOnly(d, q);
      RootNodes(Strip(root.left), Strip(root.right), m, q);
      assert IsPair(m, q);
    }
  }

  lemma PairsPersist(m: Contents, key: TreeKey, hash: Hash)
    ensures AtMostOnePair(m[key := hash]) ==> AtMostOnePair(m)
  {
    hide Bits;
    forall p | IsPair(m, p) ensures IsPair(m[key := hash], p) {
      var a, b :| a in m && b in m && a != b && p <= Bits(a) && p <= Bits(b);
      assert a in m[key := hash] && b in m[key := hash];
    }
  }

  /** A node is displaced by another one, so there are two pairs. */
  lemma TwoNodesAreTwoPairs(root: Cached, m: Contents, p: Path, q: Path)
    requires root.CNode? && Sides(Strip(root.left), Strip(root.right), 0, m)
    requires |p| == 255 && |q| == 255 && p != q && HasNode(Strip(root), p) && HasNode(Strip(root), q)
    ensures !AtMostOnePair(m)
  {
    hide Bits, Sides, HasNode, Shared;
    RootNodes(Strip(root.left), Strip(root.right), m, p);
    RootNodes(Strip(root.left), Strip(root.right), m, q);
    assert IsPair(m, p) && IsPair(m, q);
  }

  lemma DisplacedMeansPairs(root: Cached, m: Contents, d: DirtyMap, d': DirtyMap, displaced: set<Path>)
    requires root.CNode? && Sides(Strip(root.left), Strip(root.right), 0, m) && Keyed(d) && Keyed(d')
    requires forall p :: p in d.Values + d'.Values ==> HasNode(Strip(root), p)
    requires displaced == AsSet(Lowest(d)) - AsSet(Lowest(d')) && (displaced != {} ==> Lowest(d').Some?)
    ensures displaced != {} ==> !AtMostOnePair(m)
  {
    hide Bits, Keyed, Sides, HasNode, Shared, AtMostOnePair, Lowest;
    if displaced != {} {
      var p, q := Lowest(d).value, Lowest(d').value;
      LowestSize(d);
      LowestSize(d');
      LowestIsOnly(d, p);
      LowestIsOnly(d', q);
      TwoNodesAreTwoPairs(root, m, p, q);
    }
  }

  // ---- Hashes of the root ----

  lemma RootPutInShows(comb: Combiner, l: Entry, r: Entry, seen: Seen, m: Contents)
    requires Sides(l, r, 0, m) && m != map[] && [] !in seen && NoClash(comb, Node(l, r), [], seen)
    ensures HashWith(comb, Node(l, r), [], seen) == TreeHash(comb, Node(l, r)) <==>
            HashToSeen(comb, Node(l, r), [], seen)
  {
    TreeHasHash(comb, l, 1, Side(m, 0, true));
    TreeHasHash(comb, r, 1, Side(m, 0, false));
    assert [] + [true] == [true] && [] + [false] == [false];
    PutInShows(comb, l, 1, [true], seen, Side(m, 0, true));
    PutInShows(comb, r, 1, [false], seen, Side(m, 0, false));
  }

  /** No node in `out` has the hash of a new node. */
  ghost predicate NoneLooksNew(comb: Combiner, e: Entry, path: Path, out: set<Path>) {
    match e
    case Node(l, r) =>
      && (path in out ==> TreeHash(comb, e) != Some(NewHash()))
      && NoneLooksNew(comb, l, path + [true], out) && NoneLooksNew(comb, r, path + [false], out)
    case _ => true
  }

  lemma {:induction false} LeftOutNode(comb: Combiner, e: Entry, path: Path, out: set<Path>, q: Path)
    requires NoneLooksNew(comb, e, path, out) && HasNode(e, q) && path + q in out
    ensures !HashToSeen(comb, e, path, New(out))
    decreases q
  {
    if q == [] {
      assert path + q == path;
    } else if path !in out {
      assert path + [q[0]] + q[1..] == path + q;
      LeftOutNode(comb, if q[0] then e.left else e.right, path + [q[0]], out, q[1..]);
    }
  }

  /** Unless hashes clash, leaving out nodes of the tree gives its hash exactly if there are none to leave out. */
  lemma RightExactlyIfComplete(comb: Combiner, l: Entry, r: Entry, out: set<Path>, m: Contents)
    requires Sides(l, r, 0, m) && m != map[] && (forall p :: p in out ==> p != [] && HasNode(Node(l, r), p))
    requires NoClash(comb, Node(l, r), [], New(out)) && NoneLooksNew(comb, Node(l, r), [], out)
    ensures HashWith(comb, Node(l, r), [], New(out)) == TreeHash(comb, Node(l, r)) <==> out == {}
  {
    hide Sides, NoClash, NoneLooksNew, HashToSeen, HashWith, TreeHash, HasNode, New;
    RootPutInShows(comb, l, r, New(out), m);
    if out == {} {
      assert New(out) == map[];
      NothingPutIn(comb, Node(l, r), []);
    } else {
      var p :| p in out;
      assert [] + p == p;
      LeftOutNode(comb, Node(l, r), [], out, p);
    }
  }

  // ---- What the tree keeps ----

  lemma InsertKeepsContents(n: Cached, key: TreeKey, hash: Hash, m: Contents)
    requires n.CNode? && OnPath(Strip(n), []) && Sides(Strip(n.left), Strip(n.right), 0, m)
    ensures var r := InsertAtNode(n, [], key, hash).node;
            OnPath(Strip(r), []) && Sides(Strip(r.left), Strip(r.right), 0, m[key := hash])
  {
    PutInNode(Strip(n.left), Strip(n.right), 0, key, hash, [], m);
  }

  lemma InsertKeepsNodes(n: Cached, key: TreeKey, hash: Hash, touched: set<Path>)
    requires n.CNode? && OnPath(Strip(n), []) && forall p :: p in touched ==> HasNode(Strip(n), p)
    ensures var r := InsertAtNode(n, [], key, hash);
            && (forall p :: p in touched + Marked(r.marks) ==> HasNode(Strip(r.node), p))
            && (forall p :: p in r.marks ==> |p| <= 255 && (|p| == 255 ==> p == Twin(key)))
  {
    hide OnPath, HasNode;
    var r := InsertAtNode(n, [], key, hash);
    forall p: Path
      ensures p in touched + Marked(r.marks) ==> HasNode(Strip(r.node), p)
      ensures p in r.marks ==> |p| <= 255 && (|p| == 255 ==> p == Twin(key))
    {
      MarksAreNodes(n, [], key, hash, p);
      assert p[0..] == p;
    }
  }

  lemma InsertMarksTwin(n: Cached, key: TreeKey, hash: Hash, m: Contents)
    requires n.CNode? && OnPath(Strip(n), []) && Sides(Strip(n.left), Strip(n.right), 0, m)
    ensures Twin(key) in InsertAtNode(n, [], key, hash).marks <==>
            IsPair(m[key := hash], Twin(key)) && !(key in m && m[key] == hash)
  {
    hide Bit, OnPath, HasNode;
    var r, p := InsertAtNode(n, [], key, hash), Twin(key);
    MarksAreNodes(n, [], key, hash, p);
    MarksMeanChange(n, [], key, hash, m);
    InsertKeepsContents(n, key, hash, m);
    RootNodes(Strip(r.node.left), Strip(r.node.right), m[key := hash], p);
    assert p[0..] == p;
    if IsPair(m[key := hash], p) && r.marks != [] {
      LowestNodeIsMarked(n, [], key, hash, p);
    }
  }

  /** The notes after an insert: a node of height 255 that is marked is noted with the hash that was there before. */
  function NoteSeen(seen: Seen, root: Cached, key: TreeKey, marks: seq<Path>): Seen {
    if Twin(key) in marks && Twin(key) !in seen then seen[Twin(key) := StoredAt(root, Twin(key))] else seen
  }

  ghost predicate NotesGrow(seen: Seen, seen': Seen, root: Cached, key: TreeKey) {
    && seen.Keys <= seen'.Keys <= seen.Keys + {Twin(key)}
    && forall p :: p in seen' ==> seen'[p] == if p in seen then seen[p] else StoredAt(root, p)
  }

  lemma NotesAgree(root: Cached, seen: Seen, key: TreeKey, marks: seq<Path>)
    requires AllLowest(seen.Keys)
    ensures var seen' := NoteSeen(seen, root, key, marks);
            && Noted(seen, seen', key) && NotedAs(root, [], seen, seen', key) && AllLowest(seen'.Keys)
            && NotesGrow(seen, seen', root, key)
  {
    var twin := Twin(key);
    assert twin <= Bits(key) && twin[0..] == twin;
  }

  lemma InsertKeepsSettled(comb: Combiner, n: Cached, key: TreeKey, hash: Hash, m: Contents, own: set<Path>,
                           kids: set<Path>, seen: Seen, own': set<Path>, kids': set<Path>)
    requires n.CNode? && OnPath(Strip(n), []) && AllLowest(seen.Keys) && forall p :: p in seen ==> HasNode(Strip(n), p)
    requires if m == map[] then n.left.CNil? && n.right.CNil? else Live(n) && Settled(comb, n, [], own, kids, seen)
    requires own <= own' && kids <= kids'
    requires var marks := InsertAtNode(n, [], key, hash).marks;
             MarksKept(marks, own', kids', NoteSeen(seen, n, key, marks))
    ensures var r := InsertAtNode(n, [], key, hash);
            Live(r.node) && Settled(comb, r.node, [], own', kids', NoteSeen(seen, n, key, r.marks))
  {
    hide Bits, Twin, HasNode, NoteSeen, Noted, NotedAs, MarksKept, AllLowest;
    var marks := InsertAtNode(n, [], key, hash).marks;
    NotesAgree(n, seen, key, marks);
    SeenAtRoot(n, seen);
    NodeStaysLive(n, [], key, hash);
    NodeStaysSettled(comb, n, [], key, hash, own, kids, seen, own', kids', NoteSeen(seen, n, key, marks));
  }

  lemma SeenAtRoot(n: Cached, seen: Seen)
    requires forall p :: p in seen ==> HasNode(Strip(n), p)
    ensures SeenNodes(n, [], seen)
  {
    forall p | p in seen ensures HasNode(Strip(n), p[0..]) {
      assert p[0..] == p;
    }
  }

  /** The nodes that are noted are the dirty one of height 255 and the displaced ones. */
  lemma {:induction false} NotesAccounted(
    d: DirtyMap, displaced: set<Path>, seen: Seen, root: Cached, key: TreeKey, marks: seq<Path>)
    requires Keyed(d) && forall p :: p in marks ==> |p| <= 255 && (|p| == 255 ==> p == Twin(key))
    requires forall p :: p in displaced ==> |p| == 255 && p !in d.Values
    requires seen.Keys == displaced + AsSet(Lowest(d))
    ensures var d' := DirtyAll(d, marks);
            var displaced' := displaced + AsSet(Lowest(d)) - AsSet(Lowest(d'));
            var seen' := NoteSeen(seen, root, key, marks);
            && seen'.Keys == displaced' + AsSet(Lowest(d')) && AllLowest(seen.Keys)
            && d.Values - seen.Keys <= d'.Values - seen'.Keys
            && MarksKept(marks, d'.Values + displaced', d'.Values - seen'.Keys, seen')
  {
    hide DirtyAll, Keyed, Lowest, Bits;
    DirtyMarks(d, marks, Twin(key));
    LowestSize(d);
    forall p: Path | |p| == 255 ensures p in d.Values <==> Lowest(d) == Some(p) {
      LowestIsOnly(d, p);
    }
  }

  lemma InsertKeepsFresh(n: Cached, key: TreeKey, hash: Hash, touched: set<Path>, m: Contents, updated: bool)
    requires n.CNode? && OnPath(Strip(n), [])
    requires m == map[] ==> n == CNode(NewHash(), CNil, CNil)
    requires m != map[] && !updated ==> Fresh(n, [], touched)
    ensures m == map[] || !updated ==>
              var r := InsertAtNode(n, [], key, hash);
              Fresh(r.node, [], touched + Marked(r.marks))
  {
    if m == map[] || !updated {
      NodeStaysFresh(n, [], key, hash, touched);
    }
  }

  ghost function AtHeight(d: DirtyMap, h: nat): set<TreeKey> {
    set k | k in d && |d[k]| == h
  }

  lemma FewerAtHeight(d: DirtyMap, n: Path)
    requires Keyed(d) && n in d.Values && forall p :: p in d.Values ==> |p| <= |n|
    ensures |AtHeight(CleanUp(d, n), |n|)| < |AtHeight(d, |n|)|
    ensures forall p :: p in CleanUp(d, n).Values ==> |p| <= |n|
  {
    CleanUpValues(d, n);
    hide NodeKey;
    var k :| k in d && d[k] == n;
    assert k in AtHeight(d, |n|);
    forall j | j in AtHeight(CleanUp(d, n), |n|) ensures j in AtHeight(d, |n|) && j != k {
    }
    assert AtHeight(CleanUp(d, n), |n|) <= AtHeight(d, |n|) - {k};
    Subset(AtHeight(CleanUp(d, n), |n|), AtHeight(d, |n|) - {k});
  }

  lemma Subset(a: set<TreeKey>, b: set<TreeKey>)
    requires a <= b
    ensures |a| <= |b|
  {
    assert b == a + (b - a);
  }

  lemma {:induction false} ParentIsNode(e: Entry, n: Path)
    requires HasNode(e, n)
    ensures n != [] ==> HasNode(e, DropLast(n))
    decreases n
  {
    if |n| > 1 {
      ParentIsNode(if n[0] then e.left else e.right, n[1..]);
      assert DropLast(n)[1..] == DropLast(n[1..]);
    }
  }

  /** The first node of GetDirtyList. */
  method Highest(dirty: DirtyMap) returns (n: Path)
    requires dirty != map[]
    ensures n in dirty.Values && forall p :: p in dirty.Values ==> |p| <= |n|
  {
    var first :| first in dirty.Keys;
    n := dirty[first];
    var rest := dirty.Keys;
    while rest != {}
      invariant rest <= dirty.Keys && n in dirty.Values
      invariant forall k :: k in dirty.Keys && k !in rest ==> |dirty[k]| <= |n|
      decreases |rest|
    {
      var k :| k in rest;
      n := if |dirty[k]| > |n| then dirty[k] else n;
      rest := rest - {k};
    }
  }

  ghost function HeightBound(dirty: set<Path>): (h: nat)
    ensures forall p :: p in dirty ==> |p| <= h
    decreases |dirty|
  {
    if dirty == {} then 0
    else
      var p :| p in dirty;
      var rest := HeightBound(dirty - {p});
      if |p| < rest then rest else |p|
  }

  /** What holds between calls: `d` is the dirty map, `displaced` are the nodes of height 255 that another one displaced
      from it, and `seen` are the hashes that their parents last used. */
  ghost predicate Ok(comb: Combiner, root: Cached, m: Contents, d: DirtyMap, displaced: set<Path>, seen: Seen,
                     updated: bool)
  {
    && InRound(comb, root, m, d, displaced, seen)
    && OnPath(Strip(root), []) && Sides(Strip(root.left), Strip(root.right), 0, m)
    && (m == map[] ==> !updated) && (displaced != {} ==> !AtMostOnePair(m))
    && (!updated && m != map[] ==> Fresh(root, [], d.Values + displaced) && (displaced != {} ==> Lowest(d).Some?))
  }

  /** What also holds in the middle of an update. */
  ghost predicate InRound(comb: Combiner, root: Cached, m: Contents, d: DirtyMap, displaced: set<Path>, seen: Seen) {
    var touched := d.Values + displaced;
    && root.CNode? && Keyed(d) && seen.Keys == displaced + AsSet(Lowest(d))
    && (forall p :: p in displaced ==> |p| == 255 && p !in d.Values)
    && (forall p :: p in touched ==> HasNode(Strip(root), p))
    && (if m == map[] then root == CNode(NewHash(), CNil, CNil) && d == map[] && displaced == {}
        else Live(root) && Settled(comb, root, [], touched, d.Values - seen.Keys, seen))
  }

  /** And in the first update. */
  ghost predicate InFirstRound(comb: Combiner, root: Cached, d: DirtyMap, displaced: set<Path>) {
    Settled(comb, root, [], d.Values + displaced, d.Values, map[]) && Untouched(root, [], displaced)
  }

  /** What a first update leaves: every stored hash is that of the children, except that the displaced nodes have
      the hash of a new node. */
  ghost predicate LeftOut(comb: Combiner, root: Cached, displaced: set<Path>) {
    Settled(comb, root, [], displaced, {}, map[]) && Untouched(root, [], displaced)
  }

  lemma LowestIsNode(root: Cached, d: DirtyMap, displaced: set<Path>, seen: Seen)
    requires Keyed(d) && seen.Keys == displaced + AsSet(Lowest(d))
    requires forall p :: p in d.Values + displaced ==> HasNode(Strip(root), p)
    ensures forall p :: p in seen ==> HasNode(Strip(root), p)
  {
    hide HasNode, Keyed, Lowest;
    LowestSize(d);
    if Lowest(d).Some? {
      LowestIsOnly(d, Lowest(d).value);
    }
  }

  /** The part of that which does not depend on whether there was an update. */
  lemma {:induction false} InsertKeepsRound(
    comb: Combiner, root: Cached, m: Contents, d: DirtyMap, displaced: set<Path>, seen: Seen,
    key: TreeKey, hash: Hash, r: Inserted, d': DirtyMap, displaced': set<Path>, seen': Seen)
    requires InRound(comb, root, m, d, displaced, seen) && OnPath(Strip(root), [])
    requires r == InsertAtNode(root, [], key, hash)
    requires d' == DirtyAll(d, r.marks) && seen' == NoteSeen(seen, root, key, r.marks)
    requires displaced' == displaced + AsSet(Lowest(d)) - AsSet(Lowest(d'))
    ensures InRound(comb, r.node, m[key := hash], d', displaced', seen')
    ensures Lowest(d') == if Twin(key) in r.marks then Some(Twin(key)) else Lowest(d)
    ensures d'.Values + displaced' == d.Values + displaced + Marked(r.marks)
    ensures displaced' != {} ==> Lowest(d').Some? || displaced != {}
    ensures NotesGrow(seen, seen', root, key)
  {
    hide Bits, Settled, OnPath, HasNode, Keyed, DirtyAll, Live, Lowest, Twin, NoteSeen, MarksKept, AllLowest, NotesGrow,
         Noted, NotedAs, InsertAtNode, AsSet, Marked;
    var touched := d.Values + displaced;
    InsertKeepsNodes(root, key, hash, touched);
    TouchedGrows(d, displaced, r.marks, Twin(key));
    NotesAccounted(d, displaced, seen, root, key, r.marks);
    NotesAgree(root, seen, key, r.marks);
    LowestIsNode(root, d, displaced, seen);
    InsertKeepsSettled(comb, root, key, hash, m, touched, d.Values - seen.Keys, seen, d'.Values + displaced',
                       d'.Values - seen'.Keys);
    assert key in m[key := hash];
  }

  lemma {:induction false} InsertKeepsOk(comb: Combiner, root: Cached, m: Contents, d: DirtyMap, displaced: set<Path>,
                                         seen: Seen, updated: bool, key: TreeKey, hash: Hash)
    requires Ok(comb, root, m, d, displaced, seen, updated)
    ensures var r := InsertAtNode(root, [], key, hash);
            var d' := DirtyAll(d, r.marks);
            var displaced' := displaced + AsSet(Lowest(d)) - AsSet(Lowest(d'));
            && Ok(comb, r.node, m[key := hash], d', displaced', NoteSeen(seen, root, key, r.marks), updated)
            && NotesGrow(seen, NoteSeen(seen, root, key, r.marks), root, key)
            && Lowest(d') == (if IsPair(m[key := hash], Twin(key)) && !(key in m && m[key] == hash) then Some(Twin(key))
                              else Lowest(d))
  {
    assert InRound(comb, root, m, d, displaced, seen) && OnPath(Strip(root), []);
    hide Bits, Bit, Settled, Represents, OnPath, Fresh, HasNode, Keyed, DirtyAll, Shared, Live, Sides, Lowest, Twin,
         AtMostOnePair, NoteSeen, NotesGrow, IsPair;
    var r := InsertAtNode(root, [], key, hash);
    var d' := DirtyAll(d, r.marks);
    var displaced' := displaced + AsSet(Lowest(d)) - AsSet(Lowest(d'));
    InsertKeepsRound(comb, root, m, d, displaced, seen, key, hash, r, d', displaced',
                     NoteSeen(seen, root, key, r.marks));
    InsertKeepsContents(root, key, hash, m);
    InsertMarksTwin(root, key, hash, m);
    InsertKeepsFresh(root, key, hash, d.Values + displaced, m, updated);
    OldNodesStay(root, d.Values, key, hash);
    InsertKeepsPairs(r.node, m, d, d', displaced, key, hash);
    assert key in m[key := hash];
  }

  lemma OldNodesStay(root: Cached, touched: set<Path>, key: TreeKey, hash: Hash)
    requires root.CNode? && OnPath(Strip(root), []) && forall p :: p in touched ==> HasNode(Strip(root), p)
    ensures forall p :: p in touched ==> HasNode(Strip(InsertAtNode(root, [], key, hash).node), p)
  {
    hide OnPath, HasNode;
    InsertKeepsNodes(root, key, hash, touched);
  }

  lemma InsertKeepsPairs(root: Cached, m: Contents, d: DirtyMap, d': DirtyMap, displaced: set<Path>,
                         key: TreeKey, hash: Hash)
    requires root.CNode? && Sides(Strip(root.left), Strip(root.right), 0, m[key := hash]) && Keyed(d) && Keyed(d')
    requires forall p :: p in d.Values + d'.Values ==> HasNode(Strip(root), p)
    requires displaced != {} ==> !AtMostOnePair(m)
    requires displaced + AsSet(Lowest(d)) - AsSet(Lowest(d')) != {} ==> Lowest(d').Some? || displaced != {}
    ensures displaced + AsSet(Lowest(d)) - AsSet(Lowest(d')) != {} ==> !AtMostOnePair(m[key := hash])
  {
    hide Bits, Keyed, Sides, HasNode, AtMostOnePair, Lowest;
    if displaced != {} {
      PairsPersist(m, key, hash);
    } else if Lowest(d').Some? {
      DisplacedMeansPairs(root, m[key := hash], d, d', AsSet(Lowest(d)) - AsSet(Lowest(d')));
    }
  }

  lemma RoundKeeps(comb: Combiner, root: Cached, m: Contents, d: DirtyMap, displaced: set<Path>, seen: Seen, n: Path)
    requires InRound(comb, root, m, d, displaced, seen) && n in d.Values
    ensures Live(root) && Keyed(d)
    ensures InRound(comb, Rehash(comb, root, [], n), m, CleanUp(d, n), displaced, Refresh(seen, root, n))
    ensures InFirstRound(comb, root, d, displaced) ==>
              InFirstRound(comb, Rehash(comb, root, [], n), CleanUp(d, n), displaced)
  {
    hide Settled, HasNode, Keyed, Live, Untouched, Rehash, CleanUp, Refresh, Refreshed, Lowest;
    var touched, seen' := d.Values + displaced, Refresh(seen, root, n);
    CleanUpValues(d, n);
    ParentIsNode(Strip(root), n);
    KeyedSize(d, n);
    RefreshAgrees(root, n, seen);
    NotesAfterRound(root, d, displaced, seen, n);
    RehashKeepsSettled(comb, root, [], n, touched, d.Values - seen.Keys, seen, seen');
    if InFirstRound(comb, root, d, displaced) {
      RehashKeepsSettled(comb, root, [], n, touched, d.Values, map[], map[]);
      RehashElsewhere(comb, root, [], n, displaced);
    }
    assert CleanUp(d, n).Values + displaced == touched - {n} + ParentOf(n);
  }

  lemma NotesAfterRound(root: Cached, d: DirtyMap, displaced: set<Path>, seen: Seen, n: Path)
    requires Keyed(d) && n in d.Values && seen.Keys == displaced + AsSet(Lowest(d))
    requires forall p :: p in displaced ==> |p| == 255 && p !in d.Values
    ensures var d', seen' := CleanUp(d, n), Refresh(seen, root, n);
            && Lowest(d') == (if |n| == 255 then None else Lowest(d))
            && seen'.Keys == displaced + AsSet(Lowest(d'))
            && d'.Values - seen'.Keys == d.Values - seen.Keys - {n} + ParentOf(n)
  {
    hide Keyed, CleanUp, Lowest;
    var d', seen' := CleanUp(d, n), Refresh(seen, root, n);
    CleanUpValues(d, n);
    KeyedSize(d, n);
    LowestSize(d);
    LowestSize(d');
    forall p: Path | |p| == 255
      ensures (p in d.Values <==> Lowest(d) == Some(p)) && (p in d'.Values <==> Lowest(d') == Some(p))
    {
      LowestIsOnly(d, p);
      LowestIsOnly(d', p);
    }
    assert n !in ParentOf(n) && forall p :: p in ParentOf(n) ==> |p| < 255;
    hide Refresh;
    NotesOf(seen, root, n);
    LowestAfterRound(d, d', n);
  }

  lemma NotesOf(seen: Seen, root: Cached, n: Path)
    ensures Refresh(seen, root, n).Keys == seen.Keys - {n}
  {
  }

  lemma LowestAfterRound(d: DirtyMap, d': DirtyMap, n: Path)
    requires |n| <= 255 && n in d.Values && d'.Values == d.Values - {n} + ParentOf(n)
    requires forall p: Path :: |p| == 255 ==>
               (p in d.Values <==> Lowest(d) == Some(p)) && (p in d'.Values <==> Lowest(d') == Some(p))
    requires Lowest(d).Some? ==> |Lowest(d).value| == 255
    requires Lowest(d').Some? ==> |Lowest(d').value| == 255
    ensures Lowest(d') == if |n| == 255 then None else Lowest(d)
  {
    hide Lowest;
    if Lowest(d').Some? {
      var p := Lowest(d').value;
      assert p in d'.Values && p !in ParentOf(n);
    }
    if Lowest(d).Some? && |n| < 255 {
      var p := Lowest(d).value;
      assert p in d.Values && p in d'.Values;
    }
  }

  // ---- The hashes that parents use ----

  /** The parent of a node of height 255 will be rehashed: it is dirty, or the other child is. */
  predicate Due(d: DirtyMap, p: Path) {
    && p != []
    && (|| DropLast(p) in d.Values
        || (Lowest(d).Some? && Lowest(d).value != [] && DropLast(Lowest(d).value) == DropLast(p)))
  }

  /** The hash that the parent of a displaced node will have used after the update. */
  function Ahead(root: Cached, d: DirtyMap, seen: Seen, p: Path): Hash
    requires p in seen
  {
    if Due(d, p) then StoredAt(root, p) else seen[p]
  }

  /** The update will leave the same hashes in use. */
  ghost predicate SameAhead(displaced: set<Path>, root: Cached, d: DirtyMap, seen: Seen, root': Cached, d': DirtyMap,
                            seen': Seen)
  {
    forall p :: p in displaced ==> p in seen && p in seen' && Ahead(root, d, seen, p) == Ahead(root', d', seen', p)
  }

  lemma {:induction false} RoundKeepsAhead(
    comb: Combiner, root: Cached, m: Contents, d: DirtyMap, displaced: set<Path>, seen: Seen, n: Path, p: Path)
    requires InRound(comb, root, m, d, displaced, seen) && n in d.Values && p in displaced && Live(root)
    requires forall q :: q in d.Values ==> |q| <= |n|
    ensures p in seen && p in Refresh(seen, root, n)
    ensures Ahead(Rehash(comb, root, [], n), CleanUp(d, n), Refresh(seen, root, n), p) == Ahead(root, d, seen, p)
  {
    hide Settled, HasNode, Keyed, Live, Rehash, CleanUp, Lowest, Sub;
    var d' := CleanUp(d, n);
    CleanUpValues(d, n);
    KeyedSize(d, n);
    NotesAfterRound(root, d, displaced, seen, n);
    assert [] + p == p;
    RehashSub(comb, root, [], n, p);
    LowestSize(d);
    if Lowest(d).Some? {
      LowestIsOnly(d, Lowest(d).value);
    }
    if |n| == 255 {
      LowestIsOnly(d, n);
    }
    assert Due(d', p) <==> Due(d, p) && DropLast(p) != n;
  }

  ghost predicate NotesUpdated(displaced: set<Path>, root: Cached, d: DirtyMap, seen: Seen, seen': Seen) {
    forall p :: p in displaced ==> p in seen && p in seen' && seen'[p] == Ahead(root, d, seen, p)
  }

  /** One round of an update. */
  lemma {:induction false} Round(
    comb: Combiner, root: Cached, m: Contents, d: DirtyMap, displaced: set<Path>, seen: Seen, n: Path, root0: Cached,
    d0: DirtyMap, seen0: Seen)
    requires InRound(comb, root, m, d, displaced, seen) && n in d.Values && forall p :: p in d.Values ==> |p| <= |n|
    requires SameAhead(displaced, root, d, seen, root0, d0, seen0)
    ensures var root', d', seen' := Rehash(comb, root, [], n), CleanUp(d, n), Refresh(seen, root, n);
            && Live(root) && InRound(comb, root', m, d', displaced, seen')
            && (InFirstRound(comb, root, d, displaced) ==> InFirstRound(comb, root', d', displaced))
            && SameAhead(displaced, root', d', seen', root0, d0, seen0)
            && |AtHeight(d', |n|)| < |AtHeight(d, |n|)| && (forall p :: p in d'.Values ==> |p| <= |n|)
  {
    hide Ahead, Refresh, CleanUp, Rehash, InFirstRound, AtHeight, Live, InRound, Keyed;
    RoundKeeps(comb, root, m, d, displaced, seen, n);
    FewerAtHeight(d, n);
    var root', d', seen' := Rehash(comb, root, [], n), CleanUp(d, n), Refresh(seen, root, n);
    forall p | p in displaced
      ensures p in seen && p in seen' && Ahead(root', d', seen', p) == Ahead(root, d, seen, p)
    {
      RoundKeepsAhead(comb, root, m, d, displaced, seen, n, p);
    }
  }

  /** Before the first update every parent of a displaced node is dirty. */
  lemma FirstAhead(comb: Combiner, root: Cached, m: Contents, d: DirtyMap, displaced: set<Path>, seen: Seen, p: Path)
    requires Ok(comb, root, m, d, displaced, seen, false) && m != map[] && p in displaced
    requires InFirstRound(comb, root, d, displaced)
    ensures p in seen && Ahead(root, d, seen, p) == NewHash()
  {
    hide Settled, Keyed, Live, Sides, OnPath, Lowest, Untouched, AtMostOnePair, Fresh;
    var touched := d.Values + displaced;
    ParentIsNode(Strip(root), p);
    FreshNodes(root, [], touched, DropLast(p));
    assert [] + DropLast(p) == DropLast(p) && [] + p == p;
    SubIsNode(root, p);
    UntouchedAt(root, [], displaced, p);
  }

  lemma {:induction false} SubIsNode(e: Cached, q: Path)
    requires HasNode(Strip(e), q)
    ensures Sub(e, q).CNode?
    decreases q
  {
    if q != [] {
      SubIsNode(if q[0] then e.left else e.right, q[1..]);
    }
  }

  /** Where the rounds end. */
  lemma RoundsEnd(comb: Combiner, root: Cached, m: Contents, displaced: set<Path>, seen: Seen)
    requires InRound(comb, root, m, map[], displaced, seen) && m != map[]
    ensures seen.Keys == displaced && Settled(comb, root, [], displaced, {}, seen)
    ensures Some(root.hash) == HashWith(comb, Strip(root), [], seen)
    ensures displaced == {} ==> Some(root.hash) == TreeHash(comb, Strip(root))
    ensures displaced == {} || InFirstRound(comb, root, map[], displaced) ==> LeftOut(comb, root, displaced)
  {
    hide Settled, Untouched, HashWith, TreeHash;
    var d: DirtyMap := map[];
    assert seen.Keys == displaced && d.Values + displaced == displaced && d.Values == {} && d.Values - seen.Keys == {};
    StoredIsHashWith(comb, root, [], seen);
    if displaced == {} {
      assert seen == map[];
      NothingPutIn(comb, Strip(root), []);
      NothingTouched(root, []);
    }
  }

  lemma {:induction false} NothingTouched(e: Cached, path: Path)
    ensures Untouched(e, path, {})
  {
    if e.CNode? {
      NothingTouched(e.left, path + [true]);
      NothingTouched(e.right, path + [false]);
    }
  }

  lemma FirstRound(comb: Combiner, root: Cached, m: Contents, d: DirtyMap, displaced: set<Path>, seen: Seen)
    requires Ok(comb, root, m, d, displaced, seen, false) && m != map[]
    ensures InFirstRound(comb, root, d, displaced)
    ensures displaced == {} <==> AtMostOnePair(m)
    ensures forall p :: p in displaced <==> IsPair(m, p) && Lowest(d) != Some(p)
  {
    hide Settled, HasNode, Keyed, Live, Untouched, Fresh, OnPath, Sides, AtMostOnePair, IsPair, Lowest;
    OnePair(root, m, d, displaced);
    forall p ensures p in displaced <==> IsPair(m, p) && Lowest(d) != Some(p) {
      DisplacedPairs(root, m, d, displaced, p);
    }
    FreshIsSettled(comb, root, [], d.Values + displaced, d.Values, map[]);
    FreshIsUntouched(root, [], d.Values + displaced, displaced);
  }

  lemma RootIsNode(comb: Combiner, root: Cached, m: Contents, d: DirtyMap, displaced: set<Path>, seen: Seen,
                   updated: bool)
    requires Ok(comb, root, m, d, displaced, seen, updated)
    ensures root.CNode? && OnPath(Strip(root), []) && Sides(Strip(root.left), Strip(root.right), 0, m)
  {
  }

  lemma StartRounds(comb: Combiner, root: Cached, m: Contents, d: DirtyMap, displaced: set<Path>, seen: Seen,
                    updated: bool)
    requires Ok(comb, root, m, d, displaced, seen, updated)
    ensures root.CNode? && InRound(comb, root, m, d, displaced, seen)
    ensures displaced != {} ==> !AtMostOnePair(m)
    ensures forall p :: p in displaced ==> p in seen
    ensures m != map[] && !updated ==>
              && InFirstRound(comb, root, d, displaced) && (displaced == {} <==> AtMostOnePair(m))
              && (forall p :: p in displaced <==> IsPair(m, p) && Lowest(d) != Some(p))
              && (forall p :: p in displaced && p in seen ==> Ahead(root, d, seen, p) == NewHash())
    ensures SameAhead(displaced, root, d, seen, root, d, seen)
  {
    hide InFirstRound, AtMostOnePair, IsPair, Lowest, Ahead, Settled, Keyed, HasNode;
    RootIsNode(comb, root, m, d, displaced, seen, updated);
    if m != map[] && !updated {
      FirstRound(comb, root, m, d, displaced, seen);
      forall p | p in displaced && p in seen ensures Ahead(root, d, seen, p) == NewHash() {
        FirstAhead(comb, root, m, d, displaced, seen, p);
      }
    }
  }

  /** What the root hash is then. */
  lemma RootHashExactly(comb: Combiner, root: Cached, m: Contents, displaced: set<Path>, seen: Seen)
    requires InRound(comb, root, m, map[], displaced, seen) && m != map[]
    requires Sides(Strip(root.left), Strip(root.right), 0, m)
    ensures NoClash(comb, Strip(root), [], seen) ==>
              (Some(root.hash) == TreeHash(comb, Strip(root)) <==> HashToSeen(comb, Strip(root), [], seen))
    ensures seen == New(displaced)
            && NoClash(comb, Strip(root), [], seen) && NoneLooksNew(comb, Strip(root), [], displaced) ==>
              (Some(root.hash) == TreeHash(comb, Strip(root)) <==> displaced == {})
  {
    RoundsEnd(comb, root, m, displaced, seen);
    assert forall p :: p in displaced ==> p != [] && HasNode(Strip(root), p);
    assert Strip(root) == Node(Strip(root.left), Strip(root.right));
    hide *;
    if NoClash(comb, Strip(root), [], seen) {
      RootPutInShows(comb, Strip(root.left), Strip(root.right), seen, m);
      if seen == New(displaced) && NoneLooksNew(comb, Strip(root), [], displaced) {
        RightExactlyIfComplete(comb, Strip(root.left), Strip(root.right), displaced, m);
      }
    }
  }

  lemma {:induction false} EndRounds(
    comb: Combiner, root: Cached, m: Contents, displaced: set<Path>, seen: Seen, updated: bool, was: Cached,
    d: DirtyMap, before: Seen)
    requires InRound(comb, root, m, map[], displaced, seen) && Ok(comb, was, m, d, displaced, before, updated)
    requires Strip(root) == Strip(was)
    requires m != map[] && !updated ==>
               && InFirstRound(comb, root, map[], displaced)
               && forall p :: p in displaced && p in before ==> Ahead(was, d, before, p) == NewHash()
    requires SameAhead(displaced, root, map[], seen, was, d, before)
    ensures Ok(comb, root, m, map[], displaced, seen, m != map[]) && Sides(Strip(root.left), Strip(root.right), 0, m)
    ensures seen.Keys == displaced && NotesUpdated(displaced, was, d, before, seen)
    ensures m != map[] && !updated ==> seen == New(displaced)
    ensures m != map[] ==> Settled(comb, root, [], displaced, {}, seen)
    ensures m != map[] ==> Some(root.hash) == HashWith(comb, Strip(root), [], seen)
    ensures m != map[] && displaced == {} ==> Some(root.hash) == TreeHash(comb, Strip(root))
    ensures m != map[] && (!updated || displaced == {}) ==> LeftOut(comb, root, displaced)
  {
    hide InFirstRound, Settled, HashWith, TreeHash, LeftOut, AtMostOnePair, New, Ahead, Fresh, OnPath, Sides, Keyed,
         HasNode, Live;
    NothingDue(comb, root, m, displaced, seen);
    if m != map[] {
      RoundsEnd(comb, root, m, displaced, seen);
      if !updated {
        AllNew(seen, displaced);
      }
    }
  }

  lemma ReceiptOfFirstUpdate(comb: Combiner, root: Cached, m: Contents, d: DirtyMap, displaced: set<Path>,
                             seen: Seen, updated: bool, key: TreeKey)
    requires Ok(comb, root, m, d, displaced, seen, updated) && key in m && LeftOut(comb, root, displaced)
    requires Collect(root, 0, key).Some?
    ensures Twin(key) !in displaced ==> WayUpToDate(comb, root, 0, key)
    ensures Twin(key) in displaced ==> StartsAtPair(Collect(root, 0, key).value.1, m, key)
    ensures Twin(key) in displaced && ApartFromNew(comb, Collect(root, 0, key).value.1, m[key]) ==>
              ApplyAll(comb, Collect(root, 0, key).value.1, m[key]) != root.hash
  {
    hide Bits, Bit, Settled, Untouched, Represents, OnPath, HasNode, Fresh, Keyed, Live, Twin, WayUpToDate, Collect,
         Sides, ApartFromNew, ApplyAll, AtMostOnePair, Other;
    if Twin(key) in displaced {
      RootNodes(Strip(root.left), Strip(root.right), m, Twin(key));
      CollectPastNew(comb, root, [], key, displaced, m);
      if ApartFromNew(comb, Collect(root, 0, key).value.1, m[key]) {
        PastNewIsInvalid(comb, Collect(root, 0, key).value.1, m[key], root.hash);
      }
    } else {
      WayPastOthers(comb, root, [], key, displaced);
    }
  }

  lemma ReceiptOfUpdate(comb: Combiner, root: Cached, m: Contents, displaced: set<Path>, seen: Seen, updated: bool,
                        key: TreeKey)
    requires Ok(comb, root, m, map[], displaced, seen, updated) && key in m
    ensures Fits(comb, root, [], key, seen) || Avoids(key, displaced) ==> Reached(comb, root, 0, key) == root.hash
    ensures NoClashOnWay(comb, root, [], key, seen) ==>
              (Reached(comb, root, 0, key) == root.hash <==> Fits(comb, root, [], key, seen))
  {
    hide Bits, Represents, OnPath, HasNode, Fresh, Avoids, Sides, Settled, Keyed, Live, AtMostOnePair, Fits, Reached,
         NoClashOnWay;
    var d: DirtyMap := map[];
    assert d.Values + displaced == displaced && d.Values - seen.Keys == {} && seen.Keys == displaced;
    ReceiptExactly(comb, root, [], key, seen, m);
    if Avoids(key, displaced) {
      AvoidsFits(comb, root, [], key, seen);
    }
  }

  lemma NothingDue(comb: Combiner, root: Cached, m: Contents, displaced: set<Path>, seen: Seen)
    requires InRound(comb, root, m, map[], displaced, seen)
    ensures seen.Keys == displaced && forall p :: p in seen ==> Ahead(root, map[], seen, p) == seen[p]
  {
    hide Settled, Keyed, HasNode;
  }

  lemma AllNew(seen: Seen, displaced: set<Path>)
    requires seen.Keys == displaced && forall p :: p in seen ==> seen[p] == NewHash()
    ensures seen == New(displaced)
  {
  }

  // ---- The tree object ----

  class BPT {
    const comb: Combiner
    var root: Cached
    var dirty: DirtyMap
    var rootHash: Hash
    ghost var contents: Contents
    ghost var displaced: set<Path>  // nodes of height 255 that another one displaced from the dirty map
    ghost var seen: Seen            // the hashes that the parents of those and of the dirty one last used
    ghost var updated: bool         // a tree with contents was updated

    ghost predicate Valid()
      reads this
    {
      Ok(comb, root, contents, dirty, displaced, seen, updated)
    }

    constructor (comb: Combiner)
      ensures Valid() && contents == map[] && dirty == map[] && displaced == {} && !updated && this.comb == comb
    {
      this.comb := comb;
      root, dirty, rootHash := CNode(NewHash(), CNil, CNil), map[], NewHash();
      contents, displaced, seen, updated := map[], {}, map[], false;
    }

    /** The map gains the key. A node of height 255 on its path is marked exactly if the key has a twin and its
        value is new, and displaces the one marked before. */
    method Insert(key: TreeKey, hash: Hash)
      requires Valid()
      modifies this
      ensures Valid() && contents == old(contents)[key := hash] && updated == old(updated)
      ensures Lowest(dirty) ==
              if IsPair(contents, Twin(key)) && !(key in old(contents) && old(contents)[key] == hash)
              then Some(Twin(key)) else old(Lowest(dirty))
      ensures displaced == old(displaced) + AsSet(old(Lowest(dirty))) - AsSet(Lowest(dirty))
      // A node that is noted for the first time is noted with the hash that was in its place before.
      ensures NotesGrow(old(seen), seen, old(root), key)
    {
      hide Ok, NotesGrow, NoteSeen, Lowest, DirtyAll, IsPair, Twin;
      RootIsNode(comb, root, contents, dirty, displaced, seen, updated);
      InsertKeepsOk(comb, root, contents, dirty, displaced, seen, updated, key, hash);
      var r := InsertAtNode(root, [], key, hash);
      displaced := displaced + AsSet(Lowest(dirty)) - AsSet(Lowest(DirtyAll(dirty, r.marks)));
      seen := NoteSeen(seen, root, key, r.marks);
      root, dirty := r.node, DirtyAll(dirty, r.marks);
      contents := contents[key := hash];
    }

    /** Afterwards every stored hash is that of the children, except at displaced nodes, and for their parents a child
        counts with the hash that the parent last used: the stored one if the parent was rehashed in this update,
        and the one from before otherwise. So the root hash is that of the tree with those hashes put in. A first
        update displaces every pair but the one that was marked last, and their parents use the hash of a new node. */
    method Update()
      requires Valid()
      modifies this
      ensures Valid() && contents == old(contents) && dirty == map[] && displaced == old(displaced)
      ensures Strip(root) == old(Strip(root)) && rootHash == root.hash && updated == (contents != map[])
      ensures seen.Keys == displaced && NotesUpdated(displaced, old(root), old(dirty), old(seen), seen)
      ensures contents != map[] ==> Settled(comb, root, [], displaced, {}, seen)
      ensures contents != map[] ==> Some(rootHash) == HashWith(comb, Strip(root), [], seen)
      // Unless hashes clash, it is right exactly if those hashes are.
      ensures contents != map[] && NoClash(comb, Strip(root), [], seen) ==>
                (Some(rootHash) == TreeHash(comb, Strip(root)) <==> HashToSeen(comb, Strip(root), [], seen))
      ensures contents != map[] && displaced == {} ==> Some(rootHash) == TreeHash(comb, Strip(root))
      ensures contents != map[] && AtMostOnePair(contents) ==> Some(rootHash) == TreeHash(comb, Strip(root))
      ensures contents != map[] && (!old(updated) || displaced == {}) ==> LeftOut(comb, root, displaced)
      ensures contents != map[] && !old(updated) ==> seen == New(displaced)
      ensures contents != map[] && !old(updated) ==>
                forall p :: p in displaced <==> IsPair(contents, p) && old(Lowest(dirty)) != Some(p)
      // So, unless hashes clash, the first root hash is right exactly if at most one pair of keys differs in
      // the last bit only.
      ensures contents != map[] && !old(updated)
              && NoClash(comb, Strip(root), [], seen) && NoneLooksNew(comb, Strip(root), [], displaced) ==>
                (Some(rootHash) == TreeHash(comb, Strip(root)) <==> AtMostOnePair(contents))
    {
      hide Ok, InRound, InFirstRound, Settled, AtMostOnePair, CleanUp, Rehash, Live, NoClash, NoneLooksNew, HashWith,
           LeftOut, IsPair, Lowest, Ahead, Refresh, New, HashToSeen, SameAhead, TreeHash, AtHeight, NotesUpdated,
           Sides;
      StartRounds(comb, root, contents, dirty, displaced, seen, updated);
      ghost var bound: nat := HeightBound(dirty.Values);
      while dirty != map[]
        invariant Strip(root) == old(Strip(root)) && root.CNode?
        invariant contents == old(contents) && displaced == old(displaced) && updated == old(updated)
        invariant InRound(comb, root, contents, dirty, displaced, seen)
        invariant contents != map[] && !updated ==> InFirstRound(comb, root, dirty, displaced)
        invariant SameAhead(displaced, root, dirty, seen, old(root), old(dirty), old(seen))
        invariant forall p :: p in dirty.Values ==> |p| <= bound
        decreases bound, |AtHeight(dirty, bound)|
      {
        var n := Highest(dirty);
        Round(comb, root, contents, dirty, displaced, seen, n, old(root), old(dirty), old(seen));
        ghost var seen' := Refresh(seen, root, n);
        root, dirty, seen := Rehash(comb, root, [], n), CleanUp(dirty, n), seen';
        bound := |n|;
      }
      EndRounds(comb, root, contents, displaced, seen, updated, old(root), old(dirty), old(seen));
      if contents != map[] {
        RootHashExactly(comb, root, contents, displaced, seen);
      }
      updated := contents != map[];
      rootHash := root.hash;
    }

    /** GetReceipt: the value that the receipt starts at, and its entries; the anchor is the root's hash. */
    method GetReceipt(key: TreeKey) returns (r: Option<(Hash, seq<ReceiptEntry>)>, anchor: Hash)
      requires Valid()
      ensures r.Some? <==> key in contents
      ensures r.Some? ==> r.value.0 == contents[key] && anchor == root.hash
      // After any update the receipt is valid if the hashes that parents used on its way fit, and only then, unless
      // hashes clash.
      ensures r.Some? && dirty == map[] && Fits(comb, root, [], key, seen) ==>
                ApplyAll(comb, r.value.1, r.value.0) == anchor
      ensures r.Some? && dirty == map[] && NoClashOnWay(comb, root, [], key, seen) ==>
                (ApplyAll(comb, r.value.1, r.value.0) == anchor <==> Fits(comb, root, [], key, seen))
      ensures r.Some? && dirty == map[] && Avoids(key, displaced) ==>
                ApplyAll(comb, r.value.1, r.value.0) == anchor
      ensures r.Some? && LeftOut(comb, root, displaced) && Twin(key) in displaced ==>
                StartsAtPair(r.value.1, contents, key)
      // After a first update the receipt is valid, unless hashes clash, exactly if the key is in no displaced pair.
      ensures r.Some? && LeftOut(comb, root, displaced) && Twin(key) !in displaced ==>
                ApplyAll(comb, r.value.1, r.value.0) == anchor
      ensures r.Some? && LeftOut(comb, root, displaced) && ApartFromNew(comb, r.value.1, r.value.0) ==>
                (ApplyAll(comb, r.value.1, r.value.0) == anchor <==> Twin(key) !in displaced)
    {
      hide Ok, Collect, WayUpToDate, Twin, LeftOut, ApartFromNew, ApplyAll, Avoids, Sides, StartsAtPair, Fits,
           NoClashOnWay;
      RootIsNode(comb, root, contents, dirty, displaced, seen, updated);
      r, anchor := Collect(root, 0, key), root.hash;
      CollectIsValid(comb, root, 0, key, contents);
      if key in contents && dirty == map[] {
        ReceiptOfUpdate(comb, root, contents, displaced, seen, updated, key);
      }
      if key in contents && LeftOut(comb, root, displaced) {
        ReceiptOfFirstUpdate(comb, root, contents, dirty, displaced, seen, updated, key);
      }
    }
  }

  // ---- Two pairs ----

  ghost function TwoPairs(a: Path, b: Path, v: Hash, x: Hash, y: Hash, z: Hash): Contents
    requires |a| == 255 && |b| == 255
  {
    map[PairKey(a, true) := v][PairKey(a, false) := x][PairKey(b, true) := y][PairKey(b, false) := z]
  }

  lemma PairsDiffer(a: Path, b: Path)
    requires |a| == 255 && |b| == 255 && a != b
    ensures PairKey(a, true) != PairKey(a, false) && PairKey(b, true) != PairKey(b, false)
    ensures PairKey(a, true) != PairKey(b, true) && PairKey(a, true) != PairKey(b, false)
    ensures PairKey(a, false) != PairKey(b, true) && PairKey(a, false) != PairKey(b, false)
  {
    assert (a + [true])[255] != (a + [false])[255] && (b + [true])[255] != (b + [false])[255];
    assert Twin(PairKey(a, true)) == a && Twin(PairKey(b, true)) == b;
    assert Twin(PairKey(a, false)) == a && Twin(PairKey(b, false)) == b;
  }

  lemma UnderPath(p: Path, k: TreeKey)
    requires |p| == 255
    ensures p <= Bits(k) <==> Twin(k) == p
  {
  }

  lemma OneKeyIsNoPair(m: Contents, p: Path, k: TreeKey)
    requires |p| == 255 && forall j :: j in m && j != k ==> Twin(j) != p
    ensures !IsPair(m, p)
  {
    hide Twin, Bits;
    forall j: TreeKey ensures p <= Bits(j) <==> Twin(j) == p {
      UnderPath(p, j);
    }
  }

  lemma TwoKeysArePair(m: Contents, p: Path, j: TreeKey, k: TreeKey)
    requires |p| == 255 && j in m && k in m && j != k && Twin(j) == p && Twin(k) == p
    ensures IsPair(m, p)
  {
    hide Twin, Bits;
    UnderPath(p, j);
    UnderPath(p, k);
  }

  method InsertTwoPairs(comb: Combiner, a: Path, b: Path, v: Hash, x: Hash, y: Hash, z: Hash) returns (t: BPT)
    requires |a| == 255 && |b| == 255 && a != b
    ensures t.Valid() && t.comb == comb && t.contents == TwoPairs(a, b, v, x, y, z) && t.dirty == map[]
    ensures t.displaced == {a} && Some(t.rootHash) == HashWith(comb, Strip(t.root), [], New({a}))
    ensures t.rootHash == t.root.hash && LeftOut(comb, t.root, {a})
  {
    hide LeftOut, Twin, Bits, IsPair, Ok, HashWith, Settled, NoClash, NoneLooksNew, AtMostOnePair, PairKey, NotesGrow,
         NotesUpdated, TreeHash, HashToSeen, New;
    PairsDiffer(a, b);
    PairTwins(a);
    PairTwins(b);
    var a1, a0, b1, b0 := PairKey(a, true), PairKey(a, false), PairKey(b, true), PairKey(b, false);
    t := new BPT(comb);
    t.Insert(a1, v);
    OneKeyIsNoPair(t.contents, a, a1);
    t.Insert(a0, x);
    TwoKeysArePair(t.contents, a, a1, a0);
    t.Insert(b1, y);
    OneKeyIsNoPair(t.contents, b, b1);
    t.Insert(b0, z);
    TwoKeysArePair(t.contents, b, b1, b0);
    t.Update();
  }

  lemma PairTwins(p: Path)
    requires |p| == 255
    ensures Twin(PairKey(p, true)) == p && Twin(PairKey(p, false)) == p
  {
  }

  /** With two pairs of keys that differ in the last bit only, the root hash does not depend on a value of the
      first pair, whatever the hash function: different contents have the same root hash. */
  method DisplacedPairDoesNotShow(comb: Combiner, a: Path, b: Path, v: Hash, v': Hash, x: Hash, y: Hash, z: Hash)
    returns (t: BPT, t': BPT)
    requires |a| == 255 && |b| == 255 && a != b && v != v'
    ensures t.Valid() && t'.Valid() && t.comb == t'.comb == comb && t.dirty == map[] && t'.dirty == map[]
    ensures t.contents == TwoPairs(a, b, v, x, y, z) && t'.contents == t.contents[PairKey(a, true) := v'] != t.contents
    ensures t.rootHash == t'.rootHash
  {
    hide Twin, Bits, IsPair, Ok, HashWith, Settled, PairKey;
    t := InsertTwoPairs(comb, a, b, v, x, y, z);
    t' := InsertTwoPairs(comb, a, b, v', x, y, z);
    PairsDiffer(a, b);
    ghost var k := PairKey(a, true);
    assert t'.contents == t.contents[k := v'];
    assert t.contents[k] == v && t'.contents[k] == v';
    RootIsNode(comb, t.root, t.contents, t.dirty, t.displaced, t.seen, t.updated);
    RootIsNode(comb, t'.root, t'.contents, t'.dirty, t'.displaced, t'.seen, t'.updated);
    SameRootHash(comb, Strip(t.root), Strip(t'.root), t.contents, a, v');
  }

  /** In that tree the receipts of the second pair are valid. That of the first pair is not, unless hashes clash
      with those of a new node. */
  method DisplacedPairHasNoReceipt(comb: Combiner, a: Path, b: Path, v: Hash, x: Hash, y: Hash, z: Hash)
    returns (t: BPT, r: Option<(Hash, seq<ReceiptEntry>)>, s: Option<(Hash, seq<ReceiptEntry>)>)
    requires |a| == 255 && |b| == 255 && a != b
    ensures t.Valid() && t.comb == comb && t.contents == TwoPairs(a, b, v, x, y, z) && t.dirty == map[]
    ensures r.Some? && r.value.0 == v && s.Some? && s.value.0 == y
    ensures ApplyAll(comb, s.value.1, y) == t.rootHash
    ensures r.value.1 != [] && r.value.1[0] == ReceiptEntry(x, true)
    ensures ApartFromNew(comb, r.value.1, v) ==> ApplyAll(comb, r.value.1, v) != t.rootHash
  {
    hide Twin, Bits, Ok, Settled, PairKey, LeftOut, ApplyAll, KeptApart, NewHash, HashWith, IsPair, Avoids,
         Other, Fits, NoClashOnWay;
    PairsDiffer(a, b);
    PairTwins(a);
    PairTwins(b);
    PairOther(a);
    var anchor, k := NewHash(), PairKey(a, true);
    t := InsertTwoPairs(comb, a, b, v, x, y, z);
    r, anchor := t.GetReceipt(k);
    s, anchor := t.GetReceipt(PairKey(b, true));
  }

  lemma PairOther(p: Path)
    requires |p| == 255
    ensures Bit(PairKey(p, true), 255) && Other(PairKey(p, true)) == PairKey(p, false)
  {
    assert Bits(PairKey(p, true))[255] == Bit(PairKey(p, true), 255);
  }

  lemma SameRootHash(comb: Combiner, n: Entry, n': Entry, m: Contents, a: Path, v: Hash)
    requires |a| == 255 && n.Node? && n'.Node? && OnPath(n, []) && PairKey(a, true) in m && PairKey(a, false) in m
    requires Sides(n.left, n.right, 0, m) && Sides(n'.left, n'.right, 0, m[PairKey(a, true) := v])
    ensures HashWith(comb, n, [], New({a})) == HashWith(comb, n', [], New({a}))
  {
    var k := PairKey(a, true);
    assert (a + [true])[255] != (a + [false])[255];
    TwoKeysArePair(m, a, k, PairKey(a, false));
    RootNodes(n.left, n.right, m, a);
    UnderPath(a, k);
    assert a[0..] == a;
    ValueDoesNotShow(comb, n, [], k, v, a, New({a}));
    PutInNode(n.left, n.right, 0, k, v, [], m);
    var p := Put(n, 0, k, v, []);
    var m' := m[k := v];
    hide *;
    TreeIsUnique(p.left, n'.left, 1, Side(m', 0, true));
    TreeIsUnique(p.right, n'.right, 1, Side(m', 0, false));
  }
}
