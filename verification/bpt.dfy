/**
 The Binary Patricia Tree (smt/pmt/bpt.go, smt/pmt/bpt_receipt.go): a trie over the bits of 32-byte keys
 in which a value sits as high as its key is unique. An entry at depth `d` is reached by `d` bits; a set
 bit goes left.
 */
module PatriciaTrees {
  import opened Common
  import opened MerkleTree

  type TreeKey = k: Bytes | |k| == 32 witness [0,0,0,0,0,0,0,0,0,0,0,0,0,0,0,0,0,0,0,0,0,0,0,0,0,0,0,0,0,0,0,0]

  datatype Entry = Nil | Value(key: TreeKey, hash: Hash) | Node(left: Entry, right: Entry)

  /** Bit `j` of a number, from the low end. */
  predicate TestBit(x: nat, j: nat) {
    if j == 0 then x % 2 == 1 else TestBit(x / 2, j - 1)
  }

  /** Bit `d` of a key, from the high end of its first byte: `key[d >> 3] & (0x80 >> (d & 7))`. */
  predicate Bit(k: TreeKey, d: nat)
    requires d < 256
  {
    TestBit(k[d / 8], 7 - d % 8)
  }

  function Bits(k: TreeKey): (r: seq<bool>)
    ensures |r| == 256
  {
    seq(256, i requires 0 <= i < 256 => Bit(k, i))
  }

  /** A number below 2^n is determined by its low n bits. */
  lemma {:induction false} NumberOfBits(x: nat, y: nat, n: nat)
    requires x < Pow2(n) && y < Pow2(n)
    requires forall j :: 0 <= j < n ==> TestBit(x, j) == TestBit(y, j)
    ensures x == y
  {
    if n > 0 {
      assert TestBit(x, 0) == TestBit(y, 0);
      forall j | 0 <= j < n - 1 ensures TestBit(x / 2, j) == TestBit(y / 2, j) {
        assert TestBit(x, j + 1) == TestBit(y, j + 1);
      }
      NumberOfBits(x / 2, y / 2, n - 1);
    }
  }

  lemma BitsInjective(a: TreeKey, b: TreeKey)
    requires Bits(a) == Bits(b)
    ensures a == b
  {
    assert Pow2(8) == 2 * (2 * (2 * (2 * Pow2(4)))) && Pow2(4) == 2 * (2 * (2 * (2 * Pow2(0))));
    forall i | 0 <= i < 32 ensures a[i] == b[i] {
      forall j | 0 <= j < 8 ensures TestBit(a[i], j) == TestBit(b[i], j) {
        var d := 8 * i + 7 - j;
        assert Bits(a)[d] == Bits(b)[d] && d / 8 == i && d % 8 == 7 - j;
      }
      NumberOfBits(a[i], b[i], 8);
    }
  }

  /** Every value lies on the path of its key. */
  ghost predicate OnPath(e: Entry, path: seq<bool>) {
    match e
    case Nil => true
    case Value(k, _) => path <= Bits(k)
    case Node(l, r) => |path| < 256 && OnPath(l, path + [true]) && OnPath(r, path + [false])
  }

  /** insertAtNode, as what becomes of the entry at depth `d`. Two keys on one path are pushed down until
      they part. */
  function Put(e: Entry, d: nat, key: TreeKey, hash: Hash, ghost path: seq<bool>): (r: Entry)
    requires |path| == d && OnPath(e, path) && path <= Bits(key)
    ensures OnPath(r, path)
    decreases 256 - d, if e.Value? then 1 else 0
  {
    match e
    case Nil => Value(key, hash)
    case Node(l, r) =>
      assert path + [Bit(key, d)] <= Bits(key);
      if Bit(key, d) then Node(Put(l, d + 1, key, hash, path + [true]), r)
      else Node(l, Put(r, d + 1, key, hash, path + [false]))
    case Value(k, h) =>
      if k == key then Value(key, hash)
      else
        PathEnds(path, k, key);
        assert OnPath(Nil, path + [true]) && OnPath(Nil, path + [false]);
        Put(Put(Node(Nil, Nil), d, key, hash, path), d, k, h, path)
  }

  lemma NextBit(key: TreeKey, path: seq<bool>)
    requires path <= Bits(key) && |path| < 256
    ensures path + [Bit(key, |path|)] <= Bits(key)
  {
  }

  lemma PathEnds(path: seq<bool>, a: TreeKey, b: TreeKey)
    requires path <= Bits(a) && path <= Bits(b) && a != b
    ensures |path| < 256
  {
    if |path| == 256 {
      BitsInjective(a, b);
    }
  }

  // ---- The tree that a map has ----

  type Contents = map<TreeKey, Hash>

  ghost function Side(m: Contents, d: nat, bit: bool): Contents
    requires d < 256
  {
    map k | k in m && Bit(k, d) == bit :: m[k]
  }

  ghost predicate Several(m: Contents) {
    exists a, b :: a in m && b in m && a != b
  }

  /** The entry at depth `d` for the contents `m`: nothing, one value, or a node over the two sides. */
  ghost predicate Represents(e: Entry, d: nat, m: Contents)
    decreases e
  {
    match e
    case Nil => m == map[]
    case Value(k, h) => m == map[k := h]
    case Node(l, r) =>
      Several(m) && d < 256 && Represents(l, d + 1, Side(m, d, true)) && Represents(r, d + 1, Side(m, d, false))
  }

  /** The two slots of a node at depth `d`, which may hold less than two values in all. */
  ghost predicate Sides(l: Entry, r: Entry, d: nat, m: Contents) {
    d < 256 && Represents(l, d + 1, Side(m, d, true)) && Represents(r, d + 1, Side(m, d, false))
  }

  /** A map has only one tree. */
  lemma {:induction false} TreeIsUnique(e: Entry, e': Entry, d: nat, m: Contents)
    requires Represents(e, d, m) && Represents(e', d, m)
    ensures e == e'
    decreases e
  {
    match e
    case Nil =>
      if e'.Value? {
        assert e'.key in map[e'.key := e'.hash];
      }
    case Value(k, h) =>
      assert k in m;
      if e'.Value? {
        assert e'.key in m;
      }
    case Node(l, r) =>
      if e'.Node? {
        TreeIsUnique(l, e'.left, d + 1, Side(m, d, true));
        TreeIsUnique(r, e'.right, d + 1, Side(m, d, false));
      }
  }

  lemma SideOfUpdate(m: Contents, d: nat, key: TreeKey, hash: Hash, bit: bool)
    requires d < 256
    ensures Side(m[key := hash], d, bit) == if Bit(key, d) == bit then Side(m, d, bit)[key := hash] else Side(m, d, bit)
  {
  }

  /** Inserting into the tree of a map gives the tree of the updated map. */
  lemma {:induction false} PutRepresents(e: Entry, d: nat, key: TreeKey, hash: Hash, path: seq<bool>, m: Contents)
    requires |path| == d && OnPath(e, path) && path <= Bits(key)
    requires Represents(e, d, m)
    ensures Represents(Put(e, d, key, hash, path), d, m[key := hash])
    decreases 256 - d, if e.Value? then 2 else 1
  {
    hide Bits;
    match e
    case Nil =>
    case Node(l, r) =>
      PutInNode(l, r, d, key, hash, path, m);
      var a, b :| a in m && b in m && a != b;
      assert a in m[key := hash] && b in m[key := hash];
    case Value(k, h) =>
      if k != key {
        PathEnds(path, k, key);
        ForkRepresents(d, k, h, key, hash, path);
      }
  }

  /** A value that is met on the way is pushed down together with the new one. */
  lemma {:induction false} ForkRepresents(d: nat, k: TreeKey, h: Hash, key: TreeKey, hash: Hash, path: seq<bool>)
    requires |path| == d < 256 && path <= Bits(k) && path <= Bits(key) && k != key
    ensures Represents(Put(Value(k, h), d, key, hash, path), d, map[k := h][key := hash])
    decreases 256 - d, 1
  {
    hide Bits;
    var m: Contents := map[key := hash];
    PutInNode(Nil, Nil, d, key, hash, path, map[]);
    assert map[][key := hash] == m;
    var n := Put(Node(Nil, Nil), d, key, hash, path);
    PutInNode(n.left, n.right, d, k, h, path, m);
    assert m[k := h] == map[k := h][key := hash];
    assert k in m[k := h] && key in m[k := h];
  }

  lemma {:induction false} PutInNode(l: Entry, r: Entry, d: nat, key: TreeKey, hash: Hash, path: seq<bool>, m: Contents)
    requires |path| == d && OnPath(Node(l, r), path) && path <= Bits(key) && Sides(l, r, d, m)
    ensures var n := Put(Node(l, r), d, key, hash, path);
            n.Node? && Sides(n.left, n.right, d, m[key := hash])
    decreases 256 - d, 0
  {
    assert path + [Bit(key, d)] <= Bits(key);
    SideOfUpdate(m, d, key, hash, true);
    SideOfUpdate(m, d, key, hash, false);
    hide Bits;
    if Bit(key, d) {
      PutRepresents(l, d + 1, key, hash, path + [true], Side(m, d, true));
    } else {
      PutRepresents(r, d + 1, key, hash, path + [false], Side(m, d, false));
    }
  }

  // ---- Runs of Insert ----

  datatype KeyValue = KeyValue(key: TreeKey, hash: Hash)

  /** The map that a run of inserts builds: the last hash of every key. */
  function FinalContents(kvs: seq<KeyValue>): map<TreeKey, Hash> {
    if kvs == [] then map[] else FinalContents(DropLast(kvs))[Last(kvs).key := Last(kvs).hash]
  }

  /** The root node after the run. */
  function InsertAll(kvs: seq<KeyValue>): (n: Entry)
    ensures OnPath(n, [])
  {
    if kvs == [] then Node(Nil, Nil) else Put(InsertAll(DropLast(kvs)), 0, Last(kvs).key, Last(kvs).hash, [])
  }

  lemma {:induction false} RunRepresents(kvs: seq<KeyValue>)
    ensures InsertAll(kvs).Node?
    ensures Sides(InsertAll(kvs).left, InsertAll(kvs).right, 0, FinalContents(kvs))
  {
    hide Bits;
    if kvs != [] {
      RunRepresents(DropLast(kvs));
      var n := InsertAll(DropLast(kvs));
      PutInNode(n.left, n.right, 0, Last(kvs).key, Last(kvs).hash, [], FinalContents(DropLast(kvs)));
    }
  }

  /** The order of inserts and the values that were overwritten leave no trace: runs that end in the same
      map end in the same tree. */
  lemma InsertionOrderIrrelevant(a: seq<KeyValue>, b: seq<KeyValue>)
    requires FinalContents(a) == FinalContents(b)
    ensures InsertAll(a) == InsertAll(b)
  {
    hide Bits, Put;
    RunRepresents(a);
    RunRepresents(b);
    var m := FinalContents(a);
    TreeIsUnique(InsertAll(a).left, InsertAll(b).left, 1, Side(m, 0, true));
    TreeIsUnique(InsertAll(a).right, InsertAll(b).right, 1, Side(m, 0, false));
  }

  // ---- Where the nodes are ----

  /** There is a node where the bits of `q` lead. */
  predicate HasNode(e: Entry, q: seq<bool>) {
    e.Node? && (q == [] || HasNode(if q[0] then e.left else e.right, q[1..]))
  }

  /** Two keys of the map have these first bits. */
  ghost predicate Shared(m: Contents, p: seq<bool>) {
    exists a, b :: a in m && b in m && a != b && p <= Bits(a) && p <= Bits(b)
  }

  ghost predicate AllUnder(m: Contents, path: seq<bool>) {
    forall k :: k in m ==> path <= Bits(k)
  }

  lemma SideUnder(m: Contents, path: seq<bool>, bit: bool)
    requires |path| < 256 && AllUnder(m, path)
    ensures AllUnder(Side(m, |path|, bit), path + [bit])
    ensures forall k :: k in m && path + [bit] <= Bits(k) ==> k in Side(m, |path|, bit)
  {
    forall k | k in Side(m, |path|, bit) ensures path + [bit] <= Bits(k) {
      assert Bits(k)[|path|] == Bit(k, |path|);
    }
    forall k | k in m && path + [bit] <= Bits(k) ensures k in Side(m, |path|, bit) {
      assert Bits(k)[|path|] == (path + [bit])[|path|] && Bits(k)[|path|] == Bit(k, |path|);
    }
  }

  lemma SharedInSide(m: Contents, path: seq<bool>, bit: bool, p: seq<bool>)
    requires |path| < 256 && AllUnder(m, path) && path + [bit] <= p
    ensures Shared(m, p) <==> Shared(Side(m, |path|, bit), p)
  {
    SideUnder(m, path, bit);
    hide Bits, Bit;
    if Shared(m, p) {
      var a, b :| a in m && b in m && a != b && p <= Bits(a) && p <= Bits(b);
      assert path + [bit] <= Bits(a) && path + [bit] <= Bits(b);
      assert a in Side(m, |path|, bit) && b in Side(m, |path|, bit);
    }
  }

  /** Nodes are exactly where two keys have not parted yet. */
  lemma {:induction false} NodesAreShared(e: Entry, path: seq<bool>, q: seq<bool>, m: Contents)
    requires |path| + |q| <= 256 && Represents(e, |path|, m) && AllUnder(m, path)
    ensures HasNode(e, q) <==> Shared(m, path + q)
    decreases |q|
  {
    hide Bits, Bit;
    if !e.Node? {
    } else if q == [] {
      assert path + q == path;
      var a, b :| a in m && b in m && a != b;
    } else {
      var bit := q[0];
      assert path + [bit] <= path + q && path + q == path + [bit] + q[1..];
      SideUnder(m, path, bit);
      SharedInSide(m, path, bit, path + q);
      NodesAreShared(if bit then e.left else e.right, path + [bit], q[1..], Side(m, |path|, bit));
    }
  }

  // ---- Hashes and receipts ----

  /** GetNodeHash: two children are combined, a single child is passed through. */
  function Join(comb: Combiner, l: Option<Hash>, r: Option<Hash>): Option<Hash> {
    if l.Some? && r.Some? then Some(comb(l.value, r.value)) else if l.Some? then l else r
  }

  function TreeHash(comb: Combiner, e: Entry): Option<Hash> {
    match e
    case Nil => None
    case Value(_, h) => Some(h)
    case Node(l, r) => Join(comb, TreeHash(comb, l), TreeHash(comb, r))
  }

  lemma ApplyLast(comb: Combiner, entries: seq<ReceiptEntry>, start: Hash, sibling: Option<Hash>, right: bool)
    ensures var all := entries + if sibling.Some? then [ReceiptEntry(sibling.value, right)] else [];
            var below := Some(ApplyAll(comb, entries, start));
            Some(ApplyAll(comb, all, start)) == if right then Join(comb, below, sibling) else Join(comb, sibling, below)
  {
    if sibling.Some? {
      ApplyAllConcat(comb, entries, [ReceiptEntry(sibling.value, right)], start);
    } else {
      assert entries + [] == entries;
    }
  }
}
