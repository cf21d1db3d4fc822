/**
 Receipts of the Binary Patricia Tree (smt/pmt/bpt_receipt.go). They are collected from the stored hashes, so they are
 measured against the hashes that the nodes on the way were computed from.
 */
module PatriciaReceipts {
  import opened Common
  import opened MerkleTree
  import opened PatriciaTrees
  import opened PatriciaNodeKeys
  import opened PatriciaInserts
  import opened PatriciaUpdates

  /** The first 255 bits of a key. */
  function Twin(key: TreeKey): (p: Path)
    ensures |p| == 255
  {
    Bits(key)[..255]
  }

  /** The key with these first 255 bits and this last one. */
  function PairKey(p: Path, last: bool): (k: TreeKey)
    requires |p| == 255
    ensures Bits(k) == p + [last] && Twin(k) == p
  {
    BitsOfKey(p + [last]);
    KeyOfBits(p + [last])
  }

  /** The other key of the pair. */
  function Other(key: TreeKey): TreeKey {
    PairKey(Twin(key), !Bit(key, 255))
  }

  // ---- Receipts ----

  /** CollectReceipt at the node `n` of depth `d`: the value is searched by the bits of its key, and the stored
      hash of the other side of every node on the way is added on the way back. */
  function Collect(n: Cached, d: nat, key: TreeKey): Option<(Hash, seq<ReceiptEntry>)>
    requires n.CNode?
    decreases n
  {
    if d >= 256 then None
    else
      var right := !Bit(key, d);
      var entry, other := if right then n.right else n.left, if right then n.left else n.right;
      var below :=
        match entry
        case CNil => None
        case CValue(k, h) => if k == key then Some((h, [])) else None
        case CNode(_, _, _) => Collect(entry, d + 1, key);
      if below.None? then None
      else
        var (start, entries) := below.value;
        Some((start, entries + if other.CNil? then [] else [ReceiptEntry(Stored(other).value, !right)]))
  }

  /** The stored hashes of the nodes on the way to a key are those of their children. */
  ghost predicate WayUpToDate(comb: Combiner, n: Cached, d: nat, key: TreeKey)
    requires n.CNode?
    decreases n
  {
    d < 256 ==>
      (&& UpToDate(comb, n)
       && var entry := if Bit(key, d) then n.left else n.right;
       entry.CNode? ==> WayUpToDate(comb, entry, d + 1, key))
  }

  /** A receipt is found exactly for the keys of the map, and starts at the key's value. It leads to the stored
      hash of the node if the nodes on the way are up to date. */
  lemma {:induction false} CollectIsValid(comb: Combiner, n: Cached, d: nat, key: TreeKey, m: Contents)
    requires n.CNode? && Sides(Strip(n.left), Strip(n.right), d, m)
    ensures Collect(n, d, key).Some? <==> key in m
    ensures key in m ==> Collect(n, d, key).value.0 == m[key]
    ensures key in m && WayUpToDate(comb, n, d, key) ==>
              ApplyAll(comb, Collect(n, d, key).value.1, m[key]) == n.hash
    decreases n
  {
    hide Bit, ApplyAll;
    var right := !Bit(key, d);
    var entry, other := if right then n.right else n.left, if right then n.left else n.right;
    var side := Side(m, d, !right);
    assert key in m <==> key in side;
    match entry
    case CNil =>
    case CValue(k, h) =>
      if k == key {
        assert m[key] == side[key] == h;
        ApplyNothing(comb, h);
        ApplyLast(comb, [], h, Stored(other), !right);
      } else {
        assert key !in side;
      }
    case CNode(_, _, _) =>
      CollectIsValid(comb, entry, d + 1, key, side);
      if key in m {
        ApplyLast(comb, Collect(entry, d + 1, key).value.1, m[key], Stored(other), !right);
      }
  }

  lemma ApplyNothing(comb: Combiner, h: Hash)
    ensures ApplyAll(comb, [], h) == h
  {
  }

  /** The key does not come to one of these nodes or its parent. */
  ghost predicate Avoids(key: TreeKey, out: set<Path>) {
    forall p :: p in out ==> p != [] && !(DropLast(p) <= Bits(key))
  }

  lemma AvoidsAt(key: TreeKey, out: set<Path>, path: Path)
    requires Avoids(key, out) && path <= Bits(key)
    ensures path !in out && path + [true] !in out && path + [false] !in out
  {
    hide Bits;
    assert DropLast(path + [true]) == path && DropLast(path + [false]) == path;
    assert path != [] ==> DropLast(path) <= Bits(key);
  }

  /** The hash that the receipt of a key comes to at a node. */
  function Reached(comb: Combiner, n: Cached, d: nat, key: TreeKey): Hash
    requires n.CNode?
  {
    match Collect(n, d, key)
    case None => n.hash
    case Some((start, entries)) => ApplyAll(comb, entries, start)
  }

  /** On the way to the key, every hash that was noted for a node on the way is the hash of the tree below, and every
      one that was noted for a node beside it is the stored one. */
  ghost predicate Fits(comb: Combiner, n: Cached, path: Path, key: TreeKey, seen: Seen)
    requires n.CNode?
    decreases n
  {
    |path| < 256 ==>
      var bit := Bit(key, |path|);
      var entry, other := if bit then n.left else n.right, if bit then n.right else n.left;
      && SeenHash(other, path + [!bit], seen) == Stored(other)
      && (entry.CNode? ==>
            if path + [bit] in seen then TreeHash(comb, Strip(entry)) == Some(seen[path + [bit]])
            else Fits(comb, entry, path + [bit], key, seen))
  }

  /** No step on the way takes the hashes of the receipt and other ones that were used for the stored hash to one. */
  ghost predicate NoClashOnWay(comb: Combiner, n: Cached, path: Path, key: TreeKey, seen: Seen)
    requires n.CNode?
    decreases n
  {
    |path| < 256 ==>
      var bit := Bit(key, |path|);
      var entry, other := if bit then n.left else n.right, if bit then n.right else n.left;
      && (entry.CNode? ==>
            && StepApart(comb, bit, Reached(comb, entry, |path| + 1, key), Stored(other),
                         SeenHash(entry, path + [bit], seen), SeenHash(other, path + [!bit], seen))
            && (path + [bit] !in seen ==> NoClashOnWay(comb, entry, path + [bit], key, seen)))
      && (entry.CValue? ==>
            StepApart(comb, bit, entry.hash, Stored(other), Stored(entry), SeenHash(other, path + [!bit], seen)))
  }

  predicate StepApart(comb: Combiner, bit: bool, x: Hash, s: Option<Hash>, y: Option<Hash>, t: Option<Hash>) {
    s.Some? && y.Some? && t.Some? ==>
      (Ordered(comb, bit, x, s.value) == Ordered(comb, bit, y.value, t.value) ==> x == y.value && s == t)
  }

  function Ordered(comb: Combiner, bit: bool, x: Hash, s: Hash): Hash {
    if bit then comb(x, s) else comb(s, x)
  }

  /** One step of the receipt. */
  lemma ReachedStep(comb: Combiner, n: Cached, d: nat, key: TreeKey, entry: Cached, other: Cached)
    requires n.CNode? && d < 256 && Collect(n, d, key).Some?
    requires if Bit(key, d) then entry == n.left && other == n.right else entry == n.right && other == n.left
    ensures !entry.CNil?
    ensures entry.CNode? ==> Collect(entry, d + 1, key).Some?
    ensures var x := if entry.CNode? then Reached(comb, entry, d + 1, key) else OrNew(Stored(entry));
            Reached(comb, n, d, key) == if other.CNil? then x else Ordered(comb, Bit(key, d), x, OrNew(Stored(other)))
  {
    hide Bit, ApplyAll;
    var bit := Bit(key, d);
    if entry.CNode? {
      var (start, entries) := Collect(entry, d + 1, key).value;
      ApplyLast(comb, entries, start, Stored(other), bit);
    } else {
      ApplyNothing(comb, entry.hash);
      ApplyLast(comb, [], entry.hash, Stored(other), bit);
    }
  }

  function OrNew(h: Option<Hash>): Hash {
    if h.Some? then h.value else NewHash()
  }

  /** At height 255 the receipt comes to the hash of the pair, whatever is stored. */
  lemma ReachedAtPair(comb: Combiner, n: Cached, key: TreeKey, m: Contents)
    requires n.CNode? && Sides(Strip(n.left), Strip(n.right), 255, m) && key in m
    ensures Some(Reached(comb, n, 255, key)) == TreeHash(comb, Strip(n))
  {
    hide Bit;
    CollectIsValid(comb, n, 255, key, m);
    var bit := Bit(key, 255);
    ReachedStep(comb, n, 255, key, if bit then n.left else n.right, if bit then n.right else n.left);
  }

  /** One step of the receipt against the step that gave the stored hash. */
  lemma StepExactly(comb: Combiner, n: Cached, path: Path, bit: bool, seen: Seen, x: Hash)
    requires n.CNode? && Current(comb, n, path, seen)
    requires !(if bit then n.left else n.right).CNil?
    ensures var entry, other := if bit then n.left else n.right, if bit then n.right else n.left;
            var s, y, t := Stored(other), SeenHash(entry, path + [bit], seen), SeenHash(other, path + [!bit], seen);
            var z := if other.CNil? then x else Ordered(comb, bit, x, OrNew(s));
            && (Some(x) == y && s == t ==> z == n.hash)
            && (StepApart(comb, bit, x, s, y, t) ==> (z == n.hash <==> Some(x) == y && s == t))
  {
  }

  lemma FitsStep(comb: Combiner, n: Cached, path: Path, key: TreeKey, seen: Seen, entry: Cached, other: Cached)
    requires n.CNode? && |path| < 256
    requires if Bit(key, |path|) then entry == n.left && other == n.right else entry == n.right && other == n.left
    ensures var bit := Bit(key, |path|);
            Fits(comb, n, path, key, seen) <==>
            && SeenHash(other, path + [!bit], seen) == Stored(other)
            && (entry.CNode? ==>
                  if path + [bit] in seen then TreeHash(comb, Strip(entry)) == Some(seen[path + [bit]])
                  else Fits(comb, entry, path + [bit], key, seen))
    ensures var bit := Bit(key, |path|);
            NoClashOnWay(comb, n, path, key, seen) && !entry.CNil? ==>
              && StepApart(comb, bit,
                           if entry.CNode? then Reached(comb, entry, |path| + 1, key) else OrNew(Stored(entry)),
                           Stored(other), SeenHash(entry, path + [bit], seen), SeenHash(other, path + [!bit], seen))
              && (entry.CNode? && path + [bit] !in seen ==> NoClashOnWay(comb, entry, path + [bit], key, seen))
  {
    hide Bit, StepApart, Reached, TreeHash;
  }

  /** The receipt leads to the stored hash if the noted hashes fit, and only then, unless hashes clash. */
  lemma {:induction false} ReceiptExactly(
    comb: Combiner, n: Cached, path: Path, key: TreeKey, seen: Seen, m: Contents)
    requires n.CNode? && path <= Bits(key) && path !in seen && Settled(comb, n, path, seen.Keys, {}, seen)
    requires Sides(Strip(n.left), Strip(n.right), |path|, m) && key in m && AllLowest(seen.Keys)
    ensures Fits(comb, n, path, key, seen) ==> Reached(comb, n, |path|, key) == n.hash
    ensures NoClashOnWay(comb, n, path, key, seen) ==>
              (Reached(comb, n, |path|, key) == n.hash <==> Fits(comb, n, path, key, seen))
    decreases n
  {
    hide *;
    CollectIsValid(comb, n, |path|, key, m);
    SidesDepth(n, path, m);
    NextBit(key, path);
    var bit := Bit(key, |path|);
    var entry, other := if bit then n.left else n.right, if bit then n.right else n.left;
    SettledOnWay(comb, n, path, bit, seen);
    ReachedStep(comb, n, |path|, key, entry, other);
    FitsStep(comb, n, path, key, seen, entry, other);
    var x := if entry.CNode? then Reached(comb, entry, |path| + 1, key) else OrNew(Stored(entry));
    StepExactly(comb, n, path, bit, seen, x);
    SeenOf(entry, path + [bit], seen);
    if entry.CNode? {
      SideOfNode(n, path, key, m);
      if path + [bit] in seen {
        LowestOnWay(path + [bit], seen);
        ReachedAtPair(comb, entry, key, Side(m, |path|, bit));
      } else {
        ReceiptExactly(comb, entry, path + [bit], key, seen, Side(m, |path|, bit));
      }
    }
  }

  lemma SidesDepth(n: Cached, path: Path, m: Contents)
    requires n.CNode? && Sides(Strip(n.left), Strip(n.right), |path|, m)
    ensures |path| < 256
  {
  }

  lemma LowestOnWay(path: Path, seen: Seen)
    requires AllLowest(seen.Keys) && path in seen
    ensures |path| == 255
  {
  }

  lemma SettledOnWay(comb: Combiner, n: Cached, path: Path, bit: bool, seen: Seen)
    requires n.CNode? && path !in seen && Settled(comb, n, path, seen.Keys, {}, seen)
    ensures Current(comb, n, path, seen)
    ensures Settled(comb, if bit then n.left else n.right, path + [bit], seen.Keys, {}, seen)
  {
  }

  lemma SeenOf(e: Cached, path: Path, seen: Seen)
    ensures SeenHash(e, path, seen) == if e.CNode? && path in seen then Some(seen[path]) else Stored(e)
    ensures e.CValue? ==> Stored(e) == Some(OrNew(Stored(e)))
    ensures e.CNode? ==> Stored(e) == Some(e.hash)
  {
  }

  lemma SideOfNode(n: Cached, path: Path, key: TreeKey, m: Contents)
    requires n.CNode? && |path| < 256 && Sides(Strip(n.left), Strip(n.right), |path|, m) && key in m
    requires (if Bit(key, |path|) then n.left else n.right).CNode?
    ensures var bit := Bit(key, |path|);
            var entry := if bit then n.left else n.right;
            && key in Side(m, |path|, bit)
            && Sides(Strip(entry.left), Strip(entry.right), |path| + 1, Side(m, |path|, bit))
  {
    hide Bit;
  }

  lemma {:induction false} AvoidsFits(comb: Combiner, n: Cached, path: Path, key: TreeKey, seen: Seen)
    requires n.CNode? && path <= Bits(key) && Avoids(key, seen.Keys)
    ensures Fits(comb, n, path, key, seen)
    decreases n
  {
    hide Bits, Avoids, Bit;
    if |path| < 256 {
      AvoidsAt(key, seen.Keys, path);
      NextBit(key, path);
      var bit := Bit(key, |path|);
      var entry := if bit then n.left else n.right;
      if entry.CNode? {
        AvoidsFits(comb, entry, path + [bit], key, seen);
      }
    }
  }

  // ---- Receipts after a first update ----

  /** The only node of height 255 on the way to a key is that of its twin. */
  ghost predicate AllLowest(out: set<Path>) {
    forall p :: p in out ==> |p| == 255
  }

  lemma OnWayOut(key: TreeKey, path: Path, out: set<Path>)
    requires path <= Bits(key) && AllLowest(out) && path in out
    ensures path == Twin(key)
  {
  }

  lemma {:induction false} WayPastOthers(comb: Combiner, n: Cached, path: Path, key: TreeKey, out: set<Path>)
    requires n.CNode? && path <= Bits(key) && Settled(comb, n, path, out, {}, map[])
    requires AllLowest(out) && Twin(key) !in out
    ensures WayUpToDate(comb, n, |path|, key)
    decreases n
  {
    hide Bits, AllLowest, Bit, Twin;
    if |path| < 256 {
      if path in out {
        OnWayOut(key, path, out);
      }
      NextBit(key, path);
      var bit := Bit(key, |path|);
      var entry := if bit then n.left else n.right;
      if entry.CNode? {
        WayPastOthers(comb, entry, path + [bit], key, out);
      }
    }
  }

  function OtherSide(other: Cached, right: bool): seq<ReceiptEntry> {
    if other.CNil? then [] else [ReceiptEntry(Stored(other).value, right)]
  }

  lemma CollectStep(n: Cached, d: nat, key: TreeKey, entry: Cached, other: Cached)
    requires n.CNode? && d < 256 && entry.CNode? && Collect(entry, d + 1, key).Some?
    requires if Bit(key, d) then entry == n.left && other == n.right else entry == n.right && other == n.left
    ensures var (start, entries) := Collect(entry, d + 1, key).value;
            Collect(n, d, key) == Some((start, entries + OtherSide(other, Bit(key, d))))
  {
    hide Bit;
  }

  /** At a pair. */
  lemma CollectAtPair(n: Cached, path: Path, key: TreeKey, m: Contents)
    requires n.CNode? && path <= Bits(key) && |path| == 255 && Sides(Strip(n.left), Strip(n.right), 255, m)
    requires key in m && Shared(m, Twin(key))
    ensures path == Twin(key) && Other(key) in m && Collect(n, 255, key).Some?
    ensures Collect(n, 255, key).value.1 == [ReceiptEntry(m[Other(key)], Bit(key, 255))]
  {
    TwinIsThere(path, key, m);
    hide Bits, Bit, Other;
    assert key in Side(m, 255, Bit(key, 255)) && Other(key) in Side(m, 255, !Bit(key, 255));
  }

  /** The receipt of a key in a pair that was left out begins with the twin, and goes on as if from the hash of a
      new node. */
  lemma {:induction false} CollectPastNew(
    comb: Combiner, n: Cached, path: Path, key: TreeKey, out: set<Path>, m: Contents)
    requires n.CNode? && path <= Bits(key) && |path| <= 255 && Settled(comb, n, path, out, {}, map[])
    requires Untouched(n, path, out)
    requires AllLowest(out) && Twin(key) in out && Sides(Strip(n.left), Strip(n.right), |path|, m) && AllUnder(m, path)
    requires key in m && Shared(m, Twin(key))
    ensures Collect(n, |path|, key).Some? && Collect(n, |path|, key).value.1 != [] && Other(key) in m
    ensures Collect(n, |path|, key).value.1[0] == ReceiptEntry(m[Other(key)], Bit(key, 255))
    ensures ApplyAll(comb, Collect(n, |path|, key).value.1[1..], NewHash()) == n.hash
    decreases n
  {
    hide *;
    if |path| == 255 {
      CollectAtPair(n, path, key, m);
      NewAtPair(comb, n, path, key, out, Collect(n, 255, key).value.1);
    } else {
      var bit := Bit(key, |path|);
      var entry, other := if bit then n.left else n.right, if bit then n.right else n.left;
      var side := Side(m, |path|, bit);
      NextBit(key, path);
      SideUnder(m, path, bit);
      TwinGoesAlong(path, key, m);
      NodeOnWay(comb, n, path, bit, out, m);
      OtherInSide(m, |path|, bit, Other(key));
      CollectPastNew(comb, entry, path + [bit], key, out, side);
      CollectStep(n, |path|, key, entry, other);
      ClimbFromNew(comb, n, Collect(entry, |path| + 1, key).value.1, entry, other, bit);
    }
  }

  lemma NewAtPair(comb: Combiner, n: Cached, path: Path, key: TreeKey, out: set<Path>, entries: seq<ReceiptEntry>)
    requires n.CNode? && path == Twin(key) && path in out && Untouched(n, path, out) && |entries| == 1
    ensures ApplyAll(comb, entries[1..], NewHash()) == n.hash
  {
    assert entries[1..] == [];
  }

  lemma OtherInSide(m: Contents, d: nat, bit: bool, k: TreeKey)
    requires d < 256
    ensures k in Side(m, d, bit) ==> k in m && Side(m, d, bit)[k] == m[k]
  {
  }

  /** The node goes on where several keys go on. */
  lemma NodeOnWay(comb: Combiner, n: Cached, path: Path, bit: bool, out: set<Path>, m: Contents)
    requires n.CNode? && |path| < 255 && Settled(comb, n, path, out, {}, map[])
    requires Untouched(n, path, out) && AllLowest(out)
    requires Sides(Strip(n.left), Strip(n.right), |path|, m) && Several(Side(m, |path|, bit))
    ensures var entry := if bit then n.left else n.right;
            && entry.CNode? && UpToDate(comb, n)
            && Settled(comb, entry, path + [bit], out, {}, map[]) && Untouched(entry, path + [bit], out)
            && Sides(Strip(entry.left), Strip(entry.right), |path| + 1, Side(m, |path|, bit))
  {
    hide Bit, Bits;
  }

  lemma ClimbFromNew(comb: Combiner, n: Cached, below: seq<ReceiptEntry>, entry: Cached, other: Cached, bit: bool)
    requires n.CNode? && entry.CNode? && UpToDate(comb, n) && below != []
    requires if bit then entry == n.left && other == n.right else entry == n.right && other == n.left
    requires ApplyAll(comb, below[1..], NewHash()) == entry.hash
    ensures ApplyAll(comb, (below + OtherSide(other, bit))[1..], NewHash()) == n.hash
    ensures (below + OtherSide(other, bit))[0] == below[0] && below + OtherSide(other, bit) != []
  {
    hide ApplyAll;
    ApplyLast(comb, below[1..], NewHash(), Stored(other), bit);
    assert (below + OtherSide(other, bit))[1..] == below[1..] + OtherSide(other, bit);
  }

  lemma TwinIsThere(path: Path, key: TreeKey, m: Contents)
    requires |path| == 255 && path <= Bits(key) && Shared(m, Twin(key))
    ensures path == Twin(key) && Other(key) in m && Bit(Other(key), 255) == !Bit(key, 255)
  {
    var a, b :| a in m && b in m && a != b && Twin(key) <= Bits(a) && Twin(key) <= Bits(b);
    var k := if a == key then b else a;
    if Bits(k)[255] == Bits(key)[255] {
      assert forall i :: 0 <= i < 256 ==> Bits(k)[i] == Bits(key)[i];
      BitsInjective(k, key);
    }
    assert Bits(k) == Twin(key) + [!Bit(key, 255)] == Bits(Other(key));
    BitsInjective(k, Other(key));
    assert Bits(k)[255] == Bit(k, 255);
  }

  lemma TwinGoesAlong(path: Path, key: TreeKey, m: Contents)
    requires |path| < 255 && path <= Bits(key) && AllUnder(m, path) && key in m && Shared(m, Twin(key))
    ensures var side := Side(m, |path|, Bit(key, |path|));
            key in side && Shared(side, Twin(key)) && Several(side)
  {
    var bit := Bit(key, |path|);
    NextBit(key, path);
    assert path + [bit] <= Twin(key);
    hide Bits, Bit;
    SharedInSide(m, path, bit, Twin(key));
  }

  /** The first entry is the other value of the pair. */
  predicate StartsAtPair(entries: seq<ReceiptEntry>, m: Contents, key: TreeKey) {
    entries != [] && Other(key) in m && entries[0] == ReceiptEntry(m[Other(key)], Bit(key, 255))
  }

  /** No step of a receipt takes two different hashes to one. */
  ghost predicate KeptApart(comb: Combiner, entries: seq<ReceiptEntry>, x: Hash, y: Hash) {
    entries == [] ||
    (var x', y' := Apply(comb, entries[0], x), Apply(comb, entries[0], y);
     (x' == y' ==> x == y) && KeptApart(comb, entries[1..], x', y'))
  }

  lemma {:induction false} ApartInTheEnd(comb: Combiner, entries: seq<ReceiptEntry>, x: Hash, y: Hash)
    requires KeptApart(comb, entries, x, y)
    ensures ApplyAll(comb, entries, x) == ApplyAll(comb, entries, y) <==> x == y
  {
    if entries != [] {
      ApartInTheEnd(comb, entries[1..], Apply(comb, entries[0], x), Apply(comb, entries[0], y));
    }
  }

  /** The first step does not give the hash of a new node, and the others keep its result apart from that. */
  ghost predicate ApartFromNew(comb: Combiner, entries: seq<ReceiptEntry>, v: Hash) {
    entries != [] ==>
      var x := Apply(comb, entries[0], v);
      x != NewHash() && KeptApart(comb, entries[1..], x, NewHash())
  }

  /** So it is valid exactly if the hash of the pair cannot be told from that of a new node. */
  lemma PastNewIsInvalid(comb: Combiner, entries: seq<ReceiptEntry>, v: Hash, anchor: Hash)
    requires entries != [] && ApplyAll(comb, entries[1..], NewHash()) == anchor && ApartFromNew(comb, entries, v)
    ensures ApplyAll(comb, entries, v) != anchor
  {
    ApartInTheEnd(comb, entries[1..], Apply(comb, entries[0], v), NewHash());
  }
}
