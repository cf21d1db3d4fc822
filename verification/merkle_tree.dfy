/**
 The reference the Merkle code is measured against: the Merkle tree hash and the audit path of
 section 2.1 of RFC 6962 (without its domain separation bytes), defined top-down by splitting at the
 largest power of two, and the bottom-up view in which one level of the tree is paired up at a time.
 `comb(l, r)` stands for hashing the concatenation of `l` and `r`.
 */
module MerkleTree {
  import opened Common

  type Hash = Bytes
  type Combiner = (Hash, Hash) -> Hash

  /** One step of a receipt: the sibling hash and the side it is on. */
  datatype ReceiptEntry = ReceiptEntry(hash: Hash, right: bool)

  function Apply(comb: Combiner, entry: ReceiptEntry, h: Hash): Hash {
    if entry.right then comb(h, entry.hash) else comb(entry.hash, h)
  }

  function ApplyAll(comb: Combiner, entries: seq<ReceiptEntry>, h: Hash): Hash {
    if entries == [] then h else ApplyAll(comb, entries[1..], Apply(comb, entries[0], h))
  }

  lemma {:induction false} ApplyAllConcat(comb: Combiner, a: seq<ReceiptEntry>, b: seq<ReceiptEntry>, h: Hash)
    ensures ApplyAll(comb, a + b, h) == ApplyAll(comb, b, ApplyAll(comb, a, h))
  {
    if a == [] {
      assert a + b == b;
    } else {
      assert (a + b)[1..] == a[1..] + b;
      ApplyAllConcat(comb, a[1..], b, Apply(comb, a[0], h));
    }
  }

  function Pow2(k: nat): (r: nat)
    ensures r > 0
  {
    if k == 0 then 1 else 2 * Pow2(k - 1)
  }

  /** The size of the left subtree of a tree with `n` leaves. */
  function Split(n: nat): (k: nat)
    requires n >= 2
    ensures 1 <= k < n <= 2 * k
  {
    if n == 2 then 1 else 2 * Split((n + 1) / 2)
  }

  lemma {:induction false} SplitGrows(m: nat, n: nat)
    requires 2 <= m <= n
    ensures Split(m) <= Split(n)
    decreases m
  {
    if m > 2 {
      SplitGrows((m + 1) / 2, (n + 1) / 2);
    }
  }

  lemma {:induction false} SplitIsPowerOfTwo(n: nat) returns (j: nat)
    requires n >= 2
    ensures Split(n) == Pow2(j)
  {
    if n == 2 {
      j := 0;
    } else {
      j := SplitIsPowerOfTwo((n + 1) / 2);
      j := j + 1;
    }
  }

  /** The Merkle tree hash. */
  function Root(comb: Combiner, hs: seq<Hash>): Hash
    requires hs != []
    decreases |hs|
  {
    if |hs| == 1 then hs[0]
    else
      var k := Split(|hs|);
      comb(Root(comb, hs[..k]), Root(comb, hs[k..]))
  }

  /** The audit path of leaf `i`: the siblings met on the way from that leaf to the root. */
  function AuditPath(comb: Combiner, hs: seq<Hash>, i: nat): seq<ReceiptEntry>
    requires i < |hs|
    decreases |hs|
  {
    if |hs| == 1 then []
    else
      var k := Split(|hs|);
      if i < k then
        AuditPath(comb, hs[..k], i) + [ReceiptEntry(Root(comb, hs[k..]), true)]
      else
        AuditPath(comb, hs[k..], i - k) + [ReceiptEntry(Root(comb, hs[..k]), false)]
  }

  /** Completeness: the audit path of a leaf leads from that leaf to the root. */
  lemma {:induction false} AuditPathReachesRoot(comb: Combiner, hs: seq<Hash>, i: nat)
    requires i < |hs|
    ensures ApplyAll(comb, AuditPath(comb, hs, i), hs[i]) == Root(comb, hs)
    decreases |hs|
  {
    if |hs| > 1 {
      var k := Split(|hs|);
      if i < k {
        AuditPathReachesRoot(comb, hs[..k], i);
        ApplyAllConcat(comb, AuditPath(comb, hs[..k], i), [ReceiptEntry(Root(comb, hs[k..]), true)], hs[i]);
      } else {
        AuditPathReachesRoot(comb, hs[k..], i - k);
        ApplyAllConcat(comb, AuditPath(comb, hs[k..], i - k), [ReceiptEntry(Root(comb, hs[..k]), false)], hs[i]);
      }
    }
  }

  lemma SinglePath(comb: Combiner, hs: seq<Hash>)
    ensures |hs| == 1 ==> AuditPath(comb, hs, 0) == [] && Root(comb, hs) == hs[0]
  {
  }

  lemma RootSplits(comb: Combiner, hs: seq<Hash>)
    requires |hs| > 1
    ensures var k := Split(|hs|); Root(comb, hs) == comb(Root(comb, hs[..k]), Root(comb, hs[k..]))
  {
  }

  // ---- The bottom-up view ----

  /** The complete pairs of a level, combined. */
  function Pairs(comb: Combiner, hs: seq<Hash>): (r: seq<Hash>)
    ensures |r| == |hs| / 2
  {
    seq(|hs| / 2, i requires 0 <= i < |hs| / 2 => comb(hs[2 * i], hs[2 * i + 1]))
  }

  /** The next level: the complete pairs, and an unpaired last hash unchanged. */
  function Up(comb: Combiner, hs: seq<Hash>): (r: seq<Hash>)
    ensures |r| == (|hs| + 1) / 2
  {
    Pairs(comb, hs) + if |hs| % 2 == 1 then [hs[|hs| - 1]] else []
  }

  lemma HalfOfRest(n: nat, j: nat)
    requires 2 * j <= n
    ensures (n - 2 * j) / 2 == n / 2 - j && (n - 2 * j) % 2 == n % 2
  {
  }

  lemma PairsSplit(comb: Combiner, hs: seq<Hash>, j: nat, l: seq<Hash>, r: seq<Hash>)
    requires hs == l + r && |l| == 2 * j
    ensures Pairs(comb, hs) == Pairs(comb, l) + Pairs(comb, r)
  {
    HalfOfRest(|hs|, j);
    forall i | 0 <= i < |Pairs(comb, hs)|
      ensures Pairs(comb, hs)[i] == if i < j then Pairs(comb, l)[i] else Pairs(comb, r)[i - j]
    {
    }
  }

  lemma UpSplits(comb: Combiner, hs: seq<Hash>, j: nat)
    requires 2 * j <= |hs|
    ensures Up(comb, hs)[..j] == Up(comb, hs[..2 * j])
    ensures Up(comb, hs)[j..] == Up(comb, hs[2 * j..])
  {
    hide Pairs;
    var l, r := hs[..2 * j], hs[2 * j..];
    PairsSplit(comb, hs, j, l, r);
    HalfOfRest(|hs|, j);
    assert Up(comb, l) == Pairs(comb, l);
    assert Up(comb, hs) == Up(comb, l) + Up(comb, r);
  }

  lemma {:induction false} RootOfUp(comb: Combiner, hs: seq<Hash>)
    requires hs != []
    ensures Root(comb, Up(comb, hs)) == Root(comb, hs)
    decreases |hs|
  {
    if |hs| == 1 {
      assert Up(comb, hs) == hs;
    } else if |hs| > 2 {
      var j := Split((|hs| + 1) / 2);
      UpSplits(comb, hs, j);
      RootOfUp(comb, hs[..2 * j]);
      RootOfUp(comb, hs[2 * j..]);
    }
  }

  /** The sibling of node `i` on its own level, if it has one. */
  function Sibling(hs: seq<Hash>, i: nat): seq<ReceiptEntry>
    requires i < |hs|
  {
    if i % 2 == 1 then [ReceiptEntry(hs[i - 1], false)]
    else if i + 1 < |hs| then [ReceiptEntry(hs[i + 1], true)]
    else []
  }

  lemma SiblingSplits(hs: seq<Hash>, i: nat, j: nat)
    requires i < |hs| && 2 * j <= |hs|
    ensures i < 2 * j ==> Sibling(hs[..2 * j], i) == Sibling(hs, i) && i / 2 < j
    ensures i >= 2 * j ==> Sibling(hs[2 * j..], i - 2 * j) == Sibling(hs, i) && (i - 2 * j) / 2 == i / 2 - j >= 0
  {
    if i >= 2 * j {
      HalfOfRest(i, j);
    } else if i % 2 == 0 {
      assert i + 1 < 2 * j;
    }
  }

  lemma Reassociate(whole: seq<ReceiptEntry>, a: seq<ReceiptEntry>, b: seq<ReceiptEntry>,
                    c: seq<ReceiptEntry>, rest: seq<ReceiptEntry>)
    requires whole == (a + b) + c && rest == b + c
    ensures whole == a + rest
  {
  }

  lemma AuditPathTop(comb: Combiner, hs: seq<Hash>, k: nat, i: nat)
    requires |hs| >= 2 && i < |hs| && k == Split(|hs|)
    ensures i < k ==>
              AuditPath(comb, hs, i) == AuditPath(comb, hs[..k], i) + [ReceiptEntry(Root(comb, hs[k..]), true)]
    ensures i >= k ==>
              AuditPath(comb, hs, i) == AuditPath(comb, hs[k..], i - k) + [ReceiptEntry(Root(comb, hs[..k]), false)]
  {
  }

  lemma SplitOfUp(n: nat, up: nat)
    requires n > 2 && up == (n + 1) / 2
    ensures up >= 2 && Split(n) == 2 * Split(up)
  {
  }

  lemma AuditPathOfPair(comb: Combiner, hs: seq<Hash>, up: seq<Hash>, i: nat)
    requires i < |hs| <= 2 && up == Up(comb, hs)
    ensures |up| == 1 && AuditPath(comb, hs, i) == Sibling(hs, i) + AuditPath(comb, up, 0)
  {
    if |hs| == 2 {
      assert hs[..1] == [hs[0]] && hs[1..] == [hs[1]];
    }
  }

  /** An audit path is the sibling on the lowest level followed by the audit path one level up. */
  lemma {:induction false} AuditPathOfUp(comb: Combiner, hs: seq<Hash>, up: seq<Hash>, i: nat, m: nat)
    requires i < |hs| && up == Up(comb, hs) && m == i / 2
    ensures AuditPath(comb, hs, i) == Sibling(hs, i) + AuditPath(comb, up, m)
    decreases |hs|
  {
    hide Up, Root, AuditPath, Split, Sibling, Pairs;
    if |hs| <= 2 {
      AuditPathOfPair(comb, hs, up, i);
    } else {
      var j := Split(|up|);
      SplitOfUp(|hs|, |up|);
      var l, r := hs[..2 * j], hs[2 * j..];
      UpSplits(comb, hs, j);
      SiblingSplits(hs, i, j);
      RootOfUp(comb, l);
      RootOfUp(comb, r);
      AuditPathTop(comb, hs, 2 * j, i);
      AuditPathTop(comb, up, j, m);
      if i < 2 * j {
        AuditPathOfUp(comb, l, up[..j], i, m);
        Reassociate(AuditPath(comb, hs, i), Sibling(hs, i), AuditPath(comb, up[..j], m),
                    [ReceiptEntry(Root(comb, r), true)], AuditPath(comb, up, m));
      } else {
        AuditPathOfUp(comb, r, up[j..], i - 2 * j, m - j);
        Reassociate(AuditPath(comb, hs, i), Sibling(hs, i), AuditPath(comb, up[j..], m - j),
                    [ReceiptEntry(Root(comb, l), false)], AuditPath(comb, up, m));
      }
    }
  }
}
