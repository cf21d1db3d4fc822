/**
 Receipts (smt/managed/receipt.go): the proof that an element was used to derive the root at a later
 element. The builder walks column by column through the chain; its result is the audit path.
 */
module MerkleReceipts {
  import opened Common
  import opened MerkleTree
  import opened StatefulMerkle
  import opened MerkleManagement

  // ---- Levels of the tree under one anchor ----

  /** Level `j` with an incomplete last subtree kept: `Up` applied `j` times. */
  ghost function UpLevel(comb: Combiner, hs: seq<Hash>, j: nat): seq<Hash> {
    if j == 0 then hs else Up(comb, UpLevel(comb, hs, j - 1))
  }

  lemma {:induction false} LevelStep(comb: Combiner, hs: seq<Hash>, j: nat)
    ensures Level(comb, hs, j + 1) == Pairs(comb, Level(comb, hs, j))
    decreases j
  {
    if j > 0 {
      LevelStep(comb, Pairs(comb, hs), j - 1);
    }
  }

  lemma {:induction false} RootOfUpLevel(comb: Combiner, hs: seq<Hash>, j: nat)
    requires hs != []
    ensures UpLevel(comb, hs, j) != [] && Root(comb, UpLevel(comb, hs, j)) == Root(comb, hs)
  {
    hide Up, Root;
    if j > 0 {
      RootOfUpLevel(comb, hs, j - 1);
      RootOfUp(comb, UpLevel(comb, hs, j - 1));
    }
  }

  /** The complete subtrees of a level come first; at most one incomplete subtree follows them. */
  lemma {:induction false} LevelIsPrefix(comb: Combiner, hs: seq<Hash>, j: nat) returns (rest: Option<Hash>)
    ensures UpLevel(comb, hs, j) == Level(comb, hs, j) + AsSeq(rest)
    decreases j
  {
    hide Up, Pairs;
    if j == 0 {
      rest := None;
    } else {
      rest := LevelIsPrefix(comb, hs, j - 1);
      var level := Level(comb, hs, j - 1);
      LevelStep(comb, hs, j - 1);
      UpOfAppend(comb, level, rest);
      rest := FoldSlot(comb, if |level| % 2 == 1 then Some(level[|level| - 1]) else None, rest);
    }
  }

  lemma {:induction false} LevelSize(comb: Combiner, hs: seq<Hash>, j: nat, q: nat)
    requires q * Pow2(j) <= |hs| < (q + 1) * Pow2(j)
    ensures |Level(comb, hs, j)| == q
    decreases j
  {
    hide Pow2, Pairs;
    if j == 0 {
      TimesOne(q);
      TimesOne(q + 1);
    } else {
      Double(q, j - 1);
      Double(q + 1, j - 1);
      HalvedBounds(q * Pow2(j - 1), (q + 1) * Pow2(j - 1), |hs|);
      LevelSize(comb, Pairs(comb, hs), j - 1, q);
    }
  }

  lemma TimesOne(q: nat)
    ensures q * Pow2(0) == q
  {
  }

  lemma HalvedBounds(a: int, b: int, n: nat)
    requires 2 * a <= n < 2 * b
    ensures a <= n / 2 < b
  {
  }

  lemma {:induction false} LevelOfPrefix(comb: Combiner, hs: seq<Hash>, m: nat, j: nat)
    requires m <= |hs|
    ensures Level(comb, hs[..m], j) <= Level(comb, hs, j)
    decreases j
  {
    if j > 0 {
      assert Pairs(comb, hs[..m]) == Pairs(comb, hs)[..m / 2];
      LevelOfPrefix(comb, Pairs(comb, hs), m / 2, j - 1);
    }
  }

  lemma DivisibleDouble(n: nat, j: nat)
    ensures Divisible(2 * n, j + 1) <==> Divisible(n, j)
  {
  }

  lemma {:induction false} DivisibleMultiple(q: nat, j: nat)
    ensures Divisible(q * Pow2(j), j + 1) <==> q % 2 == 0
    decreases j
  {
    if j == 0 {
      assert q * Pow2(0) == q && Divisible(q / 2, 0);
    } else {
      DivisibleMultiple(q, j - 1);
      Double(q, j - 1);
      DivisibleDouble(q * Pow2(j - 1), j);
    }
  }

  /** Slot `i` of a state belongs to level `i` of the tree. */
  lemma {:induction false} SlotOfLevel(comb: Combiner, p: Slots, hs: seq<Hash>, i: nat)
    requires Represents(comb, p, hs) && i <= |p|
    ensures Represents(comb, p[i..], Level(comb, hs, i))
    decreases i
  {
    if i > 0 {
      SlotOfLevel(comb, p[1..], Pairs(comb, hs), i - 1);
      assert p[1..][i - 1..] == p[i..];
    }
  }

  // ---- The two halves of the builder, as steps on the audit path ----

  /** Inside the column: `level[q - 2]` and `level[q - 1]` are a complete pair, and node `b` is one of
      them. The receipt gains the other one and moves up. */
  lemma PairStep(comb: Combiner, hs: seq<Hash>, j: nat, b: nat, q: nat)
    requires 2 <= q <= |Level(comb, hs, j)| && q % 2 == 0 && q - 2 <= b < q
    ensures b / 2 == q / 2 - 1 && b < |UpLevel(comb, hs, j)|
    ensures b / 2 < |Level(comb, hs, j + 1)| && b / 2 < |UpLevel(comb, hs, j + 1)|
    ensures var level := Level(comb, hs, j);
            var entry := if b == q - 1 then ReceiptEntry(level[q - 2], false) else ReceiptEntry(level[q - 1], true);
            AuditPath(comb, UpLevel(comb, hs, j), b) == [entry] + AuditPath(comb, UpLevel(comb, hs, j + 1), b / 2)
  {
    hide Up, Pairs, Root, AuditPath;
    var _ := LevelIsPrefix(comb, hs, j);
    LevelStep(comb, hs, j);
    var up := UpLevel(comb, hs, j + 1);
    AuditPathOfUp(comb, UpLevel(comb, hs, j), up, b, b / 2);
  }

  /** Past the column: node `b` is the last complete subtree of its level. It is combined with the
      incomplete subtree to its right, if there is one, and is the last node of the level above. */
  lemma EdgeStep(comb: Combiner, hs: seq<Hash>, j: nat, b: nat, rest: Option<Hash>)
    requires UpLevel(comb, hs, j) == Level(comb, hs, j) + AsSeq(rest)
    requires |Level(comb, hs, j)| == b + 1 && b % 2 == 0
    ensures b / 2 == |Level(comb, hs, j + 1)| == |UpLevel(comb, hs, j + 1)| - 1
    ensures AuditPath(comb, UpLevel(comb, hs, j), b) ==
            (if rest.Some? then [ReceiptEntry(rest.value, true)] else [])
            + AuditPath(comb, UpLevel(comb, hs, j + 1), b / 2)
  {
    hide Up, Pairs, Root, AuditPath;
    LevelStep(comb, hs, j);
    AuditPathOfUp(comb, UpLevel(comb, hs, j), UpLevel(comb, hs, j + 1), b, b / 2);
  }

  /** Above it: the node is the incomplete last one of its level, and meets a complete subtree to its
      left exactly when the level has an odd number of those. */
  lemma LeftStep(comb: Combiner, hs: seq<Hash>, i: nat, acc: Hash)
    requires UpLevel(comb, hs, i) == Level(comb, hs, i) + [acc]
    ensures |Level(comb, hs, i)| / 2 == |Level(comb, hs, i + 1)| == |UpLevel(comb, hs, i + 1)| - 1
    ensures var level := Level(comb, hs, i);
            AuditPath(comb, UpLevel(comb, hs, i), |level|) ==
            (if |level| % 2 == 1 then [ReceiptEntry(level[|level| - 1], false)] else [])
            + AuditPath(comb, UpLevel(comb, hs, i + 1), |level| / 2)
  {
    hide Up, Pairs, Root, AuditPath;
    var level := Level(comb, hs, i);
    LevelStep(comb, hs, i);
    AuditPathOfUp(comb, UpLevel(comb, hs, i), UpLevel(comb, hs, i + 1), |level|, |level| / 2);
  }

  /** Where the column walk stands: node `b` of level `j` covers the start, and `idx` is the last
      element of that node (`stay`) or of its right sibling. */
  ghost predicate InColumn(comb: Combiner, hs: seq<Hash>, j: nat, b: nat, idx: nat, stay: bool) {
    && b < |Level(comb, hs, j)| && b < |UpLevel(comb, hs, j)|
    && idx + 1 == (if stay then b + 1 else b + 2) * Pow2(j)
    && (!stay ==> b % 2 == 0)
  }

  lemma ColumnBounds(comb: Combiner, hs: seq<Hash>, j: nat, b: nat, idx: nat, stay: bool)
    requires InColumn(comb, hs, j, b, idx, stay)
    ensures b < |UpLevel(comb, hs, j)|
  {
  }

  lemma StartOfColumns(comb: Combiner, hs: seq<Hash>, b: nat)
    requires b < |hs|
    ensures InColumn(comb, hs, 0, b, b, true) && UpLevel(comb, hs, 0) == hs
  {
    Bottom(comb, hs);
  }

  lemma OneMore(entries: seq<ReceiptEntry>, e: ReceiptEntry, rest: seq<ReceiptEntry>)
    ensures entries + ([e] + rest) == entries + [e] + rest
  {
  }

  /** An even index is only met at the bottom, on the start itself. */
  lemma EvenIndex(comb: Combiner, hs: seq<Hash>, j: nat, b: nat, idx: nat, stay: bool)
    requires InColumn(comb, hs, j, b, idx, stay) && idx % 2 == 0
    ensures j == 0 && stay && InColumn(comb, hs, j, b, idx + 1, false)
  {
    hide Level, UpLevel;
    if j > 0 {
      Double(if stay then b + 1 else b + 2, j - 1);
    }
  }

  /** No pair ends at `idx`: the node is a left child, and its sibling ends one node further on. */
  lemma {:induction false} NextColumn(comb: Combiner, hs: seq<Hash>, j: nat, b: nat, idx: nat, stay: bool)
    requires InColumn(comb, hs, j, b, idx, stay) && !Divisible(idx + 1, j + 1)
    ensures InColumn(comb, hs, j, b, idx + Pow2(j), false)
  {
    hide Level, UpLevel;
    DivisibleMultiple(if stay then b + 1 else b + 2, j);
  }

  /** A pair ends at `idx`: it is the last pair of the level over the elements up to `idx`. */
  lemma PairInColumn(comb: Combiner, elements: seq<Hash>, n: nat, j: nat, b: nat, idx: nat, stay: bool)
    requires n <= |elements| && idx < n && InColumn(comb, elements[..n], j, b, idx, stay)
    requires Divisible(idx + 1, j + 1)
    ensures var q := if stay then b + 1 else b + 2;
            && q % 2 == 0 && q <= |Level(comb, elements[..n], j)|
            && Level(comb, elements[..idx + 1], j) == Level(comb, elements[..n], j)[..q]
            && idx + 1 == (q / 2) * Pow2(j + 1)
  {
    hide Level, UpLevel, Pow2, Divisible;
    var q := if stay then b + 1 else b + 2;
    DivisibleMultiple(q, j);
    Double(q / 2, j);
    NextMultiple(q, Pow2(j));
    LevelSize(comb, elements[..idx + 1], j, q);
    LevelOfPrefix(comb, elements[..n], idx + 1, j);
    assert elements[..n][..idx + 1] == elements[..idx + 1];
    HalfTimes(q, Pow2(j));
  }

  /** So the builder's step adds the sibling of the node and goes on with its parent. */
  lemma ColumnStep(comb: Combiner, elements: seq<Hash>, n: nat, j: nat, b: nat, idx: nat, stay: bool)
    requires n <= |elements| && idx < n && InColumn(comb, elements[..n], j, b, idx, stay)
    requires Divisible(idx + 1, j + 1)
    ensures InColumn(comb, elements[..n], j + 1, b / 2, idx, true) && b / 2 < |UpLevel(comb, elements[..n], j + 1)|
    ensures |Level(comb, elements[..n], j + 1)| < |Level(comb, elements[..n], j)|
    ensures var last := Level(comb, elements[..idx + 1], j);
            && |last| >= 2
            && AuditPath(comb, UpLevel(comb, elements[..n], j), b) ==
               [if stay then ReceiptEntry(last[|last| - 2], false) else ReceiptEntry(last[|last| - 1], true)]
               + AuditPath(comb, UpLevel(comb, elements[..n], j + 1), b / 2)
  {
    hide Level, UpLevel, AuditPath, Divisible, Pow2;
    PairInColumn(comb, elements, n, j, b, idx, stay);
    PairStep(comb, elements[..n], j, b, if stay then b + 1 else b + 2);
    LevelStep(comb, elements[..n], j);
  }

  /** The walk ends past the anchor: the node is then the last complete subtree of its level. */
  lemma EndOfColumns(comb: Combiner, hs: seq<Hash>, j: nat, b: nat, idx: nat, stay: bool)
    requires InColumn(comb, hs, j, b, idx, stay) && idx >= |hs|
    ensures |Level(comb, hs, j)| == b + 1 && b % 2 == 0
  {
    hide UpLevel, Level, Pow2;
    var q := |Level(comb, hs, j)|;
    LevelCovers(comb, hs, j, q);
    Scale(b + 1, q, Pow2(j));
    if q >= b + 2 {
      Scale(b + 2, q, Pow2(j));
    }
  }

  lemma NextMultiple(q: nat, c: nat)
    requires c > 0
    ensures q * c < (q + 1) * c
  {
  }

  lemma HalfTimes(q: nat, c: nat)
    requires q % 2 == 0
    ensures q * c == 2 * ((q / 2) * c)
  {
    assert q == 2 * (q / 2);
  }

  lemma Scale(a: nat, b: nat, c: nat)
    requires a <= b
    ensures a * c <= b * c
  {
  }

  lemma Double(q: nat, j: nat)
    ensures q * Pow2(j + 1) == 2 * (q * Pow2(j))
  {
  }

  lemma {:induction false} LevelCovers(comb: Combiner, hs: seq<Hash>, j: nat, q: nat)
    requires q == |Level(comb, hs, j)|
    ensures q * Pow2(j) <= |hs|
    decreases j
  {
    hide Pow2, Pairs;
    if j == 0 {
      TimesOne(q);
    } else {
      LevelCovers(comb, Pairs(comb, hs), j - 1, q);
      hide *;
      Double(q, j - 1);
      assert q * Pow2(j) == 2 * (q * Pow2(j - 1)) <= 2 * |Pairs(comb, hs)|;
    }
  }

  /** One slot of the anchor state: the level gains its unpaired subtree on the left of what is below. */
  lemma {:induction false} SlotStep(comb: Combiner, p: Slots, hs: seq<Hash>, i: nat, acc: Option<Hash>)
    requires Represents(comb, p, hs) && i < |p|
    requires UpLevel(comb, hs, i) == Level(comb, hs, i) + AsSeq(acc)
    ensures var level := Level(comb, hs, i);
            p[i] == if |level| % 2 == 1 then Some(level[|level| - 1]) else None
    ensures UpLevel(comb, hs, i + 1) == Level(comb, hs, i + 1) + AsSeq(FoldSlot(comb, p[i], acc))
  {
    hide Up, Level;
    SlotOfLevel(comb, p, hs, i);
    LevelStep(comb, hs, i);
    UpOfAppend(comb, Level(comb, hs, i), acc);
  }

  /** Past the last slot the level has no complete subtree: only the root is left. */
  lemma TopLevel(comb: Combiner, p: Slots, hs: seq<Hash>, j: nat)
    requires Represents(comb, p, hs)
    ensures Level(comb, hs, |p|) == []
    ensures Level(comb, hs, j) != [] ==> j < |p|
  {
    SlotOfLevel(comb, p, hs, |p|);
    if |p| <= j {
      EmptyAbove(comb, hs, |p|, j);
    }
  }

  lemma {:induction false} EmptyAbove(comb: Combiner, hs: seq<Hash>, i: nat, j: nat)
    requires i <= j && Level(comb, hs, i) == []
    ensures Level(comb, hs, j) == []
    decreases j
  {
    if i < j {
      EmptyAbove(comb, hs, i, j - 1);
      LevelStep(comb, hs, j - 1);
    }
  }

  class Receipt {
    var start: Hash
    var startIndex: nat
    var end: Hash
    var endIndex: nat
    var anchor: Hash
    var entries: seq<ReceiptEntry>

    constructor (start: Hash, startIndex: nat, end: Hash, endIndex: nat)
      ensures this.start == start && this.startIndex == startIndex && this.end == end && this.endIndex == endIndex
      ensures anchor == start && entries == []
    {
      this.start, this.startIndex, this.end, this.endIndex := start, startIndex, end, endIndex;
      anchor, entries := start, [];
    }

    /** The entries lead from the start to the anchor. */
    ghost predicate Valid(comb: Combiner)
      reads this
    {
      ApplyAll(comb, entries, start) == anchor
    }

    method Validate(comb: Combiner) returns (ok: bool)
      ensures ok <==> Valid(comb)
    {
      var root, i := start, 0;
      while i < |entries|
        invariant 0 <= i <= |entries|
        invariant ApplyAll(comb, entries, start) == ApplyAll(comb, entries[i..], root)
      {
        assert entries[i..][1..] == entries[i + 1..];
        root := Apply(comb, entries[i], root);
        i := i + 1;
      }
      assert entries[i..] == [];
      ok := root == anchor;
    }

    /** The receipt is the audit path of its start in the tree of the elements up to its end. */
    ghost predicate Proves(comb: Combiner, elements: seq<Hash>)
      reads this
    {
      && startIndex <= endIndex < |elements|
      && start == elements[startIndex]
      && entries == AuditPath(comb, elements[..endIndex + 1], startIndex)
      && anchor == Root(comb, elements[..endIndex + 1])
    }

    /** The first loop of BuildReceiptWith. */
    method ClimbColumns(m: MerkleManager) returns (height: nat, ghost b: nat)
      requires m.Valid() && startIndex <= endIndex < |m.elements| && entries == []
      modifies this`anchor, this`entries
      ensures var hs := m.elements[..endIndex + 1];
              && height >= 1 && |Level(m.comb, hs, height - 1)| == b + 1 && b % 2 == 0
              && b < |UpLevel(m.comb, hs, height - 1)|
              && AuditPath(m.comb, hs, startIndex) == entries + AuditPath(m.comb, UpLevel(m.comb, hs, height - 1), b)
    {
      hide Level, UpLevel, AuditPath, Divisible, MarksOk, MarkOk, IndexOk, InColumn, Pow2;
      ghost var hs := m.elements[..endIndex + 1];
      height := 1;
      var stay, idx := true, startIndex;
      b := startIndex;
      StartOfColumns(m.comb, hs, b);
      while idx <= endIndex
        invariant height >= 1 && InColumn(m.comb, hs, height - 1, b, idx, stay) && b < |UpLevel(m.comb, hs, height - 1)|
        invariant AuditPath(m.comb, hs, startIndex) == entries + AuditPath(m.comb, UpLevel(m.comb, hs, height - 1), b)
        decreases endIndex + 1 - idx, |Level(m.comb, hs, height - 1)|
      {
        if idx % 2 == 0 {
          EvenIndex(m.comb, hs, height - 1, b, idx, stay);
          idx := idx + 1;
          stay := false;
        } else {
          var pair := m.GetIntermediate(idx, height);
          if pair.None? {
            NextColumn(m.comb, hs, height - 1, b, idx, stay);
            idx := idx + Pow2(height - 1);
            stay := false;
          } else {
            ColumnStep(m.comb, m.elements, endIndex + 1, height - 1, b, idx, stay);
            var (left, right) := pair.value;
            anchor := m.comb(left, right);
            var e := if stay then ReceiptEntry(left, false) else ReceiptEntry(right, true);
            OneMore(entries, e, AuditPath(m.comb, UpLevel(m.comb, hs, height), b / 2));
            entries := entries + [e];
            stay := true;
            height := height + 1;
            b := b / 2;
          }
        }
        ColumnBounds(m.comb, hs, height - 1, b, idx, stay);
      }
      EndOfColumns(m.comb, hs, height - 1, b, idx, stay);
    }

    /** The second loop of BuildReceiptWith: combine with what the anchor state holds. */
    method CloseReceipt(comb: Combiner, pending: Slots, height: nat, ghost hs: seq<Hash>, ghost b: nat)
      requires Represents(comb, pending, hs) && startIndex < |hs| && height >= 1
      requires |Level(comb, hs, height - 1)| == b + 1 && b % 2 == 0 && b < |UpLevel(comb, hs, height - 1)|
      requires AuditPath(comb, hs, startIndex) == entries + AuditPath(comb, UpLevel(comb, hs, height - 1), b)
      modifies this`anchor, this`entries
      ensures entries == AuditPath(comb, hs, startIndex) && anchor == Root(comb, hs)
    {
      hide Level, UpLevel, AuditPath, Represents;
      Bottom(comb, hs);
      TopLevel(comb, pending, hs, height - 1);
      var stay, i := false, 0;
      var acc: Option<Hash> := None;
      while i < |pending|
        invariant 0 <= i <= |pending|
        invariant UpLevel(comb, hs, i) == Level(comb, hs, i) + AsSeq(acc)
        invariant if i < height then !stay else stay && acc.Some?
        invariant var (top, node) := if i < height then (height - 1, b) else (i, |Level(comb, hs, i)|);
                  AuditPath(comb, hs, startIndex) == entries + AuditPath(comb, UpLevel(comb, hs, top), node)
      {
        SlotStep(comb, pending, hs, i, acc);
        if i == height - 1 {
          EdgeStep(comb, hs, i, b, acc);
        } else if i >= height {
          LeftStep(comb, hs, i, acc.value);
        }
        if pending[i].Some? {
          var v := pending[i].value;
          if acc.None? {
            acc := Some(v);
            if height - 1 == i {
              stay := true;
            }
          } else {
            var last := acc.value;
            acc := Some(comb(v, last));
            if i >= height - 1 {
              if stay {
                if i >= height {
                  entries := entries + [ReceiptEntry(v, false)];
                }
              } else {
                entries := entries + [ReceiptEntry(last, true)];
                stay := true;
              }
            }
          }
        }
        i := i + 1;
      }
      RootOfUpLevel(comb, hs, i);
      SinglePath(comb, UpLevel(comb, hs, i));
      anchor := acc.value;
    }

    method BuildReceipt(m: MerkleManager)
      requires m.Valid() && startIndex <= endIndex < |m.elements| && start == m.elements[startIndex]
      requires entries == []
      modifies this`anchor, this`entries
      ensures Proves(m.comb, m.elements)
    {
      hide Level, UpLevel, AuditPath, Represents, Root, MarksOk, MarkOk, IndexOk;
      var state := m.GetAnyState(endIndex);
      state.Trim();
      anchor := start;
      ghost var hs := m.elements[..endIndex + 1];
      var height, b := ClimbColumns(m);
      if endIndex == 0 {
        anchor := start;
        SinglePath(m.comb, hs);
      } else {
        CloseReceipt(m.comb, state.pending, height, hs, b);
      }
    }
  }

  lemma Bottom(comb: Combiner, hs: seq<Hash>)
    ensures Level(comb, hs, 0) == hs && UpLevel(comb, hs, 0) == hs
  {
  }

  /** A receipt from `element` to `anchor`, which are looked up by hash: the first position of each counts. */
  method GetReceipt(m: MerkleManager, element: Hash, anchor: Hash) returns (r: Receipt?)
    requires m.Valid()
    ensures r != null <==>
            element in m.elementIndex && anchor in m.elementIndex && m.elementIndex[element] <= m.elementIndex[anchor]
    ensures r != null ==> fresh(r) && r.Proves(m.comb, m.elements) && r.Valid(m.comb)
    ensures r != null ==> r.start == element && r.end == anchor
    ensures r != null ==> r.startIndex == m.elementIndex[element] && r.endIndex == m.elementIndex[anchor]
  {
    hide AuditPath, Root, Low, MarksOk, ListOk, Represents;
    if element !in m.elementIndex || anchor !in m.elementIndex {
      return null;
    }
    var start, end := m.elementIndex[element], m.elementIndex[anchor];
    if start > end || start > m.head.count {
      return null;
    }
    r := new Receipt(element, start, anchor, end);
    if start == 0 && end == 0 {
      SinglePath(m.comb, m.elements[..1]);
    } else {
      r.BuildReceipt(m);
    }
    AuditPathReachesRoot(m.comb, m.elements[..end + 1], start);
  }

  /** Receipt.Combine: append a receipt for this receipt's anchor. */
  method Combine(r: Receipt, next: Receipt, ghost comb: Combiner) returns (c: Receipt?)
    ensures c != null <==> r.anchor == next.start
    ensures c != null ==>
              fresh(c) && c.start == r.start && c.anchor == next.anchor && c.entries == r.entries + next.entries
    ensures c != null && r.Valid(comb) ==> (c.Valid(comb) <==> next.Valid(comb))
  {
    if r.anchor != next.start {
      return null;
    }
    c := new Receipt(r.start, r.startIndex, r.end, r.endIndex);
    c.anchor := next.anchor;
    c.entries := r.entries;
    var i := 0;
    while i < |next.entries|
      invariant 0 <= i <= |next.entries| && c.start == r.start && c.anchor == next.anchor && fresh(c)
      invariant c.entries == r.entries + next.entries[..i]
    {
      c.entries := c.entries + [next.entries[i]];
      i := i + 1;
    }
    ApplyAllConcat(comb, r.entries, next.entries, r.start);
  }
}
