/** Key pages (protocol/keys.go): entries sorted by key hash, those without a delegate first. */
module KeyPages {
  import opened Common
  import opened Order
  import opened SortUtil
  import opened Urls
  import opened Signers

  /** The comparator of AddKeySpec. An entry without a delegate never equals another one, so such entries
      may repeat. */
  function SpecCompare(l: KeySpec, k: KeySpec): int {
    var v := Compare(l.publicKeyHash, k.publicKeyHash);
    if v != 0 then v
    else if l.delegate.None? then -1
    else if k.delegate.None? then 1
    else Compare(KeyOf(l.delegate.value), KeyOf(k.delegate.value))
  }

  ghost predicate PageSorted(keys: seq<KeySpec>) {
    forall i, j :: 0 <= i < j < |keys| ==> SpecCompare(keys[i], keys[j]) < 0
  }

  /** The order of a page: hashes ascend, and for one hash the entries without a delegate come first, and then those
      with one in the order of the delegates' URLs. */
  ghost predicate InOrder(keys: seq<KeySpec>) {
    forall i, j :: 0 <= i < j < |keys| ==> Before(keys[i], keys[j])
  }

  predicate Before(a: KeySpec, b: KeySpec) {
    || Compare(a.publicKeyHash, b.publicKeyHash) < 0
    || (a.publicKeyHash == b.publicKeyHash &&
        (a.delegate.Some? ==> b.delegate.Some? && Compare(KeyOf(a.delegate.value), KeyOf(b.delegate.value)) < 0))
  }

  lemma OrderOfPage(keys: seq<KeySpec>)
    ensures InOrder(keys) <==> PageSorted(keys)
  {
    hide Compare, KeyOf;
    forall i, j | 0 <= i < j < |keys| ensures Before(keys[i], keys[j]) <==> SpecCompare(keys[i], keys[j]) < 0 {
      CompareZero(keys[i].publicKeyHash, keys[j].publicKeyHash);
    }
  }

  /** The entry that adding `k` replaces: the same hash and the same delegate. */
  predicate SameSlot(l: KeySpec, k: KeySpec) {
    && l.publicKeyHash == k.publicKeyHash && l.delegate.Some? && k.delegate.Some?
    && KeyOf(l.delegate.value) == KeyOf(k.delegate.value)
  }

  lemma SpecTransitive(a: KeySpec, b: KeySpec, c: KeySpec)
    requires SpecCompare(a, b) < 0 && SpecCompare(b, c) < 0
    ensures SpecCompare(a, c) < 0
  {
    hide Compare, KeyOf;
    CompareTransitive(a.publicKeyHash, b.publicKeyHash, c.publicKeyHash);
    CompareZero(a.publicKeyHash, b.publicKeyHash);
    CompareZero(b.publicKeyHash, c.publicKeyHash);
    CompareZero(a.publicKeyHash, c.publicKeyHash);
    if a.delegate.Some? && b.delegate.Some? && c.delegate.Some? {
      if a.publicKeyHash == b.publicKeyHash == c.publicKeyHash {
        CompareTransitive(KeyOf(a.delegate.value), KeyOf(b.delegate.value), KeyOf(c.delegate.value));
      }
    }
  }

  lemma SpecFlips(a: KeySpec, b: KeySpec)
    ensures SpecCompare(a, b) > 0 ==> SpecCompare(b, a) < 0
    ensures SpecCompare(a, b) == 0 <==> SameSlot(a, b)
    ensures SameSlot(a, b) ==> SpecCompare(b, a) == 0
  {
    hide Compare, KeyOf;
    CompareFlips(a.publicKeyHash, b.publicKeyHash);
    CompareZero(a.publicKeyHash, b.publicKeyHash);
    if a.delegate.Some? && b.delegate.Some? {
      CompareFlips(KeyOf(a.delegate.value), KeyOf(b.delegate.value));
      CompareZero(KeyOf(a.delegate.value), KeyOf(b.delegate.value));
    }
  }

  /** Two entries for one slot compare alike with every other entry. */
  lemma SameSlotSameOrder(a: KeySpec, b: KeySpec, c: KeySpec)
    requires SameSlot(a, b)
    ensures SpecCompare(a, c) == SpecCompare(b, c) && SpecCompare(c, a) == SpecCompare(c, b)
  {
  }

  lemma SpecAscending(keys: seq<KeySpec>, k: KeySpec)
    requires PageSorted(keys)
    ensures Ascending(keys, (l: KeySpec) => SpecCompare(l, k))
    ensures forall i, j :: 0 <= i < j < |keys| && SpecCompare(keys[i], k) >= 0 ==> SpecCompare(keys[j], k) > 0
  {
    hide SpecCompare;
    forall i, j | 0 <= i < j < |keys| && SpecCompare(keys[i], k) >= 0 ensures SpecCompare(keys[j], k) > 0 {
      if SpecCompare(keys[j], k) < 0 {
        SpecTransitive(keys[i], keys[j], k);
      } else if SpecCompare(keys[j], k) == 0 {
        SpecFlips(keys[j], k);
        SameSlotSameOrder(keys[j], k, keys[i]);
      }
    }
  }

  lemma InsertKeepsPage(keys: seq<KeySpec>, i: nat, k: KeySpec)
    requires PageSorted(keys) && i <= |keys|
    requires forall j :: 0 <= j < i ==> SpecCompare(keys[j], k) < 0
    requires forall j :: i <= j < |keys| ==> SpecCompare(keys[j], k) > 0
    ensures PageSorted(InsertAt(keys, i, k))
  {
    hide SpecCompare;
    forall j | i <= j < |keys| ensures SpecCompare(k, keys[j]) < 0 {
      SpecFlips(keys[j], k);
    }
  }

  lemma ReplaceKeepsPage(keys: seq<KeySpec>, i: nat, k: KeySpec)
    requires PageSorted(keys) && i < |keys| && SameSlot(keys[i], k)
    ensures PageSorted(keys[i := k])
  {
    hide SpecCompare, SameSlot;
    var keys' := keys[i := k];
    forall a, b | 0 <= a < b < |keys'| ensures SpecCompare(keys'[a], keys'[b]) < 0 {
      SameSlotSameOrder(keys[i], k, if a == i then keys[b] else keys[a]);
    }
  }

  /** On a sorted page, hashes ascend; so the coarser comparator of EntryByKeyHash may be searched with. */
  lemma HashAscending(keys: seq<KeySpec>, hash: Bytes)
    requires PageSorted(keys)
    ensures Ascending(keys, (l: KeySpec) => Compare(l.publicKeyHash, hash))
  {
    hide KeyOf;
    forall i, j | 0 <= i < j < |keys| && Compare(keys[i].publicKeyHash, hash) >= 0
      ensures Compare(keys[j].publicKeyHash, hash) >= 0
    {
      assert SpecCompare(keys[i], keys[j]) < 0;
      hide Compare;
      CompareFlips(keys[i].publicKeyHash, hash);
      CompareTransitive(hash, keys[i].publicKeyHash, keys[j].publicKeyHash);
      CompareFlips(hash, keys[j].publicKeyHash);
    }
  }

  lemma MultisetOfReplaced(keys: seq<KeySpec>, i: nat, k: KeySpec)
    requires i < |keys|
    ensures multiset(keys[i := k]) == multiset(keys) - multiset([keys[i]]) + multiset{k}
  {
  }

  lemma MultisetOfInserted(keys: seq<KeySpec>, i: nat, k: KeySpec)
    requires i <= |keys|
    ensures multiset(keys[..i] + [k] + keys[i..]) == multiset(keys) + multiset{k}
  {
    assert keys == keys[..i] + keys[i..];
  }

  class KeyPageAccount {
    var acceptThreshold: u64
    var keys: seq<KeySpec>

    ghost predicate Valid()
      reads this
    {
      InOrder(keys)
    }

    constructor ()
      ensures Valid() && keys == [] && acceptThreshold == 0
    {
      acceptThreshold, keys := 0, [];
    }

    /** The binary search of AddKeySpec. */
    method SpecPlace(k: KeySpec) returns (i: nat, found: bool)
      requires Valid()
      ensures i <= |keys| && (forall j :: 0 <= j < i ==> SpecCompare(keys[j], k) < 0)
      ensures found ==> i < |keys| && SameSlot(keys[i], k)
      ensures !found ==> forall j :: i <= j < |keys| ==> SpecCompare(keys[j], k) > 0
      ensures !found ==> forall j :: 0 <= j < |keys| ==> !SameSlot(keys[j], k)
    {
      OrderOfPage(keys);
      hide SpecCompare, SameSlot, PageSorted, InOrder;
      SpecAscending(keys, k);
      i, found := Search(keys, (l: KeySpec) => SpecCompare(l, k));
      forall j | 0 <= j < |keys| ensures SpecCompare(keys[j], k) == 0 <==> SameSlot(keys[j], k) {
        SpecFlips(keys[j], k);
      }
    }

    /** The entry takes its slot if it is there, and otherwise goes where the order puts it, after all entries with
        its hash and no delegate. Nothing is lost but the entry whose slot it takes, and the others keep their order. */
    method AddKeySpec(k: KeySpec) returns (ghost replaced: Option<KeySpec>, ghost at: nat)
      requires Valid()
      modifies this`keys
      ensures Valid() && k in keys
      ensures replaced.Some? ==> replaced.value in old(keys) && SameSlot(replaced.value, k)
      ensures replaced.Some? ==> at < |old(keys)| && old(keys)[at] == replaced.value && keys == old(keys)[at := k]
      ensures replaced.None? ==> forall x :: x in old(keys) ==> !SameSlot(x, k)
      ensures replaced.None? ==> at <= |old(keys)| && keys == old(keys)[..at] + [k] + old(keys)[at..]
      ensures replaced.None? ==> forall x :: x in old(keys)[at..] && x.publicKeyHash == k.publicKeyHash ==>
                                               x.delegate.Some?
      ensures multiset(keys) ==
              multiset(old(keys)) - multiset(if replaced.Some? then [replaced.value] else []) + multiset{k}
    {
      hide SpecCompare, SameSlot, PageSorted, InOrder;
      var i, found := SpecPlace(k);
      ghost var before := keys;
      at := i;
      OrderOfPage(keys);
      if found {
        ReplaceKeepsPage(keys, i, k);
        keys := keys[i := k];
        replaced := Some(before[i]);
        MultisetOfReplaced(before, i, k);
        assert k == keys[i];
      } else {
        InsertKeepsPage(keys, i, k);
        MultisetOfInserted(before, i, k);
        keys := keys[..i] + [k] + keys[i..];
        replaced := None;
        assert k == keys[i];
        forall x | x in before[i..] && x.publicKeyHash == k.publicKeyHash ensures x.delegate.Some? {
          AfterPlain(x, k);
        }
      }
      OrderOfPage(keys);
    }

    method RemoveKeySpecAt(i: nat)
      requires Valid() && i < |keys|
      modifies this`keys
      ensures Valid() && keys == RemoveAt(old(keys), i)
      ensures multiset(keys) == multiset(old(keys)) - multiset{old(keys)[i]}
    {
      ghost var before := keys;
      assert before == before[..i] + [before[i]] + before[i + 1..];
      keys := keys[..i] + keys[i + 1..];
    }

    /** The first entry with the hash, exactly as a scan of the whole page would find it; so one without a delegate,
        if the hash has one. */
    method EntryByKeyHash(keyHash: Bytes) returns (i: int, found: bool)
      requires Valid()
      ensures found <==> exists j :: 0 <= j < |keys| && keys[j].publicKeyHash == keyHash
      ensures found ==> 0 <= i < |keys| && keys[i].publicKeyHash == keyHash
      ensures found ==> forall j :: 0 <= j < i ==> keys[j].publicKeyHash != keyHash
      ensures !found ==> i == -1
      ensures found && (exists j :: 0 <= j < |keys| && keys[j].publicKeyHash == keyHash && keys[j].delegate.None?) ==>
                keys[i].delegate.None?
    {
      OrderOfPage(keys);
      hide Compare, SpecCompare;
      HashAscending(keys, keyHash);
      var index;
      index, found := Search(keys, (l: KeySpec) => Compare(l.publicKeyHash, keyHash));
      forall j | 0 <= j < |keys|
        ensures Compare(keys[j].publicKeyHash, keyHash) == 0 <==> keys[j].publicKeyHash == keyHash
      {
        CompareZero(keys[j].publicKeyHash, keyHash);
      }
      if !found && index < |keys| {
        StrictlyAfter(keys, index, keyHash);
      }
      i := if found then index else -1;
      if found {
        PlainFirst(keys, index);
      }
    }

    method SetThreshold(m: u64) returns (ok: bool)
      modifies this`acceptThreshold
      ensures ok <==> 0 < m <= |keys|
      ensures acceptThreshold == if ok then m else old(acceptThreshold)
    {
      ok := m <= |keys| && m > 0;
      if ok {
        acceptThreshold := m;
      }
    }
  }

  /** An entry without a delegate comes before a new one with its hash. */
  lemma AfterPlain(x: KeySpec, k: KeySpec)
    requires x.publicKeyHash == k.publicKeyHash && SpecCompare(x, k) > 0
    ensures x.delegate.Some?
  {
    CompareZero(x.publicKeyHash, k.publicKeyHash);
  }

  lemma PlainFirst(keys: seq<KeySpec>, i: nat)
    requires InOrder(keys) && i < |keys|
    ensures keys[i].delegate.Some? ==>
              forall j :: i <= j < |keys| && keys[j].publicKeyHash == keys[i].publicKeyHash ==> keys[j].delegate.Some?
  {
    hide Compare, KeyOf;
    forall j | i < j < |keys| && keys[j].publicKeyHash == keys[i].publicKeyHash && keys[i].delegate.Some?
      ensures keys[j].delegate.Some?
    {
      assert Before(keys[i], keys[j]);
      CompareZero(keys[i].publicKeyHash, keys[j].publicKeyHash);
    }
  }

  /** Past an entry with a greater hash there are only greater hashes. */
  lemma StrictlyAfter(keys: seq<KeySpec>, i: nat, hash: Bytes)
    requires PageSorted(keys) && i < |keys| && Compare(keys[i].publicKeyHash, hash) > 0
    ensures forall j :: i <= j < |keys| ==> keys[j].publicKeyHash != hash
  {
    hide KeyOf;
    CompareZero(hash, hash);
    forall j | i < j < |keys| ensures keys[j].publicKeyHash != hash {
      assert SpecCompare(keys[i], keys[j]) < 0;
    }
  }
}
