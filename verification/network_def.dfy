/**
 The network definition (protocol/network_def.go): validators sorted by the hash of their key, each with
 the partitions it validates. `sha` is SHA-256 and `fold` is the case folding that strings.EqualFold
 compares by; nothing is assumed about either.
 */
module NetworkDefinitions {
  import opened Common
  import opened Order
  import opened SortUtil

  type Fold = string -> string
  type Row = map<string, bool>

  datatype ValidatorPartitionInfo = ValidatorPartitionInfo(id: string, active: bool)

  datatype ValidatorInfo = ValidatorInfo(
    publicKey: Bytes,
    publicKeyHash: Bytes,
    partitions: seq<ValidatorPartitionInfo>)

  // ---- The row of one validator ----

  /** The partition list read as a map from folded name to whether the validator is active there. */
  ghost function RowOf(fold: Fold, ps: seq<ValidatorPartitionInfo>): Row {
    if ps == [] then map[] else RowOf(fold, ps[1..])[fold(ps[0].id) := ps[0].active]
  }

  ghost predicate DistinctNames(fold: Fold, ps: seq<ValidatorPartitionInfo>) {
    forall i, j :: 0 <= i < j < |ps| ==> fold(ps[i].id) != fold(ps[j].id)
  }

  /** How many entries come before the one for `name`; all of them if there is none. */
  function Scan(fold: Fold, ps: seq<ValidatorPartitionInfo>, name: string): (i: nat)
    ensures i <= |ps|
    ensures forall j :: 0 <= j < i ==> fold(ps[j].id) != fold(name)
    ensures i < |ps| ==> fold(ps[i].id) == fold(name)
  {
    if ps == [] || fold(ps[0].id) == fold(name) then 0 else 1 + Scan(fold, ps[1..], name)
  }

  /** The list after setting one entry, the way AddValidator does it. */
  function SetEntry(fold: Fold, ps: seq<ValidatorPartitionInfo>, name: string, active: bool)
    : seq<ValidatorPartitionInfo>
  {
    var i := Scan(fold, ps, name);
    if i < |ps| then ps[i := ps[i].(active := active)] else ps + [ValidatorPartitionInfo(name, active)]
  }

  lemma {:induction false} RowOfScan(fold: Fold, ps: seq<ValidatorPartitionInfo>, name: string)
    ensures fold(name) in RowOf(fold, ps) <==> Scan(fold, ps, name) < |ps|
    ensures Scan(fold, ps, name) < |ps| ==> RowOf(fold, ps)[fold(name)] == ps[Scan(fold, ps, name)].active
  {
    if ps != [] && fold(ps[0].id) != fold(name) {
      RowOfScan(fold, ps[1..], name);
    }
  }

  lemma UpdatesCommute(row: Row, a: string, x: bool, b: string, y: bool)
    requires a != b
    ensures row[a := x][b := y] == row[b := y][a := x]
  {
  }

  lemma {:induction false} RowOfSetEntry(fold: Fold, ps: seq<ValidatorPartitionInfo>, name: string, active: bool)
    ensures RowOf(fold, SetEntry(fold, ps, name, active)) == RowOf(fold, ps)[fold(name) := active]
  {
    var ps' := SetEntry(fold, ps, name, active);
    if ps == [] {
      assert ps'[1..] == [];
    } else if fold(ps[0].id) == fold(name) {
      assert ps'[1..] == ps[1..];
    } else {
      RowOfSetEntry(fold, ps[1..], name, active);
      assert ps'[0] == ps[0] && ps'[1..] == SetEntry(fold, ps[1..], name, active);
      hide Scan, SetEntry;
      UpdatesCommute(RowOf(fold, ps[1..]), fold(name), active, fold(ps[0].id), ps[0].active);
    }
  }

  lemma SetEntryKeepsNames(fold: Fold, ps: seq<ValidatorPartitionInfo>, name: string, active: bool)
    requires DistinctNames(fold, ps)
    ensures DistinctNames(fold, SetEntry(fold, ps, name, active))
  {
  }

  // ---- The list of validators ----

  ghost function Keys(vs: seq<ValidatorInfo>): (keys: seq<Key>)
    ensures |keys| == |vs|
    ensures forall i :: 0 <= i < |vs| ==> keys[i] == vs[i].publicKeyHash
  {
    seq(|vs|, i requires 0 <= i < |vs| => vs[i].publicKeyHash)
  }

  /** The list is strictly sorted by hash, names are distinct, and `view` is the table it stands for. */
  ghost predicate Indexed(fold: Fold, vs: seq<ValidatorInfo>, view: map<Key, Row>) {
    && Sorted(Keys(vs))
    && (forall i :: 0 <= i < |vs| ==> DistinctNames(fold, vs[i].partitions))
    && (forall i :: 0 <= i < |vs| ==>
          vs[i].publicKeyHash in view && view[vs[i].publicKeyHash] == RowOf(fold, vs[i].partitions))
    && (forall k :: k in view ==> k in Keys(vs))
  }

  lemma IndexedKeys(fold: Fold, vs: seq<ValidatorInfo>, view: map<Key, Row>, k: Key)
    requires Indexed(fold, vs, view)
    ensures k in view <==> k in Keys(vs)
    ensures Sorted(Keys(vs))
    ensures forall i :: 0 <= i < |vs| && vs[i].publicKeyHash == k ==>
                          view[k] == RowOf(fold, vs[i].partitions) && DistinctNames(fold, vs[i].partitions)
  {
  }

  lemma IndexedInsert(fold: Fold, vs: seq<ValidatorInfo>, view: map<Key, Row>, v: ValidatorInfo)
    requires Indexed(fold, vs, view) && v.publicKeyHash !in view && DistinctNames(fold, v.partitions)
    ensures v.publicKeyHash !in Keys(vs)
    ensures Indexed(fold, InsertAt(vs, Place(Keys(vs), v.publicKeyHash), v),
                    view[v.publicKeyHash := RowOf(fold, v.partitions)])
  {
    hide Compare, Place, Sorted, RowOf, DistinctNames;
    var keys, h := Keys(vs), v.publicKeyHash;
    var i := Place(keys, h);
    var vs' := InsertAt(vs, i, v);
    InsertKeepsSorted(keys, h);
    assert Keys(vs') == InsertAt(keys, i, h);
  }

  lemma IndexedRemove(fold: Fold, vs: seq<ValidatorInfo>, view: map<Key, Row>, i: nat)
    requires Indexed(fold, vs, view) && i < |vs|
    ensures Indexed(fold, RemoveAt(vs, i), view - {vs[i].publicKeyHash})
  {
    hide Compare, Sorted, RowOf, DistinctNames;
    var keys := Keys(vs);
    RemoveKeepsSorted(keys, i);
    assert Keys(RemoveAt(vs, i)) == RemoveAt(keys, i);
    forall j | 0 <= j < |RemoveAt(vs, i)| ensures RemoveAt(vs, i)[j].publicKeyHash != vs[i].publicKeyHash {
      assert RemoveAt(keys, i)[j] in RemoveAt(keys, i);
    }
  }

  lemma IndexedUpdate(fold: Fold, vs: seq<ValidatorInfo>, view: map<Key, Row>, i: nat, v: ValidatorInfo)
    requires Indexed(fold, vs, view) && i < |vs| && v.publicKeyHash == vs[i].publicKeyHash
    requires DistinctNames(fold, v.partitions)
    ensures Indexed(fold, vs[i := v], view[v.publicKeyHash := RowOf(fold, v.partitions)])
  {
    hide Compare, RowOf, DistinctNames, Sorted;
    var keys := Keys(vs);
    assert Keys(vs[i := v]) == keys;
    forall j | 0 <= j < |vs| && j != i ensures vs[j].publicKeyHash != v.publicKeyHash {
      ListedAtPlace(keys, keys[i]);
      assert keys[j] == vs[j].publicKeyHash;
    }
  }

  /** Two entries with one hash are not a sorted list. */
  lemma ClashIsUnsorted(fold: Fold, vs: seq<ValidatorInfo>, view: map<Key, Row>, i: nat, j: nat)
    requires i < |vs| && j < |vs| && i != j && vs[i].publicKeyHash == vs[j].publicKeyHash
    ensures !Indexed(fold, vs, view)
  {
    if Sorted(Keys(vs)) {
      ListedAtPlace(Keys(vs), Keys(vs)[i]);
    }
  }

  /** Every entry carries the hash of its own key. */
  ghost predicate Hashed(sha: Bytes -> Bytes, vs: seq<ValidatorInfo>) {
    forall i :: 0 <= i < |vs| ==> vs[i].publicKeyHash == sha(vs[i].publicKey)
  }

  lemma HashedRemove(sha: Bytes -> Bytes, vs: seq<ValidatorInfo>, i: nat)
    requires Hashed(sha, vs) && i < |vs|
    ensures Hashed(sha, RemoveAt(vs, i))
  {
  }

  lemma HashedAt(sha: Bytes -> Bytes, vs: seq<ValidatorInfo>, i: nat)
    requires Hashed(sha, vs) && i < |vs|
    ensures vs[i].publicKeyHash == sha(vs[i].publicKey)
  {
  }

  lemma HashedKept(sha: Bytes -> Bytes, vs: seq<ValidatorInfo>, i: nat, v: ValidatorInfo)
    requires Hashed(sha, vs) && v.publicKeyHash == sha(v.publicKey)
    ensures i <= |vs| ==> Hashed(sha, InsertAt(vs, i, v))
    ensures i < |vs| ==> Hashed(sha, vs[i := v])
  {
  }

  /** The entry of `oldHash` was given another key where it stands, and nothing else changed. */
  ghost predicate Rekeyed(vs: seq<ValidatorInfo>, vs': seq<ValidatorInfo>, oldHash: Key, key: Bytes, hash: Bytes) {
    exists i :: 0 <= i < |vs| && vs[i].publicKeyHash == oldHash
                && vs' == vs[i := vs[i].(publicKey := key, publicKeyHash := hash)]
  }

  lemma RekeyedAt(vs: seq<ValidatorInfo>, i: nat, key: Bytes, hash: Bytes)
    requires i < |vs|
    ensures Rekeyed(vs, vs[i := vs[i].(publicKey := key, publicKeyHash := hash)], vs[i].publicKeyHash, key, hash)
  {
  }

  /** The new hash belongs to another validator. */
  predicate Clash(view: map<Key, Row>, oldHash: Key, newHash: Key) {
    oldHash in view && newHash in view && newHash != oldHash
  }

  lemma SetPartitionAt(fold: Fold, sha: Bytes -> Bytes, vs: seq<ValidatorInfo>, view: map<Key, Row>, i: nat,
                       partition: string, active: bool)
    requires Indexed(fold, vs, view) && Hashed(sha, vs) && i < |vs|
    ensures var v := vs[i].(partitions := SetEntry(fold, vs[i].partitions, partition, active));
            var hash := v.publicKeyHash;
            && hash in view && Hashed(sha, vs[i := v])
            && Indexed(fold, vs[i := v], view[hash := view[hash][fold(partition) := active]])
  {
    hide Compare, Place, Sorted, RowOf, DistinctNames, Indexed, SetEntry, Hashed;
    var v := vs[i].(partitions := SetEntry(fold, vs[i].partitions, partition, active));
    IndexedKeys(fold, vs, view, v.publicKeyHash);
    assert Keys(vs)[i] == v.publicKeyHash;
    RowOfSetEntry(fold, vs[i].partitions, partition, active);
    SetEntryKeepsNames(fold, vs[i].partitions, partition, active);
    IndexedUpdate(fold, vs, view, i, v);
    HashedAt(sha, vs, i);
    HashedKept(sha, vs, i, v);
  }

  /** A successful call; keys are given by their hashes and names by their folded form. */
  datatype Call = Add(h: Key, name: string, active: bool) | Remove(h: Key) | Update(oldHash: Key, newHash: Key)

  /** The effect of a call on the table. */
  ghost function Apply(view: map<Key, Row>, c: Call): map<Key, Row> {
    match c
    case Add(h, name, active) => view[h := (if h in view then view[h] else map[])[name := active]]
    case Remove(h) => view - {h}
    case Update(old_, new_) => if old_ in view then (view - {old_})[new_ := view[old_]] else view
  }

  /** An error message prints the first four bytes of the array behind a key, and panics if it has less, which
      depends on the capacity of the slice and not on its length. */
  datatype UpdateResult = Updated | NotFound | Conflict | Panicked

  class NetworkDefinition {
    const sha: Bytes -> Bytes
    const fold: Fold
    var validators: seq<ValidatorInfo>
    ghost var view: map<Key, Row>

    ghost predicate Valid()
      reads this
    {
      Indexed(fold, validators, view) && Hashed(sha, validators)
    }

    constructor (sha: Bytes -> Bytes, fold: Fold)
      ensures Valid() && view == map[] && this.sha == sha && this.fold == fold
    {
      this.sha, this.fold := sha, fold;
      validators, view := [], map[];
    }

    method ValidatorByHash(hash: Bytes) returns (i: nat, v: Option<ValidatorInfo>)
      requires Valid()
      ensures v.Some? <==> hash in view
      ensures v.Some? ==> i < |validators| && v.value == validators[i] && v.value.publicKeyHash == hash
      ensures v.Some? ==> RowOf(fold, v.value.partitions) == view[hash]
    {
      hide Compare, Place, Sorted, RowOf, DistinctNames;
      var found;
      i, found := SearchKey(validators, (v: ValidatorInfo) => Compare(v.publicKeyHash, hash), Keys(validators), hash);
      v := if found then Some(validators[i]) else None;
    }

    method IsActiveOn(v: ValidatorInfo, partition: string) returns (active: bool)
      ensures active <==> fold(partition) in RowOf(fold, v.partitions) && RowOf(fold, v.partitions)[fold(partition)]
    {
      RowOfScan(fold, v.partitions, partition);
      for i := 0 to |v.partitions|
        invariant i <= Scan(fold, v.partitions, partition)
      {
        if fold(v.partitions[i].id) == fold(partition) {
          return v.partitions[i].active;
        }
      }
      active := false;
    }

    /** The loop of AddValidator over the partitions of one validator. */
    method SetPartition(ps: seq<ValidatorPartitionInfo>, partition: string, active: bool)
      returns (r: seq<ValidatorPartitionInfo>)
      ensures r == SetEntry(fold, ps, partition, active)
    {
      for i := 0 to |ps|
        invariant i <= Scan(fold, ps, partition)
      {
        if fold(ps[i].id) == fold(partition) {
          return ps[i := ps[i].(active := active)];
        }
      }
      r := ps + [ValidatorPartitionInfo(partition, active)];
    }

    method AddValidator(key: Bytes, partition: string, active: bool)
      requires Valid()
      modifies this
      ensures Valid() && view == Apply(old(view), Add(sha(key), fold(partition), active))
    {
      hide Compare, Place, Sorted, RowOf, DistinctNames, Indexed, SetEntry, Hashed;
      var hash := sha(key);
      IndexedKeys(fold, validators, view, hash);
      var vs, i, added := BinaryInsert(validators, (v: ValidatorInfo) => Compare(v.publicKeyHash, hash),
                                       ValidatorInfo(key, hash, []), Keys(validators), hash);
      if added {
        EmptyRow(fold);
        IndexedInsert(fold, validators, view, ValidatorInfo(key, hash, []));
        HashedKept(sha, validators, i, ValidatorInfo(key, hash, []));
        view := view[hash := map[]];
      }
      var ps := SetPartition(vs[i].partitions, partition, active);
      SetPartitionAt(fold, sha, vs, view, i, partition, active);
      validators := vs[i := vs[i].(partitions := ps)];
      view := view[hash := view[hash][fold(partition) := active]];
    }

    method RemoveValidator(key: Bytes)
      requires Valid()
      modifies this
      ensures Valid() && view == Apply(old(view), Remove(sha(key)))
    {
      hide Compare, Place, Sorted, RowOf, DistinctNames, Indexed, Hashed;
      var hash := sha(key);
      IndexedKeys(fold, validators, view, hash);
      var i, found := SearchKey(validators, (v: ValidatorInfo) => Compare(v.publicKeyHash, hash),
                                Keys(validators), hash);
      if !found {
        return;
      }
      IndexedRemove(fold, validators, view, i);
      HashedRemove(sha, validators, i);
      validators := validators[..i] + validators[i + 1..];
      view := view - {hash};
    }

    /** Moves a validator's whole row to its new key. On a conflict the entry has already been rewritten:
        the list then holds the new hash twice, so it is no longer sorted. */
    method UpdateValidatorKey(oldKey: Bytes, oldCap: nat, newKey: Bytes, newCap: nat) returns (r: UpdateResult)
      requires Valid() && |oldKey| <= oldCap && |newKey| <= newCap
      modifies this
      ensures r == (if sha(oldKey) !in old(view) then (if oldCap >= 4 then NotFound else Panicked)
                    else if Clash(old(view), sha(oldKey), sha(newKey)) then (if newCap >= 4 then Conflict else Panicked)
                    else Updated)
      ensures var clash := Clash(old(view), sha(oldKey), sha(newKey));
              view == Apply(old(view), Update(sha(oldKey), if clash then sha(oldKey) else sha(newKey)))
      ensures sha(oldKey) !in old(view) ==> validators == old(validators)
      ensures Clash(old(view), sha(oldKey), sha(newKey)) ==>
                Rekeyed(old(validators), validators, sha(oldKey), newKey, sha(newKey))
      ensures (Valid() <==> !Clash(old(view), sha(oldKey), sha(newKey))) && Hashed(sha, validators)
    {
      hide Compare, Place, Sorted, RowOf, DistinctNames, Indexed, Hashed, Rekeyed;
      var oldHash := sha(oldKey);
      IndexedKeys(fold, validators, view, oldHash);
      var i, found := SearchKey(validators, (v: ValidatorInfo) => Compare(v.publicKeyHash, oldHash),
                                Keys(validators), oldHash);
      if !found {
        return if oldCap >= 4 then NotFound else Panicked;
      }
      var clash := Rekey(i, newKey);
      r := if !clash then Updated else if newCap >= 4 then Conflict else Panicked;
    }

    /** The part of UpdateValidatorKey after the validator was found. */
    method Rekey(i: nat, newKey: Bytes) returns (clash: bool)
      requires Valid() && i < |validators|
      modifies this
      ensures var oldHash, newHash := old(validators)[i].publicKeyHash, sha(newKey);
              && oldHash in old(view) && clash == Clash(old(view), oldHash, newHash)
              && view == Apply(old(view), Update(oldHash, if clash then oldHash else newHash))
              && (clash ==> Rekeyed(old(validators), validators, oldHash, newKey, newHash))
      ensures (Valid() <==> !clash) && Hashed(sha, validators)
    {
      hide Compare, Place, Sorted, RowOf, DistinctNames, Indexed, Hashed, Rekeyed, Apply, Clash, Keys, InsertAt;
      var newHash := sha(newKey);
      var v := validators[i].(publicKey := newKey, publicKeyHash := newHash);
      RekeySearch(fold, sha, validators, view, i, newHash);
      var val := validators[..i] + validators[i + 1..];
      var vs, j, added := BinaryInsert(val, (v: ValidatorInfo) => Compare(v.publicKeyHash, newHash), v,
                                       Keys(val), newHash);
      clash := !added;
      if clash {
        RekeyClash(fold, sha, validators, view, i, if j < i then j else j + 1, newKey);
        validators := validators[i := v];
      } else {
        RekeyMoves(fold, sha, validators, view, i, newKey);
        view := Apply(view, Update(validators[i].publicKeyHash, newHash));
        validators := vs;
      }
    }
  }

  /** The search among the other validators. */
  lemma RekeySearch(fold: Fold, sha: Bytes -> Bytes, vs: seq<ValidatorInfo>, view: map<Key, Row>, i: nat, newHash: Key)
    requires Indexed(fold, vs, view) && i < |vs|
    ensures var oldHash, val := vs[i].publicKeyHash, vs[..i] + vs[i + 1..];
            && oldHash in view && Sorted(Keys(val)) && (newHash in Keys(val) <==> Clash(view, oldHash, newHash))
            && (forall k :: 0 <= k < |val| ==> Keys(val)[k] == val[k].publicKeyHash)
  {
    hide Compare, Place, Sorted, RowOf, DistinctNames, Indexed;
    var oldHash := vs[i].publicKeyHash;
    IndexedKeys(fold, vs, view, oldHash);
    assert Keys(vs)[i] == oldHash;
    IndexedRemove(fold, vs, view, i);
    IndexedKeys(fold, RemoveAt(vs, i), view - {oldHash}, newHash);
  }

  lemma RekeyClash(fold: Fold, sha: Bytes -> Bytes, vs: seq<ValidatorInfo>, view: map<Key, Row>, i: nat, j: nat,
                   newKey: Bytes)
    requires Indexed(fold, vs, view) && Hashed(sha, vs) && i < |vs| && j < |vs| && i != j
    requires vs[j].publicKeyHash == sha(newKey)
    ensures var v := vs[i].(publicKey := newKey, publicKeyHash := sha(newKey));
            var oldHash := vs[i].publicKeyHash;
            && oldHash in view && view == Apply(view, Update(oldHash, oldHash))
            && Rekeyed(vs, vs[i := v], oldHash, newKey, sha(newKey))
            && !Indexed(fold, vs[i := v], view) && Hashed(sha, vs[i := v])
  {
    hide Compare, Place, Sorted, RowOf, DistinctNames, Indexed, Hashed, Rekeyed;
    var v, oldHash := vs[i].(publicKey := newKey, publicKeyHash := sha(newKey)), vs[i].publicKeyHash;
    IndexedKeys(fold, vs, view, oldHash);
    assert Keys(vs)[i] == oldHash;
    assert view == (view - {oldHash})[oldHash := view[oldHash]];
    RekeyedAt(vs, i, newKey, sha(newKey));
    HashedKept(sha, vs, i, v);
    ClashIsUnsorted(fold, vs[i := v], view, i, j);
  }

  lemma RekeyMoves(fold: Fold, sha: Bytes -> Bytes, vs: seq<ValidatorInfo>, view: map<Key, Row>, i: nat, newKey: Bytes)
    requires Indexed(fold, vs, view) && Hashed(sha, vs) && i < |vs| && !Clash(view, vs[i].publicKeyHash, sha(newKey))
    ensures var v := vs[i].(publicKey := newKey, publicKeyHash := sha(newKey));
            var val := vs[..i] + vs[i + 1..];
            var vs' := InsertAt(val, Place(Keys(val), sha(newKey)), v);
            && Indexed(fold, vs', Apply(view, Update(vs[i].publicKeyHash, sha(newKey)))) && Hashed(sha, vs')
  {
    hide Compare, Place, Sorted, RowOf, DistinctNames, Indexed, Hashed;
    var v, oldHash := vs[i].(publicKey := newKey, publicKeyHash := sha(newKey)), vs[i].publicKeyHash;
    IndexedKeys(fold, vs, view, oldHash);
    assert Keys(vs)[i] == oldHash;
    IndexedRemove(fold, vs, view, i);
    IndexedInsert(fold, RemoveAt(vs, i), view - {oldHash}, v);
    HashedRemove(sha, vs, i);
    HashedKept(sha, RemoveAt(vs, i), Place(Keys(RemoveAt(vs, i)), sha(newKey)), v);
  }

  /** The smallest conflict: two validators, one of which takes the key of the other. */
  method ConflictExample(sha: Bytes -> Bytes, fold: Fold, a: Bytes, b: Bytes, cap: nat)
    returns (n: NetworkDefinition, r: UpdateResult)
    requires sha(a) != sha(b) && |b| <= cap
    ensures r == (if cap >= 4 then Conflict else Panicked) && !n.Valid() && |n.validators| == 2
    ensures n.validators[0].publicKeyHash == n.validators[1].publicKeyHash == sha(b)
  {
    hide Compare, Place, Sorted, RowOf, DistinctNames, Indexed;
    n := new NetworkDefinition(sha, fold);
    n.AddValidator(a, "bvn0", true);
    n.AddValidator(b, "bvn0", true);
    ghost var view := n.view;
    TwoRows(fold, n.validators, view, sha(a), sha(b));
    r := n.UpdateValidatorKey(a, |a|, b, cap);
  }

  lemma TwoRows(fold: Fold, vs: seq<ValidatorInfo>, view: map<Key, Row>, a: Key, b: Key)
    requires Indexed(fold, vs, view) && view.Keys == {a, b} && a != b
    ensures |vs| == 2
    ensures (vs[0].publicKeyHash == a && vs[1].publicKeyHash == b) ||
            (vs[0].publicKeyHash == b && vs[1].publicKeyHash == a)
  {
    hide Compare, Place, RowOf, DistinctNames, Sorted;
    var keys := Keys(vs);
    IndexedKeys(fold, vs, view, a);
    IndexedKeys(fold, vs, view, b);
    var i :| 0 <= i < |keys| && keys[i] == a;
    var j :| 0 <= j < |keys| && keys[j] == b;
    RowIs(fold, vs, view, a, b, 0, i, j);
    RowIs(fold, vs, view, a, b, 1, i, j);
    if |vs| > 2 {
      RowIs(fold, vs, view, a, b, 2, i, j);
    }
  }

  lemma RowIs(fold: Fold, vs: seq<ValidatorInfo>, view: map<Key, Row>, a: Key, b: Key, k: nat, i: nat, j: nat)
    requires Indexed(fold, vs, view) && view.Keys == {a, b} && k < |vs| && i < |vs| && j < |vs|
    requires vs[i].publicKeyHash == a && vs[j].publicKeyHash == b
    ensures k == i || k == j
  {
    hide Compare, Place, RowOf, DistinctNames, Sorted;
    var keys := Keys(vs);
    assert vs[k].publicKeyHash in view.Keys;
    ListedAtPlace(keys, keys[k]);
    ListedAtPlace(keys, keys[i]);
    ListedAtPlace(keys, keys[j]);
  }

  lemma EmptyRow(fold: Fold)
    ensures RowOf(fold, []) == map[] && DistinctNames(fold, [])
  {
  }

  // ---- Runs ----

  ghost function RunCalls(cs: seq<Call>): map<Key, Row> {
    if cs == [] then map[] else Apply(RunCalls(DropLast(cs)), Last(cs))
  }

  /** Every key update of the run succeeds. */
  ghost predicate Succeeds(cs: seq<Call>) {
    cs == [] ||
    (&& Succeeds(DropLast(cs))
     && (Last(cs).Update? ==>
           var view := RunCalls(DropLast(cs));
           Last(cs).oldHash in view && (Last(cs).newHash in view ==> Last(cs).newHash == Last(cs).oldHash)))
  }

  /** What a run says about one validator and partition, read backwards from its last call: the last Add
      decides, a Remove forgets, and an Update continues with the key the validator had before. */
  function Trace(cs: seq<Call>, h: Key, name: string): Option<bool> {
    if cs == [] then None
    else
      var rest := DropLast(cs);
      match Last(cs)
      case Add(k, n, active) => if k == h && n == name then Some(active) else Trace(rest, h, name)
      case Remove(k) => if k == h then None else Trace(rest, h, name)
      case Update(k, k') => if k' == h then Trace(rest, k, name) else if k == h then None else Trace(rest, h, name)
  }

  lemma {:induction false} RunIsTrace(cs: seq<Call>, h: Key, name: string)
    requires Succeeds(cs)
    ensures Trace(cs, h, name) ==
            var view := RunCalls(cs);
            if h in view && name in view[h] then Some(view[h][name]) else None
  {
    if cs != [] {
      var rest := DropLast(cs);
      RunIsTrace(rest, h, name);
      if Last(cs).Update? {
        RunIsTrace(rest, Last(cs).oldHash, name);
      }
    }
  }
}
