/** Binary search over slices (internal/sortutil/sort.go) and Go's sort.Search underneath it. */
module SortUtil {
  import opened Order

  /** sort.Search: for any predicate, the index returned is a step from false to true. */
  method SortSearch(n: nat, f: nat ~> bool) returns (i: nat)
    requires forall k :: 0 <= k < n ==> f.requires(k)
    ensures i <= n && (i < n ==> f(i)) && (i > 0 ==> !f(i - 1))
  {
    i := 0;
    var j := n;
    while i < j
      invariant 0 <= i <= j <= n
      invariant (i > 0 ==> !f(i - 1)) && (j < n ==> f(j))
    {
      var h := (i + j) / 2;
      if !f(h) {
        i := h + 1;
      } else {
        j := h;
      }
    }
  }

  /** Once `cmp` is non-negative it stays so. */
  ghost predicate Ascending<T>(l: seq<T>, cmp: T ~> int)
    requires forall k :: 0 <= k < |l| ==> cmp.requires(l[k])
    reads set k, o | 0 <= k < |l| && o in cmp.reads(l[k]) :: o
  {
    forall i, j :: 0 <= i < j < |l| && cmp(l[i]) >= 0 ==> cmp(l[j]) >= 0
  }

  method Search<T>(l: seq<T>, cmp: T ~> int) returns (index: nat, found: bool)
    requires forall k :: 0 <= k < |l| ==> cmp.requires(l[k])
    requires Ascending(l, cmp)
    ensures index <= |l|
    ensures forall k :: 0 <= k < index ==> cmp(l[k]) < 0
    ensures forall k :: index <= k < |l| ==> cmp(l[k]) >= 0
    ensures found <==> index < |l| && cmp(l[index]) == 0
  {
    index := SortSearch(|l|, k requires 0 <= k < |l| && cmp.requires(l[k]) reads * => cmp(l[k]) >= 0);
    found := index < |l| && cmp(l[index]) == 0;
  }

  /** Search in a list sorted by key, with a comparator that compares keys. */
  method SearchKey<T>(l: seq<T>, cmp: T ~> int, ghost keys: seq<Key>, ghost k: Key) returns (index: nat, found: bool)
    requires Sorted(keys) && |keys| == |l|
    requires forall i :: 0 <= i < |l| ==> cmp.requires(l[i]) && cmp(l[i]) == Compare(keys[i], k)
    ensures index == Place(keys, k) <= |l|
    ensures found <==> k in keys
    ensures found <==> index < |l| && keys[index] == k
  {
    AfterPlace(keys, k);
    ListedAtPlace(keys, k);
    index, found := Search(l, cmp);
    CompareZero(if index < |l| then keys[index] else k, k);
  }

  /** BinaryInsert in such a list, `entry` being what the caller writes through the returned pointer when
      an entry is added. */
  method BinaryInsert<T>(l: seq<T>, cmp: T ~> int, entry: T, ghost keys: seq<Key>, ghost k: Key)
    returns (r: seq<T>, index: nat, added: bool)
    requires Sorted(keys) && |keys| == |l|
    requires forall i :: 0 <= i < |l| ==> cmp.requires(l[i]) && cmp(l[i]) == Compare(keys[i], k)
    ensures index == Place(keys, k) <= |l| && index < |r|
    ensures added <==> k !in keys
    ensures r == if added then InsertAt(l, index, entry) else l
    ensures !added ==> keys[index] == k
  {
    var found;
    index, found := SearchKey(l, cmp, keys, k);
    added := !found;
    r := if added then l[..index] + [entry] + l[index..] else l;
  }
}
