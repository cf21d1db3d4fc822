/** Go's lexicographic order on byte strings (bytes.Compare, strings.Compare) and lists sorted by it. */
module Order {
  /** The bytes or character codes that a list is sorted by. */
  type Key = seq<int>

  function Compare(a: Key, b: Key): (r: int)
    ensures -1 <= r <= 1
  {
    if a == [] && b == [] then 0
    else if a == [] then -1
    else if b == [] then 1
    else if a[0] < b[0] then -1
    else if a[0] > b[0] then 1
    else Compare(a[1..], b[1..])
  }

  /** The two agree in their first `n` places, and there `a` ends or has the smaller one. */
  predicate LessAt(a: Key, b: Key, n: nat) {
    n <= |a| && n < |b| && a[..n] == b[..n] && (n < |a| ==> a[n] < b[n])
  }

  /** The lexicographic order. */
  lemma {:induction false} CompareIsLexicographic(a: Key, b: Key)
    ensures Compare(a, b) < 0 <==> exists n :: LessAt(a, b, n)
  {
    forall n: nat | n > 0 && LessAt(a, b, n) ensures a[0] == b[0] {
      assert a[..n][0] == b[..n][0];
    }
    if a == [] || b == [] || a[0] != b[0] {
      assert b != [] ==> (LessAt(a, b, 0) <==> a == [] || a[0] < b[0]);
    } else {
      CompareIsLexicographic(a[1..], b[1..]);
      if exists n :: LessAt(a, b, n) {
        var n: nat :| LessAt(a, b, n);
        LessAtNext(a, b, n - 1);
      }
      if exists n :: LessAt(a[1..], b[1..], n) {
        var n: nat :| LessAt(a[1..], b[1..], n);
        LessAtNext(a, b, n);
      }
    }
  }

  lemma LessAtNext(a: Key, b: Key, n: nat)
    requires a != [] && b != [] && a[0] == b[0]
    ensures LessAt(a, b, n + 1) <==> LessAt(a[1..], b[1..], n)
  {
    if n + 1 <= |a| && n + 1 <= |b| {
      assert a[..n + 1] == [a[0]] + a[1..][..n] && b[..n + 1] == [b[0]] + b[1..][..n];
      assert a[1..][..n] == a[..n + 1][1..] && b[1..][..n] == b[..n + 1][1..];
    }
  }

  lemma {:induction false} CompareZero(a: Key, b: Key)
    ensures Compare(a, b) == 0 <==> a == b
  {
    if a != [] && b != [] {
      CompareZero(a[1..], b[1..]);
      assert a == [a[0]] + a[1..] && b == [b[0]] + b[1..];
    }
  }

  lemma {:induction false} CompareFlips(a: Key, b: Key)
    ensures Compare(a, b) == -Compare(b, a)
  {
    if a != [] && b != [] {
      CompareFlips(a[1..], b[1..]);
    }
  }

  lemma {:induction false} CompareTransitive(a: Key, b: Key, c: Key)
    requires Compare(a, b) <= 0 && Compare(b, c) <= 0
    ensures Compare(a, c) <= 0
    ensures Compare(a, b) < 0 || Compare(b, c) < 0 ==> Compare(a, c) < 0
  {
    if a != [] && b != [] && c != [] {
      if a[0] == b[0] && b[0] == c[0] {
        CompareTransitive(a[1..], b[1..], c[1..]);
      }
    }
  }

  lemma {:induction false} PrefixIsLess(a: Key, b: Key)
    requires b != []
    ensures Compare(a, a + b) < 0
  {
    if a != [] {
      PrefixIsLess(a[1..], b);
      assert (a + b)[1..] == a[1..] + b;
    }
  }

  lemma {:induction false} SamePrefix(a: Key, b: Key, c: Key)
    ensures Compare(a + b, a + c) == Compare(b, c)
  {
    if a == [] {
      assert a + b == b && a + c == c;
    } else {
      assert (a + b)[1..] == a[1..] + b && (a + c)[1..] == a[1..] + c;
      SamePrefix(a[1..], b, c);
    }
  }

  /** Whatever sorts between a string and an extension of it extends it too. */
  lemma {:induction false} BetweenExtensions(a: Key, t: Key, b: Key)
    requires Compare(a, t) <= 0 && Compare(t, a + b) <= 0
    ensures a <= t
  {
    if a != [] {
      assert (a + b)[1..] == a[1..] + b;
      BetweenExtensions(a[1..], t[1..], b);
      assert a == [a[0]] + a[1..] && t == [t[0]] + t[1..];
    }
  }

  // ---- Sorted lists of keys ----

  ghost predicate Sorted(keys: seq<Key>) {
    forall i, j :: 0 <= i < j < |keys| ==> Compare(keys[i], keys[j]) < 0
  }

  /** The place of `k`: how many keys come before it. This is the linear scan that the binary search stands for. */
  function Place(keys: seq<Key>, k: Key): (i: nat)
    ensures i <= |keys|
    ensures forall j :: 0 <= j < i ==> Compare(keys[j], k) < 0
    ensures i < |keys| ==> Compare(keys[i], k) >= 0
  {
    if keys == [] || Compare(keys[0], k) >= 0 then 0 else 1 + Place(keys[1..], k)
  }

  function InsertAt<T>(l: seq<T>, i: nat, x: T): seq<T>
    requires i <= |l|
  {
    l[..i] + [x] + l[i..]
  }

  function RemoveAt<T>(l: seq<T>, i: nat): seq<T>
    requires i < |l|
  {
    l[..i] + l[i + 1..]
  }

  /** Everything from the place of `k` on is at or after `k`, so a binary search may be used. */
  lemma AfterPlace(keys: seq<Key>, k: Key)
    requires Sorted(keys)
    ensures forall j :: Place(keys, k) <= j < |keys| ==> Compare(keys[j], k) >= 0
    ensures forall j :: Place(keys, k) < j < |keys| ==> Compare(keys[j], k) > 0
  {
    var i := Place(keys, k);
    forall j | i < j < |keys| ensures Compare(keys[j], k) > 0 {
      CompareFlips(k, keys[i]);
      CompareTransitive(k, keys[i], keys[j]);
      CompareFlips(k, keys[j]);
    }
  }

  /** A key is listed exactly when it is at its place. */
  lemma ListedAtPlace(keys: seq<Key>, k: Key)
    requires Sorted(keys)
    ensures k in keys <==> Place(keys, k) < |keys| && keys[Place(keys, k)] == k
    ensures forall j :: 0 <= j < |keys| && keys[j] == k ==> j == Place(keys, k)
  {
    AfterPlace(keys, k);
    CompareZero(k, k);
  }

  lemma InsertKeepsSorted(keys: seq<Key>, k: Key)
    requires Sorted(keys) && k !in keys
    ensures Sorted(InsertAt(keys, Place(keys, k), k))
  {
    var p := Place(keys, k);
    var keys' := InsertAt(keys, p, k);
    AfterPlace(keys, k);
    forall i, j | 0 <= i < j < |keys'| ensures Compare(keys'[i], keys'[j]) < 0 {
      if i == p {
        CompareZero(keys'[j], k);
        CompareFlips(keys'[j], k);
      }
    }
  }

  lemma RemoveKeepsSorted(keys: seq<Key>, p: nat)
    requires Sorted(keys) && p < |keys|
    ensures Sorted(RemoveAt(keys, p)) && keys[p] !in RemoveAt(keys, p)
    ensures forall k :: k in keys && k != keys[p] ==> k in RemoveAt(keys, p)
  {
    var keys' := RemoveAt(keys, p);
    forall i | 0 <= i < |keys'| ensures keys'[i] != keys[p] {
      CompareZero(keys[p], keys[p]);
    }
    forall k | k in keys && k != keys[p] ensures k in keys' {
      var i :| 0 <= i < |keys| && keys[i] == k;
      assert keys'[if i < p then i else i - 1] == k;
    }
  }
}
