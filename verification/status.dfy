/** The signer list of a transaction status (protocol/transaction.go). */
module TransactionStatuses {
  import opened Common
  import opened Order
  import opened SortUtil
  import opened Urls
  import opened Signers

  function SignerKey(s: Signer): Key {
    KeyOf(s.GetUrl())
  }

  ghost function Keys(ss: seq<Signer>): (keys: seq<Key>)
    ensures |keys| == |ss|
    ensures forall i :: 0 <= i < |ss| ==> keys[i] == SignerKey(ss[i])
  {
    seq(|ss|, i requires 0 <= i < |ss| => SignerKey(ss[i]))
  }

  /** The list is strictly sorted by URL, and `view` is the map it stands for. */
  ghost predicate Indexed(ss: seq<Signer>, view: map<Key, Signer>) {
    && Sorted(Keys(ss))
    && (forall i :: 0 <= i < |ss| ==> SignerKey(ss[i]) in view && view[SignerKey(ss[i])] == ss[i])
    && (forall k :: k in view ==> k in Keys(ss))
  }

  lemma IndexedKeys(ss: seq<Signer>, view: map<Key, Signer>, k: Key)
    requires Indexed(ss, view)
    ensures Sorted(Keys(ss)) && (k in view <==> k in Keys(ss))
    ensures forall i :: 0 <= i < |ss| && SignerKey(ss[i]) == k ==> view[k] == ss[i]
  {
  }

  lemma IndexedInsert(ss: seq<Signer>, view: map<Key, Signer>, s: Signer)
    requires Indexed(ss, view) && SignerKey(s) !in view
    ensures SignerKey(s) !in Keys(ss)
    ensures Indexed(InsertAt(ss, Place(Keys(ss), SignerKey(s)), s), view[SignerKey(s) := s])
  {
    hide Compare, Place, Sorted, SignerKey;
    var keys, k := Keys(ss), SignerKey(s);
    var i := Place(keys, k);
    InsertKeepsSorted(keys, k);
    assert Keys(InsertAt(ss, i, s)) == InsertAt(keys, i, k);
  }

  lemma IndexedUpdate(ss: seq<Signer>, view: map<Key, Signer>, i: nat, s: Signer)
    requires Indexed(ss, view) && i < |ss| && SignerKey(ss[i]) == SignerKey(s)
    ensures Indexed(ss[i := s], view[SignerKey(s) := s])
  {
    hide Compare, Sorted, SignerKey;
    var keys := Keys(ss);
    assert Keys(ss[i := s]) == keys;
    forall j | 0 <= j < |ss| && j != i ensures SignerKey(ss[j]) != SignerKey(s) {
      ListedAtPlace(keys, keys[i]);
      assert keys[j] == SignerKey(ss[j]);
    }
  }

  /** The effect of AddSigner: the reduced form is stored unless a version at least as new is there. */
  function AddTo(view: map<Key, Signer>, s: Signer): map<Key, Signer> {
    var k := SignerKey(s);
    if k in view && s.GetVersion() <= view[k].GetVersion() then view else view[k := Lite(s)]
  }

  // ---- Runs of AddSigner ----

  function RunAdds(ss: seq<Signer>): map<Key, Signer> {
    if ss == [] then map[] else AddTo(RunAdds(DropLast(ss)), Last(ss))
  }

  /** Signer `i` is the first of those with its URL to reach the highest version among them. */
  predicate FirstNewest(ss: seq<Signer>, i: nat) {
    && i < |ss|
    && (forall j :: 0 <= j < i && SignerKey(ss[j]) == SignerKey(ss[i]) ==> ss[j].GetVersion() < ss[i].GetVersion())
    && (forall j :: i < j < |ss| && SignerKey(ss[j]) == SignerKey(ss[i]) ==> ss[j].GetVersion() <= ss[i].GetVersion())
  }

  lemma LiteKeepsKey(s: Signer)
    ensures SignerKey(Lite(s)) == SignerKey(s) && Lite(s).GetVersion() == s.GetVersion()
  {
    LiteKeepsIdentity(s);
  }

  /** After any run of AddSigner, each URL that was added holds the reduced form of its first newest signer: all
      that a page says but for its credit balance, and of its entries the delegates, in order. */
  lemma {:induction false} RunKeepsFirstNewest(ss: seq<Signer>, k: Key) returns (i: nat)
    ensures k in RunAdds(ss) <==> exists j :: 0 <= j < |ss| && SignerKey(ss[j]) == k
    ensures k in RunAdds(ss) ==> FirstNewest(ss, i) && SignerKey(ss[i]) == k && RunAdds(ss)[k] == Lite(ss[i])
    ensures k in RunAdds(ss) ==> IsLite(ss[i], RunAdds(ss)[k])
  {
    hide SignerKey, Lite, IsLite;
    i := 0;
    if ss != [] {
      var rest, last := DropLast(ss), |ss| - 1;
      i := RunKeepsFirstNewest(rest, k);
      if k in RunAdds(rest) {
        LiteKeepsKey(ss[i]);
      }
      assert forall j :: 0 <= j < |rest| ==> ss[j] == rest[j];
      if SignerKey(ss[last]) == k {
        if k !in RunAdds(rest) || ss[last].GetVersion() > RunAdds(rest)[k].GetVersion() {
          forall j | 0 <= j < last && SignerKey(ss[j]) == k
            ensures ss[j].GetVersion() < ss[last].GetVersion()
          {
            assert rest[j] == ss[j];
          }
          i := last;
        }
      }
      if k in RunAdds(ss) {
        LiteIsLite(ss[i]);
      }
    }
  }

  /** Of two pages with one URL, the second replaces the first exactly if its version is higher. */
  lemma PagesByVersion(a: KeyPage, b: KeyPage)
    requires a.url == b.url
    ensures SignerKey(Page(a)) in RunAdds([Page(a), Page(b)])
    ensures IsLite(Page(if b.version > a.version then b else a), RunAdds([Page(a), Page(b)])[SignerKey(Page(a))])
  {
    var p, q := Page(a), Page(b);
    assert DropLast([p, q]) == [p] && DropLast([p]) == [] && RunAdds([]) == map[];
    LiteIsLite(p);
    LiteIsLite(q);
    hide IsLite;
  }

  /** A lite identity counts as version 1: another one with its URL never replaces it, and a signer of a type that is
      not known does exactly from version 2. */
  lemma LiteIdentityIsVersionOne(url: Url, credits: u64, used: u64, s: Signer)
    requires s.GetUrl() == url && (s.LiteIdentity? || s.UnknownSigner?)
    ensures var lite := LiteIdentity(url, credits, used);
            RunAdds([lite, s])[SignerKey(s)] == if s.UnknownSigner? && s.unknownVersion > 1 then s else lite
  {
    var lite := LiteIdentity(url, credits, used);
    assert DropLast([lite, s]) == [lite] && DropLast([lite]) == [] && RunAdds([]) == map[];
  }

  // ---- Children of an authority ----

  function Children(ss: seq<Signer>, authority: Url): seq<Signer> {
    if ss == [] then []
    else (if ParentOf(authority, ss[0].GetUrl()) then [ss[0]] else []) + Children(ss[1..], authority)
  }

  predicate IsChild(ss: seq<Signer>, authority: Url, i: nat) {
    i < |ss| && ParentOf(authority, ss[i].GetUrl())
  }

  /** Among the signers at or after the authority, the children come first. */
  predicate ChildrenFirst(ss: seq<Signer>, authority: Url) {
    forall p, q ::
      0 <= p < q < |ss| && Compare(SignerKey(ss[p]), KeyOf(authority)) >= 0 && IsChild(ss, authority, q) ==>
        IsChild(ss, authority, p)
  }

  lemma {:induction false} ChildrenMembers(ss: seq<Signer>, authority: Url, s: Signer)
    ensures s in Children(ss, authority) <==> s in ss && ParentOf(authority, s.GetUrl())
  {
    hide ParentOf;
    if ss != [] {
      ChildrenMembers(ss[1..], authority, s);
      assert ss == [ss[0]] + ss[1..];
    }
  }

  lemma {:induction false} ChildrenConcat(a: seq<Signer>, b: seq<Signer>, authority: Url)
    ensures Children(a + b, authority) == Children(a, authority) + Children(b, authority)
  {
    hide ParentOf;
    if a == [] {
      assert a + b == b;
    } else {
      assert (a + b)[1..] == a[1..] + b;
      ChildrenConcat(a[1..], b, authority);
    }
  }

  /** A stretch of the list in which all or none are children. */
  lemma {:induction false} ChildrenOfStretch(ss: seq<Signer>, authority: Url, a: nat, b: nat, child: bool)
    requires a <= b <= |ss|
    requires forall k :: a <= k < b ==> IsChild(ss, authority, k) == child
    ensures Children(ss[a..b], authority) == if child then ss[a..b] else []
    decreases b - a
  {
    hide ParentOf;
    if a < b {
      ChildrenOfStretch(ss, authority, a + 1, b, child);
      assert IsChild(ss, authority, a) == child;
      assert ss[a..b] == [ss[a]] + ss[a + 1..b];
    }
  }

  lemma ChildrenAreRange(ss: seq<Signer>, authority: Url, i: nat, j: nat)
    requires i <= j <= |ss|
    requires forall k :: 0 <= k < |ss| ==> (IsChild(ss, authority, k) <==> i <= k < j)
    ensures Children(ss, authority) == ss[i..j]
  {
    hide Children, IsChild;
    ChildrenOfStretch(ss, authority, 0, i, false);
    ChildrenOfStretch(ss, authority, i, j, true);
    ChildrenOfStretch(ss, authority, j, |ss|, false);
    ChildrenConcat(ss[0..i] + ss[i..j], ss[j..|ss|], authority);
    ChildrenConcat(ss[0..i], ss[i..j], authority);
    assert ss == ss[0..i] + ss[i..j] + ss[j..|ss|];
  }

  /** The signers at or after the authority are those from its place on, and children are among them. */
  lemma AtOrAfter(ss: seq<Signer>, authority: Url, i: nat)
    requires Sorted(Keys(ss)) && i == Place(Keys(ss), KeyOf(authority))
    ensures forall k :: 0 <= k < |ss| ==> (Compare(SignerKey(ss[k]), KeyOf(authority)) >= 0 <==> k >= i)
    ensures forall k: nat :: IsChild(ss, authority, k) ==> k >= i
  {
    hide KeyOf, ParentOf;
    var keys, a := Keys(ss), KeyOf(authority);
    AfterPlace(keys, a);
    forall k | 0 <= k < |ss| ensures Compare(SignerKey(ss[k]), a) >= 0 <==> k >= i {
      assert keys[k] == SignerKey(ss[k]);
    }
    forall k: nat | IsChild(ss, authority, k) ensures k >= i {
      ChildIsAfter(authority, ss[k].GetUrl());
      CompareFlips(a, keys[k]);
    }
  }

  /** A slice that starts at the authority's place is the list of children if children come first. */
  lemma ChildrenFirstGivesSlice(ss: seq<Signer>, authority: Url, i: nat, j: nat)
    requires Sorted(Keys(ss)) && i == Place(Keys(ss), KeyOf(authority)) && i <= j <= |ss|
    requires i < j ==> IsChild(ss, authority, j - 1)
    requires !IsChild(ss, authority, j) && ChildrenFirst(ss, authority)
    ensures ss[i..j] == Children(ss, authority)
  {
    hide KeyOf, ParentOf, Compare, Place, Sorted, Children;
    AtOrAfter(ss, authority, i);
    forall k | 0 <= k < |ss| ensures IsChild(ss, authority, k) <==> i <= k < j {
      if i <= k < j - 1 {
        assert Compare(SignerKey(ss[k]), KeyOf(authority)) >= 0;
      } else if k > j {
        assert Compare(SignerKey(ss[j]), KeyOf(authority)) >= 0;
      }
    }
    ChildrenAreRange(ss, authority, i, j);
  }

  /** Whatever the predicate does later on, the second search ends after a child and before a non-child. */
  lemma SearchEndsPast(ss: seq<Signer>, authority: Url, i: nat, j: nat)
    requires Sorted(Keys(ss)) && i == Place(Keys(ss), KeyOf(authority)) && i < |ss| && j <= |ss|
    requires IsChild(ss, authority, i)
    requires j < |ss| ==> Compare(SignerKey(ss[j]), KeyOf(authority)) >= 0 && !IsChild(ss, authority, j)
    requires j > 0 ==> Compare(SignerKey(ss[j - 1]), KeyOf(authority)) < 0 || IsChild(ss, authority, j - 1)
    ensures i < j && IsChild(ss, authority, j - 1) && !IsChild(ss, authority, j)
  {
    AtOrAfter(ss, authority, i);
  }

  lemma SliceMember(ss: seq<Signer>, authority: Url, i: nat, j: nat, p: nat)
    requires i <= j <= |ss| && p < |ss| && Sorted(Keys(ss)) && ss[i..j] == Children(ss, authority)
    ensures IsChild(ss, authority, p) <==> i <= p < j
  {
    hide KeyOf, ParentOf, Compare, Place, Sorted, Children;
    ChildrenMembers(ss, authority, ss[p]);
    if i <= p < j {
      assert ss[i..j][p - i] == ss[p];
    } else if ss[p] in ss[i..j] {
      var k :| 0 <= k < |ss[i..j]| && ss[i..j][k] == ss[p];
      ListedAtPlace(Keys(ss), Keys(ss)[p]);
    }
  }

  /** And only then. */
  lemma SliceGivesChildrenFirst(ss: seq<Signer>, authority: Url, i: nat, j: nat)
    requires Sorted(Keys(ss)) && i == Place(Keys(ss), KeyOf(authority)) && i <= j <= |ss|
    requires ss[i..j] == Children(ss, authority)
    ensures ChildrenFirst(ss, authority)
  {
    AtOrAfter(ss, authority, i);
    hide KeyOf, IsChild, Compare, Place, Sorted, Children;
    forall p: nat | p < |ss| ensures IsChild(ss, authority, p) <==> i <= p < j {
      SliceMember(ss, authority, i, j, p);
    }
  }

  lemma SliceIsChildren(ss: seq<Signer>, authority: Url, i: nat, j: nat)
    requires Sorted(Keys(ss)) && i == Place(Keys(ss), KeyOf(authority)) && i <= j <= |ss|
    requires (i < j ==> IsChild(ss, authority, j - 1)) && !IsChild(ss, authority, j)
    ensures ss[i..j] == Children(ss, authority) <==> ChildrenFirst(ss, authority)
  {
    hide *;
    if ChildrenFirst(ss, authority) {
      ChildrenFirstGivesSlice(ss, authority, i, j);
    }
    if ss[i..j] == Children(ss, authority) {
      SliceGivesChildrenFirst(ss, authority, i, j);
    }
  }

  lemma ChildTail(authority: Url, child: Url) returns (tail: string)
    requires ParentOf(authority, child)
    ensures KeyOf(child) == KeyOf(authority) + Codes(tail)
  {
    tail := "/" + child.path[|child.path| - 1];
    assert Text(child) == Text(authority) + tail;
  }

  /** It is enough that no listed URL continues the authority's text other than as a child. */
  lemma NoLookalikes(ss: seq<Signer>, authority: Url)
    requires forall i :: 0 <= i < |ss| && KeyOf(authority) <= SignerKey(ss[i]) ==> IsChild(ss, authority, i)
    requires Sorted(Keys(ss))
    ensures ChildrenFirst(ss, authority)
  {
    var a := KeyOf(authority);
    forall p, q | 0 <= p < q < |ss| && Compare(SignerKey(ss[p]), a) >= 0 && IsChild(ss, authority, q)
      ensures IsChild(ss, authority, p)
    {
      var tail := ChildTail(authority, ss[q].GetUrl());
      hide KeyOf, Compare, Codes, ParentOf;
      assert Keys(ss)[p] == SignerKey(ss[p]) && Keys(ss)[q] == SignerKey(ss[q]);
      CompareFlips(SignerKey(ss[p]), a);
      BetweenExtensions(a, SignerKey(ss[p]), Codes(tail));
    }
  }

  /** The list where the search goes wrong: a page of `book-2` sorts between `book` and the pages of
      `book`, because '-' comes before '/'. */
  lemma LookalikeHidesChildren()
    ensures var book := Url("foo.acme", ["book"]);
            var ss := [UnknownSigner(Url("foo.acme", ["book-2", "1"]), 1),
                       UnknownSigner(Url("foo.acme", ["book", "1"]), 1)];
            && Sorted(Keys(ss)) && Children(ss, book) == [ss[1]]
            && !ChildrenFirst(ss, book)
            && !IsChild(ss, book, 0) && Compare(SignerKey(ss[0]), KeyOf(book)) > 0 && KeyOf(book) !in Keys(ss)
  {
    var book := Url("foo.acme", ["book"]);
    var ss := [UnknownSigner(Url("foo.acme", ["book-2", "1"]), 1), UnknownSigner(Url("foo.acme", ["book", "1"]), 1)];
    LookalikeOrder();
    LookalikeParents();
    hide Compare, KeyOf, ParentOf, Children;
    SecondIsChild(ss, book);
  }

  lemma SecondIsChild(ss: seq<Signer>, authority: Url)
    requires |ss| == 2 && ParentOf(authority, ss[1].GetUrl()) && !ParentOf(authority, ss[0].GetUrl())
    requires var a, x, y := KeyOf(authority), SignerKey(ss[0]), SignerKey(ss[1]);
             Compare(x, y) < 0 && Compare(x, a) > 0 && a != x && a != y
    ensures Sorted(Keys(ss)) && Children(ss, authority) == [ss[1]] && !ChildrenFirst(ss, authority)
    ensures KeyOf(authority) !in Keys(ss) && !IsChild(ss, authority, 0)
  {
    hide Compare, KeyOf, ParentOf, Children;
    assert IsChild(ss, authority, 1) && !IsChild(ss, authority, 0);
    ChildrenAreRange(ss, authority, 1, 2);
    assert ss[1..2] == [ss[1]];
    assert Keys(ss) == [SignerKey(ss[0]), SignerKey(ss[1])];
  }

  lemma LookalikeOrder()
    ensures var k := KeyOf(Url("foo.acme", ["book"]));
            var x, y := KeyOf(Url("foo.acme", ["book-2", "1"])), KeyOf(Url("foo.acme", ["book", "1"]));
            Compare(x, y) < 0 && Compare(x, k) > 0 && Compare(y, k) > 0 && k != x && k != y
  {
    LookalikeTexts();
    DashBeforeSlash();
    hide Text, Compare, Codes, KeyOf;
    BookKey();
    OrderOfExtensions(Codes("acc://foo.acme/book"), Codes("-2/1"), Codes("/1"));
  }

  lemma BookKey()
    ensures KeyOf(Url("foo.acme", ["book"])) == Codes("acc://foo.acme/book")
  {
    LookalikeTexts();
  }

  lemma OrderOfExtensions(k: Key, x: Key, y: Key)
    requires Compare(x, y) < 0 && x != [] && y != []
    ensures Compare(k + x, k + y) < 0 && Compare(k + x, k) > 0 && Compare(k + y, k) > 0 && k != k + x && k != k + y
  {
    hide Compare;
    SamePrefix(k, x, y);
    PrefixIsLess(k, x);
    PrefixIsLess(k, y);
    CompareFlips(k, k + x);
    CompareFlips(k, k + y);
    assert |k + x| > |k| && |k + y| > |k|;
  }

  lemma LookalikeParents()
    ensures var book := Url("foo.acme", ["book"]);
            ParentOf(book, Url("foo.acme", ["book", "1"])) && !ParentOf(book, Url("foo.acme", ["book-2", "1"]))
  {
    LookalikeTexts();
    assert ["book-2", "1"][..1] == ["book-2"] && ["book", "1"][..1] == ["book"];
    hide Text;
    assert |"acc://foo.acme/book" + "-2"| > |"acc://foo.acme/book"|;
  }

  lemma LookalikeTexts()
    ensures var base := "acc://foo.acme/book";
            && Text(Url("foo.acme", ["book"])) == base
            && Text(Url("foo.acme", ["book-2"])) == base + "-2"
            && KeyOf(Url("foo.acme", ["book-2", "1"])) == Codes(base) + Codes("-2/1")
            && KeyOf(Url("foo.acme", ["book", "1"])) == Codes(base) + Codes("/1")
  {
    assert PathText([]) == "" && PathText(["book"]) == "/book" && PathText(["book-2"]) == "/book-2";
    assert ["book-2", "1"][..1] == ["book-2"] && ["book", "1"][..1] == ["book"];
    assert PathText(["book-2", "1"]) == "/book-2/1" && PathText(["book", "1"]) == "/book/1";
  }

  lemma DashBeforeSlash()
    ensures Compare(Codes("-2/1"), Codes("/1")) < 0 && Codes("-2/1") != [] && Codes("/1") != []
  {
    assert Codes("-2/1")[0] < Codes("/1")[0];
  }

  class TransactionStatus {
    var signers: seq<Signer>
    ghost var view: map<Key, Signer>

    ghost predicate Valid()
      reads this
    {
      Indexed(signers, view)
    }

    constructor ()
      ensures Valid() && view == map[]
    {
      signers, view := [], map[];
    }

    constructor Load(signers: seq<Signer>, ghost view: map<Key, Signer>)
      requires Indexed(signers, view)
      ensures Valid() && this.signers == signers && this.view == view
    {
      this.signers, this.view := signers, view;
    }

    method AddSigner(signer: Signer)
      requires Valid()
      modifies this
      ensures Valid() && view == AddTo(old(view), signer)
      // The signer is stored, reduced, unless one at least as new is there; no other one changes.
      ensures var k := KeyOf(signer.GetUrl());
              && k in view && view.Keys == old(view).Keys + {k}
              && (forall j :: j in old(view) && j != k ==> view[j] == old(view)[j])
              && if k in old(view) && old(view)[k].GetVersion() >= signer.GetVersion() then view[k] == old(view)[k]
                 else IsLite(signer, view[k])
    {
      LiteIsLite(signer);
      hide Compare, Place, Sorted, Lite, Indexed, KeyOf, IsLite;
      ghost var k := SignerKey(signer);
      IndexedKeys(signers, view, k);
      LiteKeepsKey(signer);
      var lite := Lite(signer);
      var ss, i, added := BinaryInsert(signers, (e: Signer) => Compare(KeyOf(e.GetUrl()), KeyOf(signer.GetUrl())),
                                       lite, Keys(signers), k);
      if !added && signer.GetVersion() <= ss[i].GetVersion() {
        return;
      }
      if added {
        IndexedInsert(signers, view, lite);
      } else {
        IndexedUpdate(signers, view, i, lite);
        ss := ss[i := lite];
      }
      signers := ss;
      view := view[k := lite];
    }

    method GetSigner(url: Url) returns (s: Option<Signer>)
      requires Valid()
      ensures s == if KeyOf(url) in view then Some(view[KeyOf(url)]) else None
    {
      hide Compare, Place, Sorted, Indexed, KeyOf;
      IndexedKeys(signers, view, KeyOf(url));
      var i, found := SearchKey(signers, (e: Signer) => Compare(KeyOf(e.GetUrl()), KeyOf(url)),
                                Keys(signers), KeyOf(url));
      s := if found then Some(signers[i]) else None;
    }

    /** A listed authority is its own signer. Otherwise the result is the list of the authority's children
        exactly when, among the signers that sort after the authority, the children come first. */
    method FindSigners(authority: Url) returns (r: seq<Signer>)
      requires Valid()
      ensures KeyOf(authority) in view ==> r == [view[KeyOf(authority)]]
      ensures KeyOf(authority) !in view ==>
                (r == Children(signers, authority) <==> ChildrenFirst(signers, authority))
      // In any case it is a run of signers right after the authority that begins and ends with a child.
      ensures KeyOf(authority) !in view ==>
                var i := Place(Keys(signers), KeyOf(authority));
                && i <= |signers| && r <= signers[i..]
                && (r != [] <==> IsChild(signers, authority, i))
                && (r != [] ==> IsChild(signers, authority, i + |r| - 1) && !IsChild(signers, authority, i + |r|))
    {
      hide Compare, Place, Sorted, Indexed, KeyOf, ParentOf, Children, ChildrenFirst, IsChild;
      IndexedKeys(signers, view, KeyOf(authority));
      var ss := signers;
      var i, found := SearchKey(ss, (e: Signer) => Compare(KeyOf(e.GetUrl()), KeyOf(authority)),
                                Keys(ss), KeyOf(authority));
      if found {
        return [ss[i]];
      }
      var j := EndOfChildren(authority, i);
      SliceIsChildren(ss, authority, i, j);
      r := ss[i..j];
    }

    /** The second search of FindSigners, made only if the first signer after the authority is a child. */
    method EndOfChildren(authority: Url, i: nat) returns (j: nat)
      requires Sorted(Keys(signers)) && i == Place(Keys(signers), KeyOf(authority)) && i <= |signers|
      ensures i <= j <= |signers| && (i < j <==> IsChild(signers, authority, i))
      ensures (i < j ==> IsChild(signers, authority, j - 1)) && !IsChild(signers, authority, j)
    {
      hide Compare, Place, Sorted, KeyOf, ParentOf;
      var ss := signers;
      j := i;
      if i < |ss| && ParentOf(authority, ss[i].GetUrl()) {
        j := SortSearch(|ss|, k requires 0 <= k < |ss| =>
          !(Compare(KeyOf(ss[k].GetUrl()), KeyOf(authority)) < 0) && !ParentOf(authority, ss[k].GetUrl()));
        AtOrAfter(ss, authority, i);
        SearchEndsPast(ss, authority, i, j);
      }
    }
  }

  /** FindSigners on that list: the key book has a page among the signers, and none is found. */
  method LookalikeRun() returns (t: TransactionStatus, r: seq<Signer>)
    ensures t.Valid() && r == []
    ensures t.signers[..] != [] && Children(t.signers, Url("foo.acme", ["book"])) != []
  {
    hide Compare, Sorted, KeyOf, ParentOf, Children, ChildrenFirst;
    var book := Url("foo.acme", ["book"]);
    var a, b := UnknownSigner(Url("foo.acme", ["book-2", "1"]), 1), UnknownSigner(Url("foo.acme", ["book", "1"]), 1);
    var ss := [a, b];
    LookalikeHidesChildren();
    SortedKeysDiffer(ss);
    ghost var view := map[SignerKey(a) := a][SignerKey(b) := b];
    assert Keys(ss)[0] == SignerKey(a) && Keys(ss)[1] == SignerKey(b);
    t := new TransactionStatus.Load(ss, view);
    AfterPlace(Keys(ss), KeyOf(book));
    r := t.FindSigners(book);
  }

  lemma SortedKeysDiffer(ss: seq<Signer>)
    requires Sorted(Keys(ss)) && |ss| == 2
    ensures SignerKey(ss[0]) != SignerKey(ss[1])
  {
    CompareZero(SignerKey(ss[0]), SignerKey(ss[1]));
  }
}
