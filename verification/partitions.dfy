/**
 The ledger accounts (protocol/system.go) that hold one exchange ledger per partition, and the
 executor's use of them (internal/block/transaction.go).
 */
module PartitionLedgers {
  import opened Common
  import opened Order
  import opened SortUtil
  import opened ExchangeLedger

  ghost function Keys(exchange: seq<TransactionExchangeLedger>): (keys: seq<Key>)
    ensures |keys| == |exchange|
  {
    seq(|exchange|, i requires 0 <= i < |exchange| => exchange[i].url)
  }

  /** The list is sorted by URL, and `view` is the map it stands for. */
  ghost predicate Indexed(exchange: seq<TransactionExchangeLedger>, view: map<Key, TransactionExchangeLedger>) {
    && Sorted(Keys(exchange))
    && (forall i :: 0 <= i < |exchange| ==> exchange[i].url in view && view[exchange[i].url] == exchange[i])
    && (forall k :: k in view ==> k in Keys(exchange) && view[k].url == k)
  }

  lemma IndexedInsert(exchange: seq<TransactionExchangeLedger>, view: map<Key, TransactionExchangeLedger>,
                      l: TransactionExchangeLedger)
    requires Indexed(exchange, view) && l.url !in Keys(exchange)
    ensures l.url !in view
    ensures Indexed(InsertAt(exchange, Place(Keys(exchange), l.url), l), view[l.url := l])
  {
    hide Compare, Place, Sorted;
    var keys, i := Keys(exchange), Place(Keys(exchange), l.url);
    var exchange' := InsertAt(exchange, i, l);
    InsertKeepsSorted(keys, l.url);
    assert Keys(exchange') == InsertAt(keys, i, l.url);
    forall j | 0 <= j < |exchange| ensures exchange[j].url != l.url {
      assert keys[j] == exchange[j].url;
    }
  }

  lemma IndexedKeys(exchange: seq<TransactionExchangeLedger>, view: map<Key, TransactionExchangeLedger>, k: Key)
    requires Indexed(exchange, view)
    ensures Sorted(Keys(exchange)) && (k in view <==> k in Keys(exchange))
  {
    if k in Keys(exchange) {
      var i :| 0 <= i < |exchange| && Keys(exchange)[i] == k;
      assert exchange[i].url in view;
    }
  }

  lemma AtIndex(exchange: seq<TransactionExchangeLedger>, view: map<Key, TransactionExchangeLedger>, i: nat)
    requires Indexed(exchange, view) && i < |exchange|
    ensures exchange[i].url in view && view[exchange[i].url] == exchange[i] && Keys(exchange)[i] == exchange[i].url
    ensures Indexed(exchange, view[exchange[i].url := exchange[i]])
  {
    assert view[exchange[i].url := exchange[i]] == view;
  }

  lemma UrlAt(exchange: seq<TransactionExchangeLedger>, view: map<Key, TransactionExchangeLedger>, k: Key)
    requires Indexed(exchange, view) && k in view
    ensures view[k].url == k
  {
  }

  /** SyntheticLedger and AnchorLedger, whose Partition methods are the same. */
  class LedgerAccount {
    var exchange: seq<TransactionExchangeLedger>
    ghost var view: map<Key, TransactionExchangeLedger>

    ghost predicate Valid()
      reads this
    {
      Indexed(exchange, view)
    }

    constructor ()
      ensures Valid() && view == map[]
    {
      exchange, view := [], map[];
    }

    /** Finds or creates the ledger of a partition. No ledger object is ever dropped, replaced or written
        to, so a pointer returned earlier stays the one that is returned again. */
    method Partition(url: Key) returns (l: TransactionExchangeLedger)
      requires Valid()
      modifies this
      ensures Valid() && view == old(view)[url := l] && l.url == url
      ensures if url in old(view) then l == old(view)[url] else fresh(l) && l.Value() == Empty()
    {
      hide Compare, Place, Sorted, Indexed;
      var created := new TransactionExchangeLedger(url);
      ghost var keys := Keys(exchange);
      IndexedKeys(exchange, view, url);
      var r, i, added := BinaryInsert(exchange, (e: TransactionExchangeLedger) => Compare(e.url, url),
                                      created, keys, url);
      if added {
        IndexedInsert(exchange, view, created);
      } else {
        AtIndex(exchange, view, i);
      }
      exchange := r;
      l := exchange[i];
      view := view[url := l];
    }

    /** Recording a transaction finds the ledger of its source and updates that one. */
    method RecordTransaction(source: Key, isPending: bool, sequenceNumber: u64, id: TxId)
      returns (r: Recorded, l: TransactionExchangeLedger)
      requires Valid()
      modifies this, if source in view then {view[source]} else {}
      ensures Valid() && view == old(view)[source := l]
      ensures l.url == source && if source in old(view) then l == old(view)[source] else fresh(l)
      ensures var s := if source in old(view) then old(view[source].Value()) else Empty();
              && l.Value() == AfterRecord(s, isPending, sequenceNumber, id)
              && r == RecordOutcome(s, isPending, sequenceNumber, id)
              && (s.Valid() && Enabled(s, RecordEvent(isPending, sequenceNumber, id)) ==>
                    r == Next(s.Slot(sequenceNumber + 1)))
    {
      hide Indexed, AfterRecord, RecordOutcome;
      l := Partition(source);
      r := l.Record(isPending, sequenceNumber, id);
    }

    /** One transaction: the ledger of its source takes a step, and no other ledger changes. */
    method RecordOne(t: Routed, ghost m: map<Key, State>) returns (r: Recorded, ghost m': map<Key, State>)
      requires Valid() && m.Keys == view.Keys && (forall k :: k in view ==> view[k].Value() == m[k])
      modifies this, if t.at in view then {view[t.at]} else {}
      ensures Valid() && m'.Keys == view.Keys && (forall k :: k in view ==> view[k].Value() == m'[k])
      ensures m' == m[t.at := t.After(At(m, t.at))] && r == t.Outcome(At(m, t.at))
      ensures forall k :: k in view ==> (k in old(view) && view[k] == old(view)[k]) || fresh(view[k])
    {
      hide Indexed, AfterRecord, RecordOutcome, Compare, Empty;
      ghost var before, list := view, exchange;
      var l;
      r, l := RecordTransaction(t.at, t.isPending, t.n, t.id);
      m' := m[t.at := t.After(At(m, t.at))];
      forall k | k in view ensures view[k].Value() == m'[k] {
        if k != t.at {
          UrlAt(list, before, k);
        }
      }
    }

    /** Recording a whole sequence of transactions from several sources, in any interleaving, up to the first panic.
        Every ledger ends as if only the transactions of its own partition had been recorded, and there is a panic
        exactly if the transactions of some partition would panic by themselves. As long as those of a partition are
        receipts of undelivered numbers and deliveries in order, each is answered with the id that its partition
        first received for the number after it. */
    method RecordAll(rs: seq<Routed>, ghost m: map<Key, State>)
      returns (panicked: bool, answers: seq<Recorded>, ghost m': map<Key, State>)
      requires Valid() && m.Keys == view.Keys && (forall k :: k in view ==> view[k].Value() == m[k])
      modifies this, set k | k in view :: view[k]
      ensures Valid() && m'.Keys == view.Keys && (forall k :: k in view ==> view[k].Value() == m'[k])
      ensures |answers| <= |rs| && (!panicked ==> |answers| == |rs|)
      ensures forall k :: At(m', k) == AfterAll(At(m, k), For(rs[..|answers|], k))
      ensures panicked <==> exists k :: !Quiet(At(m, k), For(rs, k))
      ensures forall i :: 0 <= i < |answers| ==> Answered(m, rs, i, answers[i])
    {
      hide Indexed, AfterAll, Quiet, For, At, Empty, Answered;
      panicked, answers, m' := false, [], m;
      var done := 0;
      forall k ensures For(rs[..0], k) == [] && AfterAll(At(m, k), []) == At(m, k) && Quiet(At(m, k), []) {
        Nothing(At(m, k), k);
      }
      while done < |rs| && !panicked
        invariant 0 <= done == |answers| <= |rs| && Valid() && m'.Keys == view.Keys
        invariant forall i :: 0 <= i < |answers| ==> Answered(m, rs, i, answers[i])
        invariant forall k :: k in view ==> view[k].Value() == m'[k]
        invariant forall k :: At(m', k) == AfterAll(At(m, k), For(rs[..done], k))
        invariant if panicked then exists k :: !Quiet(At(m, k), For(rs, k))
                  else forall k :: Quiet(At(m, k), For(rs[..done], k))
        invariant forall k :: k in view ==> (k in old(view) && view[k] == old(view)[k]) || fresh(view[k])
        decreases |rs| - done, !panicked
      {
        var t := rs[done];
        ghost var before := m';
        var r;
        r, m' := RecordOne(t, m');
        AnswerIsKnown(m, rs, done, before, r);
        answers := answers + [r];
        done := done + 1;
        panicked := r == Panicked;
        forall k
          ensures At(m', k) == AfterAll(At(m, k), For(rs[..done], k))
          ensures Quiet(At(m, k), For(rs[..done], k)) <==> k != t.at || !panicked
        {
          ForStep(rs, done - 1, k, At(m, k));
          AtUpdate(before, t.at, t.After(At(before, t.at)), k);
        }
        if panicked {
          QuietPrefix(At(m, t.at), rs, done, t.at);
        }
      }
      assert !panicked ==> rs[..done] == rs;
    }
  }

  /** The ledger of a partition; it is empty until something is recorded. */
  function At(m: map<Key, State>, k: Key): State {
    if k in m then m[k] else Empty()
  }

  lemma AtUpdate(m: map<Key, State>, at: Key, s: State, k: Key)
    ensures At(m[at := s], k) == if k == at then s else At(m, k)
  {
  }

  // ---- Sequences of transactions ----

  /** A recorded transaction of partition `at`. */
  datatype Routed = Routed(at: Key, isPending: bool, n: u64, id: TxId) {
    function Event(): Event {
      RecordEvent(isPending, n, id)
    }

    function After(s: State): State {
      AfterRecord(s, isPending, n, id)
    }

    function Outcome(s: State): Recorded {
      RecordOutcome(s, isPending, n, id)
    }
  }

  /** The transactions of one partition. */
  function For(rs: seq<Routed>, k: Key): seq<Routed> {
    if rs == [] then [] else For(DropLast(rs), k) + if Last(rs).at == k then [Last(rs)] else []
  }

  function AfterAll(s: State, ts: seq<Routed>): State {
    if ts == [] then s else Last(ts).After(AfterAll(s, DropLast(ts)))
  }

  /** None of the transactions panics. */
  predicate Quiet(s: State, ts: seq<Routed>) {
    ts == [] || (Quiet(s, DropLast(ts)) && Last(ts).Outcome(AfterAll(s, DropLast(ts))) != Panicked)
  }

  lemma Nothing(s: State, k: Key)
    ensures For([], k) == [] && AfterAll(s, []) == s && Quiet(s, [])
  {
  }

  lemma ForStep(rs: seq<Routed>, i: nat, k: Key, s: State)
    requires i < |rs|
    ensures var ts, t := For(rs[..i], k), rs[i];
            && For(rs[..i + 1], k) == (if t.at == k then ts + [t] else ts)
            && AfterAll(s, For(rs[..i + 1], k)) == (if t.at == k then t.After(AfterAll(s, ts)) else AfterAll(s, ts))
            && (Quiet(s, For(rs[..i + 1], k)) <==>
                Quiet(s, ts) && (t.at == k ==> t.Outcome(AfterAll(s, ts)) != Panicked))
  {
    var ts, t := For(rs[..i], k), rs[i];
    assert DropLast(rs[..i + 1]) == rs[..i] && Last(rs[..i + 1]) == t;
    assert DropLast(ts + [t]) == ts && Last(ts + [t]) == t;
  }

  lemma {:induction false} QuietPrefix(s: State, rs: seq<Routed>, i: nat, k: Key)
    requires i <= |rs|
    ensures Quiet(s, For(rs, k)) ==> Quiet(s, For(rs[..i], k))
    decreases |rs| - i
  {
    hide Quiet, For, AfterAll;
    if i == |rs| {
      assert rs[..i] == rs;
    } else {
      QuietPrefix(s, rs, i + 1, k);
      ForStep(rs, i, k, s);
    }
  }

  /** The answer to a transaction, if the transactions of its partition up to it are a run of its ledger: what that
      run received for the number after it. */
  ghost predicate Answered(m: map<Key, State>, rs: seq<Routed>, i: nat, r: Recorded)
    requires i < |rs|
  {
    var s, t, es := At(m, rs[i].at), rs[i], Events(For(rs[..i], rs[i].at));
    Legal(s, es + [t.Event()]) ==> r == Next(KnownId(s, es, t.n + 1))
  }

  lemma {:induction false} AnswerIsKnown(m: map<Key, State>, rs: seq<Routed>, i: nat, m': map<Key, State>, r: Recorded)
    requires i < |rs| && At(m', rs[i].at) == AfterAll(At(m, rs[i].at), For(rs[..i], rs[i].at))
    requires r == rs[i].Outcome(At(m', rs[i].at))
    ensures Answered(m, rs, i, r)
  {
    hide Legal, Run, AfterAll, For, At, RecordOutcome, FirstReceived, Enabled, KnownId, Step, Quiet;
    var s, t, ts := At(m, rs[i].at), rs[i], For(rs[..i], rs[i].at);
    if Legal(s, Events(ts) + [t.Event()]) {
      RunLast(s, Events(ts), t.Event());
      RecordsAreRun(s, ts);
      NextIsKnown(s, Events(ts), t.isPending, t.n, t.id);
    }
  }

  function Events(ts: seq<Routed>): seq<Event> {
    if ts == [] then [] else Events(DropLast(ts)) + [Last(ts).Event()]
  }

  /** Receipts above the delivered number and deliveries in order are a run of the ledger, without a panic. */
  lemma {:induction false} RecordsAreRun(s: State, ts: seq<Routed>)
    requires Legal(s, Events(ts))
    ensures Quiet(s, ts) && AfterAll(s, ts) == Run(s, Events(ts))
  {
    if ts != [] {
      hide Legal, Run, Step, Enabled, AfterRecord, RecordOutcome;
      var t, es := Last(ts), Events(DropLast(ts));
      RunLast(s, es, t.Event());
      RecordsAreRun(s, DropLast(ts));
      RecordIsStep(Run(s, es), t.isPending, t.n, t.id);
    }
  }
}
