/**
 The receiving side of the cross-partition exchange (protocol/ledger.go). Messages of one source
 arrive in any order, with gaps and duplicates, and are delivered in order. `pending` is a sliding
 window over the sequence numbers delivered+1..received, with `None` for a number not seen yet.
 */
module ExchangeLedger {
  import opened Common
  import opened Order

  datatype TxId = TxId(account: string, hash: Bytes)

  datatype State = State(received: u64, delivered: u64, pending: seq<Option<TxId>>) {
    predicate Valid() {
      delivered <= received && |pending| == received - delivered
    }

    /** The slot of a number inside the window. */
    function Slot(n: int): Option<TxId> {
      if delivered < n <= received && n - delivered - 1 < |pending| then pending[n - delivered - 1] else None
    }

    /** The slot at an index, whatever number it is for; empty beyond the end. */
    function Raw(i: nat): Option<TxId> {
      if i < |pending| then pending[i] else None
    }
  }

  function Empty(): State {
    State(0, 0, [])
  }

  function Max(a: u64, b: u64): u64 {
    if a > b then a else b
  }

  /** A receipt does not panic: the number was not delivered yet, and there are not more slots than numbers. */
  predicate CanReceive(s: State, n: u64) {
    n > s.delivered && |s.pending| <= Max(s.received, n) - s.delivered
  }

  /** The ledger after a receipt: the window reaches up to the highest number, and an empty slot takes the id. */
  function Receive(s: State, n: u64, id: Option<TxId>): State
    requires CanReceive(s, n)
  {
    var received := Max(s.received, n);
    State(received, s.delivered,
          seq(received - s.delivered, i requires 0 <= i < received - s.delivered =>
            if s.delivered + 1 + i == n && s.Raw(i).None? then id else s.Raw(i)))
  }

  /** The ledger after a delivery: whatever the number was, one slot leaves the window. */
  function Deliver(s: State, n: u64): State {
    State(Max(s.received, n), Max(s.delivered, n), if s.pending == [] then [] else s.pending[1..])
  }

  // ---- One step ----

  /** In order, a delivery moves the window by one and keeps every other slot. */
  lemma DeliverInOrder(s: State, n: u64)
    requires s.Valid() && n == s.delivered + 1
    ensures var s' := Deliver(s, n);
            s'.Valid() && s'.delivered == n && forall k :: k > n ==> s'.Slot(k) == s.Slot(k)
  {
  }

  /** The window survives a delivery exactly when the number is the next one, or when there was no more
      than the next slot to lose. */
  lemma DeliverKeepsWindow(s: State, n: u64)
    requires s.Valid()
    ensures Deliver(s, n).Valid() <==> KeepsWindow(s, n)
  {
  }

  predicate KeepsWindow(s: State, n: u64) {
    || n == s.delivered + 1
    || (n <= s.delivered && s.received == s.delivered)
    || (n > s.delivered + 1 && s.received <= s.delivered + 1)
  }

  /** Otherwise ids are filed under the wrong numbers: after a delivery that skips numbers, every later
      number answers with the id of a lower one. */
  lemma SkippingMisfiles(s: State, n: u64, k: u64)
    requires s.Valid() && s.delivered + 1 < n < k <= s.received
    ensures !Deliver(s, n).Valid()
    ensures Deliver(s, n).Slot(k) == s.Slot(k - (n - s.delivered - 1))
  {
  }

  /** The smallest such ledger: after delivering 2 before 1, number 3 answers with the id of number 2. */
  lemma SkippingExample(a: TxId, b: TxId, c: TxId)
    ensures var s := State(3, 0, [Some(a), Some(b), Some(c)]);
            && s.Valid() && s.Slot(3) == Some(c)
            && !Deliver(s, 2).Valid() && Deliver(s, 2).Slot(3) == Some(b)
  {
    assert [Some(a), Some(b), Some(c)][1..] == [Some(b), Some(c)];
  }

  /** The window grows. */
  predicate Grows(s: State, n: u64) {
    n > s.received || |s.pending| < s.received - s.delivered
  }

  /** The step changed the ledger: what the caller uses `dirty` for. */
  predicate ReceiveDirty(s: State, n: u64)
    requires n > s.delivered
  {
    Grows(s, n) || s.Raw(n - s.delivered - 1).None?
  }

  lemma DirtyMeansChanged(s: State, n: u64, id: Option<TxId>)
    requires CanReceive(s, n)
    ensures (ReceiveDirty(s, n) <==> Receive(s, n, id) != s) <==>
            !(id.None? && !Grows(s, n) && s.Raw(n - s.delivered - 1).None?)
  {
    var s', i := Receive(s, n, id), n - s.delivered - 1;
    if !Grows(s, n) {
      assert s'.pending[i] == if s.Raw(i).None? then id else s.Raw(i);
      assert s'.pending[i] == s.pending[i] ==> s'.pending == s.pending;
    } else if n <= s.received {
      assert |s'.pending| > |s.pending|;
    }
  }

  /** The smallest ledger that is called dirty without a change. */
  lemma DirtyExample()
    ensures var s := State(1, 0, [None]);
            s.Valid() && ReceiveDirty(s, 1) && Receive(s, 1, None) == s
  {
    var s := State(1, 0, [None]);
    assert s.Raw(0) == None && |Receive(s, 1, None).pending| == 1;
    assert Receive(s, 1, None).pending == s.pending;
  }

  // ---- Runs ----

  datatype Event = Received(n: u64, id: Option<TxId>) | Delivered(n: u64)

  /** Receipts are above what was delivered (the executor turns others away) and deliveries are in order. */
  predicate Enabled(s: State, e: Event) {
    match e
    case Received(n, _) => n > s.delivered
    case Delivered(n) => n == s.delivered + 1
  }

  function Step(s: State, e: Event): State
    requires s.Valid() && Enabled(s, e)
  {
    match e
    case Received(n, id) => Receive(s, n, id)
    case Delivered(n) => Deliver(s, n)
  }

  predicate Legal(s: State, es: seq<Event>)
    decreases |es|
  {
    && s.Valid()
    && (es == [] || (Enabled(s, es[0]) && Legal(Step(s, es[0]), es[1..])))
  }

  function Run(s: State, es: seq<Event>): State
    requires Legal(s, es)
    decreases |es|
  {
    if es == [] then s else Run(Step(s, es[0]), es[1..])
  }

  /** The first id received for `n`: a plain map in which the first write wins. */
  function FirstReceived(es: seq<Event>, n: int): Option<TxId> {
    if es == [] then None
    else if es[0].Received? && es[0].n == n && es[0].id.Some? then es[0].id
    else FirstReceived(es[1..], n)
  }

  function Deliveries(es: seq<Event>): nat {
    if es == [] then 0 else (if es[0].Delivered? then 1 else 0) + Deliveries(es[1..])
  }

  lemma StepSlot(s: State, e: Event, n: int)
    requires s.Valid() && Enabled(s, e)
    ensures Step(s, e).Valid() && Step(s, e).delivered >= s.delivered
    ensures n > Step(s, e).delivered ==>
              Step(s, e).Slot(n) == if s.Slot(n).Some? then s.Slot(n) else FirstReceived([e], n)
  {
    if e.Delivered? {
      DeliverInOrder(s, e.n);
    }
    assert FirstReceived([e], n) == if e.Received? && e.n == n then e.id else None;
  }

  /** Over every run, the window answers like the first-write-wins map above the delivered number. */
  lemma {:induction false} RunRefinesMap(s: State, es: seq<Event>, n: int)
    requires Legal(s, es)
    ensures Run(s, es).Valid()
    ensures Run(s, es).delivered == s.delivered + Deliveries(es)
    ensures n > Run(s, es).delivered ==>
              Run(s, es).Slot(n) == if s.Slot(n).Some? then s.Slot(n) else FirstReceived(es, n)
    decreases |es|
  {
    if es != [] {
      StepSlot(s, es[0], n);
      RunRefinesMap(Step(s, es[0]), es[1..], n);
    }
  }

  lemma {:induction false} RunReceived(s: State, es: seq<Event>)
    requires Legal(s, es)
    ensures Run(s, es).received >= s.received
    ensures forall e :: e in es ==> e.n <= Run(s, es).received
    ensures Run(s, es).received == s.received || exists e :: e in es && e.n == Run(s, es).received
    decreases |es|
  {
    if es != [] {
      var s' := Step(s, es[0]);
      RunReceived(s', es[1..]);
      assert es == [es[0]] + es[1..];
      assert s'.received == s.received || s'.received == es[0].n;
    }
  }

  lemma {:induction false} RunLast(s: State, es: seq<Event>, e: Event)
    requires Legal(s, es + [e])
    ensures Legal(s, es) && Run(s, es).Valid() && Enabled(Run(s, es), e)
    ensures Run(s, es + [e]) == Step(Run(s, es), e)
    decreases |es|
  {
    hide Step, Enabled;
    if es == [] {
      assert (es + [e])[1..] == [] && (es + [e])[0] == e;
    } else {
      assert (es + [e])[1..] == es[1..] + [e] && (es + [e])[0] == es[0];
      RunLast(Step(s, es[0]), es[1..], e);
    }
  }

  // ---- Order of arrival ----

  /** Receipts of distinct numbers that are not delivered yet. */
  ghost predicate Batch(s: State, es: seq<Event>) {
    && (forall e :: e in es ==> e.Received? && e.n > s.delivered)
    && (forall i, j :: 0 <= i < j < |es| ==> es[i].n != es[j].n)
  }

  lemma {:induction false} FirstReceivedIsMember(es: seq<Event>, n: int)
    ensures FirstReceived(es, n).Some? ==>
              exists e :: e in es && e.Received? && e.n == n && e.id == FirstReceived(es, n)
    ensures FirstReceived(es, n).None? ==> forall e :: e in es && e.Received? && e.n == n ==> e.id.None?
  {
    if es != [] {
      FirstReceivedIsMember(es[1..], n);
      assert es == [es[0]] + es[1..];
    }
  }

  lemma SameFirstReceived(s: State, es: seq<Event>, fs: seq<Event>, n: int)
    requires Batch(s, es) && forall e :: e in es <==> e in fs
    ensures FirstReceived(es, n) == FirstReceived(fs, n)
  {
    FirstReceivedIsMember(es, n);
    FirstReceivedIsMember(fs, n);
    if FirstReceived(es, n).Some? && FirstReceived(fs, n).Some? {
      var e :| e in es && e.Received? && e.n == n && e.id == FirstReceived(es, n);
      var f :| f in es && f.Received? && f.n == n && f.id == FirstReceived(fs, n);
    }
  }

  /** Messages with distinct numbers may arrive in any order: every permutation gives the same ledger. */
  lemma {:induction false} ArrivalOrderIrrelevant(s: State, es: seq<Event>, fs: seq<Event>)
    requires s.Valid() && Batch(s, es) && multiset(es) == multiset(fs)
    ensures Legal(s, es) && Legal(s, fs) && Run(s, es) == Run(s, fs)
  {
    forall e ensures e in es <==> e in fs {
      assert e in multiset(es) <==> e in multiset(fs);
    }
    ReceiptsAreLegal(s, es);
    ReceiptsAreLegal(s, fs);
    var a, b := Run(s, es), Run(s, fs);
    RunReceived(s, es);
    RunReceived(s, fs);
    RunRefinesMap(s, es, 0);
    RunRefinesMap(s, fs, 0);
    forall i | 0 <= i < |a.pending| ensures a.pending[i] == b.pending[i] {
      var n := a.delivered + 1 + i;
      RunRefinesMap(s, es, n);
      RunRefinesMap(s, fs, n);
      SameFirstReceived(s, es, fs, n);
      assert a.Slot(n) == a.pending[i] && b.Slot(n) == b.pending[i];
    }
    assert a.pending == b.pending;
  }

  lemma {:induction false} ReceiptsAreLegal(s: State, es: seq<Event>)
    requires s.Valid() && forall e :: e in es ==> e.Received? && e.n > s.delivered
    ensures Legal(s, es) && Deliveries(es) == 0
    decreases |es|
  {
    if es != [] {
      assert es[0] in es;
      ReceiptsAreLegal(Step(s, es[0]), es[1..]);
    }
  }

  // ---- The executor's use of the ledger ----

  /** What becomes of a recorded transaction: it is turned away, or the id of the next one is returned, or there is
      a panic. */
  datatype Recorded = Rejected | Next(id: Option<TxId>) | Panicked

  /** The ledger after recordTransaction: everything that is not pending counts as delivered. A receipt that panics
      has raised the highest number before. */
  function AfterRecord(s: State, isPending: bool, n: u64, id: TxId): State {
    if !isPending then Deliver(s, n)
    else if n <= s.delivered then s
    else if CanReceive(s, n) then Receive(s, n, Some(id))
    else s.(received := Max(s.received, n))
  }

  /** Looking up the number after a delivery panics: it is the next one, and its slot is missing. */
  predicate LookupPanics(s: State, n: u64) {
    s.delivered <= n < s.received && |s.pending| <= 1
  }

  function RecordOutcome(s: State, isPending: bool, n: u64, id: TxId): Recorded {
    if isPending && n <= s.delivered then Rejected
    else if if isPending then !CanReceive(s, n) else LookupPanics(s, n) then Panicked
    else Next(AfterRecord(s, isPending, n, id).Slot(n + 1))
  }

  /** Where the lookup after a step stands. */
  lemma LookupAfterRecord(s: State, isPending: bool, n: u64, id: TxId)
    requires isPending ==> CanReceive(s, n)
    ensures var s' := AfterRecord(s, isPending, n, id);
            s'.delivered < n + 1 <= s'.received && n - s'.delivered >= |s'.pending| <==>
            !isPending && LookupPanics(s, n)
  {
  }

  /** On a valid window a receipt never panics, and a delivery only if the last one delivered is recorded again
      when just the next one is waiting. */
  lemma PanicsWhenValid(s: State, isPending: bool, n: u64, id: TxId)
    requires s.Valid()
    ensures RecordOutcome(s, isPending, n, id) == Panicked <==>
            !isPending && n == s.delivered && s.received == s.delivered + 1
  {
  }

  /** The answer, in terms of the ledger before: a receipt is answered with what was received for the number after
      it, and a delivery with the second slot, if the number after it was received. */
  lemma RecordAnswers(s: State, isPending: bool, n: u64, id: TxId)
    requires RecordOutcome(s, isPending, n, id).Next?
    ensures RecordOutcome(s, isPending, n, id).id ==
            if isPending then s.Slot(n + 1) else if s.delivered <= n < s.received then s.pending[1] else None
  {
  }

  /** What is known of a number after a run: the id that was there before, or else the first one received. */
  function KnownId(s: State, es: seq<Event>, n: int): Option<TxId> {
    if s.Slot(n).Some? then s.Slot(n) else FirstReceived(es, n)
  }

  /** So after any run, recording a receipt or the next delivery is answered with the id that is known for the number
      after it, which is then processed next. */
  lemma {:induction false} NextIsKnown(s: State, es: seq<Event>, isPending: bool, n: u64, id: TxId)
    requires Legal(s, es) && Enabled(Run(s, es), RecordEvent(isPending, n, id))
    ensures RecordOutcome(Run(s, es), isPending, n, id) == Next(KnownId(s, es, n + 1))
    ensures s == Empty() ==> KnownId(s, es, n + 1) == FirstReceived(es, n + 1)
  {
    hide RecordOutcome, Run, Legal, FirstReceived, Step;
    RunRefinesMap(s, es, n + 1);
    StepAnswers(Run(s, es), isPending, n, id);
  }

  /** A step of a run is answered with the slot of the number after it. */
  lemma StepAnswers(s: State, isPending: bool, n: u64, id: TxId)
    requires s.Valid() && Enabled(s, RecordEvent(isPending, n, id))
    ensures RecordOutcome(s, isPending, n, id) == Next(s.Slot(n + 1)) && n + 1 > s.delivered
  {
    RecordIsStep(s, isPending, n, id);
    RecordAnswers(s, isPending, n, id);
  }

  /** The smallest ledger on which a receipt panics: 2 was delivered before 1, and then 3 is received again. */
  lemma SkippingPanics(a: TxId, b: TxId, c: TxId)
    ensures var s := State(3, 0, [Some(a), Some(b), Some(c)]);
            s.Valid() && RecordOutcome(Deliver(s, 2), true, 3, c) == Panicked
  {
  }

  function RecordEvent(isPending: bool, n: u64, id: TxId): Event {
    if isPending then Received(n, Some(id)) else Delivered(n)
  }

  /** Receipts above the delivered number and deliveries of the next one are steps of a run. A transaction that
      was executed, or that failed, out of order is recorded as delivered all the same, and then the window is
      broken unless it had no slot to lose. */
  lemma RecordIsStep(s: State, isPending: bool, n: u64, id: TxId)
    requires s.Valid()
    ensures Enabled(s, RecordEvent(isPending, n, id)) ==>
              && AfterRecord(s, isPending, n, id) == Step(s, RecordEvent(isPending, n, id))
              && AfterRecord(s, isPending, n, id).Valid() && RecordOutcome(s, isPending, n, id).Next?
    ensures AfterRecord(s, isPending, n, id).Valid() <==> isPending || KeepsWindow(s, n)
  {
    if !isPending {
      DeliverKeepsWindow(s, n);
    }
  }

  // ---- The ledger object ----

  lemma DeliverDirty(s: State, n: u64)
    ensures Deliver(s, n) != s <==> n > s.received || n > s.delivered || s.pending != []
  {
    assert s.pending != [] ==> |s.pending[1..]| < |s.pending|;
  }

  function EmptySlots(n: nat): seq<Option<TxId>> {
    seq(n, _ => None)
  }

  lemma NoMoreSlots(p: seq<Option<TxId>>)
    ensures p + EmptySlots(0) == p
  {
  }

  /** Growing the window with empty slots and filling one of them is a receipt. */
  lemma GrownWindow(s: State, n: u64, id: Option<TxId>, more: int, i: int)
    requires CanReceive(s, n) && more == Max(s.received, n) - s.delivered - |s.pending| && i == n - s.delivered - 1
    ensures 0 <= more && Wrap64(more) == more && 0 <= i && Wrap64(i) == i
    ensures var p := s.pending + EmptySlots(more);
            && i < |p|
            && Receive(s, n, id) == State(Max(s.received, n), s.delivered, if p[i].None? then p[i := id] else p)
            && (ReceiveDirty(s, n) <==> n > s.received || more > 0 || p[i].None?)
  {
    WrapSmall(more);
    WrapSmall(i);
    var p := s.pending + EmptySlots(more);
    forall j | 0 <= j < |p| ensures s.Raw(j) == p[j] {
    }
  }

  /** A partition's URL only matters here by how it compares, so it is the lower-case string that
      `url.Compare` orders by. */
  class TransactionExchangeLedger {
    const url: Key
    var received: u64
    var delivered: u64
    var pending: seq<Option<TxId>>

    function Value(): State
      reads this
    {
      State(received, delivered, pending)
    }

    constructor (url: Key)
      ensures this.url == url && Value() == Empty()
    {
      this.url := url;
      received, delivered, pending := 0, 0, [];
    }

    /** A receipt of a number that was delivered panics, and so does one that finds more slots than numbers; callers
        must not make one. */
    method Add(isDelivered: bool, sequenceNumber: u64, txid: Option<TxId>) returns (dirty: bool)
      requires !isDelivered ==> CanReceive(Value(), sequenceNumber)
      modifies this
      ensures isDelivered ==> Value() == Deliver(old(Value()), sequenceNumber)
      ensures isDelivered ==> (dirty <==> Value() != old(Value()))
      ensures !isDelivered ==> Value() == Receive(old(Value()), sequenceNumber, txid)
      ensures !isDelivered ==> dirty == ReceiveDirty(old(Value()), sequenceNumber)
    {
      hide ReceiveDirty, CanReceive, EmptySlots, Wrap64, Receive;
      dirty := false;
      DeliverDirty(Value(), sequenceNumber);
      if sequenceNumber > received {
        received, dirty := sequenceNumber, true;
      }
      if isDelivered {
        if sequenceNumber > delivered {
          delivered, dirty := sequenceNumber, true;
        }
        if |pending| > 0 {
          pending, dirty := pending[1..], true;
        }
        return;
      }
      GrownWindow(old(Value()), sequenceNumber, txid, received - delivered - |pending|, sequenceNumber - delivered - 1);
      NoMoreSlots(pending);
      var n := Wrap64(received - delivered - |pending|);
      if n > 0 {
        pending, dirty := pending + EmptySlots(n), true;
      }
      var i := Wrap64(sequenceNumber - delivered - 1);
      if pending[i].None? {
        pending, dirty := pending[i := txid], true;
      }
    }

    /** Outside a valid window the index may be out of range, which panics. */
    method Get(sequenceNumber: u64) returns (txid: Option<TxId>, found: bool)
      requires delivered < sequenceNumber <= received ==> sequenceNumber - delivered - 1 < |pending|
      ensures txid == Value().Slot(sequenceNumber) && found == txid.Some?
    {
      if sequenceNumber <= delivered || sequenceNumber > received {
        return None, false;
      }
      txid := pending[Wrap64(sequenceNumber - delivered - 1)];
      found := txid.Some?;
    }

    /** The executor's update for one transaction of this source (internal/block/transaction.go): `isPending`
        marks a transaction that is recorded but not executed. Any other one is recorded as delivered, whether
        it succeeded or failed and whatever its number. The number after it is looked up so that it can be
        processed next. */
    method Record(isPending: bool, sequenceNumber: u64, id: TxId) returns (r: Recorded)
      modifies this
      ensures Value() == AfterRecord(old(Value()), isPending, sequenceNumber, id)
      ensures r == RecordOutcome(old(Value()), isPending, sequenceNumber, id)
      ensures r == Rejected <==> isPending && sequenceNumber <= old(delivered)
      ensures r == Rejected ==> Value() == old(Value())
      ensures r != Rejected ==> received == if sequenceNumber > old(received) then sequenceNumber else old(received)
      ensures delivered == if !isPending && sequenceNumber > old(delivered) then sequenceNumber else old(delivered)
      // On a valid window, a receipt of an undelivered number and the next delivery are answered with what was
      // received before for the number after it.
      ensures old(Value().Valid()) && (if isPending then sequenceNumber > old(delivered)
                                       else sequenceNumber == old(delivered) + 1) ==>
                r == Next(old(Value()).Slot(sequenceNumber + 1))
    {
      var s := Value();
      if isPending && sequenceNumber <= delivered {
        return Rejected;
      }
      if isPending && !CanReceive(s, sequenceNumber) {
        received := Max(received, sequenceNumber);
        return Panicked;
      }
      LookupAfterRecord(s, isPending, sequenceNumber, id);
      if RecordOutcome(s, isPending, sequenceNumber, id).Next? {
        RecordAnswers(s, isPending, sequenceNumber, id);
      }
      hide Receive, Deliver;
      var dirty := Add(!isPending, sequenceNumber, Some(id));
      if sequenceNumber + 1 == U64_SIZE {
        return Next(None);
      }
      if delivered < sequenceNumber + 1 <= received && sequenceNumber - delivered >= |pending| {
        return Panicked;
      }
      var next, found := Get(sequenceNumber + 1);
      r := Next(next);
    }
  }
}
