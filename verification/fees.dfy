/**
 Fees and refunds (protocol/fee_schedule.go), in the wrapping uint64 arithmetic of the source. A
 transaction is what its fee depends on; `size` is its encoded size, `None` if it cannot be encoded.
 */
module Fees {
  import opened Common
  import opened Signatures

  const FEE_FAILED_MAXIMUM: u64 := 100
  const FEE_SIGNATURE: u64 := 1
  const FEE_CREATE_IDENTITY: u64 := 50000
  const FEE_CREATE_ACCOUNT: u64 := 2500
  const FEE_TRANSFER_TOKENS: u64 := 300
  const FEE_TRANSFER_TOKENS_EXTRA: u64 := 100
  const FEE_CREATE_TOKEN: u64 := 500000
  const FEE_GENERAL_SMALL: u64 := 10
  const FEE_CREATE_KEY_PAGE: u64 := 10000
  const FEE_CREATE_KEY_PAGE_EXTRA: u64 := 100
  const FEE_DATA: u64 := 10
  const FEE_SCRATCH_DATA: u64 := 1
  const FEE_UPDATE_AUTH: u64 := 300
  const FEE_UPDATE_AUTH_EXTRA: u64 := 100
  const TRANSACTION_SIZE_MAX := 20480
  const SIGNATURE_SIZE_MAX := 1024
  const TLD := ".acme"

  datatype IdentityUrl = IdentityUrl(authority: string, isRootIdentity: bool)

  /** The user transactions; `to`, `keys` and `operations` are the lengths of those lists. Uncharged is a
      user transaction the switch does not know, and NotUser a synthetic or system one. */
  datatype Body =
    | CreateToken | CreateIdentity(url: Option<IdentityUrl>) | CreateTokenAccount | CreateDataAccount
    | SendTokens(to: nat) | IssueTokens(to: nat) | CreateLiteTokenAccount
    | CreateKeyBook | CreateKeyPage(keys: nat) | UpdateKeyPage(operations: nat)
    | UpdateAccountAuth(operations: nat) | UpdateKey
    | BurnTokens | LockAccount | WriteData(scratch: bool, writeToState: bool) | WriteDataTo
    | AddCredits | AcmeFaucet | Uncharged | NotUser

  datatype Transaction = Transaction(toPartition: bool, body: Body, size: Option<nat>)

  datatype FeeResult = Fee(value: u64) | FeeError

  function Add64(a: int, b: int): u64 {
    Wrap64(a + b)
  }

  function Mul64(a: u64, b: u64): u64 {
    Wrap64(a * b)
  }

  /** dataCount: 256-byte chunks, the last one rounded up. */
  function Chunks(size: nat): nat {
    size / 256 + if size % 256 != 0 then 1 else 0
  }

  /** So many chunks of 256 bytes are needed for the size, and no fewer. */
  predicate Holds(chunks: nat, size: nat) {
    size <= 256 * chunks && (chunks > 0 ==> 256 * (chunks - 1) < size)
  }

  lemma ChunksHold(size: nat, chunks: nat)
    ensures Holds(chunks, size) <==> chunks == Chunks(size)
  {
    var q, r := size / 256, size % 256;
    assert size == 256 * q + r;
    PartChunk(q, r, chunks);
  }

  lemma PartChunk(q: nat, r: nat, chunks: nat)
    requires r < 256
    ensures Holds(chunks, 256 * q + r) <==> chunks == q + if r != 0 then 1 else 0
  {
  }

  /** The sliding fee of a root identity under the TLD, if the schedule has one for the name's length. */
  function Sliding(schedule: Option<seq<u64>>, url: Option<IdentityUrl>): Option<u64> {
    if schedule.None? || url.None? || !url.value.isRootIdentity || !(|TLD| <= |url.value.authority|)
       || url.value.authority[|url.value.authority| - |TLD|..] != TLD then None
    else
      var n := |url.value.authority| - |TLD|;
      if 0 < n <= |schedule.value| then Some(schedule.value[n - 1]) else None
  }

  /** The schedule has a fee for the name: that of a root identity `name.acme`, with one entry for every length of the
      name from one up. */
  predicate Scheduled(schedule: Option<seq<u64>>, url: Option<IdentityUrl>, name: string) {
    && schedule.Some? && url.Some? && url.value.isRootIdentity && url.value.authority == name + ".acme"
    && 1 <= |name| <= |schedule.value|
  }

  lemma {:induction false} SlidingIsScheduled(schedule: Option<seq<u64>>, url: Option<IdentityUrl>)
    ensures Sliding(schedule, url).Some? <==> exists name :: Scheduled(schedule, url, name)
    ensures forall name :: Scheduled(schedule, url, name) ==>
                             Sliding(schedule, url) == Some(schedule.value[|name| - 1])
  {
    forall name | Scheduled(schedule, url, name)
      ensures Sliding(schedule, url) == Some(schedule.value[|name| - 1])
    {
      ScheduledSlides(schedule, url, name);
    }
    if Sliding(schedule, url).Some? {
      var name := SlidingName(schedule, url);
    }
  }

  lemma {:induction false} ScheduledSlides(schedule: Option<seq<u64>>, url: Option<IdentityUrl>, name: string)
    requires Scheduled(schedule, url, name)
    ensures Sliding(schedule, url) == Some(schedule.value[|name| - 1])
  {
    assert url.value.authority[|name|..] == TLD;
  }

  lemma {:induction false} SlidingName(schedule: Option<seq<u64>>, url: Option<IdentityUrl>) returns (name: string)
    requires Sliding(schedule, url).Some?
    ensures Scheduled(schedule, url, name)
  {
    var a := url.value.authority;
    name := a[..|a| - |TLD|];
    assert a == name + a[|name|..];
  }

  /** `base + extra * (n - 1) + FeeData * (count - 1)`, as computed in uint64. */
  function ListFee(base: u64, extra: u64, n: int, count: nat): u64 {
    Add64(Add64(base, Mul64(extra, Wrap64(n - 1))), Mul64(FEE_DATA, Wrap64(count - 1)))
  }

  function BodyFee(schedule: Option<seq<u64>>, body: Body, count: nat): FeeResult {
    match body
    case CreateToken => Fee(ListFee(FEE_CREATE_TOKEN, 0, 1, count))
    case CreateIdentity(url) =>
      var sliding := Sliding(schedule, url);
      var fee := Mul64(FEE_DATA, Wrap64(count - 1));
      Fee(Add64(fee, if sliding.Some? then sliding.value else FEE_CREATE_IDENTITY))
    case CreateTokenAccount => Fee(ListFee(FEE_CREATE_ACCOUNT, 0, 1, count))
    case CreateDataAccount => Fee(ListFee(FEE_CREATE_ACCOUNT, 0, 1, count))
    case SendTokens(to) => Fee(ListFee(FEE_TRANSFER_TOKENS, FEE_TRANSFER_TOKENS_EXTRA, to, count))
    case IssueTokens(to) => Fee(ListFee(FEE_TRANSFER_TOKENS, FEE_TRANSFER_TOKENS_EXTRA, to, count))
    case CreateLiteTokenAccount => Fee(ListFee(FEE_TRANSFER_TOKENS, 0, 1, count))
    case CreateKeyBook => Fee(ListFee(FEE_CREATE_KEY_PAGE, 0, 1, count))
    case CreateKeyPage(keys) => Fee(ListFee(FEE_CREATE_KEY_PAGE, FEE_CREATE_KEY_PAGE_EXTRA, keys, count))
    case UpdateKeyPage(ops) => Fee(ListFee(FEE_UPDATE_AUTH, FEE_UPDATE_AUTH_EXTRA, ops, count))
    case UpdateAccountAuth(ops) => Fee(ListFee(FEE_UPDATE_AUTH, FEE_UPDATE_AUTH_EXTRA, ops, count))
    case UpdateKey => Fee(ListFee(FEE_UPDATE_AUTH, 0, 1, count))
    case BurnTokens => Fee(ListFee(FEE_GENERAL_SMALL, 0, 1, count))
    case LockAccount => Fee(ListFee(FEE_GENERAL_SMALL, 0, 1, count))
    case WriteData(scratch, writeToState) =>
      var fee := Mul64(Wrap64(count), if scratch then FEE_SCRATCH_DATA else FEE_DATA);
      Fee(if writeToState then Mul64(fee, 2) else fee)
    case WriteDataTo => Fee(Mul64(FEE_DATA, Wrap64(count)))
    case AddCredits => Fee(0)
    case AcmeFaucet => Fee(0)
    case Uncharged => FeeError
    case NotUser => Fee(0)
  }

  function TransactionFee(schedule: Option<seq<u64>>, tx: Transaction): FeeResult {
    if tx.toPartition || tx.body.NotUser? then Fee(0)
    else if tx.size.None? || tx.size.value > TRANSACTION_SIZE_MAX then FeeError
    else BodyFee(schedule, tx.body, Chunks(tx.size.value))
  }

  function SyntheticRefund(schedule: Option<seq<u64>>, tx: Transaction, synthCount: int): FeeResult {
    var paid := TransactionFee(schedule, tx);
    if paid.FeeError? then FeeError
    else if paid.value <= FEE_FAILED_MAXIMUM then Fee(0)
    else if tx.body.SendTokens? || tx.body.IssueTokens? then Fee(FEE_TRANSFER_TOKENS_EXTRA)
    else if synthCount > 1 then FeeError
    else Fee(Wrap64(paid.value - FEE_FAILED_MAXIMUM))
  }

  // ---- No wrap-around in the final value ----

  /** The fee in exact arithmetic, without the sliding schedule. */
  function ExactFee(body: Body, count: int): int {
    match body
    case CreateToken => 500000 + 10 * (count - 1)
    case CreateIdentity(_) => 50000 + 10 * (count - 1)
    case CreateTokenAccount => 2500 + 10 * (count - 1)
    case CreateDataAccount => 2500 + 10 * (count - 1)
    case SendTokens(to) => 300 + 100 * (to - 1) + 10 * (count - 1)
    case IssueTokens(to) => 300 + 100 * (to - 1) + 10 * (count - 1)
    case CreateLiteTokenAccount => 300 + 10 * (count - 1)
    case CreateKeyBook => 10000 + 10 * (count - 1)
    case CreateKeyPage(keys) => 10000 + 100 * (keys - 1) + 10 * (count - 1)
    case UpdateKeyPage(ops) => 300 + 100 * (ops - 1) + 10 * (count - 1)
    case UpdateAccountAuth(ops) => 300 + 100 * (ops - 1) + 10 * (count - 1)
    case UpdateKey => 300 + 10 * (count - 1)
    case BurnTokens => 10 + 10 * (count - 1)
    case LockAccount => 10 + 10 * (count - 1)
    case WriteData(scratch, toState) => (if scratch then count else 10 * count) * (if toState then 2 else 1)
    case WriteDataTo => 10 * count
    case _ => 0
  }

  /** How many list entries the body encodes; each takes at least one byte. */
  function Listed(body: Body): nat {
    match body
    case SendTokens(to) => to
    case IssueTokens(to) => to
    case CreateKeyPage(keys) => keys
    case UpdateKeyPage(ops) => ops
    case UpdateAccountAuth(ops) => ops
    case _ => 0
  }

  /** `n - 1` wraps for an empty list or an empty encoding, but the sum comes out right. */
  lemma ListFeeIsExact(base: u64, extra: u64, n: nat, count: nat)
    requires extra + 10 <= base <= 500000 && extra <= 100
    requires n <= TRANSACTION_SIZE_MAX && count <= TRANSACTION_SIZE_MAX
    ensures ListFee(base, extra, n, count) == base + extra * (n - 1) + 10 * (count - 1)
  {
    hide Wrap64;
    var e, d := extra * (n - 1), 10 * (count - 1);
    WrapMul(extra, n - 1);
    WrapMul(10, count - 1);
    WrapAdd(e, base);
    WrapAdd(base + e, Mul64(FEE_DATA, Wrap64(count - 1)));
    WrapAdd(d, base + e);
    ScaleBound(extra, n);
    WrapSmall(base + e + d);
  }

  lemma ScaleBound(extra: int, n: nat)
    requires 0 <= extra <= 100
    ensures -extra <= extra * (n - 1) <= 100 * n
  {
    assert extra * (n - 1) == extra * n - extra && 0 <= extra * n;
    assert (100 - extra) * n >= 0;
  }

  /** A sum of a data fee and a flat fee. */
  lemma DataFeeIsExact(flat: u64, count: nat)
    requires 10 <= flat <= 500000 && count <= TRANSACTION_SIZE_MAX
    ensures Add64(Mul64(FEE_DATA, Wrap64(count - 1)), flat) == flat + 10 * (count - 1)
  {
    hide Wrap64;
    WrapMul(10, count - 1);
    WrapAdd(10 * (count - 1), flat);
    WrapSmall(flat + 10 * (count - 1));
  }

  /** When there is a fee at all. */
  lemma FeeErrors(schedule: Option<seq<u64>>, tx: Transaction)
    ensures tx.toPartition || tx.body.NotUser? ==> TransactionFee(schedule, tx) == Fee(0)
    ensures TransactionFee(schedule, tx).FeeError? <==>
            && !tx.toPartition && !tx.body.NotUser?
            && (tx.size.None? || tx.size.value > 20480 || tx.body.Uncharged?)
  {
    hide ListFee, Chunks, Wrap64, Mul64, Add64, Sliding;
  }

  /** The fee in terms of the chunks that the encoded size needs. */
  lemma FeeIsExact(schedule: Option<seq<u64>>, tx: Transaction, count: nat)
    requires !tx.toPartition && tx.size.Some? && tx.size.value <= TRANSACTION_SIZE_MAX && Holds(count, tx.size.value)
    requires Listed(tx.body) <= tx.size.value
    requires !tx.body.Uncharged? && (tx.body.CreateIdentity? ==> forall name :: !Scheduled(schedule, tx.body.url, name))
    ensures TransactionFee(schedule, tx) == Fee(ExactFee(tx.body, count))
  {
    ChunksHold(tx.size.value, count);
    assert count <= tx.size.value;
    if tx.body.CreateIdentity? {
      SlidingIsScheduled(schedule, tx.body.url);
    }
    hide Sliding, Scheduled, Holds;
    hide ListFee, Chunks, Wrap64, Mul64, Add64;
    match tx.body
    case CreateToken => ListFeeIsExact(FEE_CREATE_TOKEN, 0, 1, count);
    case CreateIdentity(_) => DataFeeIsExact(FEE_CREATE_IDENTITY, count);
    case CreateTokenAccount => ListFeeIsExact(FEE_CREATE_ACCOUNT, 0, 1, count);
    case CreateDataAccount => ListFeeIsExact(FEE_CREATE_ACCOUNT, 0, 1, count);
    case SendTokens(to) => ListFeeIsExact(FEE_TRANSFER_TOKENS, FEE_TRANSFER_TOKENS_EXTRA, to, count);
    case IssueTokens(to) => ListFeeIsExact(FEE_TRANSFER_TOKENS, FEE_TRANSFER_TOKENS_EXTRA, to, count);
    case CreateLiteTokenAccount => ListFeeIsExact(FEE_TRANSFER_TOKENS, 0, 1, count);
    case CreateKeyBook => ListFeeIsExact(FEE_CREATE_KEY_PAGE, 0, 1, count);
    case CreateKeyPage(keys) => ListFeeIsExact(FEE_CREATE_KEY_PAGE, FEE_CREATE_KEY_PAGE_EXTRA, keys, count);
    case UpdateKeyPage(ops) => ListFeeIsExact(FEE_UPDATE_AUTH, FEE_UPDATE_AUTH_EXTRA, ops, count);
    case UpdateAccountAuth(ops) => ListFeeIsExact(FEE_UPDATE_AUTH, FEE_UPDATE_AUTH_EXTRA, ops, count);
    case UpdateKey => ListFeeIsExact(FEE_UPDATE_AUTH, 0, 1, count);
    case BurnTokens => ListFeeIsExact(FEE_GENERAL_SMALL, 0, 1, count);
    case LockAccount => ListFeeIsExact(FEE_GENERAL_SMALL, 0, 1, count);
    case WriteData(scratch, toState) => SmallProducts(count);
    case WriteDataTo => SmallProducts(count);
    case _ =>
  }

  /** What one more chunk costs. */
  function ChunkFee(body: Body): nat {
    match body
    case WriteData(false, false) => 10
    case WriteData(false, true) => 20
    case WriteData(true, false) => 1
    case WriteData(true, true) => 2
    case AddCredits => 0
    case AcmeFaucet => 0
    case _ => 10
  }

  /** So 256 more bytes cost exactly one more data fee. */
  lemma MoreBytesCostMore(schedule: Option<seq<u64>>, tx: Transaction, more: Transaction)
    requires !tx.toPartition && tx.size.Some? && tx.size.value + 256 <= TRANSACTION_SIZE_MAX
    requires Listed(tx.body) <= tx.size.value && !tx.body.NotUser?
    requires !tx.body.Uncharged? && (tx.body.CreateIdentity? ==> forall name :: !Scheduled(schedule, tx.body.url, name))
    requires more == tx.(size := Some(tx.size.value + 256))
    ensures TransactionFee(schedule, tx).Fee? && TransactionFee(schedule, more).Fee?
    ensures TransactionFee(schedule, more).value == TransactionFee(schedule, tx).value + ChunkFee(tx.body)
  {
    var count := Chunks(tx.size.value);
    ChunksHold(tx.size.value, count);
    assert Holds(count + 1, tx.size.value + 256);
    hide TransactionFee, Chunks, Holds, Scheduled;
    FeeIsExact(schedule, tx, count);
    FeeIsExact(schedule, more, count + 1);
  }

  /** A sliding fee takes the place of the flat one; only a schedule close to 2^64 can make it wrap. */
  lemma SlidingFeeIsExact(schedule: Option<seq<u64>>, tx: Transaction, name: string, count: nat)
    requires !tx.toPartition && tx.size.Some? && tx.size.value <= TRANSACTION_SIZE_MAX && Holds(count, tx.size.value)
    requires tx.body.CreateIdentity? && Scheduled(schedule, tx.body.url, name)
    ensures TransactionFee(schedule, tx) == Fee(Wrap64(schedule.value[|name| - 1] + 10 * (count - 1)))
  {
    ChunksHold(tx.size.value, count);
    SlidingIsScheduled(schedule, tx.body.url);
    hide Wrap64, Chunks, Sliding, Holds;
    WrapMul(10, count - 1);
    WrapAdd(10 * (count - 1), Sliding(schedule, tx.body.url).value);
  }

  lemma SmallProducts(count: nat)
    requires count <= TRANSACTION_SIZE_MAX
    ensures Mul64(Wrap64(count), 1) == count && Mul64(Wrap64(count), 10) == Mul64(10, Wrap64(count)) == 10 * count
    ensures Mul64(count, 2) == 2 * count && Mul64(10 * count, 2) == 20 * count
  {
  }

  // ---- Refunds ----

  /** A transfer that is charged for: a send or an issue of `n` outputs. */
  predicate Transfer(tx: Transaction, n: nat) {
    && !tx.toPartition && (tx.body == SendTokens(n) || tx.body == IssueTokens(n))
    && tx.size.Some? && n <= tx.size.value <= TRANSACTION_SIZE_MAX
  }

  /** What a transfer costs when `failed` of its outputs are refunded. */
  function NetCost(schedule: Option<seq<u64>>, tx: Transaction, n: nat, failed: nat): int {
    var paid, refund := TransactionFee(schedule, tx), SyntheticRefund(schedule, tx, n);
    if paid.Fee? && refund.Fee? then paid.value - failed * refund.value else 0
  }

  lemma TransferNetCost(schedule: Option<seq<u64>>, tx: Transaction, n: nat, failed: nat, count: nat)
    requires Transfer(tx, n) && Holds(count, tx.size.value)
    ensures TransactionFee(schedule, tx).Fee? && SyntheticRefund(schedule, tx, n).Fee?
    ensures NetCost(schedule, tx, n, failed) == 300 + 100 * (n - 1) + 10 * (count - 1) - 100 * failed
  {
    FeeIsExact(schedule, tx, count);
    hide TransactionFee, Holds;
  }

  /** Even if every output fails, a transfer costs more than any other failed transaction. */
  lemma AllFailedStillCosts(schedule: Option<seq<u64>>, tx: Transaction, n: nat)
    requires Transfer(tx, n) && n >= 1
    ensures NetCost(schedule, tx, n, n) >= 200
  {
    hide NetCost, TransactionFee, SyntheticRefund;
    ChunksHold(tx.size.value, Chunks(tx.size.value));
    TransferNetCost(schedule, tx, n, n, Chunks(tx.size.value));
  }

  /** Bad outputs never make a good one cheaper: with at least one good output, a transfer costs at least
      what a transfer of one good output in no larger an encoding costs. */
  lemma BadOutputsDoNotPay(schedule: Option<seq<u64>>, tx: Transaction, n: nat, failed: nat, single: Transaction)
    requires Transfer(tx, n) && failed < n
    requires Transfer(single, 1) && single.size.value <= tx.size.value
    ensures NetCost(schedule, tx, n, failed) >= NetCost(schedule, single, 1, 0)
  {
    hide NetCost, TransactionFee, SyntheticRefund;
    ChunksHold(tx.size.value, Chunks(tx.size.value));
    ChunksHold(single.size.value, Chunks(single.size.value));
    TransferNetCost(schedule, tx, n, failed, Chunks(tx.size.value));
    TransferNetCost(schedule, single, 1, 0, Chunks(single.size.value));
  }

  /** Every other charged transaction with at most one output costs the fixed maximum once it is refunded;
      with more outputs there is no refund but an error. */
  lemma OtherNetCost(schedule: Option<seq<u64>>, tx: Transaction, synthCount: int)
    requires !tx.body.SendTokens? && !tx.body.IssueTokens? && TransactionFee(schedule, tx).Fee?
    ensures var paid, refund := TransactionFee(schedule, tx).value, SyntheticRefund(schedule, tx, synthCount);
            && (refund.FeeError? <==> paid > 100 && synthCount > 1)
            && (refund.Fee? ==> paid - refund.value == if paid < 100 then paid else 100)
  {
    hide BodyFee;
  }

  // ---- Signature fees ----

  function Delegations(s: Signature): nat {
    if s.DelegatedSignature? then 1 + Delegations(s.inner) else 0
  }

  method ComputeSignatureFee(sig: Signature, size: Option<nat>) returns (r: FeeResult)
    ensures r.FeeError? <==> size.None? || size.value > SIGNATURE_SIZE_MAX
    // One per chunk of 256 bytes and one per delegator.
    ensures r.Fee? ==> forall count: nat :: Holds(count, size.value) ==> r.value == Wrap64(count + Delegations(sig))
  {
    if size.None? || size.value > SIGNATURE_SIZE_MAX {
      return FeeError;
    }
    var count := Chunks(size.value);
    forall other: nat | Holds(other, size.value) ensures other == count {
      ChunksHold(size.value, other);
    }
    hide Wrap64, Chunks, Holds;
    var fee := FeeForChunks(sig, count);
    r := Fee(fee);
  }

  /** The part of ComputeSignatureFee after the chunks were counted. */
  method FeeForChunks(sig: Signature, count: nat) returns (fee: u64)
    ensures fee == Wrap64(count + Delegations(sig))
  {
    hide Wrap64;
    fee := FEE_SIGNATURE;
    WrapMul(1, count - 1);
    WrapAdd(count - 1, 1);
    WrapAdd(count, Delegations(sig));
    fee := Add64(fee, Mul64(FEE_SIGNATURE, Wrap64(count - 1)));
    var s := sig;
    while s.DelegatedSignature?
      invariant Wrap64(fee + Delegations(s)) == Wrap64(count + Delegations(sig))
      decreases s
    {
      WrapAdd(fee + 1, Delegations(s.inner));
      fee := Add64(fee, FEE_SIGNATURE);
      s := s.inner;
    }
    WrapOf(fee);
  }

  lemma WrapOf(x: u64)
    ensures Wrap64(x) == x
  {
  }

  /** An unpacked signature pays for every delegator on the path to its leaf. */
  lemma {:induction false} DelegationsOfWrap(leaf: Signature, path: seq<Option<string>>)
    requires !leaf.DelegatedSignature?
    ensures Delegations(Wrap(leaf, path)) == |path|
  {
    if path != [] {
      DelegationsOfWrap(leaf, path[1..]);
    }
  }
}
