/**
 * Asynchronous transfers: the transfer record, the library state that holds the
 * pending-transfer list, `libusb_submit_transfer`, `libusb_cancel_transfer`, and
 * the bridge's rule for finishing a bulk transfer.
 *
 * The host bridge runs asynchronously: a bulk submission queues a `BulkCall`,
 * and the environment later resolves it with `BridgeStep`, which applies the
 * completion write of `_submit_bulk_in_transfer` / `_submit_bulk_out_transfer`.
 */
module Transfers {
  import opened Bits
  import opened Registry
  import Endpoint

  /** `LIBUSB_TRANSFER_COMPLETED`. */
  const COMPLETED: int := 0
  /** `LIBUSB_TRANSFER_CANCELLED`. */
  const CANCELLED: int := 3
  /** The value submit and poll write into `status`: "not finished". */
  const STATUS_RESET: int := -1
  /** `LIBUSB_TRANSFER_TYPE_BULK`. */
  const TRANSFER_TYPE_BULK: Byte := 2
  /** `LIBUSB_SUCCESS`. */
  const SUCCESS: int := 0

  /** A status that makes the poll fire the transfer's callback. */
  predicate Dispatchable(status: int) {
    status == COMPLETED || status == CANCELLED
  }

  /** One thing a completion callback does to the library: submit or cancel a transfer. */
  datatype CallbackStep = DoSubmit(target: TransferId) | DoCancel(target: TransferId)

  /**
   * The fields of `struct libusb_transfer` the caller fills in and the core only
   * reads: endpoint address, transfer type, requested length, and the callback.
   */
  datatype Transfer = Transfer(endpoint: Byte, transferType: Byte, length: int, callback: seq<CallbackStep>)

  /**
   * The caller's transfer records; a transfer's identity is its index here. The
   * core never changes them.
   */
  type Records = seq<Transfer>

  /** The two fields of `struct libusb_transfer` the core and the bridge write. */
  datatype Progress = Progress(status: int, actualLength: int)

  /** A bulk submission handed to the bridge and not yet resolved by it. */
  datatype BulkCall = BulkCall(direction: Endpoint.Direction, endpoint: Byte, length: int, transfer: TransferId)

  /**
   * The library state: the pending-transfer list, the written fields of every
   * transfer record (`status` and `actual_length`, indexed by transfer), the bridge
   * calls still running, and the log of callback invocations in the order they
   * happened.
   */
  datatype State = State(
    registry: Registry,
    status: seq<int>,
    actualLength: seq<int>,
    inFlight: seq<BulkCall>,
    fired: seq<TransferId>)

  /** Every transfer a callback step names exists. */
  predicate StepsKnown(steps: seq<CallbackStep>, ts: Records) {
    forall j | 0 <= j < |steps| :: steps[j].target < |ts|
  }

  /** Callbacks only name transfers the caller has. */
  predicate Closed(ts: Records) {
    forall id | 0 <= id < |ts| :: StepsKnown(ts[id].callback, ts)
  }

  /** Every transfer the state refers to is one of the caller's records, and each record has its written fields. */
  predicate Valid(ts: Records, s: State) {
    && Closed(ts)
    && |s.status| == |ts| && |s.actualLength| == |ts|
    && (forall i | 0 <= i < |Entries(s.registry)| :: Entries(s.registry)[i] < |ts|)
    && (forall k | 0 <= k < |s.inFlight| :: s.inFlight[k].transfer < |ts|)
  }

  /** The status of a transfer. */
  function StatusOf(ts: Records, s: State, id: TransferId): int
    requires Valid(ts, s) && id < |ts|
  {
    s.status[id]
  }

  /** The written fields of a transfer. */
  function ProgressOf(ts: Records, s: State, id: TransferId): Progress
    requires Valid(ts, s) && id < |ts|
  {
    Progress(s.status[id], s.actualLength[id])
  }

  /** The bridge call a bulk transfer makes: direction from bit 7, number from bits 6..0. */
  function BulkCallFor(t: Transfer, id: TransferId): (c: BulkCall)
    ensures c.direction == Endpoint.In <==> t.endpoint >= 0x80
    ensures c.endpoint < 0x80 && c.endpoint == t.endpoint % 0x80
    ensures Endpoint.Address(c.endpoint, c.direction) == t.endpoint
    ensures c.length == t.length && c.transfer == id
  {
    Endpoint.EncodeDecoded(t.endpoint);
    BulkCall(Endpoint.DirectionOf(t.endpoint), Endpoint.NumberOf(t.endpoint), t.length, id)
  }

  /**
   * The state effect of `libusb_submit_transfer`: register the transfer, reset
   * its status to -1, and for BULK hand exactly one call to the bridge.
   */
  function Submit(ts: Records, s: State, id: TransferId): (s': State)
    requires Valid(ts, s) && id < |ts|
    ensures Valid(ts, s') && s'.registry.Allocated?
    ensures Entries(s'.registry) == Entries(s.registry) + [id]
    ensures s'.status == s.status[id := STATUS_RESET] && s'.actualLength == s.actualLength
    ensures !Dispatchable(StatusOf(ts, s', id))
    ensures ts[id].transferType == TRANSFER_TYPE_BULK ==> s'.inFlight == s.inFlight + [BulkCallFor(ts[id], id)]
    ensures ts[id].transferType != TRANSFER_TYPE_BULK ==> s'.inFlight == s.inFlight
    ensures s'.fired == s.fired
  {
    var registered := s.(registry := Register(s.registry, id), status := s.status[id := STATUS_RESET]);
    if ts[id].transferType == TRANSFER_TYPE_BULK then
      registered.(inFlight := registered.inFlight + [BulkCallFor(ts[id], id)])
    else
      registered
  }

  /** The new state and the value `libusb_submit_transfer` returns. */
  datatype Submission = Submission(state: State, returned: int)

  /**
   * `libusb_submit_transfer`: BULK returns whatever the bridge call returned
   * (`bridgeReturn`), every other type is only logged and returns 0.
   *
   * The bulk bridge function is asynchronous, and `MAIN_THREAD_EM_ASM_INT`
   * hands C the integer it makes of that function's immediate return value, not
   * the `false` or 0 the function later settles on. The model therefore leaves
   * `bridgeReturn` unconstrained.
   */
  function SubmitTransfer(ts: Records, s: State, id: TransferId, bridgeReturn: int): (r: Submission)
    requires Valid(ts, s) && id < |ts|
    ensures r.state == Submit(ts, s, id)
    ensures ts[id].transferType == TRANSFER_TYPE_BULK ==> r.returned == bridgeReturn
    ensures ts[id].transferType != TRANSFER_TYPE_BULK ==> r.returned == 0
  {
    var returned := if ts[id].transferType == TRANSFER_TYPE_BULK then bridgeReturn else 0;
    Submission(Submit(ts, s, id), returned)
  }

  /** `libusb_cancel_transfer`: write CANCELLED into the status, whatever it was, and nothing else. */
  function Cancel(ts: Records, s: State, id: TransferId): (s': State)
    requires Valid(ts, s) && id < |ts|
    ensures Valid(ts, s')
    ensures s'.status == s.status[id := CANCELLED]
    ensures Dispatchable(StatusOf(ts, s', id))
    ensures s'.registry == s.registry && s'.actualLength == s.actualLength
    ensures s'.inFlight == s.inFlight && s'.fired == s.fired
  {
    s.(status := s.status[id := CANCELLED])
  }

  /**
   * The completion write shared by both bulk directions: store the transferred
   * byte count as a 32-bit word into `actualLength`, then set COMPLETED unless
   * the status reads CANCELLED.
   */
  function RecordCompletion(p: Progress, count: int): (p': Progress)
    ensures p'.actualLength == Int32(count)
    ensures 0 <= count < 0x8000_0000 ==> p'.actualLength == count
    ensures p.status == CANCELLED ==> p'.status == CANCELLED
    ensures p.status != CANCELLED ==> p'.status == COMPLETED
    ensures Dispatchable(p'.status)
  {
    var written := p.(actualLength := Int32(count));
    if written.status != CANCELLED then written.(status := COMPLETED) else written
  }

  /** What `_submit_bulk_in_transfer`'s WebUSB `transferIn` produced. */
  datatype InResult = InNoDevice | InThrew | InReceived(data: seq<Byte>)

  /** What `_submit_bulk_out_transfer`'s WebUSB `transferOut` produced. */
  datatype OutResult = OutNoDevice | OutThrew | OutWritten(bytesWritten: nat)

  /** The resolved value of a bridge bulk function: `false` or `LIBUSB_SUCCESS`. */
  datatype BridgeReturn = ReturnedFalse | ReturnedSuccess

  /** The transfer after the bridge function ran, and what it resolved to. */
  datatype Finished = Finished(progress: Progress, returned: BridgeReturn)

  /**
   * `_submit_bulk_in_transfer` after its await: without an active device or when
   * the transfer throws, resolve to false and leave the record alone; otherwise
   * record the received length and resolve to success.
   */
  function FinishBulkIn(p: Progress, r: InResult): (f: Finished)
    ensures !r.InReceived? ==> f == Finished(p, ReturnedFalse)
    ensures r.InReceived? ==> f.returned == ReturnedSuccess && f.progress == RecordCompletion(p, |r.data|)
  {
    match r
    case InReceived(data) => Finished(RecordCompletion(p, |data|), ReturnedSuccess)
    case _ => Finished(p, ReturnedFalse)
  }

  /** `_submit_bulk_out_transfer` after its await: as for "in", recording `bytesWritten`. */
  function FinishBulkOut(p: Progress, r: OutResult): (f: Finished)
    ensures !r.OutWritten? ==> f == Finished(p, ReturnedFalse)
    ensures r.OutWritten? ==> f.returned == ReturnedSuccess && f.progress == RecordCompletion(p, r.bytesWritten)
  {
    match r
    case OutWritten(n) => Finished(RecordCompletion(p, n), ReturnedSuccess)
    case _ => Finished(p, ReturnedFalse)
  }

  /** The outcome the environment chooses for one queued bulk call. */
  datatype HostResult = HostIn(inResult: InResult) | HostOut(outResult: OutResult)

  /** The outcome matches the direction of the call it resolves. */
  predicate Fits(c: BulkCall, r: HostResult) {
    (c.direction == Endpoint.In) == r.HostIn?
  }

  /** The written fields a resolved call leaves behind. */
  function Resolve(p: Progress, r: HostResult): Progress {
    match r
    case HostIn(i) => FinishBulkIn(p, i).progress
    case HostOut(o) => FinishBulkOut(p, o).progress
  }

  /**
   * The environment resolves the `k`-th running bridge call: the call leaves the
   * queue and its transfer receives the completion write, if any.
   */
  function BridgeStep(ts: Records, s: State, k: nat, r: HostResult): (s': State)
    requires Valid(ts, s) && k < |s.inFlight| && Fits(s.inFlight[k], r)
    ensures Valid(ts, s')
    ensures s'.inFlight == s.inFlight[..k] + s.inFlight[k + 1..]
    ensures s'.registry == s.registry && s'.fired == s.fired
    ensures ProgressOf(ts, s', s.inFlight[k].transfer) == Resolve(ProgressOf(ts, s, s.inFlight[k].transfer), r)
    ensures forall other | 0 <= other < |ts| && other != s.inFlight[k].transfer ::
              ProgressOf(ts, s', other) == ProgressOf(ts, s, other)
  {
    var id := s.inFlight[k].transfer;
    var p := Resolve(ProgressOf(ts, s, id), r);
    var s' := s.(status := s.status[id := p.status],
                 actualLength := s.actualLength[id := p.actualLength],
                 inFlight := s.inFlight[..k] + s.inFlight[k + 1..]);
    assert forall j | 0 <= j < |s'.inFlight| :: s'.inFlight[j] in s.inFlight;
    s'
  }
}
