/**
 * The reservation orchestrator (ReservationService): the saga-facing
 * operations that hold stock for an order, release it again as compensation,
 * and confirm it after payment. Each operation is one transaction: on a thrown
 * exception nothing it touched is saved. Outbound Kafka messages are appended
 * to a ghost event log instead of being sent.
 */
module Reservations {
  import opened Base
  import opened Stock
  import opened Journal
  import opened Ledger

  const DUPLICATE_RESERVATION: string := "DUPLICATE_RESERVATION"
  const RESERVATION_NOT_FOUND: string := "RESERVATION_NOT_FOUND"

  /** The reason every compensation message carries. */
  const COMPENSATION_REASON: string := "Order cancelled or saga rollback"

  /** The messages InventoryProducer sends, each keyed by its order id. A
      failed reservation's reason ("Insufficient stock. Available: %d") is kept
      as the available quantity it reports. */
  datatype Event =
    | InventoryReserved(orderId: string, productId: string, quantity: int, reservationId: nat)
    | ReservationFailed(orderId: string, productId: string, requestedQuantity: int, available: int)
    | ReservationCompensated(orderId: string, productId: string, quantity: int,
                             reservationId: nat, reason: string)
  {
    /** The topic each kind of message goes to, one per kind. */
    function Topic(): (t: string)
      ensures t == "inventory.reserved" <==> InventoryReserved?
      ensures t == "inventory.failed" <==> ReservationFailed?
      ensures t == "inventory.compensated" <==> ReservationCompensated?
    {
      match this
      case InventoryReserved(_, _, _, _) => "inventory.reserved"
      case ReservationFailed(_, _, _, _) => "inventory.failed"
      case ReservationCompensated(_, _, _, _, _) => "inventory.compensated"
    }

    function Key(): string {
      orderId
    }
  }

  /** ReservationResponse without its human-readable message and timestamp. */
  datatype ReservationResponse = ReservationResponse(
    reservationId: Option<nat>,
    orderId: string,
    productId: string,
    reservedQuantity: int,
    status: ReservationStatus,
    success: bool)

  /** Quantity of released FAILED records taken off an entry's reserved
      count; 0 for an entry that never had one. */
  function Drained(drained: map<nat, int>, inventoryId: nat): int {
    if inventoryId in drained then drained[inventoryId] else 0
  }

  /** What every saved record satisfies: it refers to a saved ledger entry,
      holds a positive quantity (request validation), and carries exactly the
      timestamps and reason its status calls for. */
  ghost predicate RecordOk(r: ReservationRow, ledgerSize: nat) {
    && 1 <= r.inventoryId <= ledgerSize
    && r.reservedQuantity > 0
    && match r.status
       case Pending => r.confirmedAt.None? && r.releasedAt.None? && r.failureReason.None?
       case Confirmed => r.confirmedAt.Some? && r.releasedAt.None? && r.failureReason.None?
       case Failed => r.confirmedAt.None? && r.releasedAt.None? && r.failureReason.Some?
       case Released => r.releasedAt.Some?
  }

  /** Saved records have identity ids 1, 2, ... and each is well formed. */
  ghost predicate JournalOk(journal: seq<ReservationRow>, ledgerSize: nat) {
    forall i :: 0 <= i < |journal| ==> journal[i].id == i + 1 && RecordOk(journal[i], ledgerSize)
  }

  /** Only saved entries ever had anything drained. */
  ghost predicate DrainedOk(drained: map<nat, int>, ledgerSize: nat) {
    forall id :: id in drained ==> 1 <= id <= ledgerSize
  }

  /** An entry's reserved count is never negative and, plus what released
      FAILED records drained from it, equals what its PENDING and CONFIRMED
      records hold. */
  ghost predicate Balanced(e: InventoryRow, journal: seq<ReservationRow>, drained: map<nat, int>) {
    && 0 <= e.reservedQuantity
    && e.reservedQuantity + Drained(drained, e.id) == Held(journal, e.id)
  }

  ghost predicate AllBalanced(ledger: seq<InventoryRow>, journal: seq<ReservationRow>,
                              drained: map<nat, int>) {
    forall k :: 0 <= k < |ledger| ==> Balanced(ledger[k], journal, drained)
  }

  /** The cross-entity invariant of ledger and journal: both tables are well
      formed, no order has two records, and every entry is balanced. */
  ghost predicate Consistent(ledger: seq<InventoryRow>, journal: seq<ReservationRow>,
                             drained: map<nat, int>) {
    && WellFormed(ledger)
    && JournalOk(journal, |ledger|)
    && UniqueOrders(journal)
    && DrainedOk(drained, |ledger|)
    && AllBalanced(ledger, journal, drained)
  }

  /** An entry no record refers to holds nothing. */
  lemma {:induction false} HeldUnreferenced(journal: seq<ReservationRow>, inventoryId: nat)
    requires forall i :: 0 <= i < |journal| ==> journal[i].inventoryId != inventoryId
    ensures Held(journal, inventoryId) == 0
  {
    if journal != [] {
      HeldUnreferenced(journal[..|journal| - 1], inventoryId);
    }
  }

  /** Rewriting an entry's counters keeps the table well formed. */
  lemma UpdateKeepsWellFormed(ledger: seq<InventoryRow>, k: nat, e: InventoryRow)
    requires WellFormed(ledger) && k < |ledger|
    requires e.id == ledger[k].id && e.productId == ledger[k].productId
    ensures WellFormed(ledger[k := e])
  {
    var ledger' := ledger[k := e];
    forall i, j | 0 <= i < j < |ledger'|
      ensures ledger'[i].productId != ledger'[j].productId
    {
      assert ledger'[i].productId == ledger[i].productId;
      assert ledger'[j].productId == ledger[j].productId;
    }
  }

  /** Rewriting a record without changing its order keeps one record per order. */
  lemma UpdateKeepsUniqueOrders(journal: seq<ReservationRow>, i: nat, r: ReservationRow)
    requires UniqueOrders(journal) && i < |journal| && r.orderId == journal[i].orderId
    ensures UniqueOrders(journal[i := r])
  {
    var journal' := journal[i := r];
    forall a, b | 0 <= a < b < |journal'|
      ensures journal'[a].orderId != journal'[b].orderId
    {
      assert journal'[a].orderId == journal[a].orderId;
      assert journal'[b].orderId == journal[b].orderId;
    }
  }

  /** While no FAILED record has been released against an entry, its reserved
      count is exactly what its PENDING and CONFIRMED records hold. */
  lemma ReservedIsHeld(ledger: seq<InventoryRow>, journal: seq<ReservationRow>,
                       drained: map<nat, int>, k: nat)
    requires Consistent(ledger, journal, drained) && k < |ledger|
    requires Drained(drained, k + 1) == 0
    ensures ledger[k].reservedQuantity == Held(journal, ledger[k].id)
  {
    assert Balanced(ledger[k], journal, drained);
  }

  /** createInventory keeps the invariant: the new entry holds nothing and
      nothing refers to it. */
  lemma CreateKeepsConsistent(ledger: seq<InventoryRow>, journal: seq<ReservationRow>,
                              drained: map<nat, int>, productId: string, total: int)
    requires Consistent(ledger, journal, drained)
    requires FindByProductId(ledger, productId).None?
    ensures Consistent(ledger + [InventoryRow(|ledger| + 1, productId, total, 0, 0)], journal, drained)
  {
    var e := InventoryRow(0, productId, total, 0, 0);
    InsertKeepsWellFormed(ledger, e);
    HeldUnreferenced(journal, |ledger| + 1);
    var ledger' := ledger + [e.(id := |ledger| + 1)];
    forall k | 0 <= k < |ledger'|
      ensures Balanced(ledger'[k], journal, drained)
    {
      if k < |ledger| {
        assert ledger'[k] == ledger[k];
      }
    }
  }

  /** updateTotalQuantity keeps the invariant, whatever the new total. */
  lemma SetTotalKeepsConsistent(ledger: seq<InventoryRow>, journal: seq<ReservationRow>,
                                drained: map<nat, int>, k: nat, newQuantity: int)
    requires Consistent(ledger, journal, drained) && k < |ledger|
    ensures Consistent(ledger[k := ledger[k].(totalQuantity := newQuantity)], journal, drained)
  {
    UpdateKeepsWellFormed(ledger, k, ledger[k].(totalQuantity := newQuantity));
  }

  /** A successful reserveStock keeps the invariant: the entry's reserved
      count and the new PENDING record grow by the same quantity. */
  lemma ReserveKeepsConsistent(ledger: seq<InventoryRow>, journal: seq<ReservationRow>,
                               drained: map<nat, int>, k: nat, orderId: string, quantity: int)
    requires Consistent(ledger, journal, drained) && k < |ledger| && quantity > 0
    requires FindByOrderId(journal, orderId).None?
    ensures var e := ledger[k];
            Consistent(ledger[k := e.(reservedQuantity := e.reservedQuantity + quantity)],
                       journal + [ReservationRow(|journal| + 1, k + 1, orderId, quantity,
                                                 Pending, None, None, None)],
                       drained)
  {
    var e := ledger[k];
    var ledger' := ledger[k := e.(reservedQuantity := e.reservedQuantity + quantity)];
    var row := ReservationRow(|journal| + 1, k + 1, orderId, quantity, Pending, None, None, None);
    UpdateKeepsWellFormed(ledger, k, ledger'[k]);
    forall k2 | 0 <= k2 < |ledger'|
      ensures Balanced(ledger'[k2], journal + [row], drained)
    {
      assert Balanced(ledger[k2], journal, drained);
      HeldAppend(journal, row, ledger[k2].id);
    }
    assert JournalOk(journal + [row], |ledger'|);
  }

  /** A reserveStock that finds too little stock keeps the invariant: the
      FAILED audit record holds nothing and the ledger is untouched. */
  lemma FailKeepsConsistent(ledger: seq<InventoryRow>, journal: seq<ReservationRow>,
                            drained: map<nat, int>, k: nat, orderId: string, quantity: int,
                            reason: FailureReason)
    requires Consistent(ledger, journal, drained) && k < |ledger| && quantity > 0
    requires FindByOrderId(journal, orderId).None?
    ensures Consistent(ledger,
                       journal + [ReservationRow(|journal| + 1, k + 1, orderId, quantity,
                                                 Failed, None, None, Some(reason))],
                       drained)
  {
    var row := ReservationRow(|journal| + 1, k + 1, orderId, quantity, Failed, None, None, Some(reason));
    forall k2 | 0 <= k2 < |ledger|
      ensures Balanced(ledger[k2], journal + [row], drained)
    {
      assert Balanced(ledger[k2], journal, drained);
      HeldAppend(journal, row, ledger[k2].id);
    }
    assert JournalOk(journal + [row], |ledger|);
  }

  /** A record marked RELEASED at `now`. */
  function MarkReleased(r: ReservationRow, now: Timestamp): ReservationRow {
    r.(status := Released, releasedAt := Some(now))
  }

  /** A record marked CONFIRMED at `now`. */
  function MarkConfirmed(r: ReservationRow, now: Timestamp): ReservationRow {
    r.(status := Confirmed, confirmedAt := Some(now))
  }

  /** The drained map after releasing `r`: only a FAILED record, which held
      nothing, adds its quantity to what was drained from its entry. */
  function DrainedAfterRelease(drained: map<nat, int>, r: ReservationRow): map<nat, int> {
    if r.status == Failed
    then drained[r.inventoryId := Drained(drained, r.inventoryId) + r.reservedQuantity]
    else drained
  }

  /** releaseReservation keeps the invariant for every status but RELEASED.
      Releasing a PENDING or CONFIRMED record gives back what it held;
      releasing a FAILED one takes from the entry what it never held, which is
      booked as drained. */
  lemma ReleaseKeepsConsistent(ledger: seq<InventoryRow>, journal: seq<ReservationRow>,
                               drained: map<nat, int>, i: nat, now: Timestamp)
    requires Consistent(ledger, journal, drained) && i < |journal|
    requires journal[i].status != Released
    requires journal[i].reservedQuantity <= ledger[journal[i].inventoryId - 1].reservedQuantity
    ensures var r := journal[i];
            var k := r.inventoryId - 1;
            var e := ledger[k];
            Consistent(ledger[k := e.(reservedQuantity := e.reservedQuantity - r.reservedQuantity)],
                       journal[i := MarkReleased(r, now)],
                       DrainedAfterRelease(drained, r))
  {
    var r := journal[i];
    assert RecordOk(r, |ledger|);
    var k := r.inventoryId - 1;
    var e := ledger[k];
    var ledger' := ledger[k := e.(reservedQuantity := e.reservedQuantity - r.reservedQuantity)];
    var journal' := journal[i := MarkReleased(r, now)];
    var drained' := DrainedAfterRelease(drained, r);
    UpdateKeepsWellFormed(ledger, k, ledger'[k]);
    UpdateKeepsUniqueOrders(journal, i, MarkReleased(r, now));
    forall k2 | 0 <= k2 < |ledger'|
      ensures Balanced(ledger'[k2], journal', drained')
    {
      assert Balanced(ledger[k2], journal, drained);
      HeldUpdate(journal, i, MarkReleased(r, now), ledger[k2].id);
    }
    assert JournalOk(journal', |ledger'|);
  }

  /** confirmReservation keeps the invariant: a CONFIRMED record holds what
      it held while PENDING, and the ledger is untouched. */
  lemma ConfirmKeepsConsistent(ledger: seq<InventoryRow>, journal: seq<ReservationRow>,
                               drained: map<nat, int>, i: nat, now: Timestamp)
    requires Consistent(ledger, journal, drained) && i < |journal|
    requires journal[i].status == Pending
    ensures Consistent(ledger, journal[i := MarkConfirmed(journal[i], now)], drained)
  {
    var r := journal[i];
    var journal' := journal[i := MarkConfirmed(r, now)];
    UpdateKeepsUniqueOrders(journal, i, MarkConfirmed(r, now));
    forall k2 | 0 <= k2 < |ledger|
      ensures Balanced(ledger[k2], journal', drained)
    {
      assert Balanced(ledger[k2], journal, drained);
      HeldUpdate(journal, i, MarkConfirmed(r, now), ledger[k2].id);
    }
    assert JournalOk(journal', |ledger|);
  }

  /** The journal after an operation keeps every record it had, for the same
      order, entry and quantity: records are never deleted. */
  ghost predicate Extends(before: seq<ReservationRow>, after: seq<ReservationRow>) {
    && |before| <= |after|
    && forall i :: 0 <= i < |before| ==>
         && after[i].orderId == before[i].orderId
         && after[i].inventoryId == before[i].inventoryId
         && after[i].reservedQuantity == before[i].reservedQuantity
  }

  /** Once an order has a record, of any status, it keeps one: so the
      duplicate guard refuses it for good, a FAILED order included. */
  lemma RecordedOrderStaysRecorded(before: seq<ReservationRow>, after: seq<ReservationRow>,
                                   orderId: string)
    requires Extends(before, after) && FindByOrderId(before, orderId).Some?
    ensures FindByOrderId(after, orderId).Some?
  {
    var i := FindByOrderId(before, orderId).value;
    assert after[i].orderId == orderId;
  }


  /** Everything the orchestrator's state consists of: the two tables, the
      messages sent so far, and the drained bookkeeping. */
  datatype Snapshot = Snapshot(
    ledger: seq<InventoryRow>,
    journal: seq<ReservationRow>,
    events: seq<Event>,
    drained: map<nat, int>)

  ghost predicate Invariant(s: Snapshot) {
    Consistent(s.ledger, s.journal, s.drained)
  }

  /** reserveStock as a function of the state it runs in: the state after it
      and its response or exception. */
  function ReserveStep(s: Snapshot, orderId: string, productId: string, quantity: int)
    : (r: (Snapshot, Result<ReservationResponse, Error>))
    ensures FindByOrderId(s.journal, orderId).Some? ==>
              r == (s, Err(InventoryException(DUPLICATE_RESERVATION)))
    ensures FindByOrderId(s.journal, orderId).None? && FindByProductId(s.ledger, productId).None? ==>
              r == (s, Err(InventoryException(INVENTORY_NOT_FOUND)))
    ensures r.1.Ok? ==>
              && FindByOrderId(s.journal, orderId).None?
              && FindByProductId(s.ledger, productId).Some?
    ensures r.1.Ok? ==>
              var k := FindByProductId(s.ledger, productId).value;
              var n := |s.journal|;
              && r.0.ledger == s.ledger[k := Committed(ReserveRow(s.ledger[k], quantity), s.ledger[k])]
              && |r.0.journal| == n + 1 && r.0.journal[..n] == s.journal
              && r.0.journal[n].orderId == orderId
              && r.0.journal[n].inventoryId == s.ledger[k].id
              && r.0.journal[n].reservedQuantity == quantity
              && |r.0.events| == |s.events| + 1 && r.0.events[..|s.events|] == s.events
              && r.0.events[|s.events|].Key() == orderId
              && r.0.drained == s.drained
              && (r.1.value.success <==> HasAvailable(s.ledger[k], quantity))
              && (r.1.value.success <==> r.0.journal[n].status == Pending)
              && (!r.1.value.success <==> r.0.journal[n].status == Failed)
              && (r.1.value.success <==> r.1.value.reservationId == Some(n + 1))
    ensures r.1.Err? ==> r.0 == s
    ensures r.1.Ok? ==>
              var k := FindByProductId(s.ledger, productId).value;
              var n := |s.journal|;
              && r.1.value.orderId == orderId && r.1.value.productId == productId
              && r.1.value.reservedQuantity == quantity
              && r.1.value.status == r.0.journal[n].status
              && r.0.journal[n].id == n + 1
              && r.0.journal[n].confirmedAt.None? && r.0.journal[n].releasedAt.None?
    ensures r.1.Ok? && r.1.value.success ==>
              var n := |s.journal|;
              && r.0.journal[n].failureReason.None?
              && r.0.events[|s.events|] == InventoryReserved(orderId, productId, quantity, n + 1)
    ensures r.1.Ok? && !r.1.value.success ==>
              var k := FindByProductId(s.ledger, productId).value;
              var n := |s.journal|;
              && r.0.ledger == s.ledger
              && r.0.journal[n].failureReason == Some(InsufficientStock(quantity, Available(s.ledger[k])))
              && r.0.events[|s.events|] == ReservationFailed(orderId, productId, quantity, Available(s.ledger[k]))
  {
    if FindByOrderId(s.journal, orderId).Some? then
      (s, Err(InventoryException(DUPLICATE_RESERVATION)))
    else match FindByProductId(s.ledger, productId)
      case None => (s, Err(InventoryException(INVENTORY_NOT_FOUND)))
      case Some(k) =>
        var e := s.ledger[k];
        var id := |s.journal| + 1;
        if !HasAvailable(e, quantity) then
          (s.(journal := s.journal + [ReservationRow(id, e.id, orderId, quantity, Failed, None, None,
                                                     Some(InsufficientStock(quantity, Available(e))))],
              events := s.events + [ReservationFailed(orderId, productId, quantity, Available(e))]),
           Ok(ReservationResponse(None, orderId, productId, quantity, Failed, false)))
        else
          (s.(ledger := s.ledger[k := e.(reservedQuantity := e.reservedQuantity + quantity)],
              journal := s.journal + [ReservationRow(id, e.id, orderId, quantity, Pending, None, None, None)],
              events := s.events + [InventoryReserved(orderId, productId, quantity, id)]),
           Ok(ReservationResponse(Some(id), orderId, productId, quantity, Pending, true)))
  }

  /** releaseReservation as a function of the state it runs in. */
  function ReleaseStep(s: Snapshot, orderId: string, now: Timestamp): (r: (Snapshot, Outcome<Error>))
    ensures r.1.Fail? ==> r.0 == s
    ensures FindByOrderId(s.journal, orderId).None? ==>
              r.1 == Fail(InventoryException(RESERVATION_NOT_FOUND))
    ensures FindByOrderId(s.journal, orderId).Some? ==>
              var i := FindByOrderId(s.journal, orderId).value;
              var rec := s.journal[i];
              var k := rec.inventoryId - 1;
              && (rec.status == Released ==> r == (s, Pass))
              && (rec.status != Released && r.1.Pass? ==>
                    && 1 <= rec.inventoryId <= |s.ledger|
                    && ReleaseRow(s.ledger[k], rec.reservedQuantity).Ok?
                    && r.0.ledger == s.ledger[k := ReleaseRow(s.ledger[k], rec.reservedQuantity).value]
                    && r.0.journal == s.journal[i := MarkReleased(rec, now)]
                    && r.0.events == s.events + [ReservationCompensated(orderId, s.ledger[k].productId,
                                                                        rec.reservedQuantity, rec.id,
                                                                        COMPENSATION_REASON)]
                    && r.0.drained == DrainedAfterRelease(s.drained, rec))
              && (rec.status != Released && !(1 <= rec.inventoryId <= |s.ledger|) ==>
                    r.1 == Fail(InventoryException(INVENTORY_NOT_FOUND)))
              && (rec.status != Released && 1 <= rec.inventoryId <= |s.ledger| ==>
                    (r.1.Pass? <==> ReleaseRow(s.ledger[k], rec.reservedQuantity).Ok?))
              && (rec.status != Released && 1 <= rec.inventoryId <= |s.ledger| && r.1.Fail? ==>
                    r.1 == Fail(IllegalStateException))
  {
    match FindByOrderId(s.journal, orderId)
    case None => (s, Fail(InventoryException(RESERVATION_NOT_FOUND)))
    case Some(i) =>
      var rec := s.journal[i];
      if rec.status == Released then (s, Pass)
      else if !(1 <= rec.inventoryId <= |s.ledger|) then (s, Fail(InventoryException(INVENTORY_NOT_FOUND)))
      else
        var k := rec.inventoryId - 1;
        var e := s.ledger[k];
        match ReleaseRow(e, rec.reservedQuantity)
        case Err(error) => (s, Fail(error))
        case Ok(released) =>
          (Snapshot(s.ledger[k := released],
                    s.journal[i := MarkReleased(rec, now)],
                    s.events + [ReservationCompensated(orderId, e.productId, rec.reservedQuantity, rec.id,
                                                       COMPENSATION_REASON)],
                    DrainedAfterRelease(s.drained, rec)),
           Pass)
  }

  /** confirmReservation as a function of the state it runs in. */
  function ConfirmStep(s: Snapshot, orderId: string, now: Timestamp): (r: (Snapshot, Outcome<Error>))
    ensures r.0.ledger == s.ledger && r.0.events == s.events && r.0.drained == s.drained
    ensures |r.0.journal| == |s.journal|
    ensures FindByOrderId(s.journal, orderId).None? ==>
              r == (s, Fail(InventoryException(RESERVATION_NOT_FOUND)))
    ensures FindByOrderId(s.journal, orderId).Some? ==>
              var i := FindByOrderId(s.journal, orderId).value;
              && r.1 == Pass
              && (s.journal[i].status != Pending ==> r.0 == s)
              && (s.journal[i].status == Pending ==>
                    r.0.journal == s.journal[i := MarkConfirmed(s.journal[i], now)])
  {
    match FindByOrderId(s.journal, orderId)
    case None => (s, Fail(InventoryException(RESERVATION_NOT_FOUND)))
    case Some(i) =>
      if s.journal[i].status != Pending then (s, Pass)
      else (s.(journal := s.journal[i := MarkConfirmed(s.journal[i], now)]), Pass)
  }

  /** releaseReservation as evidently intended: a FAILED record never held
      stock, so releasing it gives nothing back, as for a RELEASED one. */
  function ReleaseCorrectedStep(s: Snapshot, orderId: string, now: Timestamp)
    : (r: (Snapshot, Outcome<Error>))
    ensures r.0.drained == s.drained
    ensures (FindByOrderId(s.journal, orderId).Some?
             && s.journal[FindByOrderId(s.journal, orderId).value].status == Failed) ==> r == (s, Pass)
  {
    var found := FindByOrderId(s.journal, orderId);
    if found.Some? && s.journal[found.value].status == Failed then (s, Pass)
    else ReleaseStep(s, orderId, now)
  }

  /** Every status a step changes moves along an edge the code takes, and
      no record is dropped. */
  ghost predicate StatusesMoveAlong(before: seq<ReservationRow>, after: seq<ReservationRow>) {
    && |before| <= |after|
    && forall i :: 0 <= i < |before| ==>
         after[i].status == before[i].status || TakenEdge(before[i].status, after[i].status)
  }

  /** reserveStock rewrites no status, and the record it appends is born
      PENDING or FAILED. */
  lemma ReserveStepMovesAlong(s: Snapshot, orderId: string, productId: string, quantity: int)
    ensures var j := ReserveStep(s, orderId, productId, quantity).0.journal;
            && StatusesMoveAlong(s.journal, j)
            && (|j| > |s.journal| ==> InitialStatus(j[|s.journal|].status))
  {
    var j := ReserveStep(s, orderId, productId, quantity).0.journal;
    if |j| > |s.journal| {
      assert forall i :: 0 <= i < |s.journal| ==> j[i] == j[..|s.journal|][i];
    }
  }

  /** releaseReservation moves the order's record from whatever status it
      had, PENDING, CONFIRMED or FAILED, to RELEASED, and no other. */
  lemma ReleaseStepMovesAlong(s: Snapshot, orderId: string, now: Timestamp)
    ensures StatusesMoveAlong(s.journal, ReleaseStep(s, orderId, now).0.journal)
    ensures var r := ReleaseStep(s, orderId, now);
            var found := FindByOrderId(s.journal, orderId);
            r.1.Pass? && found.Some? && s.journal[found.value].status != Released ==>
              && r.0.journal[found.value].status == Released
              && TakenEdge(s.journal[found.value].status, Released)
  {
  }

  /** confirmReservation changes a status only from PENDING to CONFIRMED. */
  lemma ConfirmStepMovesAlong(s: Snapshot, orderId: string, now: Timestamp)
    ensures StatusesMoveAlong(s.journal, ConfirmStep(s, orderId, now).0.journal)
    ensures var j := ConfirmStep(s, orderId, now).0.journal;
            forall i :: 0 <= i < |s.journal| && j[i].status != s.journal[i].status ==>
              s.journal[i].status == Pending && j[i].status == Confirmed
  {
  }

  /** Both release edges the lifecycle comment leaves out are taken: o1's
      PENDING record and o2's FAILED record each end RELEASED. */
  lemma ReleaseTakesUndocumentedEdges()
    ensures AfterO1().journal[0].status == Pending
    ensures ReleaseStep(AfterO1(), "o1", 0) == (AfterO1Released(), Pass)
    ensures AfterO1Released().journal[0].status == Released
    ensures AfterO2().journal[1].status == Failed
    ensures ReleaseStep(AfterO2(), "o2", 0) == (AfterO2Released(), Pass)
    ensures AfterO2Released().journal[1].status == Released
    ensures !DocumentedEdge(Pending, Released) && !DocumentedEdge(Failed, Released)
  {
    TraceO1Released();
    TraceO2Released();
  }

  /** The entries' totals after an operation are those before it, one by one. */
  ghost predicate SameTotals(before: seq<InventoryRow>, after: seq<InventoryRow>) {
    && |before| == |after|
    && forall k :: 0 <= k < |before| ==> after[k].totalQuantity == before[k].totalQuantity
  }

  /** No reservation operation changes a total: confirmation never consumes
      stock, so units leave the shelf only through updateTotalQuantity. */
  lemma OrchestratorKeepsTotals(s: Snapshot, orderId: string, productId: string, quantity: int,
                                now: Timestamp)
    ensures SameTotals(s.ledger, ReserveStep(s, orderId, productId, quantity).0.ledger)
    ensures SameTotals(s.ledger, ReleaseStep(s, orderId, now).0.ledger)
    ensures SameTotals(s.ledger, ConfirmStep(s, orderId, now).0.ledger)
  {
  }

  /** The state after the success path of reserveStock on entry `k`. */
  function HeldState(s: Snapshot, k: nat, orderId: string, productId: string, quantity: int): Snapshot
    requires k < |s.ledger|
  {
    var e := s.ledger[k];
    var id := |s.journal| + 1;
    Snapshot(s.ledger[k := e.(reservedQuantity := e.reservedQuantity + quantity)],
             s.journal + [ReservationRow(id, e.id, orderId, quantity, Pending, None, None, None)],
             s.events + [InventoryReserved(orderId, productId, quantity, id)],
             s.drained)
  }

  /** The state after the insufficient-stock path of reserveStock on entry `k`. */
  function ShortState(s: Snapshot, k: nat, orderId: string, productId: string, quantity: int): Snapshot
    requires k < |s.ledger|
  {
    var e := s.ledger[k];
    var id := |s.journal| + 1;
    s.(journal := s.journal + [ReservationRow(id, e.id, orderId, quantity, Failed, None, None,
                                              Some(InsufficientStock(quantity, Available(e))))],
       events := s.events + [ReservationFailed(orderId, productId, quantity, Available(e))])
  }

  /** The success path of reserveStock, and the invariant it keeps. */
  lemma HoldKeepsInvariant(s: Snapshot, orderId: string, productId: string, quantity: int, k: nat)
    requires Invariant(s) && quantity > 0
    requires FindByOrderId(s.journal, orderId).None? && FindByProductId(s.ledger, productId) == Some(k)
    requires HasAvailable(s.ledger[k], quantity)
    ensures ReserveStep(s, orderId, productId, quantity)
            == (HeldState(s, k, orderId, productId, quantity),
                Ok(ReservationResponse(Some(|s.journal| + 1), orderId, productId, quantity, Pending, true)))
    ensures Invariant(HeldState(s, k, orderId, productId, quantity))
    ensures Extends(s.journal, HeldState(s, k, orderId, productId, quantity).journal)
  {
    var e := s.ledger[k];
    assert e.id == k + 1;
    var row := ReservationRow(|s.journal| + 1, k + 1, orderId, quantity, Pending, None, None, None);
    ReserveKeepsConsistent(s.ledger, s.journal, s.drained, k, orderId, quantity);
    var s' := HeldState(s, k, orderId, productId, quantity);
    assert s'.journal == s.journal + [row];
    assert forall i :: 0 <= i < |s.journal| ==> s'.journal[i] == s.journal[i];
  }

  /** The insufficient-stock path of reserveStock, and the invariant it keeps. */
  lemma ShortageKeepsInvariant(s: Snapshot, orderId: string, productId: string, quantity: int, k: nat)
    requires Invariant(s) && quantity > 0
    requires FindByOrderId(s.journal, orderId).None? && FindByProductId(s.ledger, productId) == Some(k)
    requires !HasAvailable(s.ledger[k], quantity)
    ensures ReserveStep(s, orderId, productId, quantity)
            == (ShortState(s, k, orderId, productId, quantity),
                Ok(ReservationResponse(None, orderId, productId, quantity, Failed, false)))
    ensures Invariant(ShortState(s, k, orderId, productId, quantity))
    ensures Extends(s.journal, ShortState(s, k, orderId, productId, quantity).journal)
  {
    var e := s.ledger[k];
    assert e.id == k + 1;
    var reason := InsufficientStock(quantity, Available(e));
    var row := ReservationRow(|s.journal| + 1, k + 1, orderId, quantity, Failed, None, None, Some(reason));
    FailKeepsConsistent(s.ledger, s.journal, s.drained, k, orderId, quantity, reason);
    var s' := ShortState(s, k, orderId, productId, quantity);
    assert s'.journal == s.journal + [row];
    assert forall i :: 0 <= i < |s.journal| ==> s'.journal[i] == s.journal[i];
  }

  /** The state after releaseReservation gives back the quantity of record
      `i`, found for `orderId`, to its entry. */
  function ReleasedState(s: Snapshot, orderId: string, i: nat, now: Timestamp): Snapshot
    requires i < |s.journal| && 1 <= s.journal[i].inventoryId <= |s.ledger|
  {
    var rec := s.journal[i];
    var k := rec.inventoryId - 1;
    var e := s.ledger[k];
    Snapshot(s.ledger[k := e.(reservedQuantity := e.reservedQuantity - rec.reservedQuantity)],
             s.journal[i := MarkReleased(rec, now)],
             s.events + [ReservationCompensated(orderId, e.productId, rec.reservedQuantity, rec.id,
                                                COMPENSATION_REASON)],
             DrainedAfterRelease(s.drained, rec))
  }

  /** The success path of releaseReservation, and the invariant it keeps. */
  lemma ReleaseKeepsInvariantAt(s: Snapshot, orderId: string, i: nat, now: Timestamp)
    requires Invariant(s) && FindByOrderId(s.journal, orderId) == Some(i)
    requires s.journal[i].status != Released && 1 <= s.journal[i].inventoryId <= |s.ledger|
    requires s.journal[i].reservedQuantity <= s.ledger[s.journal[i].inventoryId - 1].reservedQuantity
    ensures ReleaseStep(s, orderId, now) == (ReleasedState(s, orderId, i, now), Pass)
    ensures Invariant(ReleasedState(s, orderId, i, now))
    ensures Extends(s.journal, ReleasedState(s, orderId, i, now).journal)
  {
    ReleaseStepKeepsInvariant(s, orderId, now);
  }

  /** reserveStock keeps the invariant and never rewrites an existing record. */
  lemma ReserveStepKeepsInvariant(s: Snapshot, orderId: string, productId: string, quantity: int)
    requires Invariant(s) && quantity > 0
    ensures Invariant(ReserveStep(s, orderId, productId, quantity).0)
    ensures Extends(s.journal, ReserveStep(s, orderId, productId, quantity).0.journal)
  {
    var found := FindByProductId(s.ledger, productId);
    if FindByOrderId(s.journal, orderId).None? && found.Some? {
      if HasAvailable(s.ledger[found.value], quantity) {
        HoldKeepsInvariant(s, orderId, productId, quantity, found.value);
      } else {
        ShortageKeepsInvariant(s, orderId, productId, quantity, found.value);
      }
    }
  }

  /** releaseReservation keeps the invariant and never deletes a record. */
  lemma ReleaseStepKeepsInvariant(s: Snapshot, orderId: string, now: Timestamp)
    requires Invariant(s)
    ensures Invariant(ReleaseStep(s, orderId, now).0)
    ensures Extends(s.journal, ReleaseStep(s, orderId, now).0.journal)
  {
    var r := ReleaseStep(s, orderId, now);
    var found := FindByOrderId(s.journal, orderId);
    if found.Some? && s.journal[found.value].status != Released && r.1.Pass? {
      ReleaseKeepsConsistent(s.ledger, s.journal, s.drained, found.value, now);
    }
  }

  /** confirmReservation keeps the invariant and never deletes a record. */
  lemma ConfirmStepKeepsInvariant(s: Snapshot, orderId: string, now: Timestamp)
    requires Invariant(s)
    ensures Invariant(ConfirmStep(s, orderId, now).0)
    ensures Extends(s.journal, ConfirmStep(s, orderId, now).0.journal)
  {
    var found := FindByOrderId(s.journal, orderId);
    if found.Some? && s.journal[found.value].status == Pending {
      ConfirmKeepsConsistent(s.ledger, s.journal, s.drained, found.value, now);
    }
  }

  /** Releasing an order a second time changes nothing: the first release
      left its record RELEASED. */
  lemma ReleaseIsIdempotent(s: Snapshot, orderId: string, now: Timestamp, later: Timestamp)
    requires Invariant(s) && ReleaseStep(s, orderId, now).1.Pass?
    ensures var s1 := ReleaseStep(s, orderId, now).0;
            ReleaseStep(s1, orderId, later) == (s1, Pass)
  {
    var s1 := ReleaseStep(s, orderId, now).0;
    var i := FindByOrderId(s.journal, orderId).value;
    ReleaseStepKeepsInvariant(s, orderId, now);
    FindsTheOnlyRecord(s1.journal, orderId, i);
  }

  /** Confirming an order a second time changes nothing. */
  lemma ConfirmIsIdempotent(s: Snapshot, orderId: string, now: Timestamp, later: Timestamp)
    requires Invariant(s)
    ensures var s1 := ConfirmStep(s, orderId, now).0;
            ConfirmStep(s1, orderId, later) == ConfirmStep(s1, orderId, now)
            && ConfirmStep(s1, orderId, later).0 == s1
  {
    var s1 := ConfirmStep(s, orderId, now).0;
    var found := FindByOrderId(s.journal, orderId);
    if found.Some? {
      ConfirmStepKeepsInvariant(s, orderId, now);
      FindsTheOnlyRecord(s1.journal, orderId, found.value);
    }
  }

  /** Compensation undoes a successful reservation: releasing the order puts
      the ledger back exactly as it was before the reservation. */
  lemma CompensationRestoresLedger(s: Snapshot, orderId: string, productId: string,
                                   quantity: int, now: Timestamp)
    requires Invariant(s) && quantity > 0
    requires var r := ReserveStep(s, orderId, productId, quantity).1;
             r.Ok? && r.value.success
    ensures ReleaseStep(ReserveStep(s, orderId, productId, quantity).0, orderId, now).1 == Pass
    ensures ReleaseStep(ReserveStep(s, orderId, productId, quantity).0, orderId, now).0.ledger == s.ledger
  {
    var s1 := ReserveStep(s, orderId, productId, quantity).0;
    var k := FindByProductId(s.ledger, productId).value;
    var n := |s.journal|;
    ReserveStepKeepsInvariant(s, orderId, productId, quantity);
    FindsTheOnlyRecord(s1.journal, orderId, n);
    assert s.ledger[k].id == k + 1;
    ReserveReleaseRoundTrip(s.ledger[k], quantity);
    assert s1.ledger[k := s.ledger[k]] == s.ledger;
  }

  /** Compensating a FAILED reservation is not a no-op: the entry's reserved
      count drops by the quantity the order asked for and never got, whenever
      the entry has that much reserved by other orders. */
  lemma FailedCompensationTakesStock(s: Snapshot, orderId: string, productId: string,
                                     quantity: int, now: Timestamp)
    requires Invariant(s) && quantity > 0
    requires var r := ReserveStep(s, orderId, productId, quantity).1;
             r.Ok? && !r.value.success
    requires quantity <= s.ledger[FindByProductId(s.ledger, productId).value].reservedQuantity
    ensures var k := FindByProductId(s.ledger, productId).value;
            var s2 := ReleaseStep(ReserveStep(s, orderId, productId, quantity).0, orderId, now);
            s2.1 == Pass
            && s2.0.ledger[k].reservedQuantity == s.ledger[k].reservedQuantity - quantity
  {
    var s1 := ReserveStep(s, orderId, productId, quantity).0;
    ReserveStepKeepsInvariant(s, orderId, productId, quantity);
    FindsTheOnlyRecord(s1.journal, orderId, |s.journal|);
    var k := FindByProductId(s.ledger, productId).value;
    assert s.ledger[k].id == k + 1;
  }

  /** No entry has more held by live records than it has units. */
  ghost predicate NoOversell(s: Snapshot) {
    forall k :: 0 <= k < |s.ledger| ==> Held(s.journal, s.ledger[k].id) <= s.ledger[k].totalQuantity
  }

  /** What the orchestrator is evidently meant to keep: nothing was ever
      drained and no entry has more reserved than it has units. */
  ghost predicate Sound(s: Snapshot) {
    && s.drained == map[]
    && forall k :: 0 <= k < |s.ledger| ==> s.ledger[k].reservedQuantity <= s.ledger[k].totalQuantity
  }

  /** A sound state does not oversell: every reserved unit is held by a live
      record and there are units for all of them. */
  lemma SoundMeansNoOversell(s: Snapshot)
    requires Invariant(s) && Sound(s)
    ensures NoOversell(s)
  {
    forall k | 0 <= k < |s.ledger|
      ensures Held(s.journal, s.ledger[k].id) <= s.ledger[k].totalQuantity
    {
      assert Balanced(s.ledger[k], s.journal, s.drained);
    }
  }

  /** reserveStock keeps a sound state sound. */
  lemma ReserveStepKeepsSound(s: Snapshot, orderId: string, productId: string, quantity: int)
    requires Invariant(s) && Sound(s) && quantity > 0
    ensures Sound(ReserveStep(s, orderId, productId, quantity).0)
  {
  }

  /** confirmReservation keeps a sound state sound. */
  lemma ConfirmStepKeepsSound(s: Snapshot, orderId: string, now: Timestamp)
    requires Sound(s)
    ensures Sound(ConfirmStep(s, orderId, now).0)
  {
  }

  /** The corrected release keeps a sound state sound, so together with
      reserveStock and confirmReservation it never oversells. */
  lemma ReleaseCorrectedStepKeepsSound(s: Snapshot, orderId: string, now: Timestamp)
    requires Invariant(s) && Sound(s)
    ensures Sound(ReleaseCorrectedStep(s, orderId, now).0)
    ensures Invariant(ReleaseCorrectedStep(s, orderId, now).0)
    ensures NoOversell(ReleaseCorrectedStep(s, orderId, now).0)
  {
    var s1 := ReleaseCorrectedStep(s, orderId, now).0;
    ReleaseStepKeepsInvariant(s, orderId, now);
    var found := FindByOrderId(s.journal, orderId);
    if found.Some? && s.journal[found.value].status != Failed && s.journal[found.value].status != Released
       && ReleaseStep(s, orderId, now).1.Pass? {
      var k := s.journal[found.value].inventoryId - 1;
      forall k2 | 0 <= k2 < |s1.ledger|
        ensures s1.ledger[k2].reservedQuantity <= s1.ledger[k2].totalQuantity
      {
        assert s1.ledger[k2].totalQuantity == s.ledger[k2].totalQuantity;
      }
    }
    SoundMeansNoOversell(s1);
  }

  /** updateTotalQuantity checks nothing against the reserved count: lowering
      a total below it keeps the invariant but leaves the entry oversold. */
  lemma LoweredTotalOversells(s: Snapshot, k: nat, newQuantity: int)
    requires Invariant(s) && Sound(s) && k < |s.ledger|
    requires newQuantity < s.ledger[k].reservedQuantity
    ensures var s' := s.(ledger := s.ledger[k := s.ledger[k].(totalQuantity := newQuantity)]);
            Invariant(s') && !Sound(s') && !NoOversell(s')
  {
    SetTotalKeepsConsistent(s.ledger, s.journal, s.drained, k, newQuantity);
    assert Balanced(s.ledger[k], s.journal, s.drained);
    var s' := s.(ledger := s.ledger[k := s.ledger[k].(totalQuantity := newQuantity)]);
    assert Held(s'.journal, s'.ledger[k].id) > s'.ledger[k].totalQuantity;
  }

  /** The states of the oversell trace: one product with 10 units. */
  function TraceStart(): Snapshot {
    Snapshot([InventoryRow(1, "P", 10, 0, 0)], [], [], map[])
  }

  function O1Held(): ReservationRow {
    ReservationRow(1, 1, "o1", 8, Pending, None, None, None)
  }

  function O2Failed(): ReservationRow {
    ReservationRow(2, 1, "o2", 3, Failed, None, None, Some(InsufficientStock(3, 2)))
  }

  function AfterO1(): Snapshot {
    Snapshot([InventoryRow(1, "P", 10, 8, 0)], [O1Held()], [InventoryReserved("o1", "P", 8, 1)], map[])
  }

  function AfterO2(): Snapshot {
    AfterO1().(journal := [O1Held(), O2Failed()],
               events := AfterO1().events + [ReservationFailed("o2", "P", 3, 2)])
  }

  function AfterO2Released(): Snapshot {
    Snapshot([InventoryRow(1, "P", 10, 5, 0)],
             [O1Held(), MarkReleased(O2Failed(), 0)],
             AfterO2().events + [ReservationCompensated("o2", "P", 3, 2, COMPENSATION_REASON)],
             map[1 := 3])
  }

  lemma TraceO1Reserves()
    ensures ReserveStep(TraceStart(), "o1", "P", 8).0 == AfterO1()
  {
  }

  lemma TraceO2Fails()
    ensures ReserveStep(AfterO1(), "o2", "P", 3).0 == AfterO2()
  {
    assert FindByOrderId(AfterO1().journal, "o2").None?;
  }

  /** o1 released right after its reservation. */
  function AfterO1Released(): Snapshot {
    Snapshot([InventoryRow(1, "P", 10, 0, 0)],
             [MarkReleased(O1Held(), 0)],
             AfterO1().events + [ReservationCompensated("o1", "P", 8, 1, COMPENSATION_REASON)],
             map[])
  }

  lemma TraceO1Released()
    ensures ReleaseStep(AfterO1(), "o1", 0) == (AfterO1Released(), Pass)
  {
    assert FindByOrderId(AfterO1().journal, "o1") == Some(0);
    assert ReleaseRow(AfterO1().ledger[0], 8).Ok?;
    assert ReleaseStep(AfterO1(), "o1", 0).0 == AfterO1Released();
  }

  lemma TraceO2Released()
    ensures ReleaseStep(AfterO2(), "o2", 0) == (AfterO2Released(), Pass)
  {
    assert FindByOrderId(AfterO2().journal, "o2") == Some(1);
    assert ReleaseRow(AfterO2().ledger[0], 3).Ok?;
    assert ReleaseStep(AfterO2(), "o2", 0).0 == AfterO2Released();
  }

  function AfterO3(): Snapshot {
    AfterO2Released().(
      ledger := [InventoryRow(1, "P", 10, 10, 0)],
      journal := AfterO2Released().journal + [ReservationRow(3, 1, "o3", 5, Pending, None, None, None)],
      events := AfterO2Released().events + [InventoryReserved("o3", "P", 5, 3)])
  }

  lemma TraceO3Reserves()
    ensures ReserveStep(AfterO2Released(), "o3", "P", 5)
            == (AfterO3(), Ok(ReservationResponse(Some(3), "o3", "P", 5, Pending, true)))
  {
    var s3 := AfterO2Released();
    assert FindByOrderId(s3.journal, "o3").None?;
    assert FindByProductId(s3.ledger, "P") == Some(0);
    assert HasAvailable(s3.ledger[0], 5);
    assert s3.ledger[0 := s3.ledger[0].(reservedQuantity := 10)] == AfterO3().ledger;
  }

  lemma TraceEndsOversold()
    ensures Held(AfterO3().journal, 1) == 13 && !NoOversell(AfterO3())
  {
    var j := AfterO3().journal;
    assert j[..2][..1][..0] == [];
    assert Held(j, 1) == 13;
    assert Held(j, AfterO3().ledger[0].id) > AfterO3().ledger[0].totalQuantity;
  }

  /** The release as written oversells. Stock 10; o1 holds 8; o2 asks for 3
      and fails; releasing o2 takes 3 off the reserved count anyway; o3 then
      gets 5. Live records now hold 13 of 10 units. */
  lemma ReleasingFailedRecordOversells()
    ensures Invariant(TraceStart()) && Sound(TraceStart())
    ensures ReserveStep(TraceStart(), "o1", "P", 8).0 == AfterO1()
    ensures ReserveStep(AfterO1(), "o2", "P", 3).0 == AfterO2()
    ensures ReleaseStep(AfterO2(), "o2", 0) == (AfterO2Released(), Pass)
    ensures ReserveStep(AfterO2Released(), "o3", "P", 5)
            == (AfterO3(), Ok(ReservationResponse(Some(3), "o3", "P", 5, Pending, true)))
    ensures Held(AfterO3().journal, 1) == 13 && !NoOversell(AfterO3())
  {
    TraceO1Reserves();
    TraceO2Fails();
    TraceO2Released();
    TraceO3Reserves();
    TraceEndsOversold();
  }

  /** The inventory_reservation table (InventoryReservationRepository). */
  class ReservationRepository {
    var rows: seq<ReservationRow>

    ghost predicate Valid()
      reads this
    {
      forall i :: 0 <= i < |rows| ==> rows[i].id == i + 1
    }

    constructor ()
      ensures Valid() && rows == []
    {
      rows := [];
    }

    /** findByOrderId. */
    function FindByOrderId(orderId: string): (r: Option<ReservationRow>)
      reads this
      ensures r.Some? <==> Journal.FindByOrderId(rows, orderId).Some?
      ensures r.Some? ==> r.value == rows[Journal.FindByOrderId(rows, orderId).value]
    {
      var i := Journal.FindByOrderId(rows, orderId);
      if i.Some? then Some(rows[i.value]) else None
    }

    /** save of a new record: the table gives it the next identity id. */
    method Insert(r: ReservationRow) returns (id: nat)
      requires Valid()
      modifies this
      ensures Valid()
      ensures id == |old(rows)| + 1
      ensures rows == old(rows) + [r.(id := id)]
    {
      id := |rows| + 1;
      rows := rows + [r.(id := id)];
    }

    /** save of a managed record: its row is overwritten in place. */
    method Update(r: ReservationRow)
      requires Valid() && 1 <= r.id <= |rows|
      modifies this
      ensures Valid()
      ensures rows == old(rows)[r.id - 1 := r]
    {
      rows := rows[r.id - 1 := r];
    }
  }

  /** ReservationService. Every operation runs as one transaction and is
      proved to change the state exactly as its step function says. */
  class ReservationService {
    const inventoryService: InventoryService
    const inventoryRepository: InventoryRepository
    const reservationRepository: ReservationRepository
    /** Messages handed to Kafka, oldest first. */
    ghost var events: seq<Event>
    /** Per entry id, what releasing FAILED records took off its reserved count. */
    ghost var drained: map<nat, int>

    ghost predicate Valid()
      reads this, inventoryRepository, reservationRepository
    {
      && inventoryService.repository == inventoryRepository
      && reservationRepository.Valid()
      && Invariant(Snap())
    }

    ghost function Snap(): Snapshot
      reads this, inventoryRepository, reservationRepository
    {
      Snapshot(inventoryRepository.rows, reservationRepository.rows, events, drained)
    }

    constructor (inventoryService: InventoryService, inventoryRepository: InventoryRepository,
                 reservationRepository: ReservationRepository)
      requires inventoryService.repository == inventoryRepository
      requires reservationRepository.Valid()
      requires Consistent(inventoryRepository.rows, reservationRepository.rows, map[])
      ensures Valid()
      ensures this.inventoryService == inventoryService
      ensures this.inventoryRepository == inventoryRepository
      ensures this.reservationRepository == reservationRepository
      ensures events == [] && drained == map[]
    {
      this.inventoryService := inventoryService;
      this.inventoryRepository := inventoryRepository;
      this.reservationRepository := reservationRepository;
      events := [];
      drained := map[];
    }

    /** reserveStock. Any record for the order, whatever its status, refuses
        the request. Otherwise, on a tracked product, either too little is
        available and a FAILED audit record is written with the ledger left
        alone, or a PENDING record is written and the entry's reserved count
        grows by the quantity; either way exactly one message is sent. */
    method ReserveStock(orderId: string, productId: string, quantity: int)
      returns (r: Result<ReservationResponse, Error>)
      requires Valid() && quantity > 0
      modifies this, inventoryRepository, reservationRepository
      ensures Valid()
      ensures (Snap(), r) == ReserveStep(old(Snap()), orderId, productId, quantity)
    {
      if reservationRepository.FindByOrderId(orderId).Some? {
        return Err(InventoryException(DUPLICATE_RESERVATION));
      }
      var locked := inventoryService.GetInventoryLockedForUpdate(productId);
      if locked.Err? {
        return Err(locked.error);
      }
      var inventory := locked.value;
      FindsTheOnlyEntry(inventoryRepository.rows, productId, inventory.id - 1);
      if !inventory.HasAvailableQuantity(quantity) {
        r := RecordShortage(inventory, orderId, productId, quantity);
      } else {
        r := HoldStock(inventory, orderId, productId, quantity);
      }
    }

    /** The insufficient-stock path of reserveStock: a FAILED audit record and
        a failure message, with the ledger left alone. */
    method RecordShortage(inventory: Inventory, orderId: string, productId: string, quantity: int)
      returns (r: Result<ReservationResponse, Error>)
      requires Valid() && quantity > 0
      requires FindByOrderId(reservationRepository.rows, orderId).None?
      requires 1 <= inventory.id <= |inventoryRepository.rows|
      requires FindByProductId(inventoryRepository.rows, productId) == Some(inventory.id - 1)
      requires inventory.Row() == inventoryRepository.rows[inventory.id - 1]
      requires !inventory.HasAvailableQuantity(quantity)
      modifies this, reservationRepository
      ensures Valid()
      ensures (Snap(), r) == ReserveStep(old(Snap()), orderId, productId, quantity)
    {
      ghost var s := Snap();
      ShortageKeepsInvariant(s, orderId, productId, quantity, inventory.id - 1);
      var available := inventory.AvailableQuantity();
      var failed := new InventoryReservation.Build(inventory.id, orderId, quantity, Some(Failed),
                                                   Some(InsufficientStock(quantity, available)));
      var failedId := reservationRepository.Insert(failed.Row());
      events := events + [ReservationFailed(orderId, productId, quantity, inventory.AvailableQuantity())];
      r := Ok(ReservationResponse(None, orderId, productId, quantity, Failed, false));
      assert Snap() == ShortState(s, inventory.id - 1, orderId, productId, quantity);
    }

    /** The success path of reserveStock: a PENDING record, the entry's
        reserved count raised by the quantity, and a success message. */
    method HoldStock(inventory: Inventory, orderId: string, productId: string, quantity: int)
      returns (r: Result<ReservationResponse, Error>)
      requires Valid() && quantity > 0
      requires FindByOrderId(reservationRepository.rows, orderId).None?
      requires 1 <= inventory.id <= |inventoryRepository.rows|
      requires FindByProductId(inventoryRepository.rows, productId) == Some(inventory.id - 1)
      requires inventory.Row() == inventoryRepository.rows[inventory.id - 1]
      requires inventory.HasAvailableQuantity(quantity)
      modifies this, inventory, inventoryRepository, reservationRepository
      ensures Valid()
      ensures (Snap(), r) == ReserveStep(old(Snap()), orderId, productId, quantity)
    {
      ghost var s := Snap();
      r := CommitHold(inventory, orderId, productId, quantity);
      HoldKeepsInvariant(s, orderId, productId, quantity, inventory.id - 1);
    }

    /** The writes of the success path: the PENDING record, the entry's raised
        reserved count and the success message. */
    method CommitHold(inventory: Inventory, orderId: string, productId: string, quantity: int)
      returns (r: Result<ReservationResponse, Error>)
      requires reservationRepository.Valid() && inventoryRepository.Valid()
      requires 1 <= inventory.id <= |inventoryRepository.rows|
      requires inventory.Row() == inventoryRepository.rows[inventory.id - 1]
      requires inventory.HasAvailableQuantity(quantity)
      modifies this, inventory, inventoryRepository, reservationRepository
      ensures reservationRepository.Valid() && inventoryRepository.Valid()
      ensures inventory.id == old(inventory.id)
      ensures Snap() == HeldState(old(Snap()), inventory.id - 1, orderId, productId, quantity)
      ensures r == Ok(ReservationResponse(Some(|old(reservationRepository.rows)| + 1), orderId, productId,
                                          quantity, Pending, true))
    {
      var reservation := new InventoryReservation.Build(inventory.id, orderId, quantity,
                                                        Some(Pending), None);
      var saved := reservationRepository.Insert(reservation.Row());
      reservation.id := saved;
      ReserveOnLedger(inventory, quantity);
      events := events + [InventoryReserved(orderId, productId, quantity, reservation.id)];
      r := Ok(ReservationResponse(Some(saved), orderId, productId, quantity, Pending, true));
    }

    /** inventory.reserve followed by inventoryRepository.save: the entry's
        reserved count grows by the quantity, in the entity and in its row. */
    method ReserveOnLedger(inventory: Inventory, quantity: int)
      requires inventoryRepository.Valid() && 1 <= inventory.id <= |inventoryRepository.rows|
      requires inventory.Row() == inventoryRepository.rows[inventory.id - 1]
      requires inventory.HasAvailableQuantity(quantity)
      modifies inventory, inventoryRepository
      ensures inventoryRepository.Valid()
      ensures inventory.Row() == old(inventory.Row()).(reservedQuantity := old(inventory.reservedQuantity) + quantity)
      ensures inventoryRepository.rows == old(inventoryRepository.rows)[old(inventory.id) - 1 := inventory.Row()]
    {
      var reserved := inventory.Reserve(quantity);
      inventoryRepository.Update(inventory.Row());
    }

    /** inventory.release followed by inventoryRepository.save: the entry's
        reserved count shrinks by the quantity, or nothing changes when less
        than that is reserved. */
    method ReleaseOnLedger(inventory: Inventory, quantity: int) returns (r: Outcome<Error>)
      requires inventoryRepository.Valid() && 1 <= inventory.id <= |inventoryRepository.rows|
      requires inventory.Row() == inventoryRepository.rows[inventory.id - 1]
      modifies inventory, inventoryRepository
      ensures inventoryRepository.Valid()
      ensures r == OutcomeOf(ReleaseRow(old(inventory.Row()), quantity))
      ensures inventory.Row() == Committed(ReleaseRow(old(inventory.Row()), quantity), old(inventory.Row()))
      ensures r.Fail? ==> inventoryRepository.rows == old(inventoryRepository.rows)
      ensures r.Pass? ==> && quantity <= old(inventory.reservedQuantity)
                          && inventoryRepository.rows
                             == old(inventoryRepository.rows)[old(inventory.id) - 1 :=
                                  old(inventory.Row()).(reservedQuantity := old(inventory.reservedQuantity) - quantity)]
    {
      r := inventory.Release(quantity);
      if r.Pass? {
        inventoryRepository.Update(inventory.Row());
      }
    }

    /** The commit part of releaseReservation, once the record and its entry
        are loaded: give the quantity back, save the entry, mark the record
        RELEASED, save it and send the compensation message. When the entry
        holds too little, the exception leaves everything as it was. */
    method CommitRelease(reservation: InventoryReservation, inventory: Inventory, orderId: string,
                         now: Timestamp, ghost i: nat) returns (r: Outcome<Error>)
      requires reservationRepository.Valid() && inventoryRepository.Valid()
      requires i < |reservationRepository.rows| && reservation.Row() == reservationRepository.rows[i]
      requires 1 <= inventory.id <= |inventoryRepository.rows| && inventory.id == reservation.inventoryId
      requires inventory.Row() == inventoryRepository.rows[inventory.id - 1]
      modifies this, reservation, inventory, inventoryRepository, reservationRepository
      ensures reservationRepository.Valid() && inventoryRepository.Valid()
      ensures r == OutcomeOf(ReleaseRow(old(inventory.Row()), old(reservation.reservedQuantity)))
      ensures r.Fail? ==> Snap() == old(Snap())
      ensures r.Pass? ==> Snap() == ReleasedState(old(Snap()), orderId, i, now)
    {
      r := ReleaseOnLedger(inventory, reservation.reservedQuantity);
      if r.Fail? {
        return;
      }
      reservation.status := Released;
      reservation.releasedAt := Some(now);
      reservationRepository.Update(reservation.Row());
      drained := DrainedAfterRelease(drained, old(reservation.Row()));
      events := events + [ReservationCompensated(orderId, inventory.productId, reservation.reservedQuantity,
                                                 reservation.id, COMPENSATION_REASON)];
    }

    /** releaseReservation: compensation for a failed or cancelled order. */
    method ReleaseReservation(orderId: string, now: Timestamp) returns (r: Outcome<Error>)
      requires Valid()
      modifies this, inventoryRepository, reservationRepository
      ensures Valid()
      ensures (Snap(), r) == ReleaseStep(old(Snap()), orderId, now)
    {
      ghost var s := Snap();
      var found := reservationRepository.FindByOrderId(orderId);
      if found.None? {
        return Fail(InventoryException(RESERVATION_NOT_FOUND));
      }
      ghost var i := Journal.FindByOrderId(s.journal, orderId).value;
      var reservation := new InventoryReservation.Load(found.value);
      if reservation.status == Released {
        return Pass;
      }
      var row := inventoryRepository.FindById(reservation.inventoryId);
      if row.None? {
        return Fail(InventoryException(INVENTORY_NOT_FOUND));
      }
      var inventory := new Inventory.Load(row.value);
      r := CommitRelease(reservation, inventory, orderId, now, i);
      if r.Pass? {
        ReleaseKeepsInvariantAt(s, orderId, i, now);
      }
    }

    /** confirmReservation: after payment, a PENDING record becomes CONFIRMED;
        any other status is left as it is. The ledger is not touched. */
    method ConfirmReservation(orderId: string, now: Timestamp) returns (r: Outcome<Error>)
      requires Valid()
      modifies this, reservationRepository
      ensures Valid()
      ensures (Snap(), r) == ConfirmStep(old(Snap()), orderId, now)
    {
      ghost var s := Snap();
      var found := reservationRepository.FindByOrderId(orderId);
      if found.None? {
        return Fail(InventoryException(RESERVATION_NOT_FOUND));
      }
      var reservation := new InventoryReservation.Load(found.value);
      if reservation.status != Pending {
        return Pass;
      }
      reservation.status := Confirmed;
      reservation.confirmedAt := Some(now);
      reservationRepository.Update(reservation.Row());
      r := Pass;
      assert Snap() == ConfirmStep(s, orderId, now).0;
      ConfirmStepKeepsInvariant(s, orderId, now);
    }

    /** releaseReservation with the FAILED case treated like RELEASED. */
    method ReleaseReservationCorrected(orderId: string, now: Timestamp) returns (r: Outcome<Error>)
      requires Valid()
      modifies this, inventoryRepository, reservationRepository
      ensures Valid()
      ensures (Snap(), r) == ReleaseCorrectedStep(old(Snap()), orderId, now)
    {
      ghost var s := Snap();
      var found := reservationRepository.FindByOrderId(orderId);
      if found.None? {
        return Fail(InventoryException(RESERVATION_NOT_FOUND));
      }
      ghost var i := Journal.FindByOrderId(s.journal, orderId).value;
      var reservation := new InventoryReservation.Load(found.value);
      if reservation.status == Released || reservation.status == Failed {
        return Pass;
      }
      var row := inventoryRepository.FindById(reservation.inventoryId);
      if row.None? {
        return Fail(InventoryException(INVENTORY_NOT_FOUND));
      }
      var inventory := new Inventory.Load(row.value);
      r := CommitRelease(reservation, inventory, orderId, now, i);
      if r.Pass? {
        ReleaseKeepsInvariantAt(s, orderId, i, now);
      }
    }
  }
}
