/**
 * The reservation journal (the InventoryReservation entity): one record per
 * order, linking the order to a ledger entry, with the quantity asked for and
 * where the record stands in its lifecycle.
 */
module Journal {
  import opened Base

  /** InventoryReservation.ReservationStatus: exactly these four values. */
  datatype ReservationStatus = Pending | Confirmed | Failed | Released

  /** The failureReason of a FAILED record ("Insufficient stock. Requested:
      %d, Available: %d"), kept as its two numbers rather than as text. */
  datatype FailureReason = InsufficientStock(requested: int, available: int)

  /** A row of the inventory_reservation table. An id of 0 is the null id of
      a record not saved yet; saved rows have ids from 1. */
  datatype ReservationRow = ReservationRow(
    id: nat,
    inventoryId: nat,
    orderId: string,
    reservedQuantity: int,
    status: ReservationStatus,
    confirmedAt: Option<Timestamp>,
    releasedAt: Option<Timestamp>,
    failureReason: Option<FailureReason>)

  /** The edges the lifecycle comment on ReservationStatus lists. */
  predicate DocumentedEdge(from: ReservationStatus, to: ReservationStatus) {
    || (from == Pending && to == Confirmed)
    || (from == Pending && to == Failed)
    || (from == Confirmed && to == Released)
  }

  /** The edges the reservation orchestrator takes on a saved record:
      confirmReservation moves PENDING to CONFIRMED, releaseReservation moves
      every status but RELEASED to RELEASED. */
  predicate TakenEdge(from: ReservationStatus, to: ReservationStatus) {
    || (from == Pending && to == Confirmed)
    || (from != Released && to == Released)
  }

  /** The status a record is created in: PENDING when stock was held, FAILED
      when it was not. No saved record ever moves to FAILED. */
  predicate InitialStatus(s: ReservationStatus) {
    s == Pending || s == Failed
  }

  /** The documented lifecycle and the code disagree: the code also takes
      PENDING -> RELEASED and FAILED -> RELEASED, and never takes the
      documented PENDING -> FAILED edge (a FAILED record is born FAILED). */
  lemma LifecycleDiffersFromDocumentation()
    ensures TakenEdge(Pending, Released) && !DocumentedEdge(Pending, Released)
    ensures TakenEdge(Failed, Released) && !DocumentedEdge(Failed, Released)
    ensures DocumentedEdge(Pending, Failed) && !TakenEdge(Pending, Failed)
    ensures forall from, to :: TakenEdge(from, to) ==> from != Released && to != Pending
  {
  }

  /** The InventoryReservation entity as a mutable object. The service changes
      status, confirmedAt and releasedAt through its setters. */
  class InventoryReservation {
    var id: nat
    var inventoryId: nat
    var orderId: string
    var reservedQuantity: int
    var status: ReservationStatus
    var confirmedAt: Option<Timestamp>
    var releasedAt: Option<Timestamp>
    var failureReason: Option<FailureReason>

    /** The row this entity is saved as. */
    function Row(): ReservationRow
      reads this
    {
      ReservationRow(id, inventoryId, orderId, reservedQuantity, status,
                     confirmedAt, releasedAt, failureReason)
    }

    /** InventoryReservation.builder()...build(): inventoryId, orderId and
        reservedQuantity are the mandatory columns; status falls back to
        PENDING when not set; the timestamps are unset at creation. */
    constructor Build(inventoryId: nat, orderId: string, reservedQuantity: int,
                      status: Option<ReservationStatus>,
                      failureReason: Option<FailureReason>)
      ensures Row() == ReservationRow(0, inventoryId, orderId, reservedQuantity,
                                      status.GetOr(Pending), None, None, failureReason)
      ensures status.None? ==> Row().status == Pending
    {
      this.id := 0;
      this.inventoryId := inventoryId;
      this.orderId := orderId;
      this.reservedQuantity := reservedQuantity;
      this.status := status.GetOr(Pending);
      this.confirmedAt := None;
      this.releasedAt := None;
      this.failureReason := failureReason;
    }

    /** The managed entity a repository lookup hands out. */
    constructor Load(row: ReservationRow)
      ensures Row() == row
    {
      this.id := row.id;
      this.inventoryId := row.inventoryId;
      this.orderId := row.orderId;
      this.reservedQuantity := row.reservedQuantity;
      this.status := row.status;
      this.confirmedAt := row.confirmedAt;
      this.releasedAt := row.releasedAt;
      this.failureReason := row.failureReason;
    }
  }

  /** What a record holds against its ledger entry: its quantity while
      PENDING or CONFIRMED, nothing once FAILED or RELEASED. */
  function Hold(r: ReservationRow): int {
    if r.status == Pending || r.status == Confirmed then r.reservedQuantity else 0
  }

  /** What a record holds against the entry with id `inventoryId`. */
  function HoldOn(r: ReservationRow, inventoryId: nat): int {
    if r.inventoryId == inventoryId then Hold(r) else 0
  }

  /** The total held against one ledger entry by the records in `rows`. */
  function Held(rows: seq<ReservationRow>, inventoryId: nat): int
  {
    if rows == [] then 0
    else Held(rows[..|rows| - 1], inventoryId) + HoldOn(rows[|rows| - 1], inventoryId)
  }

  /** Appending a record adds exactly what it holds. */
  lemma HeldAppend(rows: seq<ReservationRow>, r: ReservationRow, inventoryId: nat)
    ensures Held(rows + [r], inventoryId) == Held(rows, inventoryId) + HoldOn(r, inventoryId)
  {
    assert (rows + [r])[..|rows|] == rows;
  }

  /** Overwriting one record changes the total by the difference of the two
      holds and by nothing else. */
  lemma {:induction false} HeldUpdate(rows: seq<ReservationRow>, i: nat, r: ReservationRow, inventoryId: nat)
    requires i < |rows|
    ensures Held(rows[i := r], inventoryId)
            == Held(rows, inventoryId) - HoldOn(rows[i], inventoryId) + HoldOn(r, inventoryId)
  {
    var n := |rows| - 1;
    if i == n {
      assert rows[i := r][..n] == rows[..n];
    } else {
      HeldUpdate(rows[..n], i, r, inventoryId);
      assert rows[i := r][..n] == rows[..n][i := r];
    }
  }

  /** Where the record of `orderId` sits in the journal, if it has one
      (findByOrderId). */
  function FindByOrderId(rows: seq<ReservationRow>, orderId: string): (r: Option<nat>)
    ensures r.Some? ==> r.value < |rows| && rows[r.value].orderId == orderId
    ensures r.None? <==> forall i :: 0 <= i < |rows| ==> rows[i].orderId != orderId
  {
    if rows == [] then None
    else if rows[|rows| - 1].orderId == orderId then Some(|rows| - 1)
    else FindByOrderId(rows[..|rows| - 1], orderId)
  }

  /** No two records share an order id. */
  ghost predicate UniqueOrders(rows: seq<ReservationRow>) {
    forall i, j :: 0 <= i < j < |rows| ==> rows[i].orderId != rows[j].orderId
  }

  /** With one record per order, the record found is the only one there is. */
  lemma FindsTheOnlyRecord(rows: seq<ReservationRow>, orderId: string, i: nat)
    requires UniqueOrders(rows) && i < |rows| && rows[i].orderId == orderId
    ensures FindByOrderId(rows, orderId) == Some(i)
  {
  }
}
