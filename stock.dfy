/**
 * The stock ledger entry of one product (the Inventory entity): how many units
 * exist, how many of them are held by reservations, and the guarded operations
 * that move those two counters.
 *
 * Quantities are unbounded integers; Java's 32-bit Integer overflow is not
 * modelled.
 */
module Stock {
  import opened Base

  /** What the inventory service throws: its own coded exception, or the
      entity's IllegalStateException / IllegalArgumentException guards. */
  datatype Error =
    | InventoryException(errorCode: string)
    | IllegalStateException
    | IllegalArgumentException

  const INVENTORY_ALREADY_EXISTS: string := "INVENTORY_ALREADY_EXISTS"
  const INVENTORY_NOT_FOUND: string := "INVENTORY_NOT_FOUND"

  /** A row of the inventory table. An id of 0 stands for the null id of an
      entity that has not been saved yet; saved rows have ids from 1. */
  datatype InventoryRow = InventoryRow(
    id: nat,
    productId: string,
    totalQuantity: int,
    reservedQuantity: int,
    version: int)

  /** Units not held by any reservation (getAvailableQuantity). */
  function Available(e: InventoryRow): (r: int)
    ensures r + e.reservedQuantity == e.totalQuantity
    ensures Bounded(e) ==> 0 <= r <= e.totalQuantity
  {
    e.totalQuantity - e.reservedQuantity
  }

  /** The bookkeeping invariant every mutator keeps for positive quantities. */
  predicate Bounded(e: InventoryRow) {
    0 <= e.reservedQuantity <= e.totalQuantity
  }

  /** hasAvailableQuantity: at least `quantity` units are free, which is
      exactly when holding `quantity` more stays within the total. */
  function HasAvailable(e: InventoryRow, quantity: int): (b: bool)
    ensures b <==> e.reservedQuantity + quantity <= e.totalQuantity
    ensures b && 0 <= e.reservedQuantity && quantity >= 0 ==>
              Bounded(e.(reservedQuantity := e.reservedQuantity + quantity))
  {
    Available(e) >= quantity
  }

  /** reserve: hold `quantity` more units, or throw when too few are free. */
  function ReserveRow(e: InventoryRow, quantity: int): (r: Result<InventoryRow, Error>)
    ensures r.Ok? <==> quantity <= Available(e)
    ensures r.Err? ==> r.error == IllegalStateException
    ensures r.Ok? ==> r.value.reservedQuantity == e.reservedQuantity + quantity
                      && r.value.(reservedQuantity := e.reservedQuantity) == e
                      && Available(r.value) == Available(e) - quantity
  {
    if !HasAvailable(e, quantity) then Err(IllegalStateException)
    else Ok(e.(reservedQuantity := e.reservedQuantity + quantity))
  }

  /** release: give back `quantity` held units, or throw when fewer are held. */
  function ReleaseRow(e: InventoryRow, quantity: int): (r: Result<InventoryRow, Error>)
    ensures r.Ok? <==> quantity <= e.reservedQuantity
    ensures r.Err? ==> r.error == IllegalStateException
    ensures r.Ok? ==> r.value.reservedQuantity == e.reservedQuantity - quantity >= 0
                      && r.value.(reservedQuantity := e.reservedQuantity) == e
                      && Available(r.value) == Available(e) + quantity
  {
    if e.reservedQuantity < quantity then Err(IllegalStateException)
    else Ok(e.(reservedQuantity := e.reservedQuantity - quantity))
  }

  /** confirm: consume `quantity` held units, taking them off both counters. */
  function ConfirmRow(e: InventoryRow, quantity: int): (r: Result<InventoryRow, Error>)
    ensures r.Ok? <==> quantity <= e.reservedQuantity
    ensures r.Err? ==> r.error == IllegalStateException
    ensures r.Ok? ==> r.value.totalQuantity == e.totalQuantity - quantity
                      && r.value.reservedQuantity == e.reservedQuantity - quantity
                      && r.value.(totalQuantity := e.totalQuantity, reservedQuantity := e.reservedQuantity) == e
                      && Available(r.value) == Available(e)
  {
    if e.reservedQuantity < quantity then Err(IllegalStateException)
    else Ok(e.(totalQuantity := e.totalQuantity - quantity,
               reservedQuantity := e.reservedQuantity - quantity))
  }

  /** addStock: put `quantity` more units on the shelf; rejects q <= 0. */
  function AddStockRow(e: InventoryRow, quantity: int): (r: Result<InventoryRow, Error>)
    ensures r.Ok? <==> quantity > 0
    ensures r.Err? ==> r.error == IllegalArgumentException
    ensures r.Ok? ==> r.value.totalQuantity == e.totalQuantity + quantity
                      && r.value.(totalQuantity := e.totalQuantity) == e
                      && Available(r.value) > Available(e)
  {
    if quantity <= 0 then Err(IllegalArgumentException)
    else Ok(e.(totalQuantity := e.totalQuantity + quantity))
  }

  /** The row after an operation: its result if it succeeded, else the row as
      it was (the thrown exception leaves the entity untouched). */
  function Committed(r: Result<InventoryRow, Error>, before: InventoryRow): InventoryRow {
    if r.Ok? then r.value else before
  }

  /** The completion or exception of an operation, without its value. */
  function OutcomeOf<T>(r: Result<T, Error>): Outcome<Error> {
    if r.Ok? then Pass else Fail(r.error)
  }

  /** For a positive quantity every mutator keeps 0 <= reserved <= total. */
  lemma BoundsPreserved(e: InventoryRow, quantity: int)
    requires Bounded(e) && quantity > 0
    ensures Bounded(Committed(ReserveRow(e, quantity), e))
    ensures Bounded(Committed(ReleaseRow(e, quantity), e))
    ensures Bounded(Committed(ConfirmRow(e, quantity), e))
    ensures Bounded(Committed(AddStockRow(e, quantity), e))
  {
  }

  /** reserve does not itself reject a non-positive quantity: a reservation of
      -1 on an empty entry succeeds and drives reservedQuantity negative, so
      positivity must come from the caller. */
  lemma NonPositiveReserveBreaksBounds()
    ensures var e := InventoryRow(1, "p", 0, 0, 0);
            Bounded(e) && ReserveRow(e, -1).Ok? && !Bounded(ReserveRow(e, -1).value)
  {
  }

  /** release undoes reserve exactly, as long as the held count was not
      already negative (release's guard compares against it). */
  lemma ReserveReleaseRoundTrip(e: InventoryRow, quantity: int)
    requires e.reservedQuantity >= 0 && ReserveRow(e, quantity).Ok?
    ensures ReleaseRow(ReserveRow(e, quantity).value, quantity) == Ok(e)
  {
    var held := ReserveRow(e, quantity).value;
    assert held.(reservedQuantity := held.reservedQuantity - quantity) == e;
  }

  /** Reserving and then confirming the same quantity consumes exactly that
      many units and leaves the held count where it started. */
  lemma ReserveConfirmConsumes(e: InventoryRow, quantity: int)
    requires e.reservedQuantity >= 0 && ReserveRow(e, quantity).Ok?
    ensures ConfirmRow(ReserveRow(e, quantity).value, quantity)
            == Ok(e.(totalQuantity := e.totalQuantity - quantity))
  {
    var held := ReserveRow(e, quantity).value;
    assert held.(totalQuantity := held.totalQuantity - quantity,
                 reservedQuantity := held.reservedQuantity - quantity)
           == e.(totalQuantity := e.totalQuantity - quantity);
  }

  /** The Inventory entity as a mutable object; services load it from its row,
      change it in place and save the row back. */
  class Inventory {
    var id: nat
    var productId: string
    var totalQuantity: int
    var reservedQuantity: int
    var version: int

    /** The row this entity is saved as. */
    function Row(): InventoryRow
      reads this
    {
      InventoryRow(id, productId, totalQuantity, reservedQuantity, version)
    }

    /** Inventory.builder()...build(): totalQuantity, reservedQuantity and
        version fall back to 0 when not set; the id stays unassigned. */
    constructor Build(productId: string, totalQuantity: Option<int>,
                      reservedQuantity: Option<int>, version: Option<int>)
      ensures Row() == InventoryRow(0, productId, totalQuantity.GetOr(0),
                                    reservedQuantity.GetOr(0), version.GetOr(0))
      ensures Bounded(Row()) <== totalQuantity.None? && reservedQuantity.None?
    {
      this.id := 0;
      this.productId := productId;
      this.totalQuantity := totalQuantity.GetOr(0);
      this.reservedQuantity := reservedQuantity.GetOr(0);
      this.version := version.GetOr(0);
    }

    /** The managed entity a repository lookup hands out. */
    constructor Load(row: InventoryRow)
      ensures Row() == row
    {
      this.id := row.id;
      this.productId := row.productId;
      this.totalQuantity := row.totalQuantity;
      this.reservedQuantity := row.reservedQuantity;
      this.version := row.version;
    }

    /** getAvailableQuantity. */
    function AvailableQuantity(): (r: int)
      reads this
      ensures r == totalQuantity - reservedQuantity
    {
      Available(Row())
    }

    /** hasAvailableQuantity. */
    function HasAvailableQuantity(quantity: int): (b: bool)
      reads this
      ensures b <==> totalQuantity - reservedQuantity >= quantity
    {
      HasAvailable(Row(), quantity)
    }

    method Reserve(quantity: int) returns (r: Outcome<Error>)
      modifies this
      ensures r == OutcomeOf(ReserveRow(old(Row()), quantity))
      ensures Row() == Committed(ReserveRow(old(Row()), quantity), old(Row()))
    {
      if !HasAvailableQuantity(quantity) {
        return Fail(IllegalStateException);
      }
      reservedQuantity := reservedQuantity + quantity;
      r := Pass;
    }

    method Release(quantity: int) returns (r: Outcome<Error>)
      modifies this
      ensures r == OutcomeOf(ReleaseRow(old(Row()), quantity))
      ensures Row() == Committed(ReleaseRow(old(Row()), quantity), old(Row()))
    {
      if reservedQuantity < quantity {
        return Fail(IllegalStateException);
      }
      reservedQuantity := reservedQuantity - quantity;
      r := Pass;
    }

    method Confirm(quantity: int) returns (r: Outcome<Error>)
      modifies this
      ensures r == OutcomeOf(ConfirmRow(old(Row()), quantity))
      ensures Row() == Committed(ConfirmRow(old(Row()), quantity), old(Row()))
    {
      if reservedQuantity < quantity {
        return Fail(IllegalStateException);
      }
      totalQuantity := totalQuantity - quantity;
      reservedQuantity := reservedQuantity - quantity;
      r := Pass;
    }

    method AddStock(quantity: int) returns (r: Outcome<Error>)
      modifies this
      ensures r == OutcomeOf(AddStockRow(old(Row()), quantity))
      ensures Row() == Committed(AddStockRow(old(Row()), quantity), old(Row()))
    {
      if quantity <= 0 {
        return Fail(IllegalArgumentException);
      }
      totalQuantity := totalQuantity + quantity;
      r := Pass;
    }
  }
}
