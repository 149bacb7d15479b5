/**
 * The stock ledger as a store (InventoryRepository and InventoryService):
 * at most one entry per product, looked up by product id, created once, with
 * a total that an administrator may overwrite.
 */
module Ledger {
  import opened Base
  import opened Stock

  /** Where the entry of `productId` sits in the table, if the product is
      tracked (findByProductId / existsByProductId). */
  function FindByProductId(rows: seq<InventoryRow>, productId: string): (r: Option<nat>)
    ensures r.Some? ==> r.value < |rows| && rows[r.value].productId == productId
    ensures r.None? <==> forall i :: 0 <= i < |rows| ==> rows[i].productId != productId
  {
    if rows == [] then None
    else if rows[|rows| - 1].productId == productId then Some(|rows| - 1)
    else FindByProductId(rows[..|rows| - 1], productId)
  }

  /** The shape of the inventory table: identity ids 1, 2, ... in insertion
      order, and the unique productId column. */
  ghost predicate WellFormed(rows: seq<InventoryRow>) {
    && (forall i :: 0 <= i < |rows| ==> rows[i].id == i + 1)
    && (forall i, j :: 0 <= i < j < |rows| ==> rows[i].productId != rows[j].productId)
  }

  /** In a well-formed table the entry found for a product is its only one. */
  lemma FindsTheOnlyEntry(rows: seq<InventoryRow>, productId: string, i: nat)
    requires WellFormed(rows) && i < |rows| && rows[i].productId == productId
    ensures FindByProductId(rows, productId) == Some(i)
  {
  }

  /** Adding an entry for an untracked product keeps one entry per product. */
  lemma {:induction false} InsertKeepsWellFormed(rows: seq<InventoryRow>, e: InventoryRow)
    requires WellFormed(rows) && FindByProductId(rows, e.productId).None?
    ensures WellFormed(rows + [e.(id := |rows| + 1)])
    ensures FindByProductId(rows + [e.(id := |rows| + 1)], e.productId) == Some(|rows|)
  {
    var rows' := rows + [e.(id := |rows| + 1)];
    forall i, j | 0 <= i < j < |rows'|
      ensures rows'[i].productId != rows'[j].productId
    {
      if j == |rows| {
        assert rows'[i] == rows[i];
      } else {
        assert rows'[i] == rows[i] && rows'[j] == rows[j];
      }
    }
  }

  /** InventoryResponse, as the mapper fills it from an entry. */
  datatype InventoryResponse = InventoryResponse(
    id: nat,
    productId: string,
    totalQuantity: int,
    reservedQuantity: int,
    availableQuantity: int,
    version: int)

  /** InventoryMapper.toResponse: the entry's fields plus the derived
      available quantity. */
  function ToResponse(e: InventoryRow): (r: InventoryResponse)
    ensures r.availableQuantity == r.totalQuantity - r.reservedQuantity
    ensures r.id == e.id && r.productId == e.productId && r.version == e.version
    ensures r.totalQuantity == e.totalQuantity && r.reservedQuantity == e.reservedQuantity
  {
    InventoryResponse(e.id, e.productId, e.totalQuantity, e.reservedQuantity,
                      Available(e), e.version)
  }

  /** The inventory table. */
  class InventoryRepository {
    var rows: seq<InventoryRow>

    ghost predicate Valid()
      reads this
    {
      WellFormed(rows)
    }

    constructor ()
      ensures Valid() && rows == []
    {
      rows := [];
    }

    /** existsByProductId: some entry carries the product id. */
    function ExistsByProductId(productId: string): (b: bool)
      reads this
      ensures b <==> exists i :: 0 <= i < |rows| && rows[i].productId == productId
    {
      FindByProductId(rows, productId).Some?
    }

    /** findById: ids are positions counted from 1. */
    function FindById(id: nat): (r: Option<InventoryRow>)
      reads this
      requires Valid()
      ensures r.Some? <==> 1 <= id <= |rows|
      ensures r.Some? ==> r.value.id == id
    {
      if 1 <= id <= |rows| then Some(rows[id - 1]) else None
    }

    /** save of a new entity: the table gives it the next identity id. The
        unique productId column refuses a second entry for a product, so the
        caller must have checked. */
    method Insert(e: InventoryRow) returns (id: nat)
      requires Valid() && !ExistsByProductId(e.productId)
      modifies this
      ensures Valid()
      ensures id == |old(rows)| + 1
      ensures rows == old(rows) + [e.(id := id)]
    {
      InsertKeepsWellFormed(rows, e);
      id := |rows| + 1;
      rows := rows + [e.(id := id)];
    }

    /** save of a managed entity: its row is overwritten in place. */
    method Update(e: InventoryRow)
      requires Valid() && 1 <= e.id <= |rows| && e.productId == rows[e.id - 1].productId
      modifies this
      ensures Valid()
      ensures rows == old(rows)[e.id - 1 := e]
    {
      rows := rows[e.id - 1 := e];
    }
  }

  /** InventoryService: create, read and overwrite ledger entries. */
  class InventoryService {
    const repository: InventoryRepository

    constructor (repository: InventoryRepository)
      ensures this.repository == repository
    {
      this.repository := repository;
    }

    /** createInventory: a product is tracked at most once; a new entry holds
        the requested total and nothing reserved, so all of it is available. */
    method CreateInventory(productId: string, totalQuantity: int)
      returns (r: Result<InventoryResponse, Error>)
      requires repository.Valid()
      modifies repository
      ensures repository.Valid()
      ensures old(repository.ExistsByProductId(productId)) ==>
                r == Err(InventoryException(INVENTORY_ALREADY_EXISTS))
                && repository.rows == old(repository.rows)
      ensures !old(repository.ExistsByProductId(productId)) ==>
                var e := InventoryRow(|old(repository.rows)| + 1, productId, totalQuantity, 0, 0);
                && repository.rows == old(repository.rows) + [e]
                && r == Ok(ToResponse(e))
                && r.value.availableQuantity == totalQuantity
      ensures repository.ExistsByProductId(productId)
    {
      if repository.ExistsByProductId(productId) {
        return Err(InventoryException(INVENTORY_ALREADY_EXISTS));
      }
      var inventory := new Inventory.Build(productId, Some(totalQuantity), Some(0), None);
      var id := repository.Insert(inventory.Row());
      inventory.id := id;
      r := Ok(ToResponse(inventory.Row()));
      FindsTheOnlyEntry(repository.rows, productId, id - 1);
    }

    /** getInventory: the entry of a tracked product, or INVENTORY_NOT_FOUND. */
    method GetInventory(productId: string) returns (r: Result<InventoryResponse, Error>)
      requires repository.Valid()
      ensures r.Err? <==> !repository.ExistsByProductId(productId)
      ensures r.Err? ==> r.error == InventoryException(INVENTORY_NOT_FOUND)
      ensures r.Ok? ==> r.value.productId == productId
                        && 1 <= r.value.id <= |repository.rows|
                        && r.value == ToResponse(repository.rows[r.value.id - 1])
    {
      var found := FindByProductId(repository.rows, productId);
      if found.None? {
        return Err(InventoryException(INVENTORY_NOT_FOUND));
      }
      r := Ok(ToResponse(repository.rows[found.value]));
    }

    /** getInventoryLockedForUpdate: a managed copy of the tracked product's
        entry, or INVENTORY_NOT_FOUND. The row lock itself is not modelled. */
    method GetInventoryLockedForUpdate(productId: string) returns (r: Result<Inventory, Error>)
      requires repository.Valid()
      ensures r.Err? <==> !repository.ExistsByProductId(productId)
      ensures r.Err? ==> r.error == InventoryException(INVENTORY_NOT_FOUND)
      ensures r.Ok? ==> fresh(r.value)
                        && r.value.productId == productId
                        && 1 <= r.value.id <= |repository.rows|
                        && r.value.Row() == repository.rows[r.value.id - 1]
    {
      var found := FindByProductId(repository.rows, productId);
      if found.None? {
        return Err(InventoryException(INVENTORY_NOT_FOUND));
      }
      var inventory := new Inventory.Load(repository.rows[found.value]);
      r := Ok(inventory);
    }

    /** updateTotalQuantity: overwrite the total of a tracked product. Nothing
        compares the new total with the reserved quantity, so the entry may end
        up with more reserved than it holds. */
    method UpdateTotalQuantity(productId: string, newQuantity: int)
      returns (r: Result<InventoryResponse, Error>)
      requires repository.Valid()
      modifies repository
      ensures repository.Valid()
      ensures !old(repository.ExistsByProductId(productId)) ==>
                r == Err(InventoryException(INVENTORY_NOT_FOUND))
                && repository.rows == old(repository.rows)
      ensures old(repository.ExistsByProductId(productId)) ==>
                var i := FindByProductId(old(repository.rows), productId).value;
                var e := old(repository.rows)[i].(totalQuantity := newQuantity);
                && repository.rows == old(repository.rows)[i := e]
                && r == Ok(ToResponse(e))
                && r.value.reservedQuantity == old(repository.rows)[i].reservedQuantity
    {
      var locked := GetInventoryLockedForUpdate(productId);
      if locked.Err? {
        return Err(locked.error);
      }
      var inventory := locked.value;
      FindsTheOnlyEntry(repository.rows, productId, inventory.id - 1);
      inventory.totalQuantity := newQuantity;
      repository.Update(inventory.Row());
      r := Ok(ToResponse(inventory.Row()));
    }
  }
}
