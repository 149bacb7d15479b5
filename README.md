# Inventory reservations and catalog stock, in Dafny

This project models the stock-keeping core of an e-commerce back end:

- **The stock ledger** (`Stock`, `Ledger`). There is one `Inventory` entry per product. It counts the units on the shelf (`totalQuantity`) and the units held for orders (`reservedQuantity`). Its guarded mutators are `reserve`, `release`, `confirm` and `addStock`. `InventoryService` creates an entry, reads it, locks it for update and overwrites its total.
- **The reservation journal** (`Journal`). There is one `InventoryReservation` record per order. Each record has a status: PENDING, CONFIRMED, FAILED or RELEASED.
- **The reservation orchestrator** (`Reservations`). `ReservationService.reserveStock`, `releaseReservation` and `confirmReservation` are the operations the order saga calls. Each runs as one transaction, and each sends its Kafka messages to a log.
- **The catalog's own stock counter** (`Catalog`). This is `ProductService` in the product service:
  - lookups that see active products only;
  - a soft delete;
  - the search-term guard;
  - the category check on creation;
  - the check-then-decrement `updateStock`;
  - two reservation entry points that do nothing yet.

Entities the code updates in place are Dafny classes:
- `Stock.Inventory` and `Journal.InventoryReservation`: they are loaded from a row, changed through their methods or setters, and saved back.
- The two repositories: they keep their table as a `seq` of rows, and a row's id is its position counted from 1.
- The services.

Each `ReservationService` method is proved to change the state exactly as a pure step function says. The steps are `ReserveStep`, `ReleaseStep` and `ConfirmStep`, over a `Snapshot` of both tables, the message log and a bookkeeping map. The lasting properties are proved once, on the step functions:
- the cross-table invariant;
- idempotence;
- the compensation round trip;
- the oversell below.

The cross-table invariant (`Reservations.Consistent`) says:
- both tables are well formed;
- no order has two records;
- for every entry, `reservedQuantity` plus what released FAILED records took off it (`drained`) equals what its PENDING and CONFIRMED records hold.

The model follows the code in the places below, including where the code departs from its own comments (the lifecycle comment on the reservation status enum at InventoryReservation.java:57-61):
- **Topics.** Messages go to `inventory.reserved`, `inventory.failed` and `inventory.compensated` (`Reservations.Event`).
- **Confirmation policy.** `confirmReservation` only marks the record CONFIRMED. It never calls `Inventory.confirm`, so a confirmed order keeps holding its units, and `Journal.Hold` counts PENDING and CONFIRMED records alike. No `ReservationService` operation changes any entry's `totalQuantity` (`Reservations.OrchestratorKeepsTotals`); only `InventoryService.updateTotalQuantity` overwrites it.
- **Release.** `releaseReservation` releases every status except RELEASED, including CONFIRMED and FAILED. The lifecycle comment on the enum lists other edges (`Journal.LifecycleDiffersFromDocumentation`, `Reservations.ReleaseTakesUndocumentedEdges`).
- **Duplicate guard.** The duplicate-order guard refuses an order that has any record, a FAILED or RELEASED one included (`Reservations.RecordedOrderStaysRecorded`).
- **Created-product status.** The creation message's status is always `"active"`, whatever the request says.
- **Stock updates on deleted products.** `updateStock` looks products up by id alone, so it also sells the stock of a soft-deleted product (`Catalog.DeletedProductStillSellsStock`).

## Model

| member | source | states |
|---|---|---|
| Stock.ReserveRow | inventory-service/src/main/java/com/ecommerce/inventory/entity/Inventory.java:62-70 | succeeds exactly when the quantity is at most the available count, else IllegalStateException; on success only the reserved count changes, growing by the quantity, and the available count drops by it |
| Stock.ReleaseRow | inventory-service/src/main/java/com/ecommerce/inventory/entity/Inventory.java:75-83 | succeeds exactly when at least the quantity is reserved, else IllegalStateException; on success only the reserved count changes, dropping by the quantity and staying non-negative |
| Stock.ConfirmRow | inventory-service/src/main/java/com/ecommerce/inventory/entity/Inventory.java:88-94 | succeeds exactly when at least the quantity is reserved; on success both counters drop by the quantity and the available count is unchanged |
| Stock.AddStockRow | inventory-service/src/main/java/com/ecommerce/inventory/entity/Inventory.java:99-104 | succeeds exactly for a positive quantity, else IllegalArgumentException; on success only the total grows, by the quantity |
| Stock.BoundsPreserved | inventory-service/src/main/java/com/ecommerce/inventory/entity/Inventory.java:62-104 | for a positive quantity every mutator, failed or not, keeps 0 <= reserved <= total |
| Stock.NonPositiveReserveBreaksBounds | inventory-service/src/main/java/com/ecommerce/inventory/entity/Inventory.java:62-70 | reserve accepts a negative quantity and then leaves the reserved count negative |
| Stock.ReserveReleaseRoundTrip | inventory-service/src/main/java/com/ecommerce/inventory/entity/Inventory.java:62-83 | release of the quantity just reserved succeeds and restores the entry exactly |
| Stock.ReserveConfirmConsumes | inventory-service/src/main/java/com/ecommerce/inventory/entity/Inventory.java:62-94 | confirming what was just reserved succeeds and leaves the entry as it was, minus the quantity on the total |
| Stock.Available | inventory-service/src/main/java/com/ecommerce/inventory/entity/Inventory.java:48-50 | available plus reserved is the total, and an entry within bounds has between 0 and its total available |
| Stock.HasAvailable | inventory-service/src/main/java/com/ecommerce/inventory/entity/Inventory.java:55-57 | true exactly when reserved plus the quantity is at most the total, and reserving a non-negative quantity then stays within bounds |
| Stock.Inventory.AvailableQuantity | inventory-service/src/main/java/com/ecommerce/inventory/entity/Inventory.java:48-50 | the entity's total minus its reserved count |
| Stock.Inventory.HasAvailableQuantity | inventory-service/src/main/java/com/ecommerce/inventory/entity/Inventory.java:55-57 | true exactly when the entity's available count is at least the quantity |
| Stock.Inventory.Load | inventory-service/src/main/java/com/ecommerce/inventory/service/InventoryService.java:57-64 | a managed entity loaded from a row holds exactly that row's columns |
| Stock.Inventory.Build | inventory-service/src/main/java/com/ecommerce/inventory/entity/Inventory.java:25-35 | unset total, reserved and version default to 0, and an entry built with the defaults is within bounds |
| Stock.Inventory.Reserve | inventory-service/src/main/java/com/ecommerce/inventory/entity/Inventory.java:62-70 | the entity's new state and outcome are those of ReserveRow; a thrown exception leaves it untouched |
| Stock.Inventory.Release | inventory-service/src/main/java/com/ecommerce/inventory/entity/Inventory.java:75-83 | the entity's new state and outcome are those of ReleaseRow |
| Stock.Inventory.Confirm | inventory-service/src/main/java/com/ecommerce/inventory/entity/Inventory.java:88-94 | the entity's new state and outcome are those of ConfirmRow |
| Stock.Inventory.AddStock | inventory-service/src/main/java/com/ecommerce/inventory/entity/Inventory.java:99-104 | the entity's new state and outcome are those of AddStockRow |
| Journal.LifecycleDiffersFromDocumentation | inventory-service/src/main/java/com/ecommerce/inventory/entity/InventoryReservation.java:56-61 | the edges the service takes include PENDING->RELEASED and FAILED->RELEASED, which the comment does not list, and exclude its PENDING->FAILED; no taken edge leaves RELEASED or enters PENDING. That the service takes exactly these edges is proved by Reservations.ReserveStepMovesAlong, ReleaseStepMovesAlong and ConfirmStepMovesAlong |
| Journal.InventoryReservation.Build | inventory-service/src/main/java/com/ecommerce/inventory/entity/InventoryReservation.java:38-41 | a record built without a status is PENDING, with no timestamps set |
| Journal.InventoryReservation.Load | inventory-service/src/main/java/com/ecommerce/inventory/service/ReservationService.java:159-162 | a managed record loaded from a row holds exactly that row's columns |
| Journal.FindByOrderId | inventory-service/src/main/java/com/ecommerce/inventory/repository/InventoryReservationRepository.java:26 | a found record carries the order id; nothing is found exactly when no record carries it |
| Journal.FindsTheOnlyRecord | inventory-service/src/main/java/com/ecommerce/inventory/repository/InventoryReservationRepository.java:26 | with one record per order, the lookup finds that record |
| Ledger.FindByProductId | inventory-service/src/main/java/com/ecommerce/inventory/repository/InventoryRepository.java:24 | a found entry carries the product id; nothing is found exactly when no entry carries it |
| Ledger.FindsTheOnlyEntry | inventory-service/src/main/java/com/ecommerce/inventory/entity/Inventory.java:22-23 | with the unique productId column, the lookup finds the product's one entry |
| Ledger.InsertKeepsWellFormed | inventory-service/src/main/java/com/ecommerce/inventory/service/InventoryService.java:26-39 | saving an entry for an untracked product keeps one entry per product, and the product then finds the new entry |
| Ledger.ToResponse | inventory-service/src/main/java/com/ecommerce/inventory/service/InventoryMapper.java:11-12 | the response copies the entry's fields and reports available = total - reserved |
| Ledger.InventoryRepository.ExistsByProductId | inventory-service/src/main/java/com/ecommerce/inventory/repository/InventoryRepository.java:63 | true exactly when some entry carries the product id |
| Ledger.InventoryRepository.FindById | inventory-service/src/main/java/com/ecommerce/inventory/service/ReservationService.java:170-174 | an entry is found exactly for a saved id, and it carries that id |
| Ledger.InventoryRepository.Insert | inventory-service/src/main/java/com/ecommerce/inventory/service/InventoryService.java:39 | the new entry is appended with the next identity id, keeping one entry per product |
| Ledger.InventoryRepository.Update | inventory-service/src/main/java/com/ecommerce/inventory/service/InventoryService.java:72 | the saved entry overwrites its own row and nothing else |
| Ledger.InventoryService.CreateInventory | inventory-service/src/main/java/com/ecommerce/inventory/service/InventoryService.java:22-44 | a tracked product is refused with INVENTORY_ALREADY_EXISTS and nothing saved; otherwise one entry with the requested total and nothing reserved is appended, all of it available |
| Ledger.InventoryService.GetInventory | inventory-service/src/main/java/com/ecommerce/inventory/service/InventoryService.java:46-55 | INVENTORY_NOT_FOUND exactly when the product is untracked; otherwise the response of the product's entry |
| Ledger.InventoryService.GetInventoryLockedForUpdate | inventory-service/src/main/java/com/ecommerce/inventory/service/InventoryService.java:57-64 | INVENTORY_NOT_FOUND exactly when the product is untracked; otherwise a fresh entity equal to the product's row |
| Ledger.InventoryService.UpdateTotalQuantity | inventory-service/src/main/java/com/ecommerce/inventory/service/InventoryService.java:66-76 | INVENTORY_NOT_FOUND with nothing changed for an untracked product; otherwise only that entry's total is overwritten, its reserved count kept |
| Reservations.ReserveStep | inventory-service/src/main/java/com/ecommerce/inventory/service/ReservationService.java:52-146 | any record for the order gives DUPLICATE_RESERVATION and an untracked product INVENTORY_NOT_FOUND, each with nothing changed; otherwise exactly one record, with the next id and no timestamps, and exactly one message are appended, and the response carries the order, product, quantity and the record's status. Success holds exactly when the quantity was available: then the record is PENDING with no failure reason, the entry's reserved count grows by the quantity, the message is InventoryReserved with the new record's id and the response carries that id. Otherwise the record is FAILED with an insufficient-stock reason giving the requested and available counts, the ledger is unchanged, the message is ReservationFailed with the available count and the response has no id |
| Reservations.ReleaseStep | inventory-service/src/main/java/com/ecommerce/inventory/service/ReservationService.java:155-194 | RESERVATION_NOT_FOUND for an unknown order; a RELEASED record changes nothing; a record whose entry is missing gives INVENTORY_NOT_FOUND; otherwise it succeeds exactly when the entry has the record's quantity reserved, and fails with IllegalStateException when it does not. On success the entry gives that quantity back, the record becomes RELEASED at the given time and one compensation message is sent; any failure changes nothing |
| Reservations.ConfirmStep | inventory-service/src/main/java/com/ecommerce/inventory/service/ReservationService.java:203-223 | RESERVATION_NOT_FOUND for an unknown order; otherwise it succeeds, a PENDING record becomes CONFIRMED at the given time and any other status is left alone; the ledger and the messages never change |
| Reservations.Event.Topic | inventory-service/src/main/java/com/ecommerce/inventory/kafka/InventoryProducer.java:23-25 | each kind of message has its own topic: inventory.reserved, inventory.failed, inventory.compensated |
| Reservations.ReserveStepMovesAlong | inventory-service/src/main/java/com/ecommerce/inventory/service/ReservationService.java:74-117 | reserveStock changes no existing record's status and appends at most a record in an initial status |
| Reservations.ReleaseStepMovesAlong | inventory-service/src/main/java/com/ecommerce/inventory/service/ReservationService.java:164-182 | releaseReservation changes a status only along a taken edge, and a successful release of a non-RELEASED record makes it RELEASED |
| Reservations.ConfirmStepMovesAlong | inventory-service/src/main/java/com/ecommerce/inventory/service/ReservationService.java:212-220 | confirmReservation changes a status only from PENDING to CONFIRMED |
| Reservations.ReleaseTakesUndocumentedEdges | inventory-service/src/main/java/com/ecommerce/inventory/service/ReservationService.java:164-182 | on concrete states, ReleaseStep turns a PENDING record and a FAILED record into RELEASED records, two edges the lifecycle comment does not list |
| Reservations.OrchestratorKeepsTotals | inventory-service/src/main/java/com/ecommerce/inventory/service/ReservationService.java:52-223 | reserveStock, releaseReservation and confirmReservation leave the number of entries and every entry's total unchanged |
| Reservations.HoldKeepsInvariant | inventory-service/src/main/java/com/ecommerce/inventory/service/ReservationService.java:106-136 | on an available quantity reserveStock gives the PENDING state and success response, and that state keeps the invariant |
| Reservations.ShortageKeepsInvariant | inventory-service/src/main/java/com/ecommerce/inventory/service/ReservationService.java:74-104 | on a shortage reserveStock gives the FAILED state and failure response, and that state keeps the invariant |
| Reservations.ReleaseKeepsInvariantAt | inventory-service/src/main/java/com/ecommerce/inventory/service/ReservationService.java:169-193 | releasing a found, non-RELEASED record whose entry exists and holds its quantity gives the RELEASED state and success, and that state keeps the invariant |
| Reservations.LoweredTotalOversells | inventory-service/src/main/java/com/ecommerce/inventory/service/InventoryService.java:66-76 | from a sound state, overwriting an entry's total with less than its reserved count keeps the invariant but leaves it unsound, with live records holding more than the entry has |
| Reservations.ReservedIsHeld | inventory-service/src/main/java/com/ecommerce/inventory/service/ReservationService.java:106-117 | while no FAILED record was released against an entry, its reserved count equals what its live records hold |
| Reservations.CreateKeepsConsistent | inventory-service/src/main/java/com/ecommerce/inventory/service/InventoryService.java:22-44 | creating an entry for an untracked product keeps the cross-table invariant |
| Reservations.SetTotalKeepsConsistent | inventory-service/src/main/java/com/ecommerce/inventory/service/InventoryService.java:66-76 | overwriting an entry's total keeps the cross-table invariant |
| Reservations.ReserveKeepsConsistent | inventory-service/src/main/java/com/ecommerce/inventory/service/ReservationService.java:106-117 | adding a PENDING record and raising the entry's reserved count by the same quantity keeps the invariant |
| Reservations.FailKeepsConsistent | inventory-service/src/main/java/com/ecommerce/inventory/service/ReservationService.java:74-104 | adding a FAILED audit record keeps the invariant |
| Reservations.ReleaseKeepsConsistent | inventory-service/src/main/java/com/ecommerce/inventory/service/ReservationService.java:169-182 | releasing a non-RELEASED record whose quantity is reserved keeps the invariant, with a FAILED record's quantity booked as drained |
| Reservations.ConfirmKeepsConsistent | inventory-service/src/main/java/com/ecommerce/inventory/service/ReservationService.java:212-220 | confirming a PENDING record keeps the invariant |
| Reservations.RecordedOrderStaysRecorded | inventory-service/src/main/java/com/ecommerce/inventory/service/ReservationService.java:62-68 | once an order has a record it keeps one, so the duplicate guard refuses it for good |
| Reservations.ReserveStepKeepsInvariant | inventory-service/src/main/java/com/ecommerce/inventory/service/ReservationService.java:52-146 | reserveStock with a positive quantity keeps the invariant and keeps every record's order, entry and quantity |
| Reservations.ReleaseStepKeepsInvariant | inventory-service/src/main/java/com/ecommerce/inventory/service/ReservationService.java:155-194 | releaseReservation keeps the invariant and keeps every record's order, entry and quantity |
| Reservations.ConfirmStepKeepsInvariant | inventory-service/src/main/java/com/ecommerce/inventory/service/ReservationService.java:203-223 | confirmReservation keeps the invariant and keeps every record's order, entry and quantity |
| Reservations.ReleaseIsIdempotent | inventory-service/src/main/java/com/ecommerce/inventory/service/ReservationService.java:164-167 | after a successful release, releasing the same order again succeeds and changes nothing |
| Reservations.ConfirmIsIdempotent | inventory-service/src/main/java/com/ecommerce/inventory/service/ReservationService.java:212-216 | confirming an order a second time changes nothing, whatever the time |
| Reservations.CompensationRestoresLedger | inventory-service/src/main/java/com/ecommerce/inventory/service/ReservationService.java:155-194 | releasing an order right after its successful reservation succeeds and restores the ledger exactly |
| Reservations.FailedCompensationTakesStock | inventory-service/src/main/java/com/ecommerce/inventory/service/ReservationService.java:164-177 | releasing a FAILED order succeeds and lowers the entry's reserved count by the quantity it never held |
| Reservations.SoundMeansNoOversell | inventory-service/src/main/java/com/ecommerce/inventory/service/ReservationService.java:73-74 | with nothing drained and reserved <= total, no entry has more held by live records than it has units |
| Reservations.ReserveStepKeepsSound | inventory-service/src/main/java/com/ecommerce/inventory/service/ReservationService.java:71-117 | reserveStock keeps nothing drained and reserved <= total |
| Reservations.ConfirmStepKeepsSound | inventory-service/src/main/java/com/ecommerce/inventory/service/ReservationService.java:203-223 | confirmReservation keeps nothing drained and reserved <= total |
| Reservations.ReleaseCorrectedStep | inventory-service/src/main/java/com/ecommerce/inventory/service/ReservationService.java:164-167 | releasing a FAILED record succeeds and changes nothing, as for a RELEASED one; nothing is ever drained |
| Reservations.ReleaseCorrectedStepKeepsSound | inventory-service/src/main/java/com/ecommerce/inventory/service/ReservationService.java:164-182 | the corrected release keeps the invariant and soundness, hence never oversells |
| Reservations.ReleasingFailedRecordOversells | inventory-service/src/main/java/com/ecommerce/inventory/service/ReservationService.java:164-182 | from a sound start, reserve o1 8 of 10, fail o2 for 3, release o2, and reserve o3 5 successfully; live records then hold 13 of 10 units |
| Reservations.ReservationRepository.FindByOrderId | inventory-service/src/main/java/com/ecommerce/inventory/repository/InventoryReservationRepository.java:26 | a record is found exactly when the journal has one for the order, and it is that record |
| Reservations.ReservationRepository.Insert | inventory-service/src/main/java/com/ecommerce/inventory/service/ReservationService.java:113 | the new record is appended with the next identity id |
| Reservations.ReservationRepository.Update | inventory-service/src/main/java/com/ecommerce/inventory/service/ReservationService.java:182 | the saved record overwrites its own row and nothing else |
| Reservations.ReservationService.ReserveStock | inventory-service/src/main/java/com/ecommerce/inventory/service/ReservationService.java:52-146 | the tables, message log and response are exactly those of ReserveStep, and the invariant holds after |
| Reservations.ReservationService.RecordShortage | inventory-service/src/main/java/com/ecommerce/inventory/service/ReservationService.java:74-104 | the insufficient-stock path ends in ReserveStep's state: a FAILED record and a failure message, with the ledger untouched |
| Reservations.ReservationService.HoldStock | inventory-service/src/main/java/com/ecommerce/inventory/service/ReservationService.java:106-136 | the success path ends in ReserveStep's state: a PENDING record, the reserved count raised, and a success message |
| Reservations.ReservationService.CommitHold | inventory-service/src/main/java/com/ecommerce/inventory/service/ReservationService.java:106-124 | the PENDING record is appended under the next id, the entry's reserved count rises by the quantity and the success message is sent, exactly as the success-path state says, with the success response |
| Reservations.ReservationService.ReserveOnLedger | inventory-service/src/main/java/com/ecommerce/inventory/service/ReservationService.java:116-117 | the entity and its row both get the reserved count raised by the quantity, and no other row changes |
| Reservations.ReservationService.ReleaseOnLedger | inventory-service/src/main/java/com/ecommerce/inventory/service/ReservationService.java:176-177 | the outcome is that of ReleaseRow; on success the entity and its row get the reserved count lowered by the quantity, and on failure no row changes |
| Reservations.ReservationService.CommitRelease | inventory-service/src/main/java/com/ecommerce/inventory/service/ReservationService.java:176-193 | the outcome is that of ReleaseRow on the loaded entry; on failure nothing changes, on success the state is the RELEASED state: entry given back, record RELEASED at the given time, compensation message sent |
| Reservations.ReservationService.ReleaseReservation | inventory-service/src/main/java/com/ecommerce/inventory/service/ReservationService.java:155-194 | the tables, message log and outcome are exactly those of ReleaseStep, and the invariant holds after |
| Reservations.ReservationService.ConfirmReservation | inventory-service/src/main/java/com/ecommerce/inventory/service/ReservationService.java:203-223 | the tables and outcome are exactly those of ConfirmStep, and the invariant holds after |
| Reservations.ReservationService.ReleaseReservationCorrected | inventory-service/src/main/java/com/ecommerce/inventory/service/ReservationService.java:155-194 | the state and outcome are exactly those of ReleaseCorrectedStep, and the invariant holds after |
| Catalog.FindActive | product-service/src/main/java/com/ecommerce/product/service/ProductService.java:51-55 | a product is found exactly when it exists and is active, and it is that product |
| Catalog.TakeStock | product-service/src/main/java/com/ecommerce/product/service/ProductService.java:234-245 | succeeds exactly when the quantity is at most the stock, else it reports stock and quantity; on success only the stock changes, dropping by the quantity and staying non-negative |
| Catalog.TakeStockTwice | product-service/src/main/java/com/ecommerce/product/service/ProductService.java:225-252 | for non-negative quantities, two decrements both succeed exactly when one decrement by their sum does, and they give the same product |
| Catalog.NegativeQuantityAddsStock | product-service/src/main/java/com/ecommerce/product/service/ProductService.java:234-245 | a decrement by -5 of an empty product succeeds and leaves 5 in stock |
| Catalog.TrimStart | product-service/src/main/java/com/ecommerce/product/service/ProductService.java:84 | the result is a suffix of the input that is empty or starts above U+0020, and everything cut off is at most U+0020 |
| Catalog.TrimEnd | product-service/src/main/java/com/ecommerce/product/service/ProductService.java:84 | the result is a prefix of the input that is empty or ends above U+0020, and everything cut off is at most U+0020 |
| Catalog.TrimEmptyIffBlank | product-service/src/main/java/com/ecommerce/product/service/ProductService.java:84 | a name trims to empty exactly when all its characters are at most U+0020 |
| Catalog.Trim | product-service/src/main/java/com/ecommerce/product/service/ProductService.java:84 | the trimmed name is no longer than the input and is empty or starts and ends above U+0020 |
| Catalog.TrimIsIdempotent | product-service/src/main/java/com/ecommerce/product/service/ProductService.java:84-89 | trimming a trimmed name again changes nothing |
| Catalog.CreatedEvent | product-service/src/main/java/com/ecommerce/product/service/ProductService.java:297-310 | a creation message on product.created carries the product's id and stock with status "active" |
| Catalog.DeletedEvent | product-service/src/main/java/com/ecommerce/product/service/ProductService.java:333-344 | a deletion message on product.deleted carries the product's id, no stock and status "deleted" |
| Catalog.StockUpdatedEvent | product-service/src/main/java/com/ecommerce/product/service/ProductService.java:349-360 | a stock message on product.stock.updated carries the product's id and new stock and no status |
| Catalog.ProductService.GetProductById | product-service/src/main/java/com/ecommerce/product/service/ProductService.java:48-59 | found exactly when the product exists and is active; otherwise ProductNotFound for that id |
| Catalog.ProductService.SearchProducts | product-service/src/main/java/com/ecommerce/product/service/ProductService.java:81-93 | refused exactly when the name is missing or all blank; otherwise the query gets the non-empty trimmed name |
| Catalog.ProductService.CreateProduct | product-service/src/main/java/com/ecommerce/product/service/ProductService.java:127-157 | an unknown category is refused with nothing saved; otherwise a product with the next unused id is added and one creation message with status "active" is sent |
| Catalog.ProductService.DeleteProduct | product-service/src/main/java/com/ecommerce/product/service/ProductService.java:202-219 | an unknown id is refused with nothing changed; otherwise only the active flag is cleared and one deletion message is sent |
| Catalog.ProductService.UpdateStock | product-service/src/main/java/com/ecommerce/product/service/ProductService.java:225-252 | an unknown id is refused; otherwise the product, active or not, changes as TakeStock says, with one stock message on success and nothing changed on refusal |
| Catalog.ProductService.ReserveStock | product-service/src/main/java/com/ecommerce/product/service/ProductService.java:257-266 | changes nothing |
| Catalog.ProductService.CancelReservation | product-service/src/main/java/com/ecommerce/product/service/ProductService.java:271-280 | changes nothing |
| Catalog.DeletedProductStillSellsStock | product-service/src/main/java/com/ecommerce/product/service/ProductService.java:202-252 | after creating a product with 10 units and deleting it, getProductById no longer finds it, yet updateStock takes 3 and leaves 7 |

## Left out

- Kafka transport, message serialisation, the timestamp and source fields of messages, and the send callbacks are left out. Each message is appended to a ghost log, and it is sent inside the transaction.
- Locking is left out: the pessimistic row lock, the `@Version` optimistic check and the `RESERVATION_CONFLICT` catch at ReservationService.java:138-145. Operations are modelled one after another, so there are no concurrent interleavings.
- Hibernate's `createdAt` and `updatedAt` are left out. `confirmedAt` and `releasedAt` take the time as a parameter instead of reading the clock.
- Java's 32-bit `Integer` overflow is left out: quantities are unbounded integers.
- Reservations.ReservationService.ReserveStock requires a positive quantity. That is the `@Positive` validation of ReservationRequest, which runs before the service. The other operations require nothing about quantities.
- Reservations.ReleaseCorrectedStep: its own contract states only the FAILED case and that nothing is drained. What it promises in full is the invariant and soundness in `Reservations.ReleaseCorrectedStepKeepsSound`.
- Messages and failure reasons keep their numbers but not their wording.
- The `OrderEventListener` handlers, the controllers and the exception handlers are left out.
- Catalog: price, rating, description, image and category objects are left out. Categories are a set of ids.
- Catalog: searchProducts is modelled up to its guard and the trimmed term. The case-insensitive query and paging are left out.
- ProductService.getAllProducts, getProductsByCategory, getProductsInStock, getTopRatedProducts and updateProduct are left out. They are read paths or field updates with no stock logic.
- The Product entity class (Product.java) is not part of this model. Its stock and active columns are taken from their use in ProductService.
- Whole saga scenarios on live service objects are not modelled as methods. Multi-step properties are proved on the step functions, which the service methods are proved to follow.

## Findings

| source | as written | input that shows it | evidently intended | confidence | as-written member | corrected member |
|---|---|---|---|---|---|---|
| inventory-service/src/main/java/com/ecommerce/inventory/service/ReservationService.java:164-177 | only a RELEASED record is skipped, so releasing a FAILED record calls `inventory.release` with a quantity the record never held, taking it from other orders' holds | stock 10; order o1 reserves 8; o2 asks for 3 and gets FAILED; o2 is released (reserved drops to 5); o3 reserves 5 and succeeds; live records now hold 13 units of 10 | releasing a FAILED record gives nothing back and succeeds, like an already RELEASED one | high, not executed | Reservations.ReleasingFailedRecordOversells | Reservations.ReleaseCorrectedStepKeepsSound |
