# Store stock accounting, modelled in Dafny

This project models the stock-accounting core of a small store backend:
- the `StoreService` operations over items and sales;
- the queries of the item and sale repositories those operations rely on;
- the field constraints on the `CreateItemDto` request body.

The model is a pure state machine. A `Store` holds two things:
- the item table, a map from an opaque UUID key to `Item(name, price, quantity, deleted)`;
- the append-only sale log, a sequence of `Sale(itemId, quantitySold)`.

Each state-changing operation returns a `Transition`: the next store plus a `Result`. The result is either a value or one of the errors `ItemNotFound`, `InsufficientStock` or `NotNullViolation`. Read operations return a `Result` or a sequence.

Modules:
- `StoreModel` (`store_model.dfy`): entities, transfer shape, error kinds, and the two store invariants.
- `CreateItemDtoConstraints` (`create_item_dto.dfy`): the request body and its `@Valid` constraints.
- `ItemRepository` (`item_repository.dfy`): `findById`, `existsById`, `save`, `markAsDeleted` and `findAll` over the item table.
- `SaleRepository` (`sale_repository.dfy`): `findByItemId`, `findTotalSoldByItemId` and `save` over the sale log.
- `StoreService` (`store_service.dfy`): the eight service operations.
- `StoreLaws` (`store_laws.dfy`): laws across operations. These cover the stock invariant, no-change-on-failure, soft-delete visibility, totals sold, and conservation over runs of sells.
- `LongStock` (`long_stock.dfy`): the 64-bit stock subtraction exactly as written (see Findings).

Where the code as written does not compile, the model takes the shape the rest of the code uses:
- `Item.java:15` types the key as `Long`, but the service and both repositories use `UUID`. The model has one `Id` type, a 128-bit value that is only compared.
- `Item.java` declares no deleted flag, yet `StoreService.java:63` and `ItemRepository.java:22` read and write one. The model adds `deleted: bool`, which is false on a new row.
- `Sale.quantitySold` is an `Integer` (`Sale.java:22`) but is set from a `long` (`StoreService.java:90`). The model uses one unbounded `int`.
- Prices are exact `real`s. They are only copied, never computed on.

Behaviours of the code worth recording:
- `updateItem` looks the row up with `findById` and does not check the deleted flag. So it updates a soft-deleted item instead of failing with not-found, and the item stays deleted.
- `updateItem` receives a body that was never validated (`StoreController.java:54` has no `@Valid`). Any quantity, including a negative one, is stored. A null field cannot be stored in the not-null columns (`Item.java:17-24`), so the transaction rolls back. The model reports this as `NotNullViolation` with the store unchanged.
- `sellItem` does not check that the amount is positive. A negative amount passes the stock check, raises the stock, and logs a sale with a negative amount.

Supplied from outside:
- `addItem` takes the new key as a parameter. It stands for the id generator, which never returns a key already in use.
- `addItem` requires a valid body, because the create endpoint applies `@Valid` (`StoreController.java:42`).
- A page of items is a sequence of keys of existing rows, in the order the pagination collaborator fetched them.

## Model

| member | source | states |
|---|---|---|
| `StoreModel.ToDto` | src/main/java/com/tasks/store/mapper/ItemMapper.java:11 | the transfer shape keeps the key, and the row is recovered from it together with the row's deleted flag, so only the flag is dropped |
| `StoreModel.FromDto` | src/main/java/com/tasks/store/mapper/ItemMapper.java:11-13 | the row rebuilt from a transfer shape is active and maps back to the same transfer shape |
| `StoreModel.DtoRoundTrip` | src/main/java/com/tasks/store/mapper/ItemMapper.java:11 | a row survives the round trip through its transfer shape if and only if it is not deleted |
| `CreateItemDtoConstraints.Utf16Length` | src/main/java/com/tasks/store/model/CreateItemDto.java:14 | the length `@Size` measures, `String.length()` in UTF-16 units, lies between the number of characters and twice it |
| `CreateItemDtoConstraints.Valid` | src/main/java/com/tasks/store/model/CreateItemDto.java:13-23 | a body is valid iff name is non-null with 1..255 UTF-16 units, price is non-null and ≥ 0, and quantity is non-null and ≥ 0 |
| `CreateItemDtoConstraints.NewItem` | src/main/java/com/tasks/store/model/CreateItemDto.java:13-23 | a validated body maps to a row with a name of 1..255 UTF-16 units, price ≥ 0, quantity ≥ 0, the body's own field values, and not deleted |
| `CreateItemDtoConstraints.ValidIsComplete` | src/main/java/com/tasks/store/model/CreateItemDto.java:13-23 | every field of a valid body is non-null |
| `CreateItemDtoConstraints.ValidBoundaries` | src/main/java/com/tasks/store/model/CreateItemDto.java:13-23 | the bounds are inclusive and the name is measured in UTF-16 units: 1 and 255 units pass, 0 and 256 fail, so 127 copies of U+1F600 pass and 128 fail; price and quantity pass exactly when ≥ 0; null fails in each field |
| `ItemRepository.FindById` | src/main/java/com/tasks/store/repository/ItemRepository.java:17 | a row is returned if and only if the key is present, and it is that key's row, whatever its deleted flag |
| `ItemRepository.ExistsById` | src/main/java/com/tasks/store/repository/ItemRepository.java:25 | true exactly when `findById` finds a row, deleted or not |
| `ItemRepository.Save` | src/main/java/com/tasks/store/service/StoreService.java:38 | afterwards `findById` returns the saved row; the key set gains only that key; every other row is unchanged |
| `ItemRepository.MarkAsDeleted` | src/main/java/com/tasks/store/repository/ItemRepository.java:21-23 | the key set is unchanged; the matching row gets deleted = true with its other fields kept; every other row is unchanged; an absent key changes nothing |
| `ItemRepository.FindAll` | src/main/java/com/tasks/store/repository/ItemRepository.java:19 | one entry per page key, in page order, each the row `findById` returns for that key |
| `ItemRepository.MarkAsDeletedKeepsRow` | src/main/java/com/tasks/store/repository/ItemRepository.java:21-23 | after marking, `findById` still returns the row, now flagged, and `existsById` is still true |
| `ItemRepository.MarkAsDeletedIdempotent` | src/main/java/com/tasks/store/repository/ItemRepository.java:21-23 | marking twice leaves the same table as marking once |
| `ItemRepository.ExistsIgnoresDeleted` | src/main/java/com/tasks/store/repository/ItemRepository.java:25 | no `markAsDeleted` of any key changes any `existsById` answer |
| `ItemRepository.FindAllKeepsDeleted` | src/main/java/com/tasks/store/repository/ItemRepository.java:19 | a deleted row on the page appears in the `findAll` result |
| `ItemRepository.FindAllAppend` | src/main/java/com/tasks/store/repository/ItemRepository.java:19 | the result for two pages joined is the two results joined |
| `SaleRepository.FindByItemId` | src/main/java/com/tasks/store/repository/SaleRepository.java:19 | a sale is in the result if and only if it is in the log and refers to the key; the result is no longer than the log |
| `SaleRepository.FindByItemIdAppend` | src/main/java/com/tasks/store/repository/SaleRepository.java:19 | the result for two logs joined is the two results joined, so log order is kept |
| `SaleRepository.FindByItemIdAfterSave` | src/main/java/com/tasks/store/repository/SaleRepository.java:19 | appending a sale extends the result for its own item by that sale and leaves every other item's result unchanged |
| `SaleRepository.FindByItemIdOfUnreferenced` | src/main/java/com/tasks/store/repository/SaleRepository.java:19 | a key that no sale refers to gets an empty result |
| `SaleRepository.FindTotalSoldByItemId` | src/main/java/com/tasks/store/repository/SaleRepository.java:16-17 | the total is null if and only if no sale refers to the key; otherwise it is the sum of the amounts of that key's sales |
| `SaleRepository.SumSoldAppend` | src/main/java/com/tasks/store/repository/SaleRepository.java:16 | the sum of two joined sale sequences is the sum of their sums |
| `SaleRepository.TotalSoldAfterSave` | src/main/java/com/tasks/store/repository/SaleRepository.java:16-17 | appending a sale raises its own item's total by its amount and no other item's total |
| `SaleRepository.FindTotalSoldAfterSave` | src/main/java/com/tasks/store/repository/SaleRepository.java:16-17 | after a sale is appended, its item's total is non-null and equals the previous 0-defaulted total plus the sale's amount |
| `SaleRepository.TotalSoldMatchesQuery` | src/main/java/com/tasks/store/repository/SaleRepository.java:16-17 | a null total reads as 0; a non-null total equals the 0-defaulted total |
| `SaleRepository.Save` | src/main/java/com/tasks/store/service/StoreService.java:92 | the new sale is placed last and every earlier sale is kept in place |
| `StoreService.AddItem` | src/main/java/com/tasks/store/service/StoreService.java:34-39 | succeeds under the new key with the body's name, price and quantity; the stored row is the active row of the returned transfer shape; other rows and the sale log are unchanged |
| `StoreService.UpdateItem` | src/main/java/com/tasks/store/service/StoreService.java:41-51 | fails with not-found exactly when the key is absent, deleted rows included; fails with a not-null violation exactly when a field is null; any failure leaves the store unchanged; a success overwrites exactly name, price and quantity, keeps the deleted flag, other rows and the sales, and returns the new row's transfer shape |
| `StoreService.DeleteItem` | src/main/java/com/tasks/store/service/StoreService.java:53-59 | fails with not-found, store unchanged, exactly when no row has the key; otherwise only that row's deleted flag is set |
| `StoreService.GetItem` | src/main/java/com/tasks/store/service/StoreService.java:61-67 | succeeds if and only if the row exists and is not deleted, with the transfer shape of that row; otherwise fails with not-found |
| `StoreService.ActiveDtos` | src/main/java/com/tasks/store/service/StoreService.java:70-73 | a transfer shape is in the result if and only if its active row is among the entries |
| `StoreService.ActiveDtosAppend` | src/main/java/com/tasks/store/service/StoreService.java:70-73 | filtering out deleted entries keeps their order: the result for two entry sequences joined is the two results joined |
| `StoreService.GetAllItems` | src/main/java/com/tasks/store/service/StoreService.java:69-76 | a transfer shape is listed if and only if its key is on the page and its row is active with exactly those fields |
| `StoreService.SellItem` | src/main/java/com/tasks/store/service/StoreService.java:78-93 | not-found exactly for a missing or deleted row; insufficient-stock exactly when stock < amount; either failure leaves the store unchanged; a success lowers only that row's quantity by the amount and appends exactly `Sale(id, amount)` after the unchanged earlier sales |
| `StoreService.GetSoldItems` | src/main/java/com/tasks/store/service/StoreService.java:95-97 | a sale is listed if and only if it is in the log and refers to the key; there is no existence check |
| `StoreService.GetStockQuantity` | src/main/java/com/tasks/store/service/StoreService.java:99-104 | succeeds exactly when `getItem` does, with the quantity `getItem` reports; otherwise fails with not-found |
| `StoreLaws.AddThenGet` | src/main/java/com/tasks/store/service/StoreService.java:34-39 | after `addItem`, `getItem` on the new key returns the body's name, price and quantity; the row is not deleted; `getStockQuantity` returns the body's quantity |
| `StoreLaws.AddPreservesStockNonNegative` | src/main/java/com/tasks/store/service/StoreService.java:34-39 | a validated add keeps every stock ≥ 0 |
| `StoreLaws.UpdateIgnoresDeletedFlag` | src/main/java/com/tasks/store/service/StoreService.java:43-49 | updating a deleted row with a complete body succeeds; the row stays deleted, so `getItem` still reports not-found |
| `StoreLaws.UpdateCanBreakStockNonNegative` | src/main/java/com/tasks/store/service/StoreService.java:45-48 | an update with a negative quantity succeeds and leaves a negative stock |
| `StoreLaws.UpdatePreservesStockNonNegative` | src/main/java/com/tasks/store/service/StoreService.java:42-50 | an update whose quantity is null or ≥ 0 keeps every stock ≥ 0 |
| `StoreLaws.DeleteIdempotent` | src/main/java/com/tasks/store/service/StoreService.java:53-59 | deleting a present key twice succeeds both times, and the second delete changes nothing |
| `StoreLaws.DeleteHidesItem` | src/main/java/com/tasks/store/service/StoreService.java:53-104 | after a successful delete: the row still exists; `getItem`, `getStockQuantity` and `sellItem` report not-found, the last changing nothing; `getAllItems` omits the key; `getSoldItems` lists the same sales as before |
| `StoreLaws.DeletePreservesStockNonNegative` | src/main/java/com/tasks/store/service/StoreService.java:53-59 | a delete keeps every stock ≥ 0 |
| `StoreLaws.SellPreservesStockNonNegative` | src/main/java/com/tasks/store/service/StoreService.java:84-87 | if every stock is ≥ 0 before a sell of any amount, every stock is ≥ 0 after it |
| `StoreLaws.SellInsufficientIsAtomic` | src/main/java/com/tasks/store/service/StoreService.java:84-86 | selling more than an active item's stock fails with insufficient-stock; the store, the stock read back, and the item's sales are all unchanged |
| `StoreLaws.SellRaisesTotalSold` | src/main/java/com/tasks/store/service/StoreService.java:88-92 | after a successful sale the item's `findTotalSoldByItemId` is non-null and equals its previous 0-defaulted total plus the amount |
| `StoreLaws.SellKeepsOtherTotals` | src/main/java/com/tasks/store/repository/SaleRepository.java:16-17 | a sell of one item leaves `findTotalSoldByItemId` of every other item unchanged, null included |
| `StoreLaws.SellConservesLedger` | src/main/java/com/tasks/store/service/StoreService.java:84-92 | every sell, failed or not, keeps each item's stock plus its total sold |
| `StoreLaws.SellAll` | src/main/java/com/tasks/store/service/StoreService.java:78-93 | a run of sells keeps the key set of the item table |
| `StoreLaws.SellAllAccounts` | src/main/java/com/tasks/store/service/StoreService.java:84-92 | after any run of sells, each item's stock is its starting stock minus what the run sold of it, and no stock has gone negative |
| `StoreLaws.GetAllItemsAppend` | src/main/java/com/tasks/store/service/StoreService.java:69-76 | the listing for two pages joined is the two listings joined, so page order is kept |
| `StoreLaws.SoldItemsOfUnknownIsEmpty` | src/main/java/com/tasks/store/service/StoreService.java:95-97 | when every sale refers to an existing row, `getSoldItems` for an unknown key is empty rather than an error |
| `StoreLaws.OperationsKeepSalesReferenceItems` | src/main/java/com/tasks/store/service/StoreService.java:34-93 | add, update, delete and sell each keep every sale pointing at an existing row |
| `StoreLaws.SellAfterAdd` | src/main/java/com/tasks/store/service/StoreService.java:34-93 | selling q of a freshly added item's stock succeeds, `getItem` reads the stock less q, and the item has exactly one sale, of q |
| `StoreLaws.SellAfterAddScenario` | src/test/java/com/tasks/store/service/StoreServiceIntTest.java:95-118 | add "ItemName" (100.00, 10 in stock), a valid body, and sell 1: the sale succeeds, `getItem` reads stock 9, and the item has exactly one sale, of 1 |
| `LongStock.Wrap` | src/main/java/com/tasks/store/service/StoreService.java:87 | the `long` result is in range, is congruent to the exact value modulo 2^64, and equals it when the exact value fits |
| `LongStock.SellStockAsWritten` | src/main/java/com/tasks/store/service/StoreService.java:84-87 | fails with insufficient-stock exactly when stock < amount; otherwise yields a `long` congruent to the exact difference |
| `LongStock.AsWrittenExactWithoutOverflow` | src/main/java/com/tasks/store/service/StoreService.java:84-87 | when the difference fits in a `long`, the code as written yields the exact difference |
| `LongStock.AsWrittenGoesNegative` | src/main/java/com/tasks/store/service/StoreService.java:84-87 | from a stock ≥ 0, the code as written ends negative exactly when the exact difference exceeds `Long.MAX_VALUE`; only a negative amount can cause that |
| `LongStock.SellItemMatchesAsWritten` | src/main/java/com/tasks/store/service/StoreService.java:84-87 | when stock, amount and their difference fit in a `long`, the model's `sellItem` fails exactly when the code as written does and otherwise stores the same new quantity |
| `LongStock.AsWrittenCounterexample` | src/main/java/com/tasks/store/service/StoreService.java:84-87 | with stock 0, selling `Long.MIN_VALUE` succeeds and leaves stock `Long.MIN_VALUE` |

## Left out

- StoreService.SellItem: does not model 64-bit wrap-around of the stock. It subtracts exactly, which is the corrected behaviour (see Findings). The wrap is modelled separately in `LongStock`.
- StoreService.UpdateItem: does not check the 255-character limit on the name. The update body is not validated, and the column's length is set by a schema script that is not part of this model.
- HTTP routing, status codes and request binding (`StoreController.java`): transport plumbing. Worth recording: `StoreExceptionHandler.java:24-26` registers the insufficient-stock handler under Hibernate's `ConstraintViolationException`. That handler therefore does not catch `InsufficientStockException`, but this concerns error formatting, not stock accounting.
- Error-response formatting, logging and clock setup (`StoreExceptionHandler.java`, `StoreErrorResponse.java`, `GlobalConfig.java`): no stock-accounting behaviour.
- Exception message strings: only the error kind is modelled.
- The MapStruct mappers and transfer classes (`ItemMapper.java`, `SaleMapper.java`, `ItemDto.java`, `SaleDto.java`): modelled as the identity on name, price and quantity. `getSoldItems` returns the sale rows themselves.
- The sale's own generated UUID: a sale is identified by its position in the log.
- `@Transactional` boundaries and concurrent sells: each operation is one atomic step, which is what a serialised transaction provides. Lost updates between concurrent sells are not modelled.
- Pagination metadata, page sizes, sorting and totals (`Pageable`, `PageImpl`): a page is the sequence of keys the collaborator fetched. Because `getAllItems` filters after fetching, a listed page can hold fewer items than requested.
- The `long`/`Integer` mismatch of the JPQL `SUM` (the query returns a `long` but the method declares `Integer`): totals are unbounded integers.
- `BigDecimal` arithmetic: prices are exact reals that are only copied.
- The id generator: modelled as a caller-supplied fresh key.

## Findings

| source | as written | input that shows it | evidently intended | confidence | as-written member | corrected member |
|---|---|---|---|---|---|---|
| src/main/java/com/tasks/store/service/StoreService.java:84-87 | `item.getQuantity() - quantity` is a `long` subtraction that wraps modulo 2^64, and the check `item.getQuantity() < quantity` does not stop a negative amount | stock 0, `sellItem(id, Long.MIN_VALUE)`: the check passes and the stock becomes `Long.MIN_VALUE` | the stock after a sale is the exact difference, so a sale never makes the stock negative | medium, not executed | `LongStock.AsWrittenCounterexample` (all inputs: `LongStock.AsWrittenGoesNegative`) | `StoreService.SellItem` (invariant proved in `StoreLaws.SellPreservesStockNonNegative`) |
