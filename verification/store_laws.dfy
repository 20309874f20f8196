/**
 Laws that relate several store operations: round trips, the stock
 invariant, soft-delete visibility, and the bookkeeping between stock and
 the sale log.
 */
module StoreLaws {
  import opened StoreModel
  import opened CreateItemDtoConstraints
  import opened StoreService
  import ItemRepository
  import SaleRepository

  // ---------------------------------------------------------------- addItem

  /** Adding an item and reading it back yields the request's fields, not deleted. */
  lemma AddThenGet(s: Store, dto: CreateItemDto, newId: Id)
    requires Valid(dto)
    requires newId !in s.items
    ensures var t := AddItem(s, dto, newId).store;
      && GetItem(t, newId) == Ok(ItemDto(newId, dto.name.value, dto.price.value, dto.quantity.value))
      && !t.items[newId].deleted
      && GetStockQuantity(t, newId) == Ok(dto.quantity.value)
  {
  }

  /** A validated add never introduces negative stock. */
  lemma AddPreservesStockNonNegative(s: Store, dto: CreateItemDto, newId: Id)
    requires Valid(dto) && newId !in s.items
    requires StockNonNegative(s)
    ensures StockNonNegative(AddItem(s, dto, newId).store)
  {
  }

  // ------------------------------------------------------------- updateItem

  /**
   Update does not look at the deleted flag: a deleted row is updated, and
   stays deleted, so it remains invisible to `getItem`.
   */
  lemma UpdateIgnoresDeletedFlag(s: Store, id: Id, dto: CreateItemDto)
    requires id in s.items && s.items[id].deleted
    requires Complete(dto)
    ensures UpdateItem(s, id, dto).result.Ok?
    ensures UpdateItem(s, id, dto).store.items[id].deleted
    ensures GetItem(UpdateItem(s, id, dto).store, id) == Err(ItemNotFound)
  {
  }

  /**
   Update is the one way around the stock invariant: the update body is not
   validated, so a negative quantity is stored as given.
   */
  lemma UpdateCanBreakStockNonNegative(s: Store, id: Id, dto: CreateItemDto)
    requires id in s.items
    requires Complete(dto) && dto.quantity.value < 0
    ensures UpdateItem(s, id, dto).result.Ok?
    ensures !StockNonNegative(UpdateItem(s, id, dto).store)
  {
    assert UpdateItem(s, id, dto).store.items[id].quantity < 0;
  }

  /** An update whose quantity is absent or non-negative keeps the stock invariant. */
  lemma UpdatePreservesStockNonNegative(s: Store, id: Id, dto: CreateItemDto)
    requires StockNonNegative(s)
    requires dto.quantity.Some? ==> dto.quantity.value >= 0
    ensures StockNonNegative(UpdateItem(s, id, dto).store)
  {
  }

  // ------------------------------------------------------------- deleteItem

  /** Deleting twice succeeds both times and leaves the state of deleting once. */
  lemma DeleteIdempotent(s: Store, id: Id)
    requires id in s.items
    ensures var once := DeleteItem(s, id);
      && once.result.Ok?
      && DeleteItem(once.store, id) == once
  {
    ItemRepository.MarkAsDeletedIdempotent(s.items, id);
  }

  /**
   After a successful delete the row still exists, but `getItem`,
   `getStockQuantity` and `sellItem` report it not found and `getAllItems`
   leaves it out; its sales stay listed.
   */
  lemma DeleteHidesItem(s: Store, id: Id, quantity: int, page: seq<Id>)
    requires DeleteItem(s, id).result.Ok?
    requires ItemRepository.PageOf(s.items, page)
    ensures var t := DeleteItem(s, id).store;
      && ItemRepository.ExistsById(t.items, id)
      && GetItem(t, id) == Err(ItemNotFound)
      && GetStockQuantity(t, id) == Err(ItemNotFound)
      && SellItem(t, id, quantity) == Transition(t, Err(ItemNotFound))
      && ItemRepository.PageOf(t.items, page)
      && (forall d :: d in GetAllItems(t, page) ==> d.id != id)
      && GetSoldItems(t, id) == GetSoldItems(s, id)
  {
  }

  /** Deleting an item never touches stock, so it keeps the stock invariant. */
  lemma DeletePreservesStockNonNegative(s: Store, id: Id)
    requires StockNonNegative(s)
    ensures StockNonNegative(DeleteItem(s, id).store)
  {
  }

  // --------------------------------------------------------------- sellItem

  /** Whatever amount is asked for, a sale never leaves any stock negative. */
  lemma SellPreservesStockNonNegative(s: Store, id: Id, quantity: int)
    requires StockNonNegative(s)
    ensures StockNonNegative(SellItem(s, id, quantity).store)
  {
    var r := SellItem(s, id, quantity);
    if r.result.Ok? {
      forall k | k in r.store.items
        ensures r.store.items[k].quantity >= 0
      {
        if k == id {
          assert s.items[id].quantity >= quantity;
        }
      }
    }
  }

  /** Selling more than the stock fails and changes neither the item nor the sale log. */
  lemma SellInsufficientIsAtomic(s: Store, id: Id, quantity: int)
    requires id in s.items && !s.items[id].deleted
    requires s.items[id].quantity < quantity
    ensures SellItem(s, id, quantity) == Transition(s, Err(InsufficientStock))
    ensures GetStockQuantity(SellItem(s, id, quantity).store, id) == Ok(s.items[id].quantity)
    ensures GetSoldItems(SellItem(s, id, quantity).store, id) == GetSoldItems(s, id)
  {
  }

  /**
   A successful sale raises the item's total sold by the amount sold, so the
   total is no longer null.
   */
  lemma SellRaisesTotalSold(s: Store, id: Id, quantity: int)
    requires SellItem(s, id, quantity).result.Ok?
    ensures SaleRepository.FindTotalSoldByItemId(SellItem(s, id, quantity).store.sales, id)
         == Some(SaleRepository.TotalSold(s.sales, id) + quantity)
  {
    assert SellItem(s, id, quantity).store.sales == SaleRepository.Save(s.sales, Sale(id, quantity));
    SaleRepository.FindTotalSoldAfterSave(s.sales, Sale(id, quantity));
  }

  /** A sale of one item leaves the total sold of every other item as it was, null included. */
  lemma SellKeepsOtherTotals(s: Store, id: Id, quantity: int, other: Id)
    requires other != id
    ensures SaleRepository.FindTotalSoldByItemId(SellItem(s, id, quantity).store.sales, other)
         == SaleRepository.FindTotalSoldByItemId(s.sales, other)
  {
    if SellItem(s, id, quantity).result.Ok? {
      var sales := SaleRepository.Save(s.sales, Sale(id, quantity));
      assert SellItem(s, id, quantity).store.sales == sales;
      SaleRepository.FindByItemIdAfterSave(s.sales, Sale(id, quantity), other);
      var before := SaleRepository.FindByItemId(s.sales, other);
      assert SaleRepository.FindByItemId(sales, other) == before;
      assert SaleRepository.FindTotalSoldByItemId(sales, other)
          == if before == [] then None else Some(SaleRepository.SumSold(before));
    }
  }

  /** Stock plus the total sold, per item: what a sale moves from one to the other. */
  function Ledger(s: Store, id: Id): int
    requires id in s.items
  {
    s.items[id].quantity + SaleRepository.TotalSold(s.sales, id)
  }

  /** Every sell, successful or not, keeps each item's stock plus total sold. */
  lemma SellConservesLedger(s: Store, id: Id, quantity: int, k: Id)
    requires k in s.items
    ensures k in SellItem(s, id, quantity).store.items
    ensures Ledger(SellItem(s, id, quantity).store, k) == Ledger(s, k)
  {
    var r := SellItem(s, id, quantity);
    if r.result.Ok? {
      assert r.store.sales == SaleRepository.Save(s.sales, Sale(id, quantity));
      SaleRepository.TotalSoldAfterSave(s.sales, Sale(id, quantity), k);
    }
  }

  /** One sell request: an item key and the amount asked for. */
  datatype SellOrder = SellOrder(id: Id, quantity: int)

  /** A run of sell requests, each applied to the store the previous one left. */
  function SellAll(s: Store, orders: seq<SellOrder>): (t: Store)
    ensures t.items.Keys == s.items.Keys
    decreases |orders|
  {
    if orders == [] then s
    else SellAll(SellItem(s, orders[0].id, orders[0].quantity).store, orders[1..])
  }

  /**
   After any run of sells, each item's stock equals its starting stock minus
   what the run sold of it, and no stock has gone negative.
   */
  lemma {:induction false} SellAllAccounts(s: Store, orders: seq<SellOrder>, k: Id)
    requires k in s.items
    requires StockNonNegative(s)
    ensures k in SellAll(s, orders).items
    ensures SellAll(s, orders).items[k].quantity
         == s.items[k].quantity
            - (SaleRepository.TotalSold(SellAll(s, orders).sales, k) - SaleRepository.TotalSold(s.sales, k))
    ensures StockNonNegative(SellAll(s, orders))
    decreases |orders|
  {
    if orders != [] {
      var next := SellItem(s, orders[0].id, orders[0].quantity).store;
      SellConservesLedger(s, orders[0].id, orders[0].quantity, k);
      SellPreservesStockNonNegative(s, orders[0].id, orders[0].quantity);
      SellAllAccounts(next, orders[1..], k);
    }
  }

  // ----------------------------------------------------------- read queries

  /** `getAllItems` keeps page order: the listing of two pages is the two listings joined. */
  lemma GetAllItemsAppend(s: Store, p: seq<Id>, q: seq<Id>)
    requires ItemRepository.PageOf(s.items, p) && ItemRepository.PageOf(s.items, q)
    ensures ItemRepository.PageOf(s.items, p + q)
    ensures GetAllItems(s, p + q) == GetAllItems(s, p) + GetAllItems(s, q)
  {
    ItemRepository.FindAllAppend(s.items, p, q);
    ActiveDtosAppend(ItemRepository.FindAll(s.items, p), ItemRepository.FindAll(s.items, q));
  }

  /** `getSoldItems` for a key no sale refers to is empty rather than an error. */
  lemma SoldItemsOfUnknownIsEmpty(s: Store, id: Id)
    requires SalesReferenceItems(s)
    requires id !in s.items
    ensures GetSoldItems(s, id) == []
  {
    forall x | x in s.sales
      ensures x.itemId != id
    {
      var i :| 0 <= i < |s.sales| && s.sales[i] == x;
    }
    SaleRepository.FindByItemIdOfUnreferenced(s.sales, id);
  }

  // ------------------------------------------------ referential integrity

  /** No operation leaves a sale pointing at a missing row. */
  lemma OperationsKeepSalesReferenceItems(s: Store, id: Id, dto: CreateItemDto, quantity: int)
    requires SalesReferenceItems(s)
    ensures SalesReferenceItems(UpdateItem(s, id, dto).store)
    ensures SalesReferenceItems(DeleteItem(s, id).store)
    ensures SalesReferenceItems(SellItem(s, id, quantity).store)
    ensures Valid(dto) && id !in s.items ==> SalesReferenceItems(AddItem(s, dto, id).store)
  {
    var r := SellItem(s, id, quantity);
    if r.result.Ok? {
      forall i | 0 <= i < |r.store.sales|
        ensures r.store.sales[i].itemId in r.store.items
      {
        if i < |s.sales| {
          assert r.store.sales[i] == r.store.sales[..|s.sales|][i];
        }
      }
    }
  }

  // ------------------------------------------------------ worked examples

  /**
   Selling part of a freshly added item's stock leaves the difference in
   stock and exactly one sale recorded against it.
   */
  lemma SellAfterAdd(s: Store, dto: CreateItemDto, x: Id, quantity: int)
    requires SalesReferenceItems(s)
    requires Valid(dto) && x !in s.items
    requires quantity <= dto.quantity.value
    ensures var sold := SellItem(AddItem(s, dto, x).store, x, quantity);
      && sold.result == Ok(())
      && GetItem(sold.store, x).Ok?
      && GetItem(sold.store, x).value.quantity == dto.quantity.value - quantity
      && GetSoldItems(sold.store, x) == [Sale(x, quantity)]
  {
    var added := AddItem(s, dto, x).store;
    SoldItemsOfUnknownIsEmpty(s, x);
    assert GetSoldItems(added, x) == [];
    var sold := SellItem(added, x, quantity);
    assert sold.store.sales == SaleRepository.Save(added.sales, Sale(x, quantity));
    SaleRepository.FindByItemIdAfterSave(added.sales, Sale(x, quantity), x);
  }

  /**
   The integration test's run: add "ItemName" at 100.00 with 10 in stock and
   sell 1; the item then reads back with stock 9 and exactly one sale, of 1.
   */
  lemma SellAfterAddScenario(s: Store, x: Id)
    requires SalesReferenceItems(s)
    requires x !in s.items
    ensures var dto := CreateItemDto(Some("ItemName"), Some(100.00), Some(10));
      && Valid(dto)
      && var sold := SellItem(AddItem(s, dto, x).store, x, 1);
         && sold.result == Ok(())
         && GetItem(sold.store, x).Ok?
         && GetItem(sold.store, x).value.quantity == 9
         && GetSoldItems(sold.store, x) == [Sale(x, 1)]
  {
    var dto := CreateItemDto(Some("ItemName"), Some(100.00), Some(10));
    Utf16LengthOfBmp("ItemName");
    assert Valid(dto);
    SellAfterAdd(s, dto, x, 1);
  }
}
