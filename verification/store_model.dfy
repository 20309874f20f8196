/**
 The entities of the store: item rows, sale rows, the two tables that hold
 them, and the shapes the service hands back to its callers.
 */
module StoreModel {

  /** A 128-bit UUID. Operations only compare identifiers for equality. */
  newtype Uuid = x: int | 0 <= x < 0x1_0000_0000_0000_0000_0000_0000_0000_0000

  type Id = Uuid

  datatype Option<+T> = None | Some(value: T)

  /**
   An item row. `quantity` is the current stock and `deleted` the soft-delete
   flag; the price is an exact decimal that is only ever copied.
   */
  datatype Item = Item(name: string, price: real, quantity: int, deleted: bool)

  /** A sale row: a non-owning reference to the item sold and the amount sold. */
  datatype Sale = Sale(itemId: Id, quantitySold: int)

  /** The item table, keyed by id, and the append-only sale log. */
  datatype Store = Store(items: map<Id, Item>, sales: seq<Sale>)

  /** An item row together with its key, as a page of the item table holds it. */
  datatype Entry = Entry(id: Id, item: Item)

  /** The transfer shape of an item: the row and its key, without the soft-delete flag. */
  datatype ItemDto = ItemDto(id: Id, name: string, price: real, quantity: int)

  /** The failures a store operation can report. */
  datatype StoreError =
    | ItemNotFound
    | InsufficientStock
      /** A null name, price or quantity reached a not-null column of the item table. */
    | NotNullViolation

  datatype Result<+T> = Ok(value: T) | Err(error: StoreError)

  /** What a state-changing operation leaves behind: the new store and its outcome. */
  datatype Transition<+T> = Transition(store: Store, result: Result<T>)

  /** The identity field mapping from an item row to its transfer shape. */
  function ToDto(e: Entry): (d: ItemDto)
    ensures d.id == e.id
    ensures e.item == Item(d.name, d.price, d.quantity, e.item.deleted)
  {
    ItemDto(e.id, e.item.name, e.item.price, e.item.quantity)
  }

  /** The one active row whose transfer shape is `d`. */
  function FromDto(d: ItemDto): (e: Entry)
    ensures !e.item.deleted
    ensures ToDto(e) == d
  {
    Entry(d.id, Item(d.name, d.price, d.quantity, false))
  }

  /** A row survives the round trip through its transfer shape exactly when it is active. */
  lemma DtoRoundTrip(e: Entry)
    ensures FromDto(ToDto(e)) == e <==> !e.item.deleted
  {
  }

  /** The stock invariant: no item, deleted or not, holds a negative quantity. */
  predicate StockNonNegative(s: Store) {
    forall id :: id in s.items ==> s.items[id].quantity >= 0
  }

  /** Every sale refers to an item row: rows are never removed, so a sale's item outlives it. */
  predicate SalesReferenceItems(s: Store) {
    forall i :: 0 <= i < |s.sales| ==> s.sales[i].itemId in s.items
  }
}
