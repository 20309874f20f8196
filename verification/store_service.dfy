/**
 The stock-accounting service: item lifecycle and the sell operation, each
 an atomic step from one store to the next. A failing operation leaves the
 store exactly as it found it.
 */
module StoreService {
  import opened StoreModel
  import opened CreateItemDtoConstraints
  import ItemRepository
  import SaleRepository

  /**
   `addItem`: stores a validated request under a fresh key and returns its
   transfer shape. The key comes from the id generator, which never hands out
   a key already in use; the body has passed `@Valid` at the endpoint.
   */
  function AddItem(s: Store, dto: CreateItemDto, newId: Id): (r: Transition<ItemDto>)
    requires Valid(dto)
    requires newId !in s.items
    ensures r.result.Ok?
    ensures r.result.value.id == newId
    ensures Some(r.result.value.name) == dto.name
    ensures Some(r.result.value.price) == dto.price
    ensures Some(r.result.value.quantity) == dto.quantity
    ensures r.store.items.Keys == s.items.Keys + {newId}
    ensures Entry(newId, r.store.items[newId]) == FromDto(r.result.value)
    ensures forall k :: k in s.items ==> r.store.items[k] == s.items[k]
    ensures r.store.sales == s.sales
  {
    var item := NewItem(dto);
    Transition(Store(ItemRepository.Save(s.items, newId, item), s.sales), Ok(ToDto(Entry(newId, item))))
  }

  /**
   `updateItem`: overwrites name, price and quantity of the row with that key.
   The lookup does not filter on the soft-delete flag, and the body is not
   validated: any quantity is stored, but a null field is refused by the
   not-null columns of the item table and the transaction rolls back.
   */
  function UpdateItem(s: Store, id: Id, dto: CreateItemDto): (r: Transition<ItemDto>)
    ensures r.result.Err? ==> r.store == s
    ensures r.result == Err(ItemNotFound) <==> id !in s.items
    ensures r.result == Err(NotNullViolation) <==> id in s.items && !Complete(dto)
    ensures r.result.Ok? ==>
      && r.store.sales == s.sales
      && r.store.items.Keys == s.items.Keys
      && (forall k :: k in s.items && k != id ==> r.store.items[k] == s.items[k])
      && r.store.items[id].deleted == s.items[id].deleted
      && Some(r.store.items[id].name) == dto.name
      && Some(r.store.items[id].price) == dto.price
      && Some(r.store.items[id].quantity) == dto.quantity
      && r.result.value == ToDto(Entry(id, r.store.items[id]))
  {
    match ItemRepository.FindById(s.items, id)
    case None => Transition(s, Err(ItemNotFound))
    case Some(item) =>
      if !Complete(dto) then Transition(s, Err(NotNullViolation))
      else
        var updated := item.(name := dto.name.value, price := dto.price.value, quantity := dto.quantity.value);
        Transition(Store(ItemRepository.Save(s.items, id, updated), s.sales), Ok(ToDto(Entry(id, updated))))
  }

  /**
   `deleteItem`: fails when no row has that key; otherwise sets its deleted
   flag. The existence check ignores the flag, so deleting a deleted item
   succeeds.
   */
  function DeleteItem(s: Store, id: Id): (r: Transition<()>)
    ensures r.result.Err? <==> id !in s.items
    ensures r.result.Err? ==> r.store == s && r.result.error == ItemNotFound
    ensures r.result.Ok? ==>
      && r.store.sales == s.sales
      && r.store.items.Keys == s.items.Keys
      && r.store.items[id] == s.items[id].(deleted := true)
      && (forall k :: k in s.items && k != id ==> r.store.items[k] == s.items[k])
  {
    if !ItemRepository.ExistsById(s.items, id) then Transition(s, Err(ItemNotFound))
    else Transition(Store(ItemRepository.MarkAsDeleted(s.items, id), s.sales), Ok(()))
  }

  /** `getItem`: the transfer shape of an active row; a missing or deleted row is not found. */
  function GetItem(s: Store, id: Id): (r: Result<ItemDto>)
    ensures r.Ok? <==> id in s.items && !s.items[id].deleted
    ensures r.Err? ==> r.error == ItemNotFound
    ensures r.Ok? ==> FromDto(r.value) == Entry(id, s.items[id])
  {
    match ItemRepository.FindById(s.items, id)
    case Some(item) =>
      if item.deleted then Err(ItemNotFound) else Ok(ToDto(Entry(id, item)))
    case None => Err(ItemNotFound)
  }

  /** The transfer shapes of the active entries, in order. */
  function ActiveDtos(entries: seq<Entry>): (r: seq<ItemDto>)
    ensures |r| <= |entries|
    ensures forall d :: d in r <==> FromDto(d) in entries
  {
    if entries == [] then []
    else
      var rest := ActiveDtos(entries[1..]);
      if entries[0].item.deleted then
        assert forall d :: FromDto(d) != entries[0];
        rest
      else
        assert FromDto(ToDto(entries[0])) == entries[0];
        [ToDto(entries[0])] + rest
  }

  /** Filtering distributes over concatenation: the active items keep their page order. */
  lemma {:induction false} ActiveDtosAppend(a: seq<Entry>, b: seq<Entry>)
    ensures ActiveDtos(a + b) == ActiveDtos(a) + ActiveDtos(b)
  {
    if a == [] {
      assert a + b == b;
    } else {
      assert (a + b)[0] == a[0];
      assert (a + b)[1..] == a[1..] + b;
      ActiveDtosAppend(a[1..], b);
    }
  }

  /**
   `getAllItems`: the rows of the fetched page with the deleted ones dropped,
   each as its transfer shape.
   */
  function GetAllItems(s: Store, page: seq<Id>): (r: seq<ItemDto>)
    requires ItemRepository.PageOf(s.items, page)
    ensures |r| <= |page|
    ensures forall d :: d in r <==> d.id in page && d.id in s.items && s.items[d.id] == FromDto(d).item
  {
    var entries := ItemRepository.FindAll(s.items, page);
    var r := ActiveDtos(entries);
    assert forall d :: FromDto(d) in entries <==> d.id in page && d.id in s.items && s.items[d.id] == FromDto(d).item by {
      forall d
        ensures FromDto(d) in entries <==> d.id in page && d.id in s.items && s.items[d.id] == FromDto(d).item
      {
        if d.id in page && d.id in s.items && s.items[d.id] == FromDto(d).item {
          var i :| 0 <= i < |page| && page[i] == d.id;
          assert entries[i] == FromDto(d);
        }
      }
    }
    r
  }

  /**
   `sellItem`: for an active row with enough stock, lowers its quantity by the
   amount sold and appends one sale; a missing or deleted row is not found,
   and too little stock fails before anything changes. The amount itself is
   not checked.
   */
  function SellItem(s: Store, id: Id, quantity: int): (r: Transition<()>)
    ensures r.result.Err? ==> r.store == s
    ensures r.result == Err(ItemNotFound) <==> id !in s.items || s.items[id].deleted
    ensures r.result == Err(InsufficientStock) <==> id in s.items && !s.items[id].deleted && s.items[id].quantity < quantity
    ensures r.result.Ok? ==>
      && r.store.items.Keys == s.items.Keys
      && (forall k :: k in s.items && k != id ==> r.store.items[k] == s.items[k])
      && r.store.items[id].quantity + quantity == s.items[id].quantity
      && r.store.items[id] == s.items[id].(quantity := r.store.items[id].quantity)
      && |r.store.sales| == |s.sales| + 1
      && r.store.sales[..|s.sales|] == s.sales
      && r.store.sales[|s.sales|] == Sale(id, quantity)
  {
    match ItemRepository.FindById(s.items, id)
    case None => Transition(s, Err(ItemNotFound))
    case Some(item) =>
      if item.deleted then Transition(s, Err(ItemNotFound))
      else if item.quantity < quantity then Transition(s, Err(InsufficientStock))
      else
        var sold := item.(quantity := item.quantity - quantity);
        Transition(Store(s.items[id := sold], SaleRepository.Save(s.sales, Sale(id, quantity))), Ok(()))
  }

  /** `getSoldItems`: the sales of an item in log order, with no check that the item exists. */
  function GetSoldItems(s: Store, id: Id): (r: seq<Sale>)
    ensures forall x :: x in r <==> x in s.sales && x.itemId == id
  {
    SaleRepository.FindByItemId(s.sales, id)
  }

  /** `getStockQuantity`: the quantity of an active row; a missing or deleted row is not found. */
  function GetStockQuantity(s: Store, id: Id): (r: Result<int>)
    ensures r.Ok? <==> GetItem(s, id).Ok?
    ensures r.Err? ==> r.error == ItemNotFound
    ensures r.Ok? ==> r.value == GetItem(s, id).value.quantity
  {
    match ItemRepository.FindById(s.items, id)
    case Some(item) =>
      if item.deleted then Err(ItemNotFound) else Ok(item.quantity)
    case None => Err(ItemNotFound)
  }
}
