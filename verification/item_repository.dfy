/**
 The queries of the item repository, as functions over the item table.
 None of them looks at the soft-delete flag except `MarkAsDeleted`, which
 sets it.
 */
module ItemRepository {
  import opened StoreModel

  /** `findById`: the row with that key, deleted or not. */
  function FindById(items: map<Id, Item>, id: Id): (r: Option<Item>)
    ensures r.Some? <==> id in items
    ensures r.Some? ==> r.value == items[id]
  {
    if id in items then Some(items[id]) else None
  }

  /** `existsById`: whether a row with that key is present, deleted or not. */
  function ExistsById(items: map<Id, Item>, id: Id): (b: bool)
    ensures b <==> FindById(items, id).Some?
  {
    id in items
  }

  /** `save` on a managed or new row: insert or overwrite by key. */
  function Save(items: map<Id, Item>, id: Id, item: Item): (r: map<Id, Item>)
    ensures r.Keys == items.Keys + {id}
    ensures FindById(r, id) == Some(item)
    ensures forall k :: k in items && k != id ==> r[k] == items[k]
  {
    items[id := item]
  }

  /**
   `markAsDeleted`: an UPDATE of the deleted flag of the row with that key.
   A key with no row matches nothing and changes nothing.
   */
  function MarkAsDeleted(items: map<Id, Item>, id: Id): (r: map<Id, Item>)
    ensures r.Keys == items.Keys
    ensures id in items ==> r[id] == items[id].(deleted := true)
    ensures forall k :: k in items && k != id ==> r[k] == items[k]
  {
    if id in items then items[id := items[id].(deleted := true)] else items
  }

  /** A page of the item table: a sequence of keys of rows that exist. */
  predicate PageOf(items: map<Id, Item>, page: seq<Id>) {
    forall i :: 0 <= i < |page| ==> page[i] in items
  }

  /** `findAll(pageable)`: the rows of the page, in page order, deleted ones included. */
  function FindAll(items: map<Id, Item>, page: seq<Id>): (r: seq<Entry>)
    requires PageOf(items, page)
    ensures |r| == |page|
    ensures forall i :: 0 <= i < |r| ==> r[i].id == page[i] && Some(r[i].item) == FindById(items, page[i])
  {
    seq(|page|, i requires 0 <= i < |page| => Entry(page[i], items[page[i]]))
  }

  /** `markAsDeleted` does not remove the row: `findById` still returns it, now flagged. */
  lemma MarkAsDeletedKeepsRow(items: map<Id, Item>, id: Id)
    requires id in items
    ensures FindById(MarkAsDeleted(items, id), id) == Some(items[id].(deleted := true))
    ensures ExistsById(MarkAsDeleted(items, id), id)
  {
  }

  /** Marking a row deleted twice leaves the same table as marking it once. */
  lemma MarkAsDeletedIdempotent(items: map<Id, Item>, id: Id)
    ensures MarkAsDeleted(MarkAsDeleted(items, id), id) == MarkAsDeleted(items, id)
  {
  }

  /** `existsById` answers the same before and after any `markAsDeleted`. */
  lemma ExistsIgnoresDeleted(items: map<Id, Item>, id: Id, other: Id)
    ensures ExistsById(MarkAsDeleted(items, other), id) == ExistsById(items, id)
  {
  }

  /** `findAll` does not filter on the flag: a deleted row on the page is returned. */
  lemma FindAllKeepsDeleted(items: map<Id, Item>, page: seq<Id>, i: nat)
    requires PageOf(items, page)
    requires i < |page| && items[page[i]].deleted
    ensures Entry(page[i], items[page[i]]) in FindAll(items, page)
    ensures exists e :: e in FindAll(items, page) && e.item.deleted
  {
    var r := FindAll(items, page);
    assert r[i] == Entry(page[i], items[page[i]]);
  }

  /** The rows of a concatenation of pages are the concatenation of their rows. */
  lemma FindAllAppend(items: map<Id, Item>, p: seq<Id>, q: seq<Id>)
    requires PageOf(items, p) && PageOf(items, q)
    ensures PageOf(items, p + q)
    ensures FindAll(items, p + q) == FindAll(items, p) + FindAll(items, q)
  {
    assert forall i :: 0 <= i < |p + q| ==> (p + q)[i] == if i < |p| then p[i] else q[i - |p|];
  }
}
