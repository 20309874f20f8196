/**
 The queries of the sale repository, as functions over the sale log.
 */
module SaleRepository {
  import opened StoreModel

  /** `findByItemId`: the sales of one item, in log order. */
  function FindByItemId(sales: seq<Sale>, id: Id): (r: seq<Sale>)
    ensures |r| <= |sales|
    ensures forall x :: x in r <==> x in sales && x.itemId == id
  {
    if sales == [] then []
    else if sales[0].itemId == id then [sales[0]] + FindByItemId(sales[1..], id)
    else FindByItemId(sales[1..], id)
  }

  /** The amounts of a sequence of sales, added up. */
  function SumSold(sales: seq<Sale>): int {
    if sales == [] then 0 else sales[0].quantitySold + SumSold(sales[1..])
  }

  /**
   `findTotalSoldByItemId`: `SELECT SUM(s.quantitySold) ... WHERE s.item.id = :itemId`.
   SQL's SUM over no rows is NULL, not 0, so an id with no sales yields `None`.
   */
  function FindTotalSoldByItemId(sales: seq<Sale>, id: Id): (r: Option<int>)
    ensures r.None? <==> forall x :: x in sales ==> x.itemId != id
    ensures r.Some? ==> r.value == SumSold(FindByItemId(sales, id))
  {
    var matching := FindByItemId(sales, id);
    if matching == [] then
      None
    else
      assert matching[0] in sales && matching[0].itemId == id;
      Some(SumSold(matching))
  }

  /** The total of an item, with the null of an empty SUM read as 0. */
  function TotalSold(sales: seq<Sale>, id: Id): int {
    SumSold(FindByItemId(sales, id))
  }

  /** `save` of a new sale: appended at the end of the log, earlier sales untouched. */
  function Save(sales: seq<Sale>, sale: Sale): (r: seq<Sale>)
    ensures |r| == |sales| + 1
    ensures r[..|sales|] == sales && r[|sales|] == sale
  {
    sales + [sale]
  }

  /** Filtering distributes over concatenation: `findByItemId` keeps log order. */
  lemma {:induction false} FindByItemIdAppend(a: seq<Sale>, b: seq<Sale>, id: Id)
    ensures FindByItemId(a + b, id) == FindByItemId(a, id) + FindByItemId(b, id)
  {
    if a == [] {
      assert a + b == b;
    } else {
      assert (a + b)[0] == a[0];
      assert (a + b)[1..] == a[1..] + b;
      FindByItemIdAppend(a[1..], b, id);
    }
  }

  /** An item no sale refers to has no sales listed. */
  lemma {:induction false} FindByItemIdOfUnreferenced(sales: seq<Sale>, id: Id)
    requires forall x :: x in sales ==> x.itemId != id
    ensures FindByItemId(sales, id) == []
  {
    if sales != [] {
      assert sales[0] in sales;
      FindByItemIdOfUnreferenced(sales[1..], id);
    }
  }

  /** Sums distribute over concatenation. */
  lemma {:induction false} SumSoldAppend(a: seq<Sale>, b: seq<Sale>)
    ensures SumSold(a + b) == SumSold(a) + SumSold(b)
  {
    if a == [] {
      assert a + b == b;
    } else {
      assert (a + b)[0] == a[0];
      assert (a + b)[1..] == a[1..] + b;
      SumSoldAppend(a[1..], b);
    }
  }

  /** Appending one sale to the log extends the sales of its item by it, and no other item's. */
  lemma FindByItemIdAfterSave(sales: seq<Sale>, sale: Sale, id: Id)
    ensures FindByItemId(Save(sales, sale), id)
         == FindByItemId(sales, id) + (if sale.itemId == id then [sale] else [])
  {
    FindByItemIdAppend(sales, [sale], id);
    assert FindByItemId([sale], id) == if sale.itemId == id then [sale] else [] by {
      assert [sale][1..] == [];
    }
  }

  /** Appending one sale to the log raises its item's total by its amount and no other. */
  lemma TotalSoldAfterSave(sales: seq<Sale>, sale: Sale, id: Id)
    ensures TotalSold(Save(sales, sale), id)
         == TotalSold(sales, id) + (if sale.itemId == id then sale.quantitySold else 0)
  {
    FindByItemIdAfterSave(sales, sale, id);
    var tail: seq<Sale> := if sale.itemId == id then [sale] else [];
    SumSoldAppend(FindByItemId(sales, id), tail);
    assert SumSold(tail) == if sale.itemId == id then sale.quantitySold else 0 by {
      if tail != [] {
        assert tail[1..] == [];
      }
    }
  }

  /** After a sale is appended, its item's total is no longer null and includes the sale's amount. */
  lemma FindTotalSoldAfterSave(sales: seq<Sale>, sale: Sale)
    ensures FindTotalSoldByItemId(Save(sales, sale), sale.itemId)
         == Some(TotalSold(sales, sale.itemId) + sale.quantitySold)
  {
    var after := Save(sales, sale);
    FindByItemIdAfterSave(sales, sale, sale.itemId);
    TotalSoldAfterSave(sales, sale, sale.itemId);
    var matching := FindByItemId(after, sale.itemId);
    assert matching == FindByItemId(sales, sale.itemId) + [sale];
    assert matching != [];
    assert SumSold(matching) == TotalSold(after, sale.itemId);
  }

  /** The nullable total and the 0-defaulted total agree whenever the former is not null. */
  lemma TotalSoldMatchesQuery(sales: seq<Sale>, id: Id)
    ensures FindTotalSoldByItemId(sales, id).None? ==> TotalSold(sales, id) == 0
    ensures FindTotalSoldByItemId(sales, id).Some? ==> FindTotalSoldByItemId(sales, id).value == TotalSold(sales, id)
  {
  }
}
