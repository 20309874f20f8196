/**
 The stock update of `sellItem` with the item's quantity and the requested
 amount held in Java `long`s, whose subtraction wraps around modulo 2^64.
 The sufficiency check compares the two values but does not bound the
 difference, so a negative amount large enough to overflow turns a
 non-negative stock negative. The rest of the model subtracts exactly
 (`StoreService.SellItem`); the lemmas here relate the two.
 */
module LongStock {
  import opened StoreModel
  import StoreService

  const LONG_MIN: int := -0x8000_0000_0000_0000
  const LONG_MAX: int := 0x7FFF_FFFF_FFFF_FFFF
  const LONG_RANGE: int := 0x1_0000_0000_0000_0000

  predicate IsLong(x: int) {
    LONG_MIN <= x <= LONG_MAX
  }

  /** Two's-complement narrowing of an exact integer to a `long`. */
  function Wrap(x: int): (r: int)
    ensures IsLong(r)
    ensures (x - r) % LONG_RANGE == 0
    ensures IsLong(x) ==> r == x
  {
    (x - LONG_MIN) % LONG_RANGE + LONG_MIN
  }

  /** The stock `sellItem` leaves as written: the check, then a wrapping subtraction. */
  function SellStockAsWritten(stock: int, quantity: int): (r: Result<int>)
    requires IsLong(stock) && IsLong(quantity)
    ensures r.Err? <==> stock < quantity
    ensures r.Err? ==> r.error == InsufficientStock
    ensures r.Ok? ==> IsLong(r.value) && (stock - quantity - r.value) % LONG_RANGE == 0
  {
    if stock < quantity then Err(InsufficientStock) else Ok(Wrap(stock - quantity))
  }

  /** Wherever the exact difference fits in a `long`, the code as written subtracts exactly. */
  lemma AsWrittenExactWithoutOverflow(stock: int, quantity: int)
    requires IsLong(stock) && IsLong(quantity)
    requires quantity <= stock && IsLong(stock - quantity)
    ensures SellStockAsWritten(stock, quantity) == Ok(stock - quantity)
  {
  }

  /**
   From a non-negative stock, the code as written ends negative exactly when
   the exact difference overflows past `Long.MAX_VALUE`, which only a
   negative amount can cause.
   */
  lemma AsWrittenGoesNegative(stock: int, quantity: int)
    requires IsLong(stock) && IsLong(quantity) && stock >= 0
    ensures (SellStockAsWritten(stock, quantity).Ok? && SellStockAsWritten(stock, quantity).value < 0)
        <==> stock - quantity > LONG_MAX
    ensures stock - quantity > LONG_MAX ==> quantity < 0
  {
    if stock - quantity > LONG_MAX {
      assert stock - quantity <= LONG_MAX - LONG_MIN;
      assert Wrap(stock - quantity) == stock - quantity - LONG_RANGE;
    }
  }

  /** The smallest witness: with no stock, selling `Long.MIN_VALUE` leaves `Long.MIN_VALUE`. */
  lemma AsWrittenCounterexample()
    ensures SellStockAsWritten(0, LONG_MIN) == Ok(LONG_MIN)
  {
    assert Wrap(0 - LONG_MIN) == LONG_MIN;
  }

  /**
   Where the stock, the amount and their difference all fit in a `long`, the
   model's `SellItem` fails exactly when the code as written does, and
   otherwise stores the quantity the code as written computes.
   */
  lemma SellItemMatchesAsWritten(s: Store, id: Id, quantity: int)
    requires id in s.items && !s.items[id].deleted
    requires IsLong(s.items[id].quantity) && IsLong(quantity) && IsLong(s.items[id].quantity - quantity)
    ensures StoreService.SellItem(s, id, quantity).result.Err?
        <==> SellStockAsWritten(s.items[id].quantity, quantity).Err?
    ensures StoreService.SellItem(s, id, quantity).result.Ok? ==>
      StoreService.SellItem(s, id, quantity).store.items[id].quantity
        == SellStockAsWritten(s.items[id].quantity, quantity).value
  {
    if quantity <= s.items[id].quantity {
      AsWrittenExactWithoutOverflow(s.items[id].quantity, quantity);
    }
  }
}
