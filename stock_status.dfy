/**
 * The inventory table's per-row logic: the stock status badge, the quantity
 * sent when a row's quantity is changed, and when the decrement button is
 * enabled.
 */
module StockStatus {
  import opened Wrappers
  import opened Schema

  datatype Status = OutOfStock | LowStock | InStock

  /** `getStatusInfo`: zero first, then the inclusive low-stock bound, else in stock. */
  function StatusOf(quantity: int, minStockLevel: int): Status {
    if quantity == 0 then OutOfStock
    else if quantity <= minStockLevel then LowStock
    else InStock
  }

  /** Each status is characterised by its condition alone; out-of-stock wins over low-stock. */
  lemma StatusCases(quantity: int, minStockLevel: int)
    ensures StatusOf(quantity, minStockLevel) == OutOfStock <==> quantity == 0
    ensures StatusOf(quantity, minStockLevel) == LowStock <==> quantity != 0 && quantity <= minStockLevel
    ensures StatusOf(quantity, minStockLevel) == InStock <==> quantity != 0 && quantity > minStockLevel
  {
  }

  /** With a threshold of zero an empty row is still out of stock, not low stock. */
  lemma OutOfStockWinsAtZeroThreshold()
    ensures StatusOf(0, 0) == OutOfStock
  {
  }

  /**
   * For records the schema accepts (both counts non-negative) the badge
   * agrees with the server's low-stock rule: a row is badged out of stock or
   * low stock exactly when the server lists it as low stock.
   */
  lemma StatusMatchesServer(c: Component)
    requires c.quantity >= 0 && c.minStockLevel >= 0
    ensures StatusOf(c.quantity, c.minStockLevel) != InStock <==> IsLowStock(c)
  {
  }

  /** `Math.max(0, quantity)`: the quantity actually sent in the update. */
  function Clamp(quantity: int): (r: int)
    ensures r >= 0
    ensures quantity >= 0 ==> r == quantity
    ensures quantity < 0 ==> r == 0
  {
    if quantity > 0 then quantity else 0
  }

  /** The decrement button is enabled unless the quantity is zero or an update is pending. */
  predicate DecrementEnabled(quantity: int, pending: bool) {
    !(quantity == 0 || pending)
  }

  /** The body `{ quantity: Math.max(0, q) }` of the quantity update. */
  function QuantityUpdate(quantity: int): Body {
    map["quantity" := JNum(Clamp(quantity) as real)]
  }

  /**
   * Whatever quantity a row asks for, the update it sends passes the update
   * schema and sets exactly the clamped quantity.
   */
  lemma QuantityUpdateAccepted(quantity: int)
    ensures ValidateUpdate(QuantityUpdate(quantity)).Ok?
    ensures ValidateUpdate(QuantityUpdate(quantity)).value.quantity == Some(Clamp(quantity))
  {
    var body := QuantityUpdate(quantity);
    assert BodyField(body, "quantity") == Some(JNum(Clamp(quantity) as real));
    assert forall k :: k in InsertKeys && k != "quantity" ==> BodyField(body, k).None?;
  }

  /**
   * A decrement that the button allows on a non-negative quantity sends one
   * less, which the clamp leaves untouched and never makes negative.
   */
  lemma DecrementNeverNegative(quantity: int, pending: bool)
    requires quantity >= 0 && DecrementEnabled(quantity, pending)
    ensures Clamp(quantity - 1) == quantity - 1 >= 0
  {
  }
}
