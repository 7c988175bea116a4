/**
 One session traced end to end through the endpoints: start, add, let the
 window lapse, read, try to add again, check out.
 */
module Scenario {
  import opened SessionClock
  import opened Records
  import opened Lifecycle

  /** A catalog with one available item priced 50, and no orders yet. */
  function Catalog(): Store {
    Store(map[], map[1 := MenuItem(1, "fried rice", "main", 50, None, true)], 1, 1, 2)
  }

  /**
   Start at t0: 6300 seconds on the clock. Two units at price 50 bill 100.
   At t0 + 6301 s the read closes the order and reports 0 seconds; another
   add is rejected as closed; checkout still succeeds and returns 100.
   */
  lemma LapsedSessionStillChecksOut(t0: int)
    ensures var started := StartOrder(Catalog(), None, t0);
      && started.result.value.remainingSeconds == 6300
      && var id := started.result.value.order.id;
      var added := AddOrderItem(started.store, id, 1, 2, t0);
      && added.result.Ok?
      && added.store.orders[id].totalAmount == 100
      && var later := t0 + 6301 * MicrosPerSecond;
      var read := GetOrder(added.store, id, later, later);
      && read.result.Ok?
      && !read.result.value.order.isActive
      && read.result.value.remainingSeconds == 0
      && var again := AddOrderItem(read.store, id, 1, 1, later);
      && again.result == Err(OrderClosed)
      && CheckoutOrder(again.store, id).result == Ok(100)
  {
    var started := StartOrder(Catalog(), None, t0);
    var id := started.result.value.order.id;
    var added := AddOrderItem(started.store, id, 1, 2, t0);
    assert added.result.Ok?;
    var later := t0 + 6301 * MicrosPerSecond;
    RemainingZeroAfterWindow(added.store.orders[id], later);
    var read := GetOrder(added.store, id, later, later);
    var again := AddOrderItem(read.store, id, 1, 1, later);
    assert again.result == Err(OrderClosed);
  }
}
