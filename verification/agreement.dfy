/**
 The client's pure decisions checked against the backend's states: the
 countdown it runs locally, the guard it puts in front of the add request,
 and the screen it picks for the order the backend returned.
 */
module Agreement {
  import opened SessionClock
  import opened Records
  import opened Lifecycle
  import opened Invariants
  import opened Client
  import opened ClockText

  /**
   Starting from the remaining time the backend reported at `t`, the client's
   countdown after `n` one-second steps shows exactly what the backend would
   report `n` seconds later (for the same stored order).
   */
  lemma CountdownMatchesServer(o: Order, t: int, n: nat)
    ensures TickN(RemainingSeconds(o, t), n) == RemainingSeconds(o, t + n * MicrosPerSecond)
  {
    var r0 := RemainingSeconds(o, t);
    TickNClamps(r0, n);
    if IsOpen(o) {
      var t' := t + n * MicrosPerSecond;
      var r1 := RemainingSeconds(o, t');
      var left := LeftMicros(o, t);
      assert LeftMicros(o, t') == left - n * MicrosPerSecond;
      if left - n * MicrosPerSecond >= 0 {
        assert (r1 + n) * MicrosPerSecond <= left < (r1 + n + 1) * MicrosPerSecond;
        assert r0 * MicrosPerSecond <= left < (r0 + 1) * MicrosPerSecond;
        assert r1 + n == r0;
      } else {
        assert r1 == 0;
        assert r0 * MicrosPerSecond <= Max(0, left);
        assert r0 <= n;
      }
    }
  }

  /**
   The client's guard never holds back an add the backend would accept: when
   the client, holding the stored order, sends nothing, the backend would
   have rejected the add as closed.
   */
  lemma ClientGuardSound(s: Store, id: int, menuItemId: int, quantity: int, now: int)
    requires id in s.orders
    requires ClientAdd(Some(s.orders[id]), menuItemId).None?
    ensures AddOrderItem(s, id, menuItemId, quantity, now).result == Err(OrderClosed)
  {
  }

  /**
   The guard is only advisory: an order that the client still sees as open
   can be rejected because its window ran out since the client last read it.
   */
  lemma ClientGuardNotComplete(s: Store, id: int, menuItemId: int, quantity: int, now: int)
    requires id in s.orders && IsOpen(s.orders[id])
    requires now - s.orders[id].startTime >= SessionMicros
    ensures ClientAdd(Some(s.orders[id]), menuItemId).Some?
    ensures AddOrderItem(s, id, menuItemId, quantity, now).result == Err(OrderClosed)
  {
  }

  /** An add the client sends and the backend accepts bills exactly one unit of the item. */
  lemma ClientAddBillsOneUnit(s: Store, id: int, menuItemId: int, now: int)
    requires Valid(s) && id in s.orders
    requires ClientAdd(Some(s.orders[id]), menuItemId).Some?
    requires AddOrderItem(s, id, menuItemId, 1, now).result.Ok?
    ensures ClientAdd(Some(s.orders[id]), menuItemId).value.orderId == id
    ensures AddOrderItem(s, id, menuItemId, 1, now).store.orders[id].totalAmount
         == s.orders[id].totalAmount + s.menu[menuItemId].price
  {
  }

  /**
   For an order as the read endpoint returns it, the client shows the
   ordering screen exactly when the order passed the backend's expiry check.
   Reported time left always comes with the ordering screen; the converse
   needs both of the endpoint's clock reads to fall on the same instant
   (see Lifecycle.GetOrderStraddlesSecond for when they do not).
   */
  lemma ScreenMatchesTimer(s: Store, id: int, now: int, later: int)
    requires GetOrder(s, id, now, later).result.Ok?
    ensures var v := GetOrder(s, id, now, later).result.value;
      && (ScreenFor(Some(v.order)) == OrderingScreen <==> OpenAt(s.orders[id], now))
      && (v.remainingSeconds > 0 ==> ScreenFor(Some(v.order)) == OrderingScreen)
      && (now == later ==> (ScreenFor(Some(v.order)) == OrderingScreen <==> v.remainingSeconds > 0))
  {
    if now == later {
      GetOrderSameInstant(s, id, now);
    }
  }

  /** After a checkout, reading the order shows the checked-out screen and a zero clock. */
  lemma ScreenAfterCheckout(s: Store, id: int, now: int, later: int)
    requires Valid(s)
    requires CheckoutOrder(s, id).result.Ok?
    ensures var r := GetOrder(CheckoutOrder(s, id).store, id, now, later);
      && r.result.Ok?
      && ScreenFor(Some(r.result.value.order)) == CheckedOutScreen
      && r.result.value.remainingSeconds == 0
  {
  }

  /**
   Reading an order that is not checked out once less than a second of its
   window is left shows the expired screen, and the zero clock "00:00".
   */
  lemma ScreenAfterWindow(s: Store, id: int, now: int, later: int)
    requires Valid(s)
    requires id in s.orders && !s.orders[id].isCheckedOut
    requires !OpenAt(s.orders[id], now)
    ensures var r := GetOrder(s, id, now, later);
      && r.result.Ok?
      && ScreenFor(Some(r.result.value.order)) == ExpiredScreen
      && r.result.value.remainingSeconds == 0
      && FormatTime(r.result.value.remainingSeconds) == "00:00"
  {
    assert FormatTime(0) == PadStart(Decimal(0), 2, '0') + ":" + PadStart(Decimal(0), 2, '0');
    assert PadStart(Decimal(0), 2, '0') == "00";
  }

  /** A new order shows the ordering screen with the full window, "105:00", on the clock. */
  lemma StartShowsFullWindow(s: Store, tableNumber: Option<string>, now: int)
    ensures var v := StartOrder(s, tableNumber, now).result.value;
      && ScreenFor(Some(v.order)) == OrderingScreen
      && FormatTime(v.remainingSeconds) == "105:00"
  {
    assert Decimal(105) == "105" by {
      assert Decimal(10) == "10";
    }
    assert PadStart(Decimal(0), 2, '0') == "00";
    assert FormatTime(6300) == PadStart(Decimal(105), 2, '0') + ":" + PadStart(Decimal(0), 2, '0');
  }
}
