/**
 The order-session lifecycle of the buffet backend: the remaining-time helper,
 the lazy expiry check, and the endpoints that start, read, extend and check
 out an order, list the menu and soft-delete a menu item.

 Each endpoint is a pure function from the store (and, where the backend
 reads the wall clock, the instants it reads) to a Reply: the store after the
 endpoint's commits together with its result or error.
 */
module Lifecycle {
  import opened SessionClock
  import opened Records

  /** An order as the read endpoints return it: the record plus the time left. */
  datatype OrderView = OrderView(order: Order, remainingSeconds: int)

  /** Outcome of the expiry check: the order after it, and whether the order is still open. */
  datatype Checked = Checked(order: Order, open: bool)

  /** Microseconds of the window left at `now`; negative once the window has passed. */
  function LeftMicros(o: Order, now: int): int {
    SessionMicros - (now - o.startTime)
  }

  /**
   Open at `now`: the flags say open and at least one whole second of the
   window is left. A session with less than a second to go is already over,
   because the expiry check tests the truncated remaining time.
   */
  predicate OpenAt(o: Order, now: int) {
    IsOpen(o) && now - o.startTime <= SessionMicros - MicrosPerSecond
  }

  /**
   The seconds left in the order's window: zero for a closed order, otherwise
   the whole seconds in what is left of the window, never below zero.
   */
  function RemainingSeconds(o: Order, now: int): (r: nat)
    ensures !IsOpen(o) ==> r == 0
    ensures IsOpen(o) ==> r * MicrosPerSecond <= Max(0, LeftMicros(o, now)) < (r + 1) * MicrosPerSecond
    ensures now >= o.startTime ==> r <= SessionSeconds
    ensures IsOpen(o) ==> (r > 0 <==> OpenAt(o, now))
  {
    if !o.isActive || o.isCheckedOut then 0
    else Max(0, WholeSeconds(LeftMicros(o, now)))
  }

  /**
   The lazy expiry check. It only ever clears `isActive`, and only for an
   order whose flags say open but whose window has run out; it reports
   whether the order is open afterwards.
   */
  function CheckAndExpire(o: Order, now: int): (r: Checked)
    ensures r.open <==> OpenAt(o, now)
    ensures r.open <==> IsOpen(r.order)
    ensures r.order == o.(isActive := r.order.isActive)
    ensures r.order.isActive ==> o.isActive
    ensures r.order.isActive != o.isActive ==> IsOpen(o) && !OpenAt(o, now)
  {
    if o.isActive && !o.isCheckedOut then
      if RemainingSeconds(o, now) <= 0 then Checked(o.(isActive := false), false)
      else Checked(o, o.isActive && !o.isCheckedOut)
    else Checked(o, o.isActive && !o.isCheckedOut)
  }

  /** Running the check twice at the same instant changes nothing more. */
  lemma CheckAndExpireIdempotent(o: Order, now: int)
    ensures CheckAndExpire(CheckAndExpire(o, now).order, now) == CheckAndExpire(o, now)
  {
  }

  /** Once an order is not open it is not open at any later instant. */
  lemma ClosedStaysClosed(o: Order, t: int, t': int)
    requires t <= t'
    requires !OpenAt(o, t)
    ensures !OpenAt(o, t')
    ensures !CheckAndExpire(o, t').open
  {
  }

  /** The remaining time never goes up as the clock advances. */
  lemma RemainingNonIncreasing(o: Order, t: int, t': int)
    requires t <= t'
    ensures RemainingSeconds(o, t') <= RemainingSeconds(o, t)
  {
    if IsOpen(o) {
      var r, r' := RemainingSeconds(o, t), RemainingSeconds(o, t');
      assert r' * MicrosPerSecond <= Max(0, LeftMicros(o, t)) < (r + 1) * MicrosPerSecond;
    }
  }

  /** Once the whole window has elapsed the remaining time is exactly zero. */
  lemma RemainingZeroAfterWindow(o: Order, now: int)
    requires now - o.startTime >= SessionMicros
    ensures RemainingSeconds(o, now) == 0
    ensures !OpenAt(o, now)
  {
  }

  /**
   POST /api/orders/start: a new open order starting now, ending one session
   later, with nothing on it; the reply carries the full window.
   */
  function StartOrder(s: Store, tableNumber: Option<string>, now: int): (r: Reply<OrderView>)
    ensures r.result.Ok?
    ensures var o := r.result.value.order;
      && o.id == s.nextOrderId
      && o.tableNumber == tableNumber
      && o.startTime == now
      && o.endTime - o.startTime == SessionMicros
      && IsOpen(o) && OpenAt(o, now)
      && o.totalAmount == 0 && o.items == []
    ensures r.result.value.remainingSeconds == SessionSeconds
    ensures r.result.value.remainingSeconds == RemainingSeconds(r.result.value.order, now)
    ensures r.store == s.(orders := s.orders[s.nextOrderId := r.result.value.order],
                          nextOrderId := s.nextOrderId + 1)
  {
    var o := Order(s.nextOrderId, tableNumber, now, now + MinutesToMicros(SessionMinutes),
                   true, false, 0, []);
    Reply(s.(orders := s.orders[s.nextOrderId := o], nextOrderId := s.nextOrderId + 1),
          Ok(OrderView(o, SessionSeconds)))
  }

  /**
   GET /api/orders/{id}: the order after the expiry check, with its remaining
   time. The check's flip of `isActive` is committed.

   The handler reads the clock twice: once inside the expiry check (`now`)
   and once more for the reported time (`later`). Time left is only ever
   reported for an order that passed the check, and it is that order's time
   at the second read; an order can pass the check and still report zero
   when its last second ran out between the two reads.
   */
  function GetOrder(s: Store, id: int, now: int, later: int): (r: Reply<OrderView>)
    ensures r.result.Err? <==> id !in s.orders
    ensures r.result.Err? ==> r.result.error == OrderNotFound && r.store == s
    ensures r.result.Ok? ==>
      && r.store == s.(orders := s.orders[id := CheckAndExpire(s.orders[id], now).order])
      && r.result.value.order == r.store.orders[id]
      && (IsOpen(r.result.value.order) <==> OpenAt(s.orders[id], now))
      && (IsOpen(r.result.value.order) ==>
            r.result.value.remainingSeconds == RemainingSeconds(s.orders[id], later))
      && (!IsOpen(r.result.value.order) ==> r.result.value.remainingSeconds == 0)
      && (r.result.value.remainingSeconds > 0 ==> IsOpen(r.result.value.order) && OpenAt(s.orders[id], later))
  {
    if id !in s.orders then Reply(s, Err(OrderNotFound))
    else
      var checked := CheckAndExpire(s.orders[id], now);
      Reply(s.(orders := s.orders[id := checked.order]),
            Ok(OrderView(checked.order, RemainingSeconds(checked.order, later))))
  }

  /**
   When both clock reads of the read endpoint fall on the same instant, time
   is reported exactly for an order that is open, and it is the time the
   order had before the check.
   */
  lemma GetOrderSameInstant(s: Store, id: int, now: int)
    requires id in s.orders
    ensures var v := GetOrder(s, id, now, now).result.value;
      && v.remainingSeconds == RemainingSeconds(s.orders[id], now)
      && (v.remainingSeconds > 0 <==> IsOpen(v.order))
  {
  }

  /**
   The two clock reads can disagree: an open order read with one second left
   at the check and a microsecond less at the second read is returned still
   active, with zero seconds reported.
   */
  lemma GetOrderStraddlesSecond()
    ensures var o := Order(1, None, 0, SessionMicros, true, false, 0, []);
      var s := Store(map[1 := o], map[], 2, 1, 1);
      var v := GetOrder(s, 1, SessionMicros - MicrosPerSecond, SessionMicros - MicrosPerSecond + 1).result.value;
      && v.order.isActive
      && v.remainingSeconds == 0
  {
  }

  /**
   POST /api/orders/{id}/items. Four guards, the first failure wins: the
   order exists, it passes the expiry check, the menu item exists, the menu
   item is available. A rejection by the expiry check keeps the flip of
   `isActive` it committed. On success one line is appended and the total
   grows by the item's current price times the quantity.
   */
  function AddOrderItem(s: Store, orderId: int, menuItemId: int, quantity: int, now: int): (r: Reply<OrderItem>)
    ensures r.result == Err(OrderNotFound) <==> orderId !in s.orders
    ensures r.result == Err(OrderClosed) <==>
      orderId in s.orders && !OpenAt(s.orders[orderId], now)
    ensures r.result == Err(MenuItemNotFound) <==>
      orderId in s.orders && OpenAt(s.orders[orderId], now) && menuItemId !in s.menu
    ensures r.result == Err(ItemUnavailable) <==>
      orderId in s.orders && OpenAt(s.orders[orderId], now) && menuItemId in s.menu
      && !s.menu[menuItemId].isAvailable
    ensures r.result.Ok? <==>
      orderId in s.orders && OpenAt(s.orders[orderId], now) && menuItemId in s.menu
      && s.menu[menuItemId].isAvailable
    ensures r.result.Err? && r.result.error != OrderClosed ==> r.store == s
    ensures r.result == Err(OrderClosed) ==>
      r.store == s.(orders := s.orders[orderId := CheckAndExpire(s.orders[orderId], now).order])
    ensures r.result.Ok? ==>
      var o := s.orders[orderId];
      var line := r.result.value;
      && line == OrderItem(s.nextItemId, orderId, menuItemId, quantity, now)
      && r.store == s.(orders := s.orders[orderId := o.(items := o.items + [line],
                                                        totalAmount := o.totalAmount + s.menu[menuItemId].price * quantity)],
                       nextItemId := s.nextItemId + 1)
  {
    if orderId !in s.orders then Reply(s, Err(OrderNotFound))
    else
      var checked := CheckAndExpire(s.orders[orderId], now);
      var s1 := s.(orders := s.orders[orderId := checked.order]);
      if !checked.open then Reply(s1, Err(OrderClosed))
      else if menuItemId !in s.menu then Reply(s, Err(MenuItemNotFound))
      else if !s.menu[menuItemId].isAvailable then Reply(s, Err(ItemUnavailable))
      else
        var o := checked.order;
        var line := OrderItem(s.nextItemId, orderId, menuItemId, quantity, now);
        var o' := o.(items := o.items + [line],
                     totalAmount := o.totalAmount + s.menu[menuItemId].price * quantity);
        Reply(s.(orders := s.orders[orderId := o'], nextItemId := s.nextItemId + 1), Ok(line))
  }

  /**
   Adding past the end of the window is rejected even when no earlier read
   has cleared the order's `isActive` flag yet.
   */
  lemma AddAfterWindowRejected(s: Store, orderId: int, menuItemId: int, quantity: int, now: int)
    requires orderId in s.orders
    requires now - s.orders[orderId].startTime >= SessionMicros
    requires s.orders[orderId].isCheckedOut ==> !s.orders[orderId].isActive
    ensures AddOrderItem(s, orderId, menuItemId, quantity, now).result == Err(OrderClosed)
    ensures !AddOrderItem(s, orderId, menuItemId, quantity, now).store.orders[orderId].isActive
  {
  }

  /** With a non-negative price and a positive quantity, a successful add never lowers the total. */
  lemma AddGrowsTotal(s: Store, orderId: int, menuItemId: int, quantity: int, now: int)
    requires quantity > 0
    requires menuItemId in s.menu && s.menu[menuItemId].price >= 0
    requires AddOrderItem(s, orderId, menuItemId, quantity, now).result.Ok?
    ensures AddOrderItem(s, orderId, menuItemId, quantity, now).store.orders[orderId].totalAmount
         >= s.orders[orderId].totalAmount
  {
    var p := s.menu[menuItemId].price;
    assert p * quantity >= 0;
  }

  /**
   POST /api/orders/{id}/checkout: closes the order for good and returns its
   total. Allowed on an expired order; refused, with nothing changed, on one
   already checked out. It does not run the expiry check.
   */
  function CheckoutOrder(s: Store, id: int): (r: Reply<int>)
    ensures r.result == Err(OrderNotFound) <==> id !in s.orders
    ensures r.result == Err(AlreadyCheckedOut) <==> id in s.orders && s.orders[id].isCheckedOut
    ensures r.result.Ok? <==> id in s.orders && !s.orders[id].isCheckedOut
    ensures r.result.Err? ==> r.store == s
    ensures r.result.Ok? ==>
      && r.result.value == s.orders[id].totalAmount
      && r.store == s.(orders := s.orders[id := s.orders[id].(isCheckedOut := true, isActive := false)])
  {
    if id !in s.orders then Reply(s, Err(OrderNotFound))
    else if s.orders[id].isCheckedOut then Reply(s, Err(AlreadyCheckedOut))
    else
      var o := s.orders[id].(isCheckedOut := true, isActive := false);
      Reply(s.(orders := s.orders[id := o]), Ok(o.totalAmount))
  }

  /**
   The available items among keys 0 .. n-1, in key order (the table's rowid
   order; the query itself has no ORDER BY).
   */
  function AvailableBelow(menu: map<int, MenuItem>, n: nat): (r: seq<MenuItem>)
    ensures forall k :: 0 <= k < |r| ==> r[k].isAvailable && r[k] in menu.Values
    ensures forall id :: 0 <= id < n && id in menu && menu[id].isAvailable ==> menu[id] in r
  {
    if n == 0 then []
    else
      var rest := AvailableBelow(menu, n - 1);
      if n - 1 in menu && menu[n - 1].isAvailable then rest + [menu[n - 1]] else rest
  }

  /** GET /api/menu: the menu items whose `isAvailable` flag is set. */
  function GetMenu(s: Store): (r: seq<MenuItem>)
    ensures forall k :: 0 <= k < |r| ==> r[k].isAvailable && r[k] in s.menu.Values
    ensures forall id :: 0 <= id < s.nextMenuId && id in s.menu && s.menu[id].isAvailable ==> s.menu[id] in r
  {
    AvailableBelow(s.menu, if s.nextMenuId < 0 then 0 else s.nextMenuId)
  }

  /** In a consistent store the menu lists exactly the available items. */
  lemma GetMenuExact(s: Store, id: int)
    requires MenuKeyed(s)
    requires id in s.menu
    ensures s.menu[id] in GetMenu(s) <==> s.menu[id].isAvailable
  {
    var r := GetMenu(s);
    if s.menu[id] in r {
      var k :| 0 <= k < |r| && r[k] == s.menu[id];
    }
  }

  /**
   When every item sits under its own key, the listing holds keys below the
   bound in strictly ascending order, so it lists no item twice.
   */
  lemma {:induction false} AvailableBelowAscending(menu: map<int, MenuItem>, n: nat)
    requires forall id :: id in menu ==> menu[id].id == id
    ensures forall k :: 0 <= k < |AvailableBelow(menu, n)| ==> 0 <= AvailableBelow(menu, n)[k].id < n
    ensures forall i, j :: 0 <= i < j < |AvailableBelow(menu, n)| ==> AvailableBelow(menu, n)[i].id < AvailableBelow(menu, n)[j].id
  {
    if n > 0 {
      AvailableBelowAscending(menu, n - 1);
      var rest := AvailableBelow(menu, n - 1);
      if n - 1 in menu && menu[n - 1].isAvailable {
        var r := AvailableBelow(menu, n);
        assert r == rest + [menu[n - 1]];
        assert forall k :: 0 <= k < |rest| ==> r[k] == rest[k];
        assert r[|rest|].id == n - 1;
        forall i, j | 0 <= i < j < |r| ensures r[i].id < r[j].id {
          assert r[i].id == rest[i].id;
          if j < |rest| { assert r[j].id == rest[j].id; }
        }
      } else {
        assert AvailableBelow(menu, n) == rest;
      }
    }
  }

  /** In a consistent store the menu is listed in ascending key order, each item once. */
  lemma GetMenuAscending(s: Store)
    requires MenuKeyed(s)
    ensures forall i, j :: 0 <= i < j < |GetMenu(s)| ==> GetMenu(s)[i].id < GetMenu(s)[j].id
  {
    var n := if s.nextMenuId < 0 then 0 else s.nextMenuId;
    assert GetMenu(s) == AvailableBelow(s.menu, n);
    AvailableBelowAscending(s.menu, n);
  }

  /** DELETE /api/menu/{id}: a soft delete that only clears `isAvailable`. */
  function DeleteMenuItem(s: Store, id: int): (r: Reply<()>)
    ensures r.result.Err? <==> id !in s.menu
    ensures r.result.Err? ==> r.result.error == MenuItemNotFound && r.store == s
    ensures r.result.Ok? ==> r.store == s.(menu := s.menu[id := s.menu[id].(isAvailable := false)])
  {
    if id !in s.menu then Reply(s, Err(MenuItemNotFound))
    else Reply(s.(menu := s.menu[id := s.menu[id].(isAvailable := false)]), Ok(()))
  }

  /**
   After a soft delete the item drops off the menu, every other item keeps
   its place on or off it, and no order (nor any of its lines) changes.
   */
  lemma DeleteHidesOnlyThatItem(s: Store, id: int, other: int)
    requires Valid(s)
    requires id in s.menu && other in s.menu && other != id
    ensures var s' := DeleteMenuItem(s, id).store;
      && s'.menu[id] !in GetMenu(s')
      && s'.orders == s.orders
      && (s'.menu[other] in GetMenu(s') <==> s.menu[other] in GetMenu(s))
  {
    var s' := DeleteMenuItem(s, id).store;
    GetMenuExact(s', id);
    GetMenuExact(s', other);
    GetMenuExact(s, other);
  }
}
