/**
 The pure decisions of the single-page client: the once-a-second countdown
 step, the guard in front of the add-item request, and which of the four
 screens to show for the order it holds.
 */
module Client {
  import opened SessionClock
  import opened Records

  /** The countdown step: a second less, and nothing once one second or less is left. */
  function Tick(prev: int): (r: int)
    ensures r == Max(0, prev - 1)
    ensures r >= 0
    ensures prev >= 0 ==> r <= prev
    ensures prev > 0 ==> r < prev
  {
    if prev <= 1 then 0 else prev - 1
  }

  /** The countdown after `n` steps. */
  function TickN(prev: int, n: nat): int
    decreases n
  {
    if n == 0 then prev else TickN(Tick(prev), n - 1)
  }

  /** `n` steps take `n` seconds off, down to zero and no further. */
  lemma {:induction false} TickNClamps(prev: int, n: nat)
    ensures n > 0 || prev >= 0 ==> TickN(prev, n) == Max(0, prev - n)
    decreases n
  {
    if n > 0 {
      TickNClamps(Tick(prev), n - 1);
    }
  }

  /** The countdown reaches zero after as many steps as it showed, and stays there. */
  lemma TickNReachesZero(prev: int, n: nat)
    requires n >= prev && (n > 0 || prev >= 0)
    ensures TickN(prev, n) == 0
    ensures TickN(TickN(prev, n), 1) == 0
  {
    TickNClamps(prev, n);
  }

  /** The request the add handler sends: one unit of a menu item, for the held order. */
  datatype ItemRequest = ItemRequest(orderId: int, menuItemId: int, quantity: int)

  /**
   The add handler: no request when there is no order, or the held order is
   inactive or checked out; otherwise one unit of the item.
   */
  function ClientAdd(order: Option<Order>, menuItemId: int): (r: Option<ItemRequest>)
    ensures r.None? <==> order.None? || !order.value.isActive || order.value.isCheckedOut
    ensures r.Some? ==> r.value == ItemRequest(order.value.id, menuItemId, 1)
  {
    if order.None? || !order.value.isActive || order.value.isCheckedOut then None
    else Some(ItemRequest(order.value.id, menuItemId, 1))
  }

  datatype Screen = StartScreen | CheckedOutScreen | ExpiredScreen | OrderingScreen

  /**
   Which screen the client renders: the start screen without an order, then
   the checked-out screen, then the expired screen, else the ordering screen.
   */
  function ScreenFor(order: Option<Order>): (r: Screen)
    ensures r == StartScreen <==> order.None?
    ensures r == CheckedOutScreen <==> order.Some? && order.value.isCheckedOut
    ensures r == ExpiredScreen <==> order.Some? && !order.value.isCheckedOut && !order.value.isActive
    ensures r == OrderingScreen <==> order.Some? && IsOpen(order.value)
  {
    if order.None? then StartScreen
    else if order.value.isCheckedOut then CheckedOutScreen
    else if !order.value.isActive then ExpiredScreen
    else OrderingScreen
  }

  /** The ordering screen is shown exactly when the add handler would send a request. */
  lemma OrderingScreenIffAddAllowed(order: Option<Order>, menuItemId: int)
    ensures ScreenFor(order) == OrderingScreen <==> ClientAdd(order, menuItemId).Some?
  {
  }
}
