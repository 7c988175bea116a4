/**
 The three persisted record types of the buffet backend, the store that holds
 them keyed by id, the error kinds the endpoints raise, and the consistency
 conditions every reachable store satisfies.

 Prices and totals are integers in the smallest currency unit; timestamps are
 microseconds (see SessionClock).
 */
module Records {
  import opened SessionClock

  datatype Option<+T> = None | Some(value: T)

  /** One line of an order: a quantity of one menu item, added at `createdAt`. */
  datatype OrderItem = OrderItem(
    id: int,
    orderId: int,
    menuItemId: int,
    quantity: int,
    createdAt: int)

  /**
   A dining session. `items` is the order's relationship list; the model keeps
   it in the order the lines were added.
   */
  datatype Order = Order(
    id: int,
    tableNumber: Option<string>,
    startTime: int,
    endTime: int,
    isActive: bool,
    isCheckedOut: bool,
    totalAmount: int,
    items: seq<OrderItem>)

  /** A catalog entry; `isAvailable` is the soft-delete flag. */
  datatype MenuItem = MenuItem(
    id: int,
    name: string,
    category: string,
    price: int,
    imageUrl: Option<string>,
    isAvailable: bool)

  /**
   The database: orders and menu items by primary key, and the next key each
   table will hand out.
   */
  datatype Store = Store(
    orders: map<int, Order>,
    menu: map<int, MenuItem>,
    nextOrderId: int,
    nextItemId: int,
    nextMenuId: int)

  /** The HTTP errors of the order endpoints: the first two are 404s, the rest 400s. */
  datatype Error =
    | OrderNotFound
    | MenuItemNotFound
    | OrderClosed          // "Order has expired or been checked out"
    | ItemUnavailable      // "Menu item is not available"
    | AlreadyCheckedOut    // "Order already checked out"
  {
    predicate IsNotFound() {
      OrderNotFound? || MenuItemNotFound?
    }

    function Status(): (code: int)
      ensures code == 404 <==> IsNotFound()
      ensures code == 400 <==> !IsNotFound()
    {
      if IsNotFound() then 404 else 400
    }
  }

  datatype Result<+T> = Ok(value: T) | Err(error: Error)

  /**
   What an endpoint leaves behind: the store after its commits, and its reply.
   A failed request may still have committed something (a lazy expiry).
   */
  datatype Reply<+T> = Reply(store: Store, result: Result<T>)

  /** Open for ordering as far as the stored flags say. */
  predicate IsOpen(o: Order) {
    o.isActive && !o.isCheckedOut
  }

  /** The bill of a list of order lines at the given catalog's prices. */
  function Billed(items: seq<OrderItem>, menu: map<int, MenuItem>): int
  {
    if |items| == 0 then 0
    else
      var last := items[|items| - 1];
      Billed(items[..|items| - 1], menu)
        + last.quantity * (if last.menuItemId in menu then menu[last.menuItemId].price else 0)
  }

  lemma BilledAppend(items: seq<OrderItem>, item: OrderItem, menu: map<int, MenuItem>)
    ensures Billed(items + [item], menu)
         == Billed(items, menu)
            + item.quantity * (if item.menuItemId in menu then menu[item.menuItemId].price else 0)
  {
    assert (items + [item])[..|items|] == items;
  }

  /** Two catalogs that charge the same for every item an order refers to bill it alike. */
  lemma {:induction false} BilledSamePrices(items: seq<OrderItem>, menu: map<int, MenuItem>, menu': map<int, MenuItem>)
    requires forall k :: 0 <= k < |items| ==> items[k].menuItemId in menu && items[k].menuItemId in menu'
    requires forall k :: 0 <= k < |items| ==> menu[items[k].menuItemId].price == menu'[items[k].menuItemId].price
    ensures Billed(items, menu) == Billed(items, menu')
  {
    if |items| > 0 {
      BilledSamePrices(items[..|items| - 1], menu, menu');
    }
  }

  /** An order line that belongs to order `orderId` and refers to an existing menu item. */
  ghost predicate LineConsistent(it: OrderItem, orderId: int, s: Store) {
    it.orderId == orderId && 1 <= it.id < s.nextItemId && it.menuItemId in s.menu
  }

  /**
   The per-order invariants: a checked-out order is never active, the end time
   is one session after the start, every line belongs here, and the total is
   the bill of the lines.
   */
  ghost predicate OrderConsistent(o: Order, id: int, s: Store) {
    && o.id == id
    && 1 <= id < s.nextOrderId
    && (o.isCheckedOut ==> !o.isActive)
    && o.endTime == o.startTime + SessionMicros
    && (forall k :: 0 <= k < |o.items| ==> LineConsistent(o.items[k], id, s))
    && o.totalAmount == Billed(o.items, s.menu)
  }

  /** Every menu item sits under its own id, below the next id the table hands out. */
  ghost predicate MenuKeyed(s: Store) {
    forall id :: id in s.menu ==> s.menu[id].id == id && 1 <= id < s.nextMenuId
  }

  /** The conditions every store reachable through the endpoints satisfies. */
  ghost predicate Valid(s: Store) {
    && 1 <= s.nextOrderId && 1 <= s.nextItemId && 1 <= s.nextMenuId
    && (forall id :: id in s.orders ==> OrderConsistent(s.orders[id], id, s))
    && MenuKeyed(s)
  }
}
