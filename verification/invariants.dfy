/**
 What holds of the store across every endpoint: the consistency conditions
 of Records.Valid are preserved, and each order only ever moves forward
 through its lifecycle (Open, then Expired and/or CheckedOut, never back).
 */
module Invariants {
  import opened SessionClock
  import opened Records
  import opened Lifecycle

  /**
   How one order may change from one observation to a later one: its identity
   and window are fixed, it is never reactivated, its lines are only appended
   to, nothing is added once it is inactive, and a checked-out order is frozen.
   */
  ghost predicate OrderEvolves(o: Order, o': Order) {
    && o'.id == o.id
    && o'.tableNumber == o.tableNumber
    && o'.startTime == o.startTime
    && o'.endTime == o.endTime
    && (o'.isActive ==> o.isActive)
    && (o.isCheckedOut ==> o' == o)
    && (!o.isActive ==> o'.items == o.items && o'.totalAmount == o.totalAmount)
    && o.items <= o'.items
  }

  /**
   How the store may change: no order disappears and each evolves; the menu
   keeps its keys and its items, except that an item may be taken off sale.
   */
  ghost predicate StoreEvolves(s: Store, s': Store) {
    && s.orders.Keys <= s'.orders.Keys
    && (forall id :: id in s.orders ==> OrderEvolves(s.orders[id], s'.orders[id]))
    && s'.menu.Keys == s.menu.Keys
    && (forall id :: id in s.menu ==>
          && s'.menu[id] == s.menu[id].(isAvailable := s'.menu[id].isAvailable)
          && (s'.menu[id].isAvailable ==> s.menu[id].isAvailable))
  }

  lemma StoreEvolvesTransitive(s: Store, s': Store, s'': Store)
    requires StoreEvolves(s, s') && StoreEvolves(s', s'')
    ensures StoreEvolves(s, s'')
  {
    forall id | id in s.orders
      ensures OrderEvolves(s.orders[id], s''.orders[id])
    {
      var o, o', o'' := s.orders[id], s'.orders[id], s''.orders[id];
      assert o.items <= o'.items <= o''.items;
    }
  }

  /** Committing the lazy expiry check of one order keeps the store consistent. */
  lemma ExpiryPreservesValid(s: Store, id: int, now: int)
    requires Valid(s) && id in s.orders
    ensures var s' := s.(orders := s.orders[id := CheckAndExpire(s.orders[id], now).order]);
      Valid(s') && StoreEvolves(s, s')
  {
  }

  lemma StartOrderPreservesValid(s: Store, tableNumber: Option<string>, now: int)
    requires Valid(s)
    ensures Valid(StartOrder(s, tableNumber, now).store)
    ensures StoreEvolves(s, StartOrder(s, tableNumber, now).store)
  {
    var s' := StartOrder(s, tableNumber, now).store;
    forall id | id in s'.orders
      ensures OrderConsistent(s'.orders[id], id, s')
    {
      if id != s.nextOrderId {
        var o := s.orders[id];
        assert forall k :: 0 <= k < |o.items| ==> LineConsistent(o.items[k], id, s);
      }
    }
  }

  lemma GetOrderPreservesValid(s: Store, id: int, now: int, later: int)
    requires Valid(s)
    ensures Valid(GetOrder(s, id, now, later).store)
    ensures StoreEvolves(s, GetOrder(s, id, now, later).store)
  {
    if id in s.orders {
      ExpiryPreservesValid(s, id, now);
    }
  }

  /** Appending a fresh line to an open order, and billing it, keeps the store consistent. */
  lemma AppendLinePreservesValid(s: Store, orderId: int, menuItemId: int, quantity: int, now: int)
    requires Valid(s)
    requires orderId in s.orders && IsOpen(s.orders[orderId]) && menuItemId in s.menu
    ensures var o := s.orders[orderId];
      var line := OrderItem(s.nextItemId, orderId, menuItemId, quantity, now);
      var s' := s.(orders := s.orders[orderId := o.(items := o.items + [line],
                                                    totalAmount := o.totalAmount + s.menu[menuItemId].price * quantity)],
                   nextItemId := s.nextItemId + 1);
      Valid(s') && StoreEvolves(s, s')
  {
    var o := s.orders[orderId];
    var line := OrderItem(s.nextItemId, orderId, menuItemId, quantity, now);
    var o' := o.(items := o.items + [line], totalAmount := o.totalAmount + s.menu[menuItemId].price * quantity);
    var s' := s.(orders := s.orders[orderId := o'], nextItemId := s.nextItemId + 1);
    BilledAppend(o.items, line, s.menu);
    forall id | id in s'.orders
      ensures OrderConsistent(s'.orders[id], id, s')
    {
      var p := s.orders[id];
      assert OrderConsistent(p, id, s);
      assert forall k :: 0 <= k < |p.items| ==> LineConsistent(p.items[k], id, s);
      if id == orderId {
        forall k | 0 <= k < |o'.items|
          ensures LineConsistent(o'.items[k], id, s')
        {
          if k < |o.items| {
            assert o'.items[k] == o.items[k];
          }
        }
      }
    }
    assert o.items <= o'.items;
  }

  lemma AddOrderItemPreservesValid(s: Store, orderId: int, menuItemId: int, quantity: int, now: int)
    requires Valid(s)
    ensures Valid(AddOrderItem(s, orderId, menuItemId, quantity, now).store)
    ensures StoreEvolves(s, AddOrderItem(s, orderId, menuItemId, quantity, now).store)
  {
    var r := AddOrderItem(s, orderId, menuItemId, quantity, now);
    if r.result == Err(OrderClosed) {
      ExpiryPreservesValid(s, orderId, now);
    } else if r.result.Ok? {
      AppendLinePreservesValid(s, orderId, menuItemId, quantity, now);
    }
  }

  lemma CheckoutOrderPreservesValid(s: Store, id: int)
    requires Valid(s)
    ensures Valid(CheckoutOrder(s, id).store)
    ensures StoreEvolves(s, CheckoutOrder(s, id).store)
  {
  }

  lemma DeleteMenuItemPreservesValid(s: Store, menuItemId: int)
    requires Valid(s)
    ensures Valid(DeleteMenuItem(s, menuItemId).store)
    ensures StoreEvolves(s, DeleteMenuItem(s, menuItemId).store)
  {
    var s' := DeleteMenuItem(s, menuItemId).store;
    forall id | id in s'.orders
      ensures OrderConsistent(s'.orders[id], id, s')
    {
      var o := s.orders[id];
      assert forall k :: 0 <= k < |o.items| ==> LineConsistent(o.items[k], id, s);
      BilledSamePrices(o.items, s.menu, s'.menu);
    }
  }

  /** One request of the HTTP surface that touches the modelled core. */
  datatype Request =
    | Start(tableNumber: Option<string>, now: int)
    | Get(orderId: int, now: int, later: int)
    | Add(orderId: int, menuItemId: int, quantity: int, now: int)
    | Checkout(orderId: int)
    | ListMenu
    | DeleteItem(menuItemId: int)

  /** The store after serving one request. */
  function Apply(s: Store, q: Request): Store {
    match q
    case Start(t, now) => StartOrder(s, t, now).store
    case Get(id, now, later) => GetOrder(s, id, now, later).store
    case Add(id, m, n, now) => AddOrderItem(s, id, m, n, now).store
    case Checkout(id) => CheckoutOrder(s, id).store
    case ListMenu => s
    case DeleteItem(m) => DeleteMenuItem(s, m).store
  }

  /** The store after serving the requests one after another. */
  function Run(s: Store, qs: seq<Request>): Store
    decreases |qs|
  {
    if |qs| == 0 then s else Run(Apply(s, qs[0]), qs[1..])
  }

  lemma ApplyPreservesValid(s: Store, q: Request)
    requires Valid(s)
    ensures Valid(Apply(s, q)) && StoreEvolves(s, Apply(s, q))
  {
    match q
    case Start(t, now) => StartOrderPreservesValid(s, t, now);
    case Get(id, now, later) => GetOrderPreservesValid(s, id, now, later);
    case Add(id, m, n, now) => AddOrderItemPreservesValid(s, id, m, n, now);
    case Checkout(id) => CheckoutOrderPreservesValid(s, id);
    case ListMenu =>
    case DeleteItem(m) => DeleteMenuItemPreservesValid(s, m);
  }

  /**
   Any sequence of requests keeps the store consistent (in particular no
   order is ever both checked out and active) and moves every order only
   forward.
   */
  lemma {:induction false} RunPreservesValid(s: Store, qs: seq<Request>)
    requires Valid(s)
    ensures Valid(Run(s, qs)) && StoreEvolves(s, Run(s, qs))
    decreases |qs|
  {
    if |qs| > 0 {
      var s1 := Apply(s, qs[0]);
      ApplyPreservesValid(s, qs[0]);
      RunPreservesValid(s1, qs[1..]);
      StoreEvolvesTransitive(s, s1, Run(s1, qs[1..]));
    }
  }

  /** A checked-out order is never changed again, whatever requests follow. */
  lemma CheckedOutIsFinal(s: Store, qs: seq<Request>, id: int)
    requires Valid(s)
    requires id in s.orders && s.orders[id].isCheckedOut
    ensures id in Run(s, qs).orders && Run(s, qs).orders[id] == s.orders[id]
  {
    RunPreservesValid(s, qs);
  }

  /** An inactive order's lines and total never change again, whatever requests follow. */
  lemma InactiveBillIsFrozen(s: Store, qs: seq<Request>, id: int)
    requires Valid(s)
    requires id in s.orders && !s.orders[id].isActive
    ensures id in Run(s, qs).orders
    ensures Run(s, qs).orders[id].items == s.orders[id].items
    ensures Run(s, qs).orders[id].totalAmount == s.orders[id].totalAmount
    ensures !Run(s, qs).orders[id].isActive
  {
    RunPreservesValid(s, qs);
  }
}
