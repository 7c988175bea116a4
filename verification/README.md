# Buffet ordering system: the order-session lifecycle in Dafny

This project models the core of a restaurant buffet ordering system. The
backend opens timed dining sessions ("orders") of 105 minutes. Staff add menu
items to a session while it is open. The backend keeps a running bill and
closes the session lazily: only a request that touches the order notices that
its window has run out. A web client shows a countdown, groups the menu by
category and picks one of four screens for the order it holds.

The model has these parts:

- `SessionClock` (`session_clock.dfy`): the one duration constant, and
  Python's truncating `int()` applied to a span of microseconds.
- `Records` (`records.dfy`): the `Order`, `MenuItem` and `OrderItem` records.
  It also holds the store (maps from primary key to record, plus next-key
  counters), the error kinds, and the conditions every reachable store keeps.
- `Lifecycle` (`lifecycle.dfy`): the remaining-time helper, the lazy expiry
  check, and the endpoints start, read, add item, checkout, menu listing and
  soft delete. Each is a pure function returning a `Reply`: the store after
  the endpoint's commits, and either its result or an error.
- `Invariants` (`invariants.dfy`): every endpoint keeps the store consistent.
  Orders only move forward: they are never reactivated, a checked-out order is
  frozen, and an inactive order's bill is frozen. This holds for any sequence
  of requests.
- `ClockText` (`clock_text.dfy`): the client's `mm:ss` countdown text, with a
  parser that reads it back.
- `MenuGroups` (`menu_groups.dfy`): the client's reduce that groups the menu
  by category.
- `Client` (`client.dfy`): the countdown step, the guard in front of the
  add-item request, and the screen precedence.
- `Agreement` (`agreement.dfy`): client decisions checked against backend
  states.
- `Scenario` (`scenario.dfy`): one session traced end to end.

Modelling choices:

- Time is an explicit parameter `now`. It counts integer microseconds, which is
  the resolution of Python's `datetime`.
- `int(remaining)` truncates toward zero, and the model writes that out
  (`WholeSeconds`). Because the expiry check tests this truncated value, a
  session closes as soon as less than one whole second is left (`OpenAt`).
- Prices and totals are integers in the smallest currency unit, not floats.
- Primary keys come from counters kept in the store. They stand in for
  SQLite's rowids.

Behaviour of the code worth knowing:

- Quantity is not validated. Zero or negative quantities are accepted and
  billed as they are.
- The expiry check closes an order once the truncated remaining time is
  `<= 0`, so it closes with less than one second left. It does not wait for
  the whole window to elapse.
- Checkout does not run the expiry check. It closes an order whatever its
  window.
- The read endpoint reads the clock twice: once inside the expiry check and
  once for the reported time. An order that passes the check with its last
  second running out can come back still active with 0 seconds reported
  (`Lifecycle.GetOrderStraddlesSecond`).

## Model

| member | source | states |
|---|---|---|
| SessionClock.WholeSeconds | backend/main.py:129-131 | `int()` of a fractional second count truncates toward zero: for a non-negative span the result is the floor, for a negative one the ceiling |
| SessionClock.DurationSpellingsAgree | backend/main.py:130-167 | the window written as `105 * 60`, as `timedelta(minutes=105)` and as the literal 6300 is one and the same constant |
| Records.BilledAppend | backend/main.py:214-215 | appending a line raises the bill by the line's quantity times the item's price |
| Records.BilledSamePrices | backend/main.py:274-280 | catalogs that charge the same for the items an order refers to bill it alike, so a soft delete never changes an existing bill |
| Lifecycle.RemainingSeconds | backend/main.py:125-131 | 0 for an inactive or checked-out order; otherwise the whole seconds left in the 6300 s window, clamped at 0; at most 6300 once now is at or after the start; positive exactly when at least one whole second is left |
| Lifecycle.CheckAndExpire | backend/main.py:133-140 | reports open iff the order is active, not checked out and has at least one whole second left; changes only `isActive`, only from true to false, only when the window has run out; afterwards the flags agree with the answer |
| Lifecycle.CheckAndExpireIdempotent | backend/main.py:133-140 | running the check twice at the same instant gives the same order and answer as once |
| Lifecycle.ClosedStaysClosed | backend/main.py:134-137 | an order that is not open at some instant is not open at any later instant |
| Lifecycle.RemainingNonIncreasing | backend/main.py:128-131 | the remaining time never increases as the clock advances |
| Lifecycle.RemainingZeroAfterWindow | backend/main.py:128-131 | once the whole window has elapsed the remaining time is exactly 0 and the order is not open |
| Lifecycle.StartOrder | backend/main.py:150-167 | never fails; the new order is active, not checked out, total 0, no lines, starts now, ends one window later, takes the next key; the reply's 6300 equals the remaining time the helper computes at that instant; nothing else in the store changes |
| Lifecycle.GetOrder | backend/main.py:173-185 | NotFound iff the key is absent, with the store unchanged; otherwise commits the expiry check made at the first clock read and returns that order, open iff it was open then; a closed order reports 0, an open one the time left at the second clock read; time is reported only for an order that is open at both reads |
| Lifecycle.GetOrderSameInstant | backend/main.py:173-185 | when both clock reads fall on the same instant, the reported time is the order's time before the check and is positive exactly when the returned order is open |
| Lifecycle.GetOrderStraddlesSecond | backend/main.py:135-182 | an order with one second left at the check and a microsecond less at the second read comes back active with 0 seconds |
| Lifecycle.AddOrderItem | backend/main.py:190-220 | the four guards in order, each error exactly when the earlier guards pass and it fails; only the expiry rejection changes the store, by committing the expiry check; success appends exactly one line with the given item and quantity and adds price times quantity to the total, and nothing else changes |
| Lifecycle.AddAfterWindowRejected | backend/main.py:194-196 | an add after the whole window is rejected as closed even if no read has cleared `isActive` yet, and the order is left inactive |
| Lifecycle.AddGrowsTotal | backend/main.py:214-215 | with a positive quantity and a non-negative price, a successful add never lowers the total |
| Lifecycle.CheckoutOrder | backend/main.py:225-240 | NotFound iff absent; Rejected iff already checked out, with nothing changed; otherwise marks the order checked out and inactive, even after expiry, and returns its unchanged total |
| Lifecycle.AvailableBelow | backend/main.py:245 | lists only available items taken from the catalog, and every available item whose key is below the bound |
| Lifecycle.GetMenu | backend/main.py:245 | every listed item is available and taken from the catalog; every available item whose key is below the menu counter is listed |
| Lifecycle.GetMenuExact | backend/main.py:245 | in a store where every item sits under its own key, an item is listed iff it is available |
| Lifecycle.AvailableBelowAscending | backend/main.py:245 | with every item under its own key, the listing holds keys below the bound in strictly ascending order, so no row is listed twice |
| Lifecycle.GetMenuAscending | backend/main.py:245 | in a consistent store the menu lists each row once, in ascending key order |
| Lifecycle.DeleteMenuItem | backend/main.py:274-280 | NotFound iff absent, with the store unchanged; otherwise only that item's `isAvailable` becomes false |
| Lifecycle.DeleteHidesOnlyThatItem | backend/main.py:274-280 | after a soft delete the item is off the menu, every other item keeps its place on or off it, and no order or order line changes |
| Invariants.ExpiryPreservesValid | backend/main.py:133-140 | committing the expiry check keeps the store consistent and only moves orders forward |
| Invariants.StartOrderPreservesValid | backend/main.py:150-167 | starting an order keeps the store consistent and only moves orders forward |
| Invariants.GetOrderPreservesValid | backend/main.py:173-185 | reading an order keeps the store consistent and only moves orders forward |
| Invariants.AppendLinePreservesValid | backend/main.py:207-217 | appending and billing a fresh line on an open order keeps every line owned by its order, keeps every line pointing at an existing item, and keeps the total equal to the bill |
| Invariants.AddOrderItemPreservesValid | backend/main.py:190-220 | adding an item, successful or not, keeps the store consistent and only moves orders forward |
| Invariants.CheckoutOrderPreservesValid | backend/main.py:229-234 | checkout keeps "checked out implies inactive" and the rest of the store's consistency |
| Invariants.DeleteMenuItemPreservesValid | backend/main.py:274-280 | a soft delete keeps every order's total equal to its bill and every line pointing at an existing item |
| Invariants.ApplyPreservesValid | backend/main.py:147-280 | any one request keeps the store consistent and only moves orders forward |
| Invariants.RunPreservesValid | backend/main.py:147-280 | any sequence of requests keeps the store consistent; in particular no order is ever both checked out and active, and every order only moves forward |
| Invariants.CheckedOutIsFinal | backend/main.py:229-233 | once checked out, an order is never changed by any later requests |
| Invariants.InactiveBillIsFrozen | backend/main.py:194-196 | once inactive, an order never becomes active again, and its lines and total never change |
| ClockText.Decimal | frontend/src/App.jsx:120 | `toString()` gives at least one decimal digit with no leading zero; one digit below 10, at most two below 100 |
| ClockText.DecimalValue | frontend/src/App.jsx:120 | the decimal text of `n` reads back as `n` |
| ClockText.Repeat | frontend/src/App.jsx:120 | the zero fill is `n` copies of the fill character |
| ClockText.PadStart | frontend/src/App.jsx:120 | `padStart` leaves a long enough string alone; otherwise it prefixes the fill character up to exactly the width and keeps the original as the suffix |
| ClockText.LeadingZerosValue | frontend/src/App.jsx:120 | leading zeros do not change the value of a digit string |
| ClockText.PadStartValue | frontend/src/App.jsx:120 | zero padding keeps a digit string a digit string of the same value |
| ClockText.ClockFields | frontend/src/App.jsx:117-119 | `mins * 60 + secs == seconds` and `0 <= secs < 60` |
| ClockText.FormatTime | frontend/src/App.jsx:117-121 | the text is digits, a colon, and exactly two digits; the minutes field has at least two digits |
| ClockText.FormatTimeRoundTrip | frontend/src/App.jsx:117-121 | the countdown text reads back as exactly the seconds it shows |
| ClockText.FormatTimeInjective | frontend/src/App.jsx:117-121 | different second counts never show the same text |
| ClockText.FormatTimeWidth | frontend/src/App.jsx:120 | below 100 minutes the text is exactly five characters |
| MenuGroups.AddToGroups | frontend/src/App.jsx:125-128 | one reducer step keeps the keys distinct and in insertion order, adding the item's category as the last key only when it was missing |
| MenuGroups.AddToGroupsMembers | frontend/src/App.jsx:125-128 | one reducer step appends the item to its own category's list and leaves every other category's list alone; the count grows by one |
| MenuGroups.AddToGroupsNonEmpty | frontend/src/App.jsx:125-128 | a reducer step never leaves a key without items |
| MenuGroups.AddToGroupsKeys | frontend/src/App.jsx:125-127 | a reducer step adds a key exactly when the item's category had none |
| MenuGroups.GroupByCategory | frontend/src/App.jsx:124-130 | keys are distinct and none is empty; the list under each category is exactly the menu's items of that category in menu order; the total count equals the menu length |
| MenuGroups.GroupKeysFirstSeen | frontend/src/App.jsx:124-130 | the keys, as `Object.keys` lists them, are the menu's categories in the order they first appear, each once |
| MenuGroups.GroupHomogeneous | frontend/src/App.jsx:124-130 | every item in a group has that group's category and comes from the menu |
| MenuGroups.ItemInOwnGroup | frontend/src/App.jsx:124-130 | every menu item sits in the group keyed by its own category |
| Client.Tick | frontend/src/App.jsx:98-110 | one step yields `max(0, prev - 1)`; never negative, never above a non-negative `prev`, strictly below a positive one |
| Client.TickNClamps | frontend/src/App.jsx:98-110 | `n` steps yield `max(0, prev - n)` |
| Client.TickNReachesZero | frontend/src/App.jsx:98-110 | after at least as many steps as the starting value the countdown is 0 and stays 0 |
| Client.ClientAdd | frontend/src/App.jsx:46-56 | no request iff there is no order, or it is inactive or checked out; otherwise one unit of the item for the held order |
| Client.ScreenFor | frontend/src/App.jsx:133-191 | start screen iff no order; then checked-out screen iff checked out; then expired screen iff inactive; ordering screen iff active and not checked out |
| Client.OrderingScreenIffAddAllowed | frontend/src/App.jsx:47-50 | the ordering screen is shown exactly when the add handler would send a request |
| Agreement.CountdownMatchesServer | frontend/src/App.jsx:98-110 | starting from the backend's remaining time, `n` client steps show exactly what the backend reports `n` seconds later |
| Agreement.ClientGuardSound | frontend/src/App.jsx:47-50 | when the client holding the stored order sends no add, the backend would have rejected the add as closed |
| Agreement.ClientGuardNotComplete | frontend/src/App.jsx:47-50 | an order the client still sees as open can be rejected because its window has run out |
| Agreement.ClientAddBillsOneUnit | frontend/src/App.jsx:53-56 | an add the client sends and the backend accepts raises the total by exactly one unit's price |
| Agreement.ScreenMatchesTimer | frontend/src/App.jsx:191 | for an order as the read endpoint returns it, the ordering screen is shown exactly when the order passed the expiry check; reported time left always comes with the ordering screen; when both clock reads fall on the same instant, the ordering screen is shown exactly when time is left |
| Agreement.ScreenAfterCheckout | frontend/src/App.jsx:162 | after a checkout, reading the order gives the checked-out screen and 0 seconds |
| Agreement.ScreenAfterWindow | frontend/src/App.jsx:191 | reading an order that is not checked out, once its window has run out, gives the expired screen and the text "00:00" |
| Agreement.StartShowsFullWindow | frontend/src/App.jsx:34-35 | a new order gives the ordering screen with "105:00" on the clock |
| Scenario.LapsedSessionStillChecksOut | backend/main.py:147-240 | start, add two at price 50 (total 100), read after 6301 s (inactive, 0 s), add again (rejected as closed), check out (returns 100) |

## Left out

- Persistence: SQLAlchemy engine, sessions, table creation, `commit` and `refresh`. A commit is a map update in the returned store.
- HTTP: FastAPI routing, CORS, `HTTPException` mechanics, pydantic schemas, response serialisation and uvicorn startup. An HTTP error is an `Error` value; `Error.Status` gives its 404 or 400 code.
- Floating point: prices and totals are integers in the smallest currency unit. `total_seconds()` returns a float, and most microsecond counts (0.1 s, say) are not exactly representable. For any elapsed time short of decades the rounding error is far below a microsecond, so `int(6300 - elapsed)` equals the integer truncation the model computes. Float rounding on larger spans is not modelled.
- The wall clock: `datetime.utcnow()` is the `now` parameter. An order line's `created_at` uses the same `now` as the request.
- Key assignment: keys come from counters in the store. SQLite's own rowid choice is not modelled.
- Concurrency: requests are served one at a time. Lost updates on `total_amount` between concurrent adds are out of scope.
- `create_menu_item`, `update_menu_item`, `seed_data` and the root endpoint are catalog plumbing and are not modelled. The catalog is whatever a consistent store holds. Because nothing changes a price, an order's total always equals its bill.
- Lifecycle.GetMenu: lists items in ascending key order (Lifecycle.GetMenuAscending), which the query itself does not promise (it has no ORDER BY). It also covers only keys below the menu counter. In a consistent store that is every key (Lifecycle.GetMenuExact).
- Order lines: the `items` relationship has no `order_by`, so the order in which it lists an order's lines is not promised. The model keeps the lines in the order they were added. The bill does not depend on that order, but `Invariants.OrderEvolves` ("earlier lines stay a prefix") and `Invariants.InactiveBillIsFrozen` ("the lines never change") rely on it.
- Lifecycle.AddGrowsTotal: assumes a positive quantity and a non-negative price, because the source validates neither.
- ClockText.FormatTime: takes non-negative seconds only. The countdown step and the backend never produce a negative value, so JavaScript's text for negatives is not modelled.
- MenuGroups.GroupByCategory: keys are kept in first-insertion order. JavaScript lists integer-like keys first; category names are not integer-like, so that ordering is not modelled. The accumulator is a plain `{}`, so a category named like an inherited `Object.prototype` member ("constructor", "toString", "valueOf", "__proto__") makes `!acc[category]` see a truthy value and `push` throw a TypeError. The model (`AddToGroups`) groups such an item like any other: it assumes category names do not clash with those members.
- MenuGroups.AddToGroups: the same assumption; a step on a category named like an `Object.prototype` member throws in the client but is an ordinary step here.
- Client side effects: the refetch when the countdown reaches 1, the axios calls, React state and effects, the `setInterval` scheduling, the under-five-minutes warning style, JSX rendering and CSS.
