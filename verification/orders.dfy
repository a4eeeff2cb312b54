/**
 Café orders: a user places an order of menu items, café staff move it
 through its statuses, and the owner or staff can look at it. Prices are
 integer cents.
 */
module Orders {
  import opened Common

  /** The menu: item id to price in cents. */
  type Menu = map<int, int>

  /** One line of an order request. Quantities are not validated. */
  datatype Line = Line(itemId: int, quantity: int)

  datatype Order = Order(
    userId: int,
    orderDate: int,
    total: int,
    orderType: string,
    status: string,
    confirmedAt: Option<int>,
    completedAt: Option<int>)

  /** An order line row, tied to its order by id. */
  datatype OrderItem = OrderItem(orderId: nat, itemId: int, quantity: int)

  datatype Payment = Payment(orderId: nat, userId: int, amount: int, paymentMethod: string, paidAt: int)

  /** The orders, order lines and payments tables. */
  datatype Cafe = Cafe(orders: seq<Order>, items: seq<OrderItem>, payments: seq<Payment>)

  const PENDING_TITLE := "Order Received! ☕"
  const CONFIRMED_TITLE := "Order Confirmed! 👍"
  const IN_PROGRESS_TITLE := "Order In Progress! ☕"
  const DONE_TITLE := "✅ Order Ready! Come Pick Up!"

  const PENDING := "Pending"
  const CONFIRMED := "Confirmed"
  const IN_PROGRESS := "InProgress"
  const DONE := "Done"

  const DEFAULT_ORDER_TYPE := "pickup"
  const DEFAULT_PAYMENT := "cash"

  // ---------------------------------------------------------------------
  // Total
  // ---------------------------------------------------------------------

  /** Every line names an item on the menu. */
  predicate AllOnMenu(menu: Menu, lines: seq<Line>) {
    forall k :: 0 <= k < |lines| ==> lines[k].itemId in menu
  }

  /** The reference total: the sum over the lines of price times quantity. */
  function Sum(menu: Menu, lines: seq<Line>): int
    requires AllOnMenu(menu, lines)
  {
    if |lines| == 0 then 0
    else Sum(menu, lines[..|lines| - 1]) + menu[lines[|lines| - 1].itemId] * lines[|lines| - 1].quantity
  }

  /** The total of two line lists placed together is the sum of their totals. */
  lemma {:induction false} SumAppend(menu: Menu, a: seq<Line>, b: seq<Line>)
    requires AllOnMenu(menu, a) && AllOnMenu(menu, b)
    ensures AllOnMenu(menu, a + b)
    ensures Sum(menu, a + b) == Sum(menu, a) + Sum(menu, b)
    decreases |b|
  {
    assert AllOnMenu(menu, a + b) by {
      forall k | 0 <= k < |a + b| ensures (a + b)[k].itemId in menu {
        if k >= |a| { assert (a + b)[k] == b[k - |a|]; }
      }
    }
    if |b| == 0 {
      assert a + b == a;
    } else {
      var n := |b| - 1;
      assert (a + b)[..|a + b| - 1] == a + b[..n];
      assert (a + b)[|a + b| - 1] == b[n];
      assert AllOnMenu(menu, b[..n]) by {
        forall k | 0 <= k < n ensures b[..n][k].itemId in menu { assert b[..n][k] == b[k]; }
      }
      SumAppend(menu, a, b[..n]);
    }
  }

  /** The outcome of pricing: the total, or the index of the first line not on the menu. */
  datatype Result = Priced(total: int) | Unknown(at: nat)

  /**
   Prices every line of the request in order, stopping at the first item
   not on the menu, which is reported; otherwise the total is the sum of
   price times quantity.
   */
  method PriceLines(menu: Menu, lines: seq<Line>) returns (r: Result)
    ensures r.Priced? <==> AllOnMenu(menu, lines)
    ensures r.Priced? ==> r.total == Sum(menu, lines)
    ensures r.Unknown? ==>
      (0 <= r.at < |lines| && lines[r.at].itemId !in menu && AllOnMenu(menu, lines[..r.at]))
  {
    var total := 0;
    var i := 0;
    while i < |lines|
      invariant 0 <= i <= |lines|
      invariant AllOnMenu(menu, lines[..i])
      invariant total == Sum(menu, lines[..i])
    {
      if lines[i].itemId !in menu {
        return Unknown(i);
      }
      assert lines[..i + 1][..i] == lines[..i];
      total := total + menu[lines[i].itemId] * lines[i].quantity;
      i := i + 1;
    }
    assert lines[..i] == lines;
    return Priced(total);
  }

  // ---------------------------------------------------------------------
  // Create
  // ---------------------------------------------------------------------

  datatype CreateError = NoItems | UnknownItem(itemId: int)

  /** The payment method recorded: "cash" when none or an empty one is given. */
  function PaymentMethod(given: Option<string>): (m: string)
    ensures m == DEFAULT_PAYMENT <==> given.None? || given.value == "" || given.value == DEFAULT_PAYMENT
    ensures m != DEFAULT_PAYMENT ==> given == Some(m)
  {
    if given.None? || given.value == "" then DEFAULT_PAYMENT else given.value
  }

  /**
   Places an order. An anonymous caller, a missing or empty item list, or
   any item not on the menu rejects the whole order and stores nothing.
   Otherwise one Pending order is stored with the summed total and the
   order type (default "pickup" when none is given), one line row per
   requested line, and one payment of the total; the owner is notified.
   */
  method CreateOrder(cafe: Cafe, menu: Menu, caller: int, lines: Option<seq<Line>>,
                     orderType: Option<string>, payment: Option<string>, now: int)
    returns (r: Step<Cafe, nat, CreateError>)
    ensures caller == ANONYMOUS ==> r.response.Unauthorized?
    ensures caller != ANONYMOUS && (lines.None? || |lines.value| == 0) ==> r.response == BadRequest(NoItems)
    ensures r.response.Ok? <==> caller != ANONYMOUS && lines.Some? && |lines.value| > 0 && AllOnMenu(menu, lines.value)
    ensures caller != ANONYMOUS && lines.Some? && |lines.value| > 0 && !AllOnMenu(menu, lines.value) ==>
      r.response.BadRequest? && r.response.error.UnknownItem?
    ensures r.response.BadRequest? && r.response.error.UnknownItem? ==>
      exists k :: 0 <= k < |lines.value| && lines.value[k].itemId == r.response.error.itemId
        && r.response.error.itemId !in menu && AllOnMenu(menu, lines.value[..k])
    ensures !r.response.Ok? ==> r.state == cafe && r.notices == []
    ensures r.response.Ok? ==>
      var id := |cafe.orders| + 1;
      var total := Sum(menu, lines.value);
      && r.response.value == id
      && r.state.orders == cafe.orders + [Order(caller, now, total,
           if orderType.Some? then orderType.value else DEFAULT_ORDER_TYPE, PENDING, None, None)]
      && |r.state.items| == |cafe.items| + |lines.value| && r.state.items[..|cafe.items|] == cafe.items
      && (forall k :: 0 <= k < |lines.value| ==>
            r.state.items[|cafe.items| + k] == OrderItem(id, lines.value[k].itemId, lines.value[k].quantity))
      && r.state.payments == cafe.payments + [Payment(id, caller, total, PaymentMethod(payment), now)]
      && r.notices == [Notice(caller, PENDING_TITLE, "order_pending", id)]
  {
    if caller == ANONYMOUS {
      return Reject(Unauthorized, cafe);
    }
    if lines.None? || |lines.value| == 0 {
      return Reject(BadRequest(NoItems), cafe);
    }
    var priced := PriceLines(menu, lines.value);
    if priced.Unknown? {
      return Reject(BadRequest(UnknownItem(lines.value[priced.at].itemId)), cafe);
    }
    var total := priced.total;
    var id := |cafe.orders| + 1;
    var order := Order(caller, now, total,
      if orderType.Some? then orderType.value else DEFAULT_ORDER_TYPE, PENDING, None, None);
    var newItems := seq(|lines.value|, k requires 0 <= k < |lines.value| =>
      OrderItem(id, lines.value[k].itemId, lines.value[k].quantity));
    var cafe' := Cafe(cafe.orders + [order], cafe.items + newItems,
      cafe.payments + [Payment(id, caller, total, PaymentMethod(payment), now)]);
    assert cafe'.items[..|cafe.items|] == cafe.items;
    return Step(Ok(id), cafe', [Notice(caller, PENDING_TITLE, "order_pending", id)]);
  }

  // ---------------------------------------------------------------------
  // Status changes by staff
  // ---------------------------------------------------------------------

  datatype ConfirmError = NotPending

  /**
   Café staff or an admin confirm an order. Any other role is refused
   first, then an unknown order; only a Pending order can be confirmed:
   it becomes Confirmed with `confirmedAt` stamped and its owner is
   notified. Anything else is refused with no change.
   */
  function ConfirmOrder(cafe: Cafe, role: string, id: int, now: int): (r: Step<Cafe, (), ConfirmError>)
    ensures !IsStaffOrAdmin(role) ==> r.response.Forbid?
    ensures IsStaffOrAdmin(role) && !IsId(|cafe.orders|, id) ==> r.response.NotFound?
    ensures r.response.Ok? <==> IsStaffOrAdmin(role) && IsId(|cafe.orders|, id) && cafe.orders[id - 1].status == PENDING
    ensures IsStaffOrAdmin(role) && IsId(|cafe.orders|, id) && cafe.orders[id - 1].status != PENDING ==>
      r.response == BadRequest(NotPending)
    ensures !r.response.Ok? ==> r.state == cafe && r.notices == []
    ensures r.response.Ok? ==>
      && r.state == cafe.(orders := cafe.orders[id - 1 := cafe.orders[id - 1].(status := CONFIRMED, confirmedAt := Some(now))])
      && r.notices == [Notice(cafe.orders[id - 1].userId, CONFIRMED_TITLE, "order_confirmed", id)]
  {
    if !IsStaffOrAdmin(role) then Reject(Forbid, cafe)
    else if !IsId(|cafe.orders|, id) then Reject(NotFound, cafe)
    else
      var o := cafe.orders[id - 1];
      if o.status != PENDING then Reject(BadRequest(NotPending), cafe)
      else
        Step(Ok(()), cafe.(orders := cafe.orders[id - 1 := o.(status := CONFIRMED, confirmedAt := Some(now))]),
             [Notice(o.userId, CONFIRMED_TITLE, "order_confirmed", id)])
  }

  /**
   Café staff or an admin mark an order in progress. There is no guard on
   the current status: any existing order, even a Done one, becomes
   InProgress, and its owner is notified.
   */
  function MarkInProgress(cafe: Cafe, role: string, id: int): (r: Step<Cafe, (), ()>)
    ensures !IsStaffOrAdmin(role) ==> r.response.Forbid?
    ensures r.response.Ok? <==> IsStaffOrAdmin(role) && IsId(|cafe.orders|, id)
    ensures IsStaffOrAdmin(role) && !IsId(|cafe.orders|, id) ==> r.response.NotFound?
    ensures !r.response.Ok? ==> r.state == cafe && r.notices == []
    ensures r.response.Ok? ==>
      && r.state == cafe.(orders := cafe.orders[id - 1 := cafe.orders[id - 1].(status := IN_PROGRESS)])
      && r.notices == [Notice(cafe.orders[id - 1].userId, IN_PROGRESS_TITLE, "order_inprogress", id)]
  {
    if !IsStaffOrAdmin(role) then Reject(Forbid, cafe)
    else if !IsId(|cafe.orders|, id) then Reject(NotFound, cafe)
    else
      var o := cafe.orders[id - 1];
      Step(Ok(()), cafe.(orders := cafe.orders[id - 1 := o.(status := IN_PROGRESS)]),
           [Notice(o.userId, IN_PROGRESS_TITLE, "order_inprogress", id)])
  }

  /**
   Café staff or an admin mark an order done, from any status, stamping
   `completedAt` and notifying the owner.
   */
  function MarkDone(cafe: Cafe, role: string, id: int, now: int): (r: Step<Cafe, (), ()>)
    ensures !IsStaffOrAdmin(role) ==> r.response.Forbid?
    ensures r.response.Ok? <==> IsStaffOrAdmin(role) && IsId(|cafe.orders|, id)
    ensures IsStaffOrAdmin(role) && !IsId(|cafe.orders|, id) ==> r.response.NotFound?
    ensures !r.response.Ok? ==> r.state == cafe && r.notices == []
    ensures r.response.Ok? ==>
      && r.state == cafe.(orders := cafe.orders[id - 1 := cafe.orders[id - 1].(status := DONE, completedAt := Some(now))])
      && r.notices == [Notice(cafe.orders[id - 1].userId, DONE_TITLE, "order_done", id)]
  {
    if !IsStaffOrAdmin(role) then Reject(Forbid, cafe)
    else if !IsId(|cafe.orders|, id) then Reject(NotFound, cafe)
    else
      var o := cafe.orders[id - 1];
      Step(Ok(()), cafe.(orders := cafe.orders[id - 1 := o.(status := DONE, completedAt := Some(now))]),
           [Notice(o.userId, DONE_TITLE, "order_done", id)])
  }

  /** An admin sets any status string on an existing order; nobody is notified. */
  function UpdateStatus(cafe: Cafe, role: string, id: int, status: string): (r: Step<Cafe, (), ()>)
    ensures r.notices == []
    ensures role != ADMIN ==> r.response.Forbid?
    ensures role == ADMIN && !IsId(|cafe.orders|, id) ==> r.response.NotFound?
    ensures r.response.Ok? <==> role == ADMIN && IsId(|cafe.orders|, id)
    ensures !r.response.Ok? ==> r.state == cafe
    ensures r.response.Ok? ==> r.state == cafe.(orders := cafe.orders[id - 1 := cafe.orders[id - 1].(status := status)])
  {
    if role != ADMIN then Reject(Forbid, cafe)
    else if !IsId(|cafe.orders|, id) then Reject(NotFound, cafe)
    else Step(Ok(()), cafe.(orders := cafe.orders[id - 1 := cafe.orders[id - 1].(status := status)]), [])
  }

  /**
   The status machine the staff actions give: a guarded Pending to
   Confirmed step, and unguarded moves to InProgress and Done from any
   status, so Done is not final and a confirmed order can be confirmed only
   once.
   */
  lemma StaffTransitions(cafe: Cafe, role: string, id: int, now: int)
    requires IsStaffOrAdmin(role) && IsId(|cafe.orders|, id)
    ensures MarkInProgress(cafe, role, id).response.Ok?
    ensures MarkDone(cafe, role, id, now).response.Ok?
    ensures var c := MarkDone(cafe, role, id, now).state;
      MarkInProgress(c, role, id).state.orders[id - 1].status == IN_PROGRESS
    ensures var c := ConfirmOrder(cafe, role, id, now).state;
      ConfirmOrder(c, role, id, now).response == BadRequest(NotPending)
  {
  }

  // ---------------------------------------------------------------------
  // Queries
  // ---------------------------------------------------------------------

  /** Still to be served: Pending, Confirmed or InProgress. */
  predicate IsOpen(o: Order) {
    o.status == PENDING || o.status == CONFIRMED || o.status == IN_PROGRESS
  }

  function OpenOrder(): Order -> bool {
    (o: Order) => IsOpen(o)
  }

  /**
   The staff's queue: exactly the ids of the orders still to be served, in
   id order (the order they were placed in). Other roles are refused.
   */
  function PendingOrders(cafe: Cafe, role: string): (r: Response<seq<nat>, ()>)
    ensures !IsStaffOrAdmin(role) <==> r.Forbid?
    ensures IsStaffOrAdmin(role) ==> r.Ok?
    ensures r.Ok? ==> forall k :: 0 <= k < |r.value| ==>
      IsId(|cafe.orders|, r.value[k]) && IsOpen(cafe.orders[r.value[k] - 1])
    ensures r.Ok? ==> forall i :: 0 <= i < |cafe.orders| && IsOpen(cafe.orders[i]) ==> i + 1 in r.value
    ensures r.Ok? ==> forall k, l :: 0 <= k < l < |r.value| ==> r.value[k] < r.value[l]
  {
    if !IsStaffOrAdmin(role) then Forbid
    else Ok(IdsWhere(cafe.orders, OpenOrder()))
  }

  /** Who may see an order: its owner, an admin, or café staff. */
  function GetOrder(cafe: Cafe, caller: int, role: string, id: int): (r: Response<Order, ()>)
    ensures !IsId(|cafe.orders|, id) <==> r.NotFound?
    ensures r.Ok? <==> IsId(|cafe.orders|, id) && (cafe.orders[id - 1].userId == caller || IsStaffOrAdmin(role))
    ensures r.Forbid? <==> IsId(|cafe.orders|, id) && cafe.orders[id - 1].userId != caller && !IsStaffOrAdmin(role)
    ensures r.Ok? ==> r.value == cafe.orders[id - 1]
  {
    if !IsId(|cafe.orders|, id) then NotFound
    else if cafe.orders[id - 1].userId != caller && role != ADMIN && role != CAFE_STAFF then Forbid
    else Ok(cafe.orders[id - 1])
  }

  /** Staff and admins can open every order their queue lists. */
  lemma QueueOrdersVisible(cafe: Cafe, caller: int, role: string)
    requires IsStaffOrAdmin(role)
    ensures var queue := PendingOrders(cafe, role).value;
      forall k :: 0 <= k < |queue| ==>
        GetOrder(cafe, caller, role, queue[k]).Ok? && IsOpen(GetOrder(cafe, caller, role, queue[k]).value)
  {
  }
}
