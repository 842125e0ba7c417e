/**
 * The two-state payment ledger of the admin page (`pending` / `paid`, keyed by
 * order identifier), the order identifier itself, and the list of orders of the
 * selected week still waiting to be paid.
 */
module Payments {
  import opened Wrappers
  import opened Storage
  import opened Text
  import opened Decimal
  import opened Sorting
  import opened AuditLogs
  import opened Weeks

  /** `loadPaymentStates`: the stored object, or `{}` for a missing, malformed, array or non-object value. */
  function PaymentStates(slot: Slot<map<string, PaymentRecord>>): (r: map<string, PaymentRecord>)
    ensures slot.Value? ==> r == slot.v
    ensures !slot.Value? ==> r == map[]
  {
    if slot.Value? then slot.v else map[]
  }

  /** Anything but 'paid' is 'pending'. */
  function SanitizeStatus(status: string): (r: string)
    ensures r == "paid" || r == "pending"
    ensures r == "paid" <==> status == "paid"
  {
    if status == "paid" then "paid" else "pending"
  }

  /** `states[orderId]?.status ?? 'pending'`. */
  function StatusOf(states: map<string, PaymentRecord>, orderId: string): string {
    if orderId in states && states[orderId].status.Some? then states[orderId].status.value else "pending"
  }

  /** The trimmed admin name, or 'Administrador' when it is blank. */
  function SafeAdminName(adminName: string): (r: string)
    ensures r != []
    ensures Trim(adminName) != [] ==> r == Trim(adminName)
  {
    if Trim(adminName) != [] then Trim(adminName) else "Administrador"
  }

  /** `getOrderIdentifier`: `String(timestamp)` for a positive finite timestamp, otherwise `null`. */
  function OrderIdentifier(o: Order): (r: Option<string>)
    ensures r.Some? <==> o.OrderObject? && o.timestamp.Some? && o.timestamp.value > 0
  {
    if o.OrderObject? && o.timestamp.Some? && o.timestamp.value > 0 then Some(NatToString(o.timestamp.value)) else None
  }

  /** Two orders share an identifier exactly when they carry the same positive timestamp; the identifier reads back as it. */
  lemma OrderIdentifierSpec(a: Order, b: Order)
    requires OrderIdentifier(a).Some? && OrderIdentifier(b).Some?
    ensures OrderIdentifier(a) == OrderIdentifier(b) <==> a.timestamp == b.timestamp
    ensures AllDigits(OrderIdentifier(a).value) && ParseDigits(OrderIdentifier(a).value) == a.timestamp.value
  {
    NatToStringInjective(a.timestamp.value, b.timestamp.value);
    ParseRender(a.timestamp.value);
  }

  /**
   * The write `updatePaymentState` performs: `None` (return false, nothing written)
   * for an empty order id or when the sanitised status equals the current one.
   */
  function PaymentUpdate(states: map<string, PaymentRecord>, orderId: string, status: string,
                         adminName: string, now: int): Option<map<string, PaymentRecord>>
  {
    if orderId == [] || SanitizeStatus(status) == StatusOf(states, orderId) then None
    else Some(states[orderId := PaymentRecord(Some(SanitizeStatus(status)), now, SafeAdminName(adminName))])
  }

  /**
   * A write happens exactly when the order id is non-empty and the status changes;
   * it sets that order's status and leaves every other order's record unchanged.
   */
  lemma PaymentUpdateSpec(states: map<string, PaymentRecord>, orderId: string, status: string, adminName: string, now: int)
    ensures PaymentUpdate(states, orderId, status, adminName, now).Some? <==>
      orderId != [] && SanitizeStatus(status) != StatusOf(states, orderId)
    ensures var r := PaymentUpdate(states, orderId, status, adminName, now);
      r.Some? ==>
        && StatusOf(r.value, orderId) == SanitizeStatus(status)
        && r.value[orderId] == PaymentRecord(Some(SanitizeStatus(status)), now, SafeAdminName(adminName))
        && r.value.Keys == states.Keys + {orderId}
        && (forall k :: k in states && k != orderId ==> r.value[k] == states[k])
  {
  }

  /** Repeating an update that took effect is a no-op. */
  lemma PaymentUpdateIdempotent(states: map<string, PaymentRecord>, orderId: string, status: string,
                                adminName: string, now: int, later: int)
    requires PaymentUpdate(states, orderId, status, adminName, now).Some?
    ensures PaymentUpdate(PaymentUpdate(states, orderId, status, adminName, now).value, orderId, status, adminName, later).None?
  {
  }

  /** Only a change from anything but 'paid' to 'paid' is logged. */
  lemma OnlyPaidIsLogged(states: map<string, PaymentRecord>, orderId: string, status: string, adminName: string, now: int)
    ensures PaymentUpdate(states, orderId, status, adminName, now).Some? && SanitizeStatus(status) == "paid"
      <==> orderId != [] && status == "paid" && StatusOf(states, orderId) != "paid"
  {
  }

  /** The payment-log text: `Marcó como cobrado el pedido de <store> (<quantity> × <crate>)< (total estimado $)>`. */
  function PaidAction(order: Option<Order>, money: int -> string): (r: string)
    ensures r != []
  {
    var storeName :=
      if order.Some? && order.value.OrderObject? && order.value.storeName.Some? && Trim(order.value.storeName.value) != []
      then Trim(order.value.storeName.value) else "Cliente sin nombre";
    var crateLabel := if order.Some? && order.value.OrderObject? && order.value.crateSize.Some? then order.value.crateSize.value else "Pedido";
    var quantityLabel :=
      if order.Some? && order.value.OrderObject? && order.value.quantity.Some? && order.value.quantity.value > 0
      then NatToString(order.value.quantity.value) + " \U{00D7} " + crateLabel else crateLabel;
    var totalFragment :=
      if order.Some? && order.value.OrderObject? && order.value.totalPrice.Some? && order.value.totalPrice.value > 0
      then " (total estimado " + money(order.value.totalPrice.value) + ")" else "";
    "Marc\U{00F3} como cobrado el pedido de " + storeName + " (" + quantityLabel + ")" + totalFragment
  }

  /**
   * `updatePaymentState`: writes the new record when the status changes and, only for
   * a change to 'paid', appends to the payment log. The currency formatting of the
   * log text is the parameter `money`.
   */
  method UpdatePaymentState(st: Store, orderId: string, status: string, adminName: string,
                            order: Option<Order>, now: int, money: int -> string) returns (updated: bool)
    modifies st`payments, st`paymentLogs
    ensures updated == PaymentUpdate(PaymentStates(old(st.payments)), orderId, status, adminName, now).Some?
    ensures updated ==> st.payments == Value(PaymentUpdate(PaymentStates(old(st.payments)), orderId, status, adminName, now).value)
    ensures !updated ==> st.payments == old(st.payments)
    ensures updated && SanitizeStatus(status) == "paid" ==>
      st.paymentLogs == Value(Appended(Items(old(st.paymentLogs)),
                                       LogEntry(PaidAction(order, money), SafeAdminName(adminName), now), PaymentLogCap))
    ensures !(updated && SanitizeStatus(status) == "paid") ==> st.paymentLogs == old(st.paymentLogs)
  {
    if orderId == [] {
      return false;
    }
    var sanitizedStatus := SanitizeStatus(status);
    var states := PaymentStates(st.payments);
    var previousStatus := StatusOf(states, orderId);
    if previousStatus == sanitizedStatus {
      return false;
    }
    var safeAdminName := SafeAdminName(adminName);
    states := states[orderId := PaymentRecord(Some(sanitizedStatus), now, safeAdminName)];
    st.payments := Value(states);
    if sanitizedStatus == "paid" {
      AppendPaymentLog(st, PaidAction(order, money), Some(safeAdminName), now);
    }
    return true;
  }

  // ---------------------------------------------------------------- pending orders of a week

  /** `activePaymentWeekKey` after a refresh: kept when still offered, otherwise the latest week. */
  function ActiveWeekKey(options: seq<Week>, active: Option<int>): (r: Option<int>)
    ensures r.None? <==> options == []
    ensures r.Some? ==> exists w :: w in options && w.start == r.value
    ensures active.Some? && (exists w :: w in options && w.start == active.value) ==> r == active
    ensures options != [] && !(active.Some? && exists w :: w in options && w.start == active.value) ==> r == Some(options[0].start)
  {
    if options == [] then None
    else if active.Some? && exists w :: w in options && w.start == active.value then active
    else Some(options[0].start)
  }

  /** The filter of `refreshPaymentsView`: an object (`order?.timestamp`) with a finite timestamp within the week's boundaries. */
  predicate InWeek(o: Order, w: Week) {
    o.OrderObject? && o.timestamp.Some? && w.start <= o.timestamp.value <= w.end
  }

  function FilterInWeek(orders: seq<Order>, w: Week): seq<Order>
    decreases |orders|
  {
    if orders == [] then []
    else FilterInWeek(orders[..|orders| - 1], w) + (if InWeek(orders[|orders| - 1], w) then [orders[|orders| - 1]] else [])
  }

  /** `ordersInRange`: the week's orders, newest first. */
  function OrdersInRange(orders: seq<Order>, w: Week): seq<Order> {
    SortBy(FilterInWeek(orders, w), NewestFirst)
  }

  datatype PendingOrder = PendingOrder(order: Order, orderId: string)

  /** An order still listed for payment: it has an identifier and its record is not 'paid'. */
  predicate IsPending(states: map<string, PaymentRecord>, o: Order) {
    OrderIdentifier(o).Some?
    && !(OrderIdentifier(o).value in states && states[OrderIdentifier(o).value].status == Some("paid"))
  }

  /** `pendingOrders`, in the order of the range. */
  function PendingFrom(inRange: seq<Order>, states: map<string, PaymentRecord>): seq<PendingOrder>
    decreases |inRange|
  {
    if inRange == [] then []
    else
      var o := inRange[|inRange| - 1];
      PendingFrom(inRange[..|inRange| - 1], states)
      + (if IsPending(states, o) then [PendingOrder(o, OrderIdentifier(o).value)] else [])
  }

  /** `paymentOrdersCache`: every listed identifier mapped to the last order listed under it. */
  function CacheOf(pending: seq<PendingOrder>): map<string, Order>
    decreases |pending|
  {
    if pending == [] then map[]
    else CacheOf(pending[..|pending| - 1])[pending[|pending| - 1].orderId := pending[|pending| - 1].order]
  }

  /** The `ordersInRange.forEach` that fills `pendingOrders` and `paymentOrdersCache`. */
  method CollectPendingOrders(inRange: seq<Order>, states: map<string, PaymentRecord>)
    returns (pending: seq<PendingOrder>, cache: map<string, Order>)
    ensures pending == PendingFrom(inRange, states) && cache == CacheOf(pending)
  {
    pending, cache := [], map[];
    for i := 0 to |inRange|
      invariant pending == PendingFrom(inRange[..i], states) && cache == CacheOf(pending)
    {
      assert inRange[..i + 1][..i] == inRange[..i];
      var order := inRange[i];
      var orderId := OrderIdentifier(order);
      if orderId.None? {
        continue;
      }
      if orderId.value in states && states[orderId.value].status == Some("paid") {
        continue;
      }
      pending := pending + [PendingOrder(order, orderId.value)];
      assert pending[..|pending| - 1] == PendingFrom(inRange[..i], states);
      cache := cache[orderId.value := order];
    }
    assert inRange[..|inRange|] == inRange;
  }

  lemma {:induction false} FilterInWeekMembers(orders: seq<Order>, w: Week)
    ensures forall o :: o in FilterInWeek(orders, w) <==> o in orders && InWeek(o, w)
    decreases |orders|
  {
    if orders != [] {
      FilterInWeekMembers(orders[..|orders| - 1], w);
      assert orders == orders[..|orders| - 1] + [orders[|orders| - 1]];
    }
  }

  lemma {:induction false} PendingFromMembers(inRange: seq<Order>, states: map<string, PaymentRecord>)
    ensures forall p :: p in PendingFrom(inRange, states) <==>
      p.order in inRange && IsPending(states, p.order) && p.orderId == OrderIdentifier(p.order).value
    decreases |inRange|
  {
    if inRange != [] {
      PendingFromMembers(inRange[..|inRange| - 1], states);
      assert inRange == inRange[..|inRange| - 1] + [inRange[|inRange| - 1]];
    }
  }

  lemma {:induction false} CacheOfSpec(pending: seq<PendingOrder>)
    ensures forall id :: id in CacheOf(pending) <==> exists p :: p in pending && p.orderId == id
    ensures forall id :: id in CacheOf(pending) ==> PendingOrder(CacheOf(pending)[id], id) in pending
    decreases |pending|
  {
    if pending != [] {
      CacheOfSpec(pending[..|pending| - 1]);
      assert pending == pending[..|pending| - 1] + [pending[|pending| - 1]];
    }
  }

  /**
   * The payments list of a week holds exactly the week's orders that have an
   * identifier and are not marked paid, and the cache maps each listed identifier
   * to one of the listed orders with that identifier.
   */
  lemma PendingOrdersSpec(orders: seq<Order>, w: Week, states: map<string, PaymentRecord>)
    ensures var pending := PendingFrom(OrdersInRange(orders, w), states);
      && (forall p :: p in pending <==>
            p.order in orders && InWeek(p.order, w) && IsPending(states, p.order) && p.orderId == OrderIdentifier(p.order).value)
      && (forall id :: id in CacheOf(pending) <==> exists p :: p in pending && p.orderId == id)
      && (forall id :: id in CacheOf(pending) ==> PendingOrder(CacheOf(pending)[id], id) in pending)
  {
    FilterInWeekMembers(orders, w);
    SortByMembers(FilterInWeek(orders, w), NewestFirst);
    PendingFromMembers(OrdersInRange(orders, w), states);
    CacheOfSpec(PendingFrom(OrdersInRange(orders, w), states));
  }

  /** A paid order never appears in the payments list; marking it pending again brings it back. */
  lemma PaidOrdersAreHidden(states: map<string, PaymentRecord>, o: Order, adminName: string, now: int)
    requires OrderIdentifier(o).Some?
    ensures var id := OrderIdentifier(o).value;
      && (StatusOf(states, id) == "paid" ==> !IsPending(states, o))
      && (PaymentUpdate(states, id, "paid", adminName, now).Some? ==>
            !IsPending(PaymentUpdate(states, id, "paid", adminName, now).value, o))
      && (PaymentUpdate(states, id, "pending", adminName, now).Some? ==>
            IsPending(PaymentUpdate(states, id, "pending", adminName, now).value, o))
  {
    NatToStringShape(o.timestamp.value);
  }

  /**
   * Marking an order paid takes exactly that order's identifier off the payments
   * list; every other listed entry stays.
   */
  lemma PaidOrderLeavesList(inRange: seq<Order>, states: map<string, PaymentRecord>, orderId: string, adminName: string, now: int)
    requires PaymentUpdate(states, orderId, "paid", adminName, now).Some?
    ensures var after := PaymentUpdate(states, orderId, "paid", adminName, now).value;
      && (forall p :: p in PendingFrom(inRange, after) ==> p.orderId != orderId)
      && (forall p: PendingOrder :: p.orderId != orderId ==> (p in PendingFrom(inRange, after) <==> p in PendingFrom(inRange, states)))
  {
    var after := PaymentUpdate(states, orderId, "paid", adminName, now).value;
    PendingFromMembers(inRange, after);
    PendingFromMembers(inRange, states);
  }
}
