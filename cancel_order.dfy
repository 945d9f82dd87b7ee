/** The Lambda function that cancels one of the caller's orders: the only
    status transition the core performs, `SENT` to `CANCELED`. */
module CancelHandler {
  import opened Types
  import opened Store
  import opened Utils
  import opened Responses

  const SECONDS_PER_DAY: int := 86400
  /** Ten minutes: the oldest order age still cancellable. */
  const MAX_AGE_SECONDS: int := 600

  /** The `seconds` attribute of the time difference `now - orderTime`: the
      difference is normalised to whole days plus a remainder of seconds in
      [0, 86400), and only that remainder is measured, not the total. */
  function AgeSeconds(now: int, orderTime: int): (s: nat)
    ensures s < SECONDS_PER_DAY
    ensures (now - orderTime - s) % SECONDS_PER_DAY == 0
  {
    (now - orderTime) % SECONDS_PER_DAY
  }

  /** The two guards of a cancel, in their order: the status must be `SENT`,
      then the measured age must be at most ten minutes. */
  function CancelCheck(orderId: OrderId, order: OrderData, now: int): (d: Option<Denial>)
    ensures d.None? <==> order.status == SENT && AgeSeconds(now, order.orderTime) <= MAX_AGE_SECONDS
    ensures order.status != SENT ==> d == Some(WrongStatus(orderId, order.status))
    ensures order.status == SENT && d.Some? ==> d == Some(TooOld(orderId, AgeSeconds(now, order.orderTime)))
  {
    if order.status != SENT then Some(WrongStatus(orderId, order.status))
    else if AgeSeconds(now, order.orderTime) > MAX_AGE_SECONDS then
      Some(TooOld(orderId, AgeSeconds(now, order.orderTime)))
    else None
  }

  /** What a cancel at time `now` does to the table `t`. It succeeds exactly
      when the order is stored and passes both guards; it then changes that
      record's status to `CANCELED` and nothing else, and returns the new
      record. A refused cancel changes nothing. */
  function CancelSpec(t: Orders, userId: UserId, orderId: OrderId, now: int): (tr: Transition)
    ensures tr.result.Success? <==>
      Key(userId, orderId) in t && CancelCheck(orderId, t[Key(userId, orderId)], now).None?
    ensures tr.result.Failure? ==> tr.after == t
    ensures Key(userId, orderId) !in t ==> tr.result == Failure(NoSuchOrder)
    ensures Key(userId, orderId) in t && CancelCheck(orderId, t[Key(userId, orderId)], now).Some? ==>
      tr.result == Failure(OrderStatusError(CancelCheck(orderId, t[Key(userId, orderId)], now).value))
    ensures tr.result.Success? ==>
      && tr.result.value == t[Key(userId, orderId)].(status := CANCELED)
      && tr.after == t[Key(userId, orderId) := tr.result.value]
  {
    var k := Key(userId, orderId);
    if k !in t then Transition(Failure(NoSuchOrder), t)
    else match CancelCheck(orderId, t[k], now)
      case Some(denial) => Transition(Failure(OrderStatusError(denial)), t)
      case None =>
        var d := t[k].(status := CANCELED);
        Transition(Success(d), t[k := d])
  }

  /** `cancel_order`: looks the order up, applies the status guard and then
      the age guard, and updates the stored status in place. */
  method CancelOrder(table: Table, event: Event, now: int) returns (r: Result<OrderData>)
    requires table.Valid()
    modifies table
    ensures table.Valid()
    ensures Transition(r, table.Contents()) == CancelSpec(old(table.Contents()), event.sub, event.orderId, now)
    ensures r.Success? ==> table.items == Put(old(table.items), Item(Key(event.sub, event.orderId), r.value))
    ensures r.Failure? ==> table.items == old(table.items)
  {
    var userId := event.sub;
    var orderId := event.orderId;

    var order :- GetOrder(table, userId, orderId);
    if order.status != SENT {
      return Failure(OrderStatusError(WrongStatus(orderId, order.status)));
    }

    var orderAge := AgeSeconds(now, order.orderTime);
    if orderAge > MAX_AGE_SECONDS {
      return Failure(OrderStatusError(TooOld(orderId, orderAge)));
    }

    var updated := table.UpdateStatus(Key(userId, orderId), CANCELED);
    r := Success(updated);
  }

  /** `lambda_handler`: 200 with the canceled order, 400 with the message of
      an `OrderStatusError`, and any other exception re-raised. */
  method Handle(table: Table, event: Event, now: int) returns (o: Outcome)
    requires table.Valid()
    modifies table
    ensures table.Valid()
    ensures var tr := CancelSpec(old(table.Contents()), event.sub, event.orderId, now);
      && o == CancelResponse(tr.result) && table.Contents() == tr.after
      && (tr.result.Success? ==> table.items == Put(old(table.items), Item(Key(event.sub, event.orderId), tr.result.value)))
      && (tr.result.Failure? ==> table.items == old(table.items))
  {
    var updated := CancelOrder(table, event, now);
    o := CancelResponse(updated);
  }

  /** A stored order that is not `SENT` is refused for its status at every
      time, however old it is, and answered with 400. */
  lemma StatusGuardFirst(t: Orders, userId: UserId, orderId: OrderId, now: int)
    requires Key(userId, orderId) in t && t[Key(userId, orderId)].status != SENT
    ensures var tr := CancelSpec(t, userId, orderId, now);
      && tr.result == Failure(OrderStatusError(WrongStatus(orderId, t[Key(userId, orderId)].status)))
      && tr.after == t
      && CancelResponse(tr.result) == Response(ORDER_STATUS_ERROR_CODE, ErrorMessage(tr.result.error.denial))
  {
  }

  /** A canceled order cannot be canceled again: the second attempt, at any
      time, is refused for its status and changes nothing. */
  lemma CancelNotRepeatable(t: Orders, userId: UserId, orderId: OrderId, now: int, later: int)
    requires CancelSpec(t, userId, orderId, now).result.Success?
    ensures var after := CancelSpec(t, userId, orderId, now).after;
      CancelSpec(after, userId, orderId, later)
        == Transition(Failure(OrderStatusError(WrongStatus(orderId, CANCELED))), after)
  {
  }

  /** A missing order is not turned into a client error: the lookup's
      exception escapes the handler and the table is unchanged. */
  lemma MissingOrderIsRaised(t: Orders, userId: UserId, orderId: OrderId, now: int)
    requires Key(userId, orderId) !in t
    ensures CancelResponse(CancelSpec(t, userId, orderId, now).result) == Raised(NoSuchOrder)
    ensures CancelSpec(t, userId, orderId, now).after == t
  {
  }

  /** The returned order is the stored one with status `CANCELED`; it carries
      the path's order id, and every record keeps carrying its own key. */
  lemma CancelReturnsStoredOrder(t: Orders, userId: UserId, orderId: OrderId, now: int)
    requires WellKeyed(t)
    requires CancelSpec(t, userId, orderId, now).result.Success?
    ensures var tr := CancelSpec(t, userId, orderId, now);
      && tr.result.value.orderId == orderId
      && tr.result.value.status == CANCELED
      && tr.after[Key(userId, orderId)] == tr.result.value
      && WellKeyed(tr.after)
  {
  }

  /** For a non-negative difference under one day the measured age is the
      elapsed time itself, so a `SENT` order passes both guards exactly when
      at most 600 seconds old: 600 passes, 601 does not. */
  lemma AgeWithinOneDay(orderId: OrderId, order: OrderData, now: int)
    requires 0 <= now - order.orderTime < SECONDS_PER_DAY
    ensures AgeSeconds(now, order.orderTime) == now - order.orderTime
    ensures order.status == SENT ==>
      (CancelCheck(orderId, order, now).None? <==> now - order.orderTime <= MAX_AGE_SECONDS)
  {
  }

  /** Only the part of the age beyond whole days is measured: an order one day
      and one minute old passes the age guard. */
  lemma DayOldOrderPassesAgeGuard(orderId: OrderId, order: OrderData, now: int)
    requires order.status == SENT
    requires now - order.orderTime == SECONDS_PER_DAY + 60
    ensures CancelCheck(orderId, order, now) == None
  {
  }

  /** An order time one second in the future measures as 86399 seconds old,
      so the order is refused as too old. */
  lemma FutureOrderTimeFailsAgeGuard(orderId: OrderId, order: OrderData, now: int)
    requires order.status == SENT
    requires order.orderTime == now + 1
    ensures CancelCheck(orderId, order, now) == Some(TooOld(orderId, SECONDS_PER_DAY - 1))
  {
  }
}
