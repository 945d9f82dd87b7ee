/** The Lambda function that replaces the body of one of the caller's orders. */
module EditHandler {
  import opened Types
  import opened Store
  import opened Utils
  import opened Responses

  /** What an edit does to the table `t` when `userId` (the claim) sends `body`
      for `orderId` (the path). The stored order must exist and be `SENT`; the
      new record is the body with its key fields forced to the caller's and
      with the stored status and order time, and it replaces the old record
      whole. A refused edit changes nothing. */
  function EditSpec(t: Orders, userId: UserId, orderId: OrderId, body: OrderData): (tr: Transition)
    ensures tr.result.Success? <==> Key(userId, orderId) in t && t[Key(userId, orderId)].status == SENT
    ensures tr.result.Failure? ==> tr.after == t
    ensures Key(userId, orderId) !in t ==> tr.result == Failure(NoSuchOrder)
    ensures Key(userId, orderId) in t && t[Key(userId, orderId)].status != SENT ==>
      tr.result == Failure(EditStatusError(orderId, t[Key(userId, orderId)].status))
    ensures tr.result.Success? ==>
      var d, stored := tr.result.value, t[Key(userId, orderId)];
      && d.userId == userId && d.orderId == orderId
      && d.status == stored.status && d.orderTime == stored.orderTime
      && d.restaurantId == body.restaurantId && d.totalAmount == body.totalAmount
      && d.orderItems == body.orderItems
      && tr.after == t[Key(userId, orderId) := d]
  {
    var k := Key(userId, orderId);
    if k !in t then Transition(Failure(NoSuchOrder), t)
    else if t[k].status != SENT then Transition(Failure(EditStatusError(orderId, t[k].status)), t)
    else
      var d := OrderData(userId, orderId, t[k].status, t[k].orderTime,
                         body.restaurantId, body.totalAmount, body.orderItems);
      Transition(Success(d), t[k := d])
  }

  /** `edit_order`: builds the new record field by field, checks the stored
      status, writes the record with `put_item` and re-reads it by key. */
  method EditOrder(table: Table, event: Event) returns (r: Result<OrderData>)
    requires table.Valid()
    modifies table
    ensures table.Valid()
    ensures Transition(r, table.Contents()) == EditSpec(old(table.Contents()), event.sub, event.orderId, event.body)
    ensures r.Success? ==> table.items == Put(old(table.items), Item(Key(event.sub, event.orderId), r.value))
    ensures r.Failure? ==> table.items == old(table.items)
  {
    var userId := event.sub;
    var orderId := event.orderId;
    var newData := event.body;
    newData := newData.(userId := userId);
    newData := newData.(orderId := orderId);

    var order :- GetOrder(table, userId, orderId);
    if order.status != SENT {
      return Failure(EditStatusError(orderId, order.status));
    }

    newData := newData.(status := order.status);
    newData := newData.(orderTime := order.orderTime);
    table.PutItem(Item(Key(userId, orderId), newData));

    r := GetOrder(table, userId, orderId);
  }

  /** `lambda_handler`: 200 with the re-read order; every exception, the
      wrong-status one included, is re-raised. */
  method Handle(table: Table, event: Event) returns (o: Outcome)
    requires table.Valid()
    modifies table
    ensures table.Valid()
    ensures var tr := EditSpec(old(table.Contents()), event.sub, event.orderId, event.body);
      && o == OrderResponse(tr.result) && table.Contents() == tr.after
      && (tr.result.Success? ==> table.items == Put(old(table.items), Item(Key(event.sub, event.orderId), tr.result.value)))
      && (tr.result.Failure? ==> table.items == old(table.items))
  {
    var updated := EditOrder(table, event);
    o := OrderResponse(updated);
  }

  /** Editing an order that is not `SENT` is never answered with a client
      error: the exception escapes the handler. */
  lemma WrongStatusEditIsRaised(t: Orders, userId: UserId, orderId: OrderId, body: OrderData)
    requires Key(userId, orderId) in t && t[Key(userId, orderId)].status != SENT
    ensures OrderResponse(EditSpec(t, userId, orderId, body).result).Raised?
  {
  }

  /** Repeating an edit with the same body leaves the table as the first edit left it. */
  lemma EditRepeatable(t: Orders, userId: UserId, orderId: OrderId, body: OrderData)
    requires EditSpec(t, userId, orderId, body).result.Success?
    ensures var tr := EditSpec(t, userId, orderId, body);
      EditSpec(tr.after, userId, orderId, body) == tr
  {
  }

  /** An edit keeps every stored record carrying its own key. */
  lemma EditKeepsKeys(t: Orders, userId: UserId, orderId: OrderId, body: OrderData)
    requires WellKeyed(t)
    ensures WellKeyed(EditSpec(t, userId, orderId, body).after)
    ensures EditSpec(t, userId, orderId, body).after.Keys == t.Keys
  {
  }
}
