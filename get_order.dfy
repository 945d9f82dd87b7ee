/** The Lambda function that returns one of the caller's orders. */
module GetHandler {
  import opened Types
  import opened Store
  import opened Utils
  import opened Responses

  /** `lambda_handler`: the owner is the authorizer claim `sub`, the order the
      path's `orderId`; the stored order is returned with 200, and a missing
      one is not turned into a client error but re-raised. The table is only read. */
  method Handle(table: Table, event: Event) returns (o: Outcome)
    requires table.Valid()
    ensures Key(event.sub, event.orderId) in table.Contents() ==>
      o == Response(OK, OrderBody(table.Contents()[Key(event.sub, event.orderId)]))
    ensures Key(event.sub, event.orderId) !in table.Contents() ==> o == Raised(NoSuchOrder)
  {
    var userId := event.sub;
    var orderId := event.orderId;
    var order := GetOrder(table, userId, orderId);
    o := OrderResponse(order);
  }
}
