/** The Lambda function that lists the caller's orders. */
module ListHandler {
  import opened Types
  import opened Store
  import opened Responses

  /** `list_orders`: queries the caller's partition and collects each returned
      item's `data`, one per item and in the order the query returned them.
      Every listed order is stored in that partition, every stored order of the
      partition is listed, and a user without orders gets the empty list. */
  method ListOrders(table: Table, userId: UserId) returns (orders: seq<OrderData>)
    requires table.Valid()
    ensures |orders| == |Query(table.items, userId)|
    ensures forall i :: 0 <= i < |orders| ==>
      var it := Query(table.items, userId)[i];
      it.key.userId == userId && it.key in table.Contents() && orders[i] == table.Contents()[it.key]
    ensures forall k :: k in table.Contents() && k.userId == userId ==> table.Contents()[k] in orders
    ensures orders == [] <==> forall k :: k in table.Contents() ==> k.userId != userId
    ensures WellKeyed(table.Contents()) ==> forall d :: d in orders ==> d.userId == userId
  {
    var response := Query(table.items, userId);
    var userOrders: seq<OrderData> := [];
    for i := 0 to |response|
      invariant |userOrders| == i
      invariant forall j :: 0 <= j < i ==> userOrders[j] == response[j].data
    {
      userOrders := userOrders + [response[i].data];
    }
    QueryIsPartition(table.items, userId);
    orders := userOrders;
    forall k | k in table.Contents() && k.userId == userId
      ensures table.Contents()[k] in orders
    {
      var it := Item(k, table.Contents()[k]);
      var i :| 0 <= i < |response| && response[i] == it;
      assert orders[i] == it.data;
    }
    assert forall d :: d in orders ==> exists i :: 0 <= i < |orders| && orders[i] == d;
  }

  /** `lambda_handler`: lists the orders of the authorizer claim `sub` and
      answers 200 with `{"orders": list}`. */
  method Handle(table: Table, event: Event) returns (o: Outcome)
    requires table.Valid()
    ensures o.Response? && o.statusCode == OK && o.body.OrdersBody?
    ensures |o.body.orders| == |Query(table.items, event.sub)|
    ensures forall k :: k in table.Contents() && k.userId == event.sub ==>
      table.Contents()[k] in o.body.orders
    ensures forall i :: 0 <= i < |o.body.orders| ==>
      var it := Query(table.items, event.sub)[i];
      it.key.userId == event.sub && o.body.orders[i] == table.Contents()[it.key]
  {
    var orders := ListOrders(table, event.sub);
    o := OrdersResponse(Success(orders));
  }
}
