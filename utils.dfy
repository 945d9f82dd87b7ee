/** The shared lookup layer: fetch one order by its composite key. */
module Utils {
  import opened Types
  import opened Store

  /** `get_order`: queries the table on both key attributes, collects the `data`
      of every returned item and yields the first one. A key that is not stored
      leaves the collected list empty, and indexing it raises. */
  method GetOrder(table: Table, userId: UserId, orderId: OrderId) returns (r: Result<OrderData>)
    requires table.Valid()
    ensures r.Success? <==> Key(userId, orderId) in table.Contents()
    ensures r.Success? ==> r.value == table.Contents()[Key(userId, orderId)]
    ensures r.Failure? ==> r.error == NoSuchOrder
    ensures WellKeyed(table.Contents()) && r.Success? ==>
      r.value.userId == userId && r.value.orderId == orderId
  {
    var response := QueryKey(table.items, Key(userId, orderId));
    var userOrders: seq<OrderData> := [];
    for i := 0 to |response|
      invariant |userOrders| == i
      invariant forall j :: 0 <= j < i ==> userOrders[j] == response[j].data
    {
      userOrders := userOrders + [response[i].data];
    }
    QueryKeyUnique(table.items, Key(userId, orderId));
    if |userOrders| == 0 {
      r := Failure(NoSuchOrder);
    } else {
      r := Success(userOrders[0]);
    }
  }
}
