/** How the Lambda handlers turn an operation's result into an HTTP response,
    or let its exception escape. */
module Responses {
  import opened Types

  /** The handlers of get and edit: 200 with the order as body on success;
      every exception is re-raised. */
  function OrderResponse(r: Result<OrderData>): (o: Outcome)
    ensures o.Response? <==> r.Success?
    ensures o.Response? ==> o.statusCode == OK && o.body == OrderBody(r.value)
    ensures o.Raised? ==> o.error == r.error
  {
    match r
    case Success(order) => Response(OK, OrderBody(order))
    case Failure(e) => Raised(e)
  }

  /** The handler of list: 200 with `{"orders": list}` on success; every
      exception is re-raised. */
  function OrdersResponse(r: Result<seq<OrderData>>): (o: Outcome)
    ensures o.Response? <==> r.Success?
    ensures o.Response? ==> o.statusCode == OK && o.body == OrdersBody(r.value)
    ensures o.Raised? ==> o.error == r.error
  {
    match r
    case Success(orders) => Response(OK, OrdersBody(orders))
    case Failure(e) => Raised(e)
  }

  /** The handler of cancel: 200 with the order on success, the error's status
      code 400 with its message for an `OrderStatusError`, and any other
      exception re-raised. */
  function CancelResponse(r: Result<OrderData>): (o: Outcome)
    ensures o.Response? <==> r.Success? || r.error.OrderStatusError?
    ensures r.Success? ==> o.statusCode == OK && o.body == OrderBody(r.value)
    ensures r.Failure? && r.error.OrderStatusError? ==>
      o.statusCode == ORDER_STATUS_ERROR_CODE && o.body == ErrorMessage(r.error.denial)
    ensures o.Raised? ==> o.error == r.error
  {
    match r
    case Success(order) => Response(OK, OrderBody(order))
    case Failure(OrderStatusError(denial)) => Response(ORDER_STATUS_ERROR_CODE, ErrorMessage(denial))
    case Failure(e) => Raised(e)
  }
}
