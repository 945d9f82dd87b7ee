/** Data model of the orders service: table keys, order records, the errors the
    Lambda functions raise and the responses they return. */
module Types {

  type UserId = string
  type OrderId = string

  /** The status an order has while it may still be edited or canceled. */
  const SENT: string := "SENT"
  /** The status a successful cancel writes. */
  const CANCELED: string := "CANCELED"

  /** Status code of a successful handler response. */
  const OK: int := 200
  /** `OrderStatusError.status_code`. */
  const ORDER_STATUS_ERROR_CODE: int := 400

  /** The table's composite primary key: partition key `userId`, sort key `orderId`. */
  datatype Key = Key(userId: UserId, orderId: OrderId)

  /** One line of an order; `price` is in cents (the service keeps money as exact decimals). */
  datatype OrderItem = OrderItem(name: string, price: int, id: int, quantity: int)

  /** The `data` attribute of a stored item: the order document.
      `orderTime` is in whole seconds since the epoch, `totalAmount` in cents.
      The status is kept as the stored string: any value other than `SENT`
      (for example `ACKNOWLEDGED`, which nothing in this core writes) is possible. */
  datatype OrderData = OrderData(
    userId: UserId,
    orderId: OrderId,
    status: string,
    orderTime: int,
    restaurantId: int,
    totalAmount: int,
    orderItems: seq<OrderItem>)

  /** A stored item: its key attributes and its `data` attribute. */
  datatype Item = Item(key: Key, data: OrderData)

  /** The abstract content of the orders table: each key's `data`. */
  type Orders = map<Key, OrderData>

  /** Why a cancel was refused; the text of the `OrderStatusError`. */
  datatype Denial =
    | WrongStatus(orderId: OrderId, status: string)
    | TooOld(orderId: OrderId, ageSeconds: nat)

  /** The exceptions the core raises. */
  datatype Error =
    /** Indexing the empty result of a lookup for a key that is not stored. */
    | NoSuchOrder
    /** The custom exception of the cancel function, answered with 400. */
    | OrderStatusError(denial: Denial)
    /** The plain `Exception` raised when editing an order that is not `SENT`. */
    | EditStatusError(orderId: OrderId, status: string)

  datatype Option<T> = None | Some(value: T)

  /** A value, or the exception raised instead of returning it. */
  datatype Result<T> = Success(value: T) | Failure(error: Error) {
    predicate IsFailure() { Failure? }

    function PropagateFailure<U>(): Result<U>
      requires Failure?
    {
      Failure(error)
    }

    function Extract(): T
      requires Success?
    {
      value
    }
  }

  /** The outcome of a state-changing operation: its result and the table afterwards. */
  datatype Transition = Transition(result: Result<OrderData>, after: Orders)

  /** The parts of an API Gateway event the handlers read: the authorizer claim
      `sub`, the path parameter `orderId` and the parsed JSON body. Only the
      edit handler reads `body`, and the list handler does not read `orderId`;
      the other handlers ignore those fields. */
  datatype Event = Event(sub: UserId, orderId: OrderId, body: OrderData)

  /** The JSON body of a response. */
  datatype Body =
    | OrderBody(order: OrderData)
    | OrdersBody(orders: seq<OrderData>)
    | ErrorMessage(denial: Denial)

  /** What a Lambda handler does: return a response or let an exception escape. */
  datatype Outcome = Response(statusCode: int, body: Body) | Raised(error: Error)
}
