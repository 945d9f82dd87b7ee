# Orders service: order lifecycle model

This project models the order-lifecycle core of the `orders` service of a
serverless food-ordering application. Orders live in one table whose items
have the composite key `(userId, orderId)` and a `data` document holding the
order (`userId`, `orderId`, `status`, `orderTime`, `restaurantId`,
`totalAmount`, `orderItems`). Four Lambda functions act on it:

- get (`get_order.py`) looks one order up through the shared `get_order`
  helper (`utils.py`);
- list (`list_orders.py`) returns every order in the caller's partition;
- edit (`edit_order.py`) replaces the body of a `SENT` order;
- cancel (`cancel_order.py`) moves a `SENT` order to `CANCELED` when it is
  at most ten minutes old.

Each handler takes the owner from the authorizer claim `sub`. Each handler
except list also takes the order from the path parameter `orderId`. Every
handler turns the outcome into an HTTP response or lets the exception
escape.

Files, one module each:

- `types.dfy` (`Types`): keys, order records, errors, results and responses.
- `store.dfy` (`Store`): the table as a class `Table`. Its `items` sequence is
  kept in insertion order, which the model's queries follow, and its keys are unique (`Valid`).
  `Contents()` is the key-to-data map view. The two DynamoDB queries the code
  issues are the order-preserving filters `Query` (partition) and `QueryKey`
  (full key). `put_item` and `update_item` are the methods `PutItem` and
  `UpdateStatus`.
- `utils.dfy` (`Utils`): the lookup loop of `get_order`.
- `get_order.dfy`, `list_orders.dfy`, `edit_order.dfy`, `cancel_order.dfy`:
  one module per Lambda function.
- `responses.dfy` (`Responses`): how the handlers map results to responses.
- `scenario.dfy` (`Scenario`): a walk-through modelled on the integration
  test (list, get, edit, cancel), extended with a re-list after each write,
  a second cancel, a missing order and a late cancel, and a list of two
  orders before and after an edit, stated as assertions against the model.

Edit and cancel are each given as a specification function over the map
view (`EditSpec`, `CancelSpec`). Each returns the result together with the
table afterwards. The imperative methods `EditOrder` and `CancelOrder`
follow the code step by step, and their postconditions equate their effect
with these functions.

The age guard of cancel uses the `seconds` attribute of a Python
`timedelta`. That attribute is the remainder of the difference after whole
days, in `[0, 86400)`, not the total elapsed time. The model keeps this:
`AgeSeconds(now, orderTime) == (now - orderTime) % 86400`, with Dafny's
Euclidean remainder, which agrees with Python's normalisation for negative
differences too. Two consequences are proved as lemmas:

- an order one day and one minute old passes the age guard;
- an order whose time lies one second in the future is refused as too old.

Times are whole seconds since the epoch. `now` is a parameter: it is the
current UTC time, truncated to the second. Truncation does not change the
measured `seconds`, because stored order times are whole seconds.

In several places the code does less than a REST API usually does. The
model follows the code:

- a missing order is an `IndexError` from indexing the empty lookup result.
  The get, edit and cancel handlers re-raise it; nothing answers 404;
- editing an order that is not `SENT` raises a plain `Exception`, which the
  edit handler re-raises. It is not a 400;
- writes are unconditional (`put_item`, `update_item`). There is no
  conflict outcome and no 409;
- the list does not fail on an empty partition: it answers `[]`;
- a status other than `SENT` or `CANCELED` is any stored string, not an
  enumeration.

## Model

| member | source | states |
|---|---|---|
| `Store.ToMap` | orders/tests/unit/test_handler.py:73-76 | every stored item's key is in the map view, and every entry of the view is a stored item |
| `Store.Query` | orders/src/api/order/list/list_orders.py:20-22 | the partition query returns exactly the stored items whose `userId` is the given one |
| `Store.QueryKey` | orders/src/layers/utils/utils.py:18-20 | the key query returns exactly the stored items whose key is both given attributes |
| `Store.Put` | orders/src/api/order/edit/edit_order.py:38 | after `put_item` the written item is stored, and every stored item was stored before or is the written one |
| `Store.PutSpec` | orders/src/api/order/edit/edit_order.py:37-38 | `put_item` sets the written key to the written data in the map view and leaves every other key as it was |
| `Store.PutDistinct` | orders/src/api/order/edit/edit_order.py:38 | `put_item` keeps the composite key unique |
| `Store.QueryKeyUnique` | orders/src/layers/utils/utils.py:17-31 | because the key is composite and unique, the key query returns the one stored item when the key is present and nothing otherwise, so "first item" is the unique item |
| `Store.QueryIsPartition` | orders/src/api/order/list/list_orders.py:19-26 | the partition query returns items with distinct keys, each from the given partition with its stored data, and every stored record of that partition is among them |
| `Store.PutKeepsKeys` | orders/src/api/order/edit/edit_order.py:38 | overwriting a stored key keeps the number of stored items and the key at every position |
| `Store.QueryPut` | orders/src/api/order/list/list_orders.py:20-22 | a write seen through a partition query is the same write on the query's result when the item is in that partition, and leaves the query unchanged otherwise |
| `Store.QueryOrderKept` | orders/src/api/order/list/list_orders.py:20-22 | overwriting a stored record keeps every partition query's length and its keys in the same order |
| `Store.Table.PutItem` | orders/src/api/order/edit/edit_order.py:30-38 | the stored items become `Put` of the old ones (in place at the key's position, or appended); the whole record at the item's key is replaced by the item's data; every other record is unchanged; keys stay unique |
| `Store.Table.UpdateStatus` | orders/src/api/order/cancel/cancel_order.py:41-53 | only `data.status` of the record at the key changes, in place at the key's position; the new `data` is returned, as with `ReturnValues="ALL_NEW"`; every other record is unchanged |
| `Utils.GetOrder` | orders/src/layers/utils/utils.py:13-31 | the lookup succeeds exactly when the key is stored, and then yields that record's `data`; otherwise it fails with the index error; it only reads the table; when records carry their own keys, the result carries the asked user and order id |
| `Responses.OrderResponse` | orders/src/api/order/get/get_order.py:19-29 | a result becomes 200 with the order as body; every exception is re-raised unchanged (edit's handler does the same) |
| `Responses.OrdersResponse` | orders/src/api/order/list/list_orders.py:35-47 | a list becomes 200 with `{"orders": list}`; every exception is re-raised unchanged |
| `Responses.CancelResponse` | orders/src/api/order/cancel/cancel_order.py:61-77 | success becomes 200 with the order; an `OrderStatusError` becomes its status code 400 with its message; any other exception is re-raised |
| `GetHandler.Handle` | orders/src/api/order/get/get_order.py:15-29 | the owner is the claim `sub` and the order the path `orderId`; a stored order is answered 200 with its data; a missing one re-raises the lookup's error; the table is only read |
| `ListHandler.ListOrders` | orders/src/api/order/list/list_orders.py:14-30 | one element per queried item, that item's `data`, in query order; every element is stored in the caller's partition, every stored order of the partition is listed; the list is empty exactly when the user has no orders; the table is only read |
| `ListHandler.Handle` | orders/src/api/order/list/list_orders.py:34-47 | the partition is the claim `sub`'s; the answer is 200 with all of that partition's orders in query order |
| `EditHandler.EditSpec` | orders/src/api/order/edit/edit_order.py:15-43 | edit succeeds exactly when the order is stored and `SENT`; the new record has the claim's `userId` and the path's `orderId` whatever the body says, the stored `status` and `orderTime`, and items, total and restaurant from the body only; it replaces the record whole and is returned; a missing order fails with the index error, a wrong status with the generic exception, and a failure changes nothing |
| `EditHandler.EditOrder` | orders/src/api/order/edit/edit_order.py:15-43 | the field-by-field construction, guard, `put_item` and re-read produce exactly `EditSpec`'s result and table; a successful edit overwrites the record in place in the stored items, and a failed one leaves them as they were |
| `EditHandler.Handle` | orders/src/api/order/edit/edit_order.py:45-57 | 200 with the re-read order on success; every exception re-raised; the table is as `EditSpec` says, the record overwritten in place on success and the stored items untouched on failure |
| `EditHandler.WrongStatusEditIsRaised` | orders/src/api/order/edit/edit_order.py:25-57 | editing a stored order that is not `SENT` escapes the handler; it is never turned into a client error |
| `EditHandler.EditRepeatable` | orders/src/api/order/edit/edit_order.py:28-38 | repeating a successful edit with the same body yields the same result and the same table |
| `EditHandler.EditKeepsKeys` | orders/src/api/order/edit/edit_order.py:16-38 | an edit keeps every record carrying its own key and does not add or remove keys |
| `CancelHandler.AgeSeconds` | orders/src/api/order/cancel/cancel_order.py:36-37 | the measured age is the unique value in `[0, 86400)` congruent to `now - orderTime` modulo one day |
| `CancelHandler.CancelCheck` | orders/src/api/order/cancel/cancel_order.py:33-38 | the guards pass exactly when the status is `SENT` and the measured age is at most 600 s; a non-`SENT` status is refused for its status whatever the age; a `SENT` order is otherwise refused as too old, with its measured age |
| `CancelHandler.CancelSpec` | orders/src/api/order/cancel/cancel_order.py:31-57 | cancel succeeds exactly when the order is stored and passes both guards; it then changes only that record's status to `CANCELED` and returns the new record; a missing order fails with the index error, a refused one with `OrderStatusError`, and a failure changes nothing |
| `CancelHandler.CancelOrder` | orders/src/api/order/cancel/cancel_order.py:27-57 | the lookup, the two guards in order and the in-place status update produce exactly `CancelSpec`'s result and table; the record keeps its position in the stored items, and a refused cancel leaves them as they were |
| `CancelHandler.Handle` | orders/src/api/order/cancel/cancel_order.py:60-77 | the response is `CancelResponse` of `CancelSpec`'s result and the table is as `CancelSpec` says, with the record kept at its position on success and the stored items untouched on failure |
| `CancelHandler.StatusGuardFirst` | orders/src/api/order/cancel/cancel_order.py:33-34 | a stored order that is not `SENT` is refused for its status at any time, gets 400, and the table is unchanged |
| `CancelHandler.CancelNotRepeatable` | orders/src/api/order/cancel/cancel_order.py:33-53 | after a successful cancel, a second cancel at any time fails with the status error for `CANCELED` and changes nothing |
| `CancelHandler.MissingOrderIsRaised` | orders/src/api/order/cancel/cancel_order.py:61-77 | cancelling a missing order re-raises the lookup's error instead of answering, and changes nothing |
| `CancelHandler.CancelReturnsStoredOrder` | orders/src/api/order/cancel/cancel_order.py:42-57 | the returned order carries the path's order id and status `CANCELED`, equals the stored record afterwards, and every record keeps carrying its own key |
| `CancelHandler.AgeWithinOneDay` | orders/src/api/order/cancel/cancel_order.py:36-37 | for a difference in `[0, 86400)` the measured age is the elapsed time, and a `SENT` order passes both guards exactly when that difference is at most 600 s, so 600 s is still cancellable and 601 s is not |
| `CancelHandler.DayOldOrderPassesAgeGuard` | orders/src/api/order/cancel/cancel_order.py:36-38 | a `SENT` order one day and one minute old passes both guards |
| `CancelHandler.FutureOrderTimeFailsAgeGuard` | orders/src/api/order/cancel/cancel_order.py:36-38 | a `SENT` order whose time is one second in the future measures 86399 s and is refused as too old |

## Left out

- Order creation and its idempotent de-duplication: no creation handler is part of this model. Tables are built with `Store.Table`'s constructor or written with `PutItem`.
- Concurrency: every handler is one sequential call on the table. The code's writes are unconditional, so two requests may interleave between the lookup and the write. The model does not capture that interleaving.
- The DynamoDB client: key-condition and update-expression syntax, `ReturnValues`, pagination of query results, and service failures. A query returns the stored items of the matching keys in the order the `items` sequence holds them. DynamoDB's ascending sort-key order within a partition is not modelled.
- `Store.Table.UpdateStatus` requires the key to be stored. Cancel calls it only after a successful lookup, so the behaviour of `update_item` on a missing item (an upsert, or a failure on the `data.status` path) is not modelled.
- JSON (de)serialisation with `simplejson` and `Decimal`: bodies are already parsed, and amounts and prices are integer cents. Unknown extra fields in an edit body are not modelled. An edit body is an `OrderData` whose key, status and time fields the code overwrites.
- Read consistency: queries are modelled as strongly consistent, so every read sees the latest write. The code's `query` calls do not ask for consistent reads and are eventually consistent by default, so edit's re-read, a list, or a cancel's lookup right after a write may see the previous record. `EditSpec`'s returned record, `CancelNotRepeatable` and the scenario's re-lists assume the read sees the write.
- `EditHandler.EditSpec`: bodies missing a body field (`restaurantId`, `totalAmount` or `orderItems`) are not modelled; the source stores the record without that field, so replace and merge coincide here.
- Malformed events: a missing claim, path parameter or body raises a `KeyError`/`TypeError` before or inside the handler. Events always carry them here.
- Timestamp parsing: `orderTime` is whole seconds since the epoch instead of an ISO-8601 string, and `now` is a parameter in place of `datetime.utcnow()`.
- Message text: the 400 body is the `Denial` value (order id with status, or order id with measured age). The rendered sentence is not modelled, including the minutes rounded to two decimals.
- Response headers (`"headers": {}` on the 200 responses) are not modelled.
- Logging, tracing and metrics decorators, including the `OrderCanceled` metric, are left out: they only observe.
