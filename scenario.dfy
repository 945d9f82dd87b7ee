/** A walk-through modelled on the integration test of the orders API
    (list, get, edit, cancel), extended with a re-list after each write, a
    second cancel, a missing order and a late cancel. */
module Scenario {
  import opened Types
  import opened Store
  import GetHandler
  import ListHandler
  import EditHandler
  import CancelHandler

  method OrderLifecycle() {
    var user, orderId := "user-1", "order-1";
    var placedAt := 1_000_000;
    var items := [OrderItem("spaghetti carbonara", 999, 1, 1),
                  OrderItem("Spaghetti aglio e olio", 899, 2, 2),
                  OrderItem("Gorgeous Cotton Pizza", 500, 10, 1)];
    var order := OrderData(user, orderId, SENT, placedAt, 1, 3297, items);
    var table := new Table([Item(Key(user, orderId), order)]);
    assert table.Contents() == map[Key(user, orderId) := order];

    var got := GetHandler.Handle(table, Event(user, orderId, order));
    assert got == Response(OK, OrderBody(order));

    var listed := ListHandler.Handle(table, Event(user, "", order));
    assert listed == Response(OK, OrdersBody([order]));

    // The body names another owner; the stored record still belongs to the caller.
    var newItems := [OrderItem("spicy chicken sandwich", 1299, 17, 1),
                     OrderItem("Gorgeous Cotton Pizza", 500, 10, 1),
                     OrderItem("8\" pepperoni pizza", 1500, 22, 1),
                     OrderItem("spicy chicken sandwich with cheese", 1499, 17, 1)];
    var body := OrderData("someone-else", "", "CANCELED", 0, 1, 4798, newItems);
    var edited := EditHandler.Handle(table, Event(user, orderId, body));
    var expected := OrderData(user, orderId, SENT, placedAt, 1, 4798, newItems);
    assert edited == Response(OK, OrderBody(expected));
    assert |edited.body.order.orderItems| == 4;

    var relisted := ListHandler.Handle(table, Event(user, "", order));
    assert relisted == Response(OK, OrdersBody([expected]));

    var canceled := CancelHandler.Handle(table, Event(user, orderId, order), placedAt + 300);
    assert canceled == Response(OK, OrderBody(expected.(status := CANCELED)));

    var listedAfterCancel := ListHandler.Handle(table, Event(user, "", order));
    assert listedAfterCancel == Response(OK, OrdersBody([expected.(status := CANCELED)]));

    var again := CancelHandler.Handle(table, Event(user, orderId, order), placedAt + 301);
    assert again == Response(ORDER_STATUS_ERROR_CODE, ErrorMessage(WrongStatus(orderId, CANCELED)));

    var missing := CancelHandler.Handle(table, Event(user, "order-2", order), placedAt + 302);
    assert missing == Raised(NoSuchOrder);
  }

  method LateCancel() {
    var user, orderId := "user-1", "order-1";
    var order := OrderData(user, orderId, SENT, 0, 1, 999, []);
    var table := new Table([Item(Key(user, orderId), order)]);
    var tooLate := CancelHandler.Handle(table, Event(user, orderId, order), 601);
    assert tooLate == Response(ORDER_STATUS_ERROR_CODE, ErrorMessage(TooOld(orderId, 601)));
    var stillSent := GetHandler.Handle(table, Event(user, orderId, order));
    assert stillSent == Response(OK, OrderBody(order));
  }

  /** Two orders of one user: editing the first keeps the list's order. */
  method EditKeepsListOrder() {
    var user := "user-1";
    var first := Item(Key(user, "order-1"), OrderData(user, "order-1", SENT, 0, 1, 999, []));
    var second := Item(Key(user, "order-2"), OrderData(user, "order-2", SENT, 0, 2, 500, []));
    var table := new Table([first, second]);

    var before := ListPair(table, first, second, user);
    assert before == Response(OK, OrdersBody([first.data, second.data]));

    var body := OrderData(user, "order-1", SENT, 0, 3, 1299, []);
    var edited := EditHandler.Handle(table, Event(user, "order-1", body));
    assert edited.Response?;
    OneUserPair(first, second, user);
    assert table.items == [Item(first.key, body), second];

    var after := ListPair(table, Item(first.key, body), second, user);
    assert after == Response(OK, OrdersBody([body, second.data]));
  }

  /** Listing a table that holds exactly two orders of `u`, in that order. */
  method ListPair(table: Table, a: Item, b: Item, u: UserId) returns (o: Outcome)
    requires table.Valid() && table.items == [a, b]
    requires a.key.userId == u && b.key.userId == u && a.key != b.key
    ensures o == Response(OK, OrdersBody([a.data, b.data]))
  {
    OneUserPair(a, b, u);
    o := ListHandler.Handle(table, Event(u, "", a.data));
  }

  /** Two items of one partition with different keys list as themselves. */
  lemma OneUserPair(a: Item, b: Item, u: UserId)
    requires a.key.userId == u && b.key.userId == u && a.key != b.key
    ensures Query([a, b], u) == [a, b]
    ensures ToMap([a, b])[a.key] == a.data && ToMap([a, b])[b.key] == b.data
    ensures forall x :: Put([a, b], Item(a.key, x)) == [Item(a.key, x), b]
  {
    assert [a, b][1..] == [b] && [b][1..] == [];
    assert ToMap([b]) == map[b.key := b.data];
    assert ToMap([a, b]) == ToMap([b])[a.key := a.data];
    assert Query([b], u) == [b];
    assert Query([a, b], u) == [a] + Query([b], u);
    forall x
      ensures Put([a, b], Item(a.key, x)) == [Item(a.key, x), b]
    {
      assert Put([a, b], Item(a.key, x)) == [Item(a.key, x)] + [b];
    }
  }
}
