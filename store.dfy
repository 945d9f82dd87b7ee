/** The orders table. Its items are kept in insertion order, which the
    model's queries follow; the composite key (userId, orderId) is unique.
    The two queries the core issues are filters over that sequence, and
    `put_item` / `update_item` are the class's two mutating methods. */
module Store {
  import opened Types

  /** No item of `s` has key `k`. */
  ghost predicate KeyFree(s: seq<Item>, k: Key) {
    forall it :: it in s ==> it.key != k
  }

  /** No two items of `s` share a key. */
  ghost predicate DistinctKeys(s: seq<Item>) {
    s == [] || (KeyFree(s[1..], s[0].key) && DistinctKeys(s[1..]))
  }

  /** Every stored `data` carries the key it is stored under. */
  ghost predicate WellKeyed(t: Orders) {
    forall k :: k in t ==> t[k].userId == k.userId && t[k].orderId == k.orderId
  }

  /** The key-to-data view of a sequence of items. */
  function ToMap(s: seq<Item>): (m: Orders)
    ensures forall it :: it in s ==> it.key in m
    ensures forall k :: k in m ==> Item(k, m[k]) in s
  {
    if s == [] then map[]
    else
      var rest := ToMap(s[1..]);
      assert forall it :: it in s ==> it == s[0] || it in s[1..];
      rest[s[0].key := s[0].data]
  }

  /** A query with key condition `userId = u`: the items of that partition, in store order. */
  function Query(s: seq<Item>, u: UserId): (r: seq<Item>)
    ensures forall it :: it in r <==> it in s && it.key.userId == u
  {
    if s == [] then []
    else
      assert forall it :: it in s ==> it == s[0] || it in s[1..];
      if s[0].key.userId == u then [s[0]] + Query(s[1..], u) else Query(s[1..], u)
  }

  /** A query with key condition `userId = k.userId AND orderId = k.orderId`. */
  function QueryKey(s: seq<Item>, k: Key): (r: seq<Item>)
    ensures forall it :: it in r <==> it in s && it.key == k
  {
    if s == [] then []
    else
      assert forall it :: it in s ==> it == s[0] || it in s[1..];
      if s[0].key == k then [s[0]] + QueryKey(s[1..], k) else QueryKey(s[1..], k)
  }

  /** `put_item`: the item replaces the one stored under its key, or is added. */
  function Put(s: seq<Item>, item: Item): (r: seq<Item>)
    ensures item in r
    ensures forall it :: it in r ==> it in s || it == item
  {
    if s == [] then [item]
    else if s[0].key == item.key then [item] + s[1..]
    else [s[0]] + Put(s[1..], item)
  }

  /** In a table with unique keys, an item's key maps to that item's data. */
  lemma {:induction false} ToMapAt(s: seq<Item>, it: Item)
    requires DistinctKeys(s)
    requires it in s
    ensures ToMap(s)[it.key] == it.data
  {
    if it != s[0] {
      assert it in s[1..];
      ToMapAt(s[1..], it);
    }
  }

  /** A key that no item carries is absent from the map view, and conversely. */
  lemma KeyFreeIffAbsent(s: seq<Item>, k: Key)
    ensures KeyFree(s, k) <==> k !in ToMap(s)
  {
    if k in ToMap(s) {
      assert Item(k, ToMap(s)[k]) in s;
    }
  }

  /** Writing an item keeps keys unique. */
  lemma {:induction false} PutDistinct(s: seq<Item>, item: Item)
    requires DistinctKeys(s)
    ensures DistinctKeys(Put(s, item))
  {
    if s != [] && s[0].key != item.key {
      PutDistinct(s[1..], item);
      assert Put(s, item)[1..] == Put(s[1..], item);
    } else if s != [] {
      assert Put(s, item)[1..] == s[1..];
    }
  }

  /** The map view of an item put in front of others. */
  lemma ToMapCons(x: Item, s: seq<Item>)
    ensures ToMap([x] + s) == ToMap(s)[x.key := x.data]
  {
    assert ([x] + s)[1..] == s;
  }

  /** One step of `PutSpec`: an item with another key in front does not
      interfere with the write. */
  lemma PutBehind(x: Item, s: seq<Item>, item: Item)
    requires x.key != item.key
    requires ToMap(Put(s, item)) == ToMap(s)[item.key := item.data]
    ensures ToMap([x] + Put(s, item)) == ToMap([x] + s)[item.key := item.data]
  {
    ToMapCons(x, Put(s, item));
    ToMapCons(x, s);
    UpdatesCommute(ToMap(s), x.key, x.data, item.key, item.data);
  }

  /** Updates of two different keys commute. */
  lemma UpdatesCommute(m: Orders, a: Key, va: OrderData, b: Key, vb: OrderData)
    requires a != b
    ensures m[b := vb][a := va] == m[a := va][b := vb]
  {
  }

  /** Writing an item sets exactly its key in the map view and nothing else. */
  lemma {:induction false} PutSpec(s: seq<Item>, item: Item)
    ensures ToMap(Put(s, item)) == ToMap(s)[item.key := item.data]
  {
    if s == [] {
    } else if s[0].key == item.key {
      ToMapCons(item, s[1..]);
      ToMapCons(s[0], s[1..]);
      assert s == [s[0]] + s[1..];
    } else {
      PutSpec(s[1..], item);
      PutBehind(s[0], s[1..], item);
      assert s == [s[0]] + s[1..];
    }
  }

  /** Overwriting a stored key keeps the sequence's length and the key at
      every position. */
  lemma {:induction false} PutKeepsKeys(s: seq<Item>, item: Item)
    requires item.key in ToMap(s)
    ensures |Put(s, item)| == |s|
    ensures forall i :: 0 <= i < |s| ==> Put(s, item)[i].key == s[i].key
  {
    if s[0].key != item.key {
      assert item.key in ToMap(s[1..]);
      PutKeepsKeys(s[1..], item);
    }
  }

  /** A write seen through a partition query is the same write on the query's
      result when the item belongs to that partition, and invisible otherwise. */
  lemma {:induction false} QueryPut(s: seq<Item>, item: Item, u: UserId)
    ensures Query(Put(s, item), u) ==
      if item.key.userId == u then Put(Query(s, u), item) else Query(s, u)
  {
    if s == [] {
    } else if s[0].key == item.key {
      assert ([item] + s[1..])[1..] == s[1..];
      if item.key.userId == u {
        assert ([s[0]] + Query(s[1..], u))[1..] == Query(s[1..], u);
      }
    } else {
      QueryPut(s[1..], item, u);
      assert ([s[0]] + Put(s[1..], item))[1..] == Put(s[1..], item);
      if item.key.userId == u && s[0].key.userId == u {
        assert ([s[0]] + Query(s[1..], u))[1..] == Query(s[1..], u);
      }
    }
  }

  /** Overwriting a stored record leaves every partition query with the same
      length and the same keys in the same order. */
  lemma QueryOrderKept(s: seq<Item>, item: Item, u: UserId)
    requires item.key in ToMap(s)
    ensures |Query(Put(s, item), u)| == |Query(s, u)|
    ensures forall i :: 0 <= i < |Query(s, u)| ==> Query(Put(s, item), u)[i].key == Query(s, u)[i].key
  {
    QueryPut(s, item, u);
    if item.key.userId == u {
      assert Item(item.key, ToMap(s)[item.key]) in Query(s, u);
      PutKeepsKeys(Query(s, u), item);
    }
  }

  /** Because the key is composite and unique, a key lookup returns at most one
      item: the stored one when the key is present, none otherwise. */
  lemma {:induction false} QueryKeyUnique(s: seq<Item>, k: Key)
    requires DistinctKeys(s)
    ensures QueryKey(s, k) == if k in ToMap(s) then [Item(k, ToMap(s)[k])] else []
  {
    if s != [] {
      QueryKeyUnique(s[1..], k);
      if s[0].key == k {
        KeyFreeIffAbsent(s[1..], k);
      }
    }
  }

  /** A partition query returns items with unique keys. */
  lemma {:induction false} QueryDistinct(s: seq<Item>, u: UserId)
    requires DistinctKeys(s)
    ensures DistinctKeys(Query(s, u))
  {
    if s != [] {
      QueryDistinct(s[1..], u);
      if s[0].key.userId == u {
        assert ([s[0]] + Query(s[1..], u))[1..] == Query(s[1..], u);
      }
    }
  }

  /** A partition query returns exactly the stored records of that partition,
      each once, each with its stored data. */
  lemma QueryIsPartition(s: seq<Item>, u: UserId)
    requires DistinctKeys(s)
    ensures DistinctKeys(Query(s, u))
    ensures forall it :: it in Query(s, u) ==>
      it.key.userId == u && it.key in ToMap(s) && ToMap(s)[it.key] == it.data
    ensures forall k :: k in ToMap(s) && k.userId == u ==> Item(k, ToMap(s)[k]) in Query(s, u)
  {
    QueryDistinct(s, u);
    forall it | it in Query(s, u)
      ensures ToMap(s)[it.key] == it.data
    {
      ToMapAt(s, it);
    }
  }

  /** The orders table (one DynamoDB table). */
  class Table {
    /** The stored items, in insertion order; queries follow this order. */
    var items: seq<Item>

    ghost predicate Valid()
      reads this
    {
      DistinctKeys(items)
    }

    /** Each stored key's `data`. */
    function Contents(): Orders
      reads this
    {
      ToMap(items)
    }

    constructor (initial: seq<Item>)
      requires DistinctKeys(initial)
      ensures Valid() && items == initial
    {
      items := initial;
    }

    /** `put_item`: writes the whole item, replacing what was stored under its key. */
    method PutItem(item: Item)
      requires Valid()
      modifies this
      ensures Valid()
      ensures items == Put(old(items), item)
      ensures Contents() == old(Contents())[item.key := item.data]
    {
      PutDistinct(items, item);
      PutSpec(items, item);
      items := Put(items, item);
    }

    /** `update_item` with `set data.status = :s` and `ReturnValues="ALL_NEW"`:
        changes only the status of the stored item and returns its new `data`. */
    method UpdateStatus(k: Key, status: string) returns (updated: OrderData)
      requires Valid()
      requires k in Contents()
      modifies this
      ensures Valid()
      ensures updated == old(Contents())[k].(status := status)
      ensures items == Put(old(items), Item(k, updated))
      ensures Contents() == old(Contents())[k := updated]
    {
      updated := Contents()[k].(status := status);
      PutDistinct(items, Item(k, updated));
      PutSpec(items, Item(k, updated));
      items := Put(items, Item(k, updated));
    }
  }
}
