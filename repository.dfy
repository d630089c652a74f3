/** The order store: a table of orders keyed by their store-assigned id, with the
    queries and writes the order service uses. */
module Repository {
  import opened Orders

  /** The ids of `found`, a list of orders. */
  ghost function IdsOf(found: seq<Order>): (ids: set<OrderId>)
    ensures forall j :: 0 <= j < |found| ==> found[j].id in ids
    // The first id on its own: an instance callers use without naming an index.
    ensures found != [] ==> found[0].id in ids
  {
    set j | 0 <= j < |found| :: found[j].id
  }

  lemma IdsOfAppend(found: seq<Order>, o: Order)
    ensures IdsOf(found + [o]) == IdsOf(found) + {o.id}
  {
    var extended := found + [o];
    assert extended[|found|] == o;
    assert forall j :: 0 <= j < |found| ==> extended[j] == found[j];
  }

  /** The ids of the stored orders in `status` whose timestamp is strictly before `cutoff`. */
  ghost function MatchingIds(orders: map<OrderId, Order>, status: OrderStatus, cutoff: Millis): set<OrderId>
  {
    set id | id in orders && orders[id].status == status && orders[id].timestamp < cutoff
  }

  /** The order numbers in use in a store. */
  ghost function NumbersInUse(orders: map<OrderId, Order>): set<string>
  {
    set id | id in orders :: orders[id].orderNumber
  }

  class OrderRepository {
    var orders: map<OrderId, Order>
    /** The id the next newly saved order receives. */
    var nextId: OrderId

    /** Every order is stored under its own id, and ids below `nextId` are the only ones used. */
    ghost predicate Valid()
      reads this
    {
      forall id :: id in orders ==> orders[id].id == id && id < nextId
    }

    constructor ()
      ensures Valid() && orders == map[] && nextId == 1
    {
      orders := map[];
      nextId := 1;
    }

    /** Saves an order that has no id yet: the store assigns it a fresh one. */
    method SaveNew(order: Order) returns (id: OrderId)
      requires Valid()
      modifies this
      ensures Valid()
      ensures id !in old(orders) && id == old(nextId) && nextId == old(nextId) + 1
      ensures orders == old(orders)[id := order.(id := id)]
    {
      id := nextId;
      orders := orders[id := order.(id := id)];
      nextId := nextId + 1;
    }

    /** Saves an order that is already stored, replacing the stored record. */
    method Save(order: Order)
      requires Valid() && order.id in orders
      modifies this
      ensures Valid()
      ensures orders == old(orders)[order.id := order] && nextId == old(nextId)
    {
      orders := orders[order.id := order];
    }

    /** Deletes the order with the given id; deleting an absent id does nothing. */
    method DeleteById(id: OrderId)
      requires Valid()
      modifies this
      ensures Valid()
      ensures orders == old(orders) - {id} && nextId == old(nextId)
    {
      orders := orders - {id};
    }

    /** The order stored under `id`, if any. */
    function FindById(id: OrderId): (r: Option<Order>)
      reads this
      ensures r.None? <==> id !in orders
      ensures r.Some? ==> r.value == orders[id]
      ensures Valid() && r.Some? ==> r.value.id == id
    {
      if id in orders then Some(orders[id]) else None
    }

    /** The order carrying `orderNumber`, if any. */
    method FindByOrderNumber(orderNumber: string) returns (r: Option<Order>)
      requires Valid()
      ensures r.None? <==> orderNumber !in NumbersInUse(orders)
      ensures r.Some? ==> r.value.id in orders && orders[r.value.id] == r.value
                          && r.value.orderNumber == orderNumber
    {
      var remaining := orders.Keys;
      r := None;
      while remaining != {}
        invariant remaining <= orders.Keys
        invariant r.None? ==> forall id :: id in orders && id !in remaining ==> orders[id].orderNumber != orderNumber
        invariant r.Some? ==> r.value.id in orders && orders[r.value.id] == r.value
                              && r.value.orderNumber == orderNumber
        decreases remaining
      {
        var id :| id in remaining;
        if r.None? && orders[id].orderNumber == orderNumber {
          r := Some(orders[id]);
        }
        remaining := remaining - {id};
      }
    }

    /** The stored orders in `status` created strictly before `cutoff`, each once, as stored. */
    method FindByStatusAndTimestampBefore(status: OrderStatus, cutoff: Millis) returns (found: seq<Order>)
      requires Valid()
      ensures IdsOf(found) == MatchingIds(orders, status, cutoff)
      ensures forall j :: 0 <= j < |found| ==> found[j].id in orders && orders[found[j].id] == found[j]
      ensures forall j, k :: 0 <= j < k < |found| ==> found[j].id != found[k].id
    {
      var remaining := orders.Keys;
      found := [];
      while remaining != {}
        invariant remaining <= orders.Keys
        invariant IdsOf(found) == MatchingIds(orders, status, cutoff) - remaining
        invariant forall j :: 0 <= j < |found| ==> found[j].id in orders && orders[found[j].id] == found[j]
        invariant forall j, k :: 0 <= j < k < |found| ==> found[j].id != found[k].id
        decreases remaining
      {
        var id :| id in remaining;
        if orders[id].status == status && orders[id].timestamp < cutoff {
          IdsOfAppend(found, orders[id]);
          found := found + [orders[id]];
        }
        remaining := remaining - {id};
      }
    }
  }
}
