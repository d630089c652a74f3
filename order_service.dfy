/** The order service: placing, completing and removing orders, mirroring tracking
    updates, and the periodic cleanup of stale PENDING orders.

    Every remote reply the service waits for is a parameter of the operation that waits
    for it, and every outbound call and store write is reported, in order, in the
    `effects` an operation returns. */
module Service {
  import opened Orders
  import opened Repository
  import opened Saga

  class OrderService {
    const repository: OrderRepository

    /** The store is well formed and no two orders share an order number. */
    ghost predicate Valid()
      reads this, repository
    {
      repository.Valid() && UniqueOrderNumbers(repository.orders)
    }

    constructor (repository: OrderRepository)
      requires repository.Valid() && UniqueOrderNumbers(repository.orders)
      ensures Valid() && this.repository == repository
    {
      this.repository := repository;
    }

    /** Administrative delete by id; an absent id is ignored. */
    method RemoveOrder(orderId: OrderId)
      requires Valid()
      modifies repository
      ensures Valid() && Evolves(old(repository.orders), repository.orders)
      ensures repository.orders == old(repository.orders) - {orderId}
      ensures repository.nextId == old(repository.nextId)
    {
      repository.DeleteById(orderId);
    }

    /** Places an order: stock check, then reservation, then the new PENDING record and the
        "order placed" notification. `stockAnswer` and `reservationReply` are the inventory
        service's replies, `now` the clock and `freshNumber` the generated order number. */
    method PlaceOrder(request: OrderRequest, username: string, stockAnswer: seq<InventoryResponse>,
                      reservationReply: string, now: Millis, freshNumber: string)
      returns (result: Result<InventoryUpdateRequestDto, Failure>, effects: seq<Effect>)
      requires Valid()
      requires freshNumber !in NumbersInUse(repository.orders)
      modifies repository
      ensures Valid() && Evolves(old(repository.orders), repository.orders)
      ensures AnyOutOfStock(stockAnswer) ==>
                && result == Err(ItemsNotInStock(stockAnswer))
                && effects == [CheckStock(InventoryRequests(ToLineItems(request.lineItems)))]
                && unchanged(repository)
      ensures !AnyOutOfStock(stockAnswer) && reservationReply != InventoryUpdated ==>
                var reqs := InventoryRequests(ToLineItems(request.lineItems));
                && result == Err(InventoryError)
                && effects == [CheckStock(reqs), Reserve(reqs)]
                && unchanged(repository)
      ensures !AnyOutOfStock(stockAnswer) && reservationReply == InventoryUpdated ==>
                var items := ToLineItems(request.lineItems);
                var reqs := InventoryRequests(items);
                && result.Ok?
                && result.value.orderId !in old(repository.orders)
                && result.value.items == reqs
                && repository.orders == old(repository.orders)[result.value.orderId :=
                     Order(result.value.orderId, freshNumber, username, items, Pending, None, now)]
                && repository.nextId == old(repository.nextId) + 1
                && effects == [CheckStock(reqs), Reserve(reqs), Saved(result.value.orderId),
                               Notify(freshNumber + OrderPlacedSuffix)]
    {
      var items := ToLineItems(request.lineItems);
      var reqs := InventoryRequests(items);
      effects := [CheckStock(reqs)];
      var notAllStockIn := AnyOutOfStock(stockAnswer);
      if !notAllStockIn {
        effects := effects + [Reserve(reqs)];
        if reservationReply == InventoryUpdated {
          // The id 0 is a placeholder: the store assigns the id on this first save.
          var order := Order(0, freshNumber, username, items, Pending, None, now);
          var id := repository.SaveNew(order);
          effects := effects + [Saved(id), Notify(freshNumber + OrderPlacedSuffix)];
          result := Ok(InventoryUpdateRequestDto(id, reqs));
        } else {
          result := Err(InventoryError);
        }
      } else {
        result := Err(ItemsNotInStock(stockAnswer));
      }
    }

    /** Completes an order after charging for it. The order is looked up first, the charge
        is made whatever the lookup found, and a missing order only fails the call when the
        charge succeeded. On success Tracking is told before the order is saved, so a failed
        tracking call leaves the order as it was. `chargeReply` is the charge service's reply
        and `trackingDelivered` whether the tracking call went through. */
    method CompleteOrder(orderId: OrderId, chargeReply: Reply<string>, trackingDelivered: bool)
      returns (result: Result<string, Failure>, effects: seq<Effect>)
      requires Valid()
      modifies repository
      ensures Valid() && Evolves(old(repository.orders), repository.orders)
      ensures repository.nextId == old(repository.nextId)
      ensures forall id :: id in old(repository.orders) && id != orderId ==>
                id in repository.orders && repository.orders[id] == old(repository.orders)[id]
      ensures chargeReply.TransportFailure? ==>
                result == Err(RemoteCallFailed) && effects == [Charge] && unchanged(repository)
      ensures chargeReply.Received? && chargeReply.body != ChargeSucceeded ==>
                result == Ok(OrderCancelledReply) && effects == [Charge] && unchanged(repository)
      ensures chargeReply == Received(ChargeSucceeded) && orderId !in old(repository.orders) ==>
                result == Err(NoSuchElement) && effects == [Charge] && unchanged(repository)
      ensures chargeReply == Received(ChargeSucceeded) && orderId in old(repository.orders) ==>
                var before := old(repository.orders)[orderId];
                var info := TrackingInfo(before.orderNumber, Processing);
                if trackingDelivered then
                  && result == Ok(OrderCompletedReply)
                  && effects == [Charge, CreateTracking(info), Saved(orderId)]
                  && repository.orders == old(repository.orders)[orderId :=
                       before.(status := Completed, trackingStatus := Some(Processing))]
                else
                  result == Err(RemoteCallFailed) && effects == [Charge, CreateTracking(info)]
                  && unchanged(repository)
    {
      var found := repository.FindById(orderId);
      effects := [Charge];
      match chargeReply {
        case TransportFailure =>
          result := Err(RemoteCallFailed);
        case Received(chargeStatus) =>
          if chargeStatus == ChargeSucceeded {
            if found.None? {
              result := Err(NoSuchElement);
              return;
            }
            var completed := found.value.(status := Completed, trackingStatus := Some(Processing));
            var info := TrackingInfo(completed.orderNumber, Processing);
            effects := effects + [CreateTracking(info)];
            if !trackingDelivered {
              result := Err(RemoteCallFailed);
              return;
            }
            repository.Save(completed);
            effects := effects + [Saved(completed.id)];
            result := Ok(OrderCompletedReply);
          } else {
            result := Ok(OrderCancelledReply);
          }
      }
    }

    /** Mirrors a tracking status reported by the tracking service onto the order with
        the given order number. */
    method UpdateTrackingStatus(info: TrackingInfo) returns (response: TrackingResponse)
      requires Valid()
      modifies repository
      ensures Valid() && Evolves(old(repository.orders), repository.orders)
      ensures repository.nextId == old(repository.nextId)
      ensures response == NotFound <==> info.orderNumber !in NumbersInUse(old(repository.orders))
      ensures response == NotFound ==> repository.orders == old(repository.orders)
      ensures response == Acknowledged ==>
                && repository.orders.Keys == old(repository.orders).Keys
                && forall id :: id in old(repository.orders) ==>
                     repository.orders[id] ==
                       if old(repository.orders)[id].orderNumber == info.orderNumber
                       then old(repository.orders)[id].(trackingStatus := Some(info.orderStatus))
                       else old(repository.orders)[id]
    {
      var found := repository.FindByOrderNumber(info.orderNumber);
      if found.None? {
        response := NotFound;
        return;
      }
      repository.Save(found.value.(trackingStatus := Some(info.orderStatus)));
      response := Acknowledged;
    }

    /** One cleanup pass at time `now`: every PENDING order created before now minus five
        minutes has its items rolled back, in snapshot order, and is deleted when
        `rollbackReply` for it is "inventory-updated". A rollback call that fails throws
        out of the pass: the orders already deleted stay deleted and the later candidates
        are left untouched. Returns the snapshot of candidates it went through. */
    method CleanupPendingOrders(now: Millis, rollbackReply: OrderId -> Reply<string>)
      returns (snapshot: seq<Order>, effects: seq<Effect>, outcome: Result<(), Failure>)
      requires Valid()
      modifies repository
      ensures Valid() && Evolves(old(repository.orders), repository.orders)
      ensures repository.nextId == old(repository.nextId)
      ensures IdsOf(snapshot) == StaleIds(old(repository.orders), Cutoff(now))
      ensures forall j :: 0 <= j < |snapshot| ==>
                snapshot[j].id in old(repository.orders) && old(repository.orders)[snapshot[j].id] == snapshot[j]
      ensures forall j, k :: 0 <= j < k < |snapshot| ==> snapshot[j].id != snapshot[k].id
      ensures repository.orders == AfterPass(old(repository.orders), snapshot, rollbackReply)
      ensures effects == CleanupTrace(snapshot[..Attempted(snapshot, rollbackReply)], rollbackReply)
      ensures outcome.Err? <==> exists j :: 0 <= j < |snapshot| && rollbackReply(snapshot[j].id).TransportFailure?
      ensures outcome.Err? ==> outcome.error == RemoteCallFailed
      ensures AfterCleanup(old(repository.orders), Cutoff(now), rollbackReply).Keys <= repository.orders.Keys
      ensures outcome.Ok? ==>
                && repository.orders == AfterCleanup(old(repository.orders), Cutoff(now), rollbackReply)
                && effects == CleanupTrace(snapshot, rollbackReply)
    {
      var cutoff := Cutoff(now);
      snapshot := repository.FindByStatusAndTimestampBefore(Pending, cutoff);
      ghost var before := repository.orders;
      effects, outcome := RollBackEach(snapshot, rollbackReply);
      PassDeletesNoMoreThanCleanup(before, cutoff, rollbackReply, snapshot);
      if outcome.Ok? {
        PassReachesEnd(snapshot, rollbackReply);
        CleanupPassOutcome(before, cutoff, rollbackReply, snapshot);
      }
    }

    /** The loop of a cleanup pass: for each listed order, in list order, roll its items
        back and delete it when the rollback is confirmed; stop at the first rollback call
        that fails. */
    method RollBackEach(pending: seq<Order>, rollbackReply: OrderId -> Reply<string>)
      returns (effects: seq<Effect>, outcome: Result<(), Failure>)
      requires repository.Valid()
      modifies repository
      ensures repository.Valid() && repository.nextId == old(repository.nextId)
      ensures Evolves(old(repository.orders), repository.orders)
      ensures repository.orders == AfterPass(old(repository.orders), pending, rollbackReply)
      ensures effects == CleanupTrace(pending[..Attempted(pending, rollbackReply)], rollbackReply)
      ensures outcome.Err? <==> exists j :: 0 <= j < |pending| && rollbackReply(pending[j].id).TransportFailure?
      ensures outcome.Err? ==> outcome.error == RemoteCallFailed
    {
      ghost var before := repository.orders;
      effects := [];
      var i := 0;
      while i < |pending| && rollbackReply(pending[i].id).Received?
        invariant 0 <= i <= |pending|
        invariant repository.Valid() && repository.nextId == old(repository.nextId)
        invariant forall j :: 0 <= j < i ==> rollbackReply(pending[j].id).Received?
        invariant repository.orders == before - ConfirmedAmong(pending[..i], rollbackReply)
        invariant effects == CleanupTrace(pending[..i], rollbackReply)
      {
        CleanupAdvance(pending, i, rollbackReply);
        CleanupAdvanceStore(before, pending, i, rollbackReply);
        var order := pending[i];
        ghost var done := effects;
        effects := effects + [Rollback(InventoryRequests(order.lineItems))];
        if rollbackReply(order.id).body == InventoryUpdated {
          repository.DeleteById(order.id);
          effects := effects + [Deleted(order.id)];
        }
        assert effects == done + CleanupStep(order, rollbackReply);
        i := i + 1;
      }
      AttemptedFrom(pending, i, rollbackReply);
      PassFailsAt(pending, i, rollbackReply);
      if i < |pending| {
        // The rollback call for this order fails, and the exception ends the pass.
        FailedStep(before, pending, i, rollbackReply);
        effects := effects + [Rollback(InventoryRequests(pending[i].lineItems))];
        outcome := Err(RemoteCallFailed);
      } else {
        assert pending[..i] == pending;
        outcome := Ok(());
      }
      SubStoreEvolves(before, repository.orders);
    }
  }
}
