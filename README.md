# Order service: the order-placement saga as a verified Dafny model

This project models the order lifecycle of the e-commerce order service
(`OrderService`): placing an order against the inventory service, completing it
through the charge service and the tracking service, mirroring tracking updates,
removing orders, and the periodic cleanup pass that rolls back the inventory
reservation of PENDING orders left too long and deletes them.

Modules:

- `Orders` (`orders.dfy`): the order and line-item records, the request and reply
  values of the collaborators, the constants the service compares against
  (`"inventory-updated"`, `"succeeded"`, `"order completed"`, `"Order Cancelled"`,
  the five-minute staleness window), the pure mappings `mapToDto` / request-list
  building, and the stock gate.
- `Repository` (`repository.dfy`): class `OrderRepository`, the order store as a
  map from store-assigned id to order, with the saves, deletes and queries the
  service calls.
- `Saga` (`saga.dfy`): the lifecycle invariants (`UniqueOrderNumbers`, `Evolves`:
  number, owner, items and creation time never change, COMPLETED never goes back,
  new records are PENDING) and the specification of one cleanup pass
  (`AfterCleanup`, `CleanupTrace`) with the lemmas about it.
- `Service` (`order_service.dfy`): class `OrderService` holding the repository,
  with one method per service operation. Each operation keeps `Valid()`
  (well-formed store, unique order numbers) and `Evolves`, and states its whole
  effect on the store. The `for` loop of the cleanup pass is the method
  `RollBackEach`, which `CleanupPendingOrders` calls on its snapshot; the loop only
  removes records, so it keeps the store well formed and `Evolves`, and
  `CleanupPendingOrders` adds the uniqueness of order numbers.

How the outside world appears in the model:

- Each remote reply is a parameter of the operation that waits for it: the stock
  answer list and the reservation reply of `PlaceOrder`, the charge reply and
  whether the tracking call went through for `CompleteOrder`, the rollback reply
  of each order (a function of the order id, either a body or a transport failure)
  for `CleanupPendingOrders`.
- The clock is a `now` parameter in milliseconds; the generated UUID order number
  is a `freshNumber` parameter that must not be in use, which stands for the
  uniqueness the UUID generator provides.
- The operations that call other services (`PlaceOrder`, `CompleteOrder`,
  `CleanupPendingOrders`) report every outbound call and every store write, in
  order, in the `effects` sequence they return (`CheckStock`, `Reserve`,
  `Rollback`, `Notify`, `Charge`, `CreateTracking`, `Saved`, `Deleted`). This is
  how the model states that a failed stock check issues no reservation, and that a
  deletion never comes before its rollback. `RemoveOrder` and
  `UpdateTrackingStatus` call no other service and make at most one store write;
  their postconditions state that write directly.
- Orders are values: changing an order means saving an updated copy. A field
  set on an order reaches the store only through a save.

Behaviour of the code that the model keeps as written:

- `CompleteOrder` looks the order up, then charges whatever the lookup found. A
  missing order fails the call (`NoSuchElement`, from `Optional.get()`) only when
  the charge succeeded, after the charge was made. With any other charge status it
  answers "Order Cancelled", for a missing order too.
- On a succeeded charge, Tracking is told before the order is saved
  (OrderService.java:120-128). So when the tracking call fails the error reaches
  the caller and the stored order stays exactly as it was (PENDING, unless it had
  been completed before), although the charge went through.
- The stock gate looks only at the answers of the stock check (`anyMatch` over
  them), so an empty answer list lets the order through.
- `CompleteOrder` does not check the order's status: a COMPLETED order charged
  again is completed again.
- The cleanup cutoff is now minus five minutes (the local variable at line 139 is
  called "tenMinutesAgo", but the code subtracts five minutes). Candidates are
  orders strictly before the cutoff.
- Deleting an absent id does nothing. This is what Spring Data 3's `deleteById`
  and `delete` do.
- The cleanup pass deletes a candidate without re-reading its status after the
  rollback (OrderService.java:153-154). Nothing runs concurrently in the model, so
  no candidate can change between the snapshot and the delete.
- The rollback call of the cleanup pass (lines 146-152) has no `try`/`catch`. When
  it fails, the exception ends the whole pass: the deletions already made stay
  (each `delete` commits on its own, the method is not `@Transactional`), and every
  later candidate of the snapshot is neither rolled back nor deleted.
  `CleanupPendingOrders` models this, and reports the failure as
  `Err(RemoteCallFailed)`. `AfterCleanup` describes the pass in which a failed
  rollback defers only its own order; the two agree when no rollback call fails
  (see "## Findings").

## Model

| member | source | states |
|---|---|---|
| `Orders.ToLineItems` | services/order-service/src/main/java/com/ecommerce/orderservice/service/OrderService.java:47-50 | the order's line items are the request lines, in request order, with sku, price and quantity copied field for field (mapToDto, lines 158-164) |
| `Orders.InventoryRequests` | services/order-service/src/main/java/com/ecommerce/orderservice/service/OrderService.java:51-53 | the inventory request list has one (sku, quantity) pair per line item, in the same order |
| `Orders.PlacementRequestsFollowRequest` | services/order-service/src/main/java/com/ecommerce/orderservice/service/OrderService.java:47-53 | the request sent to inventory on placement is the (sku, quantity) of each request line, in order; price plays no part |
| `Orders.AnyOutOfStock` | services/order-service/src/main/java/com/ecommerce/orderservice/service/OrderService.java:62 | the stock gate is true exactly when some stock answer says not-in-stock |
| `Repository.OrderRepository.FindById` | services/order-service/src/main/java/com/ecommerce/orderservice/service/OrderService.java:105 | finds nothing exactly when the id is not stored; otherwise gives the stored order, which carries that id |
| `Repository.OrderRepository.SaveNew` | services/order-service/src/main/java/com/ecommerce/orderservice/service/OrderService.java:79 | saving a new order stores it under a fresh id not used before, and changes nothing else |
| `Repository.OrderRepository.Save` | services/order-service/src/main/java/com/ecommerce/orderservice/service/OrderService.java:128 | saving a stored order replaces that one record and nothing else |
| `Repository.OrderRepository.DeleteById` | services/order-service/src/main/java/com/ecommerce/orderservice/service/OrderService.java:40 | deleting removes that id and keeps every other order; an absent id is ignored |
| `Repository.OrderRepository.FindByOrderNumber` | services/order-service/src/main/java/com/ecommerce/orderservice/service/OrderService.java:206 | finds nothing exactly when no order has that number; otherwise gives a stored order with that number, as stored |
| `Repository.OrderRepository.FindByStatusAndTimestampBefore` | services/order-service/src/main/java/com/ecommerce/orderservice/service/OrderService.java:140 | lists exactly the stored orders with that status and a timestamp strictly before the cutoff, each once, as stored |
| `Saga.StaleMeansOlderThanWindow` | services/order-service/src/main/java/com/ecommerce/orderservice/service/OrderService.java:139-140 | a pass run at `now` picks an order exactly when it is stored, PENDING and more than 5 * 60 * 1000 ms old |
| `Saga.AfterCleanup` | services/order-service/src/main/java/com/ecommerce/orderservice/service/OrderService.java:139-155 | intended pass, equal to the code's pass when no rollback call fails: an order is gone iff it was PENDING, older than the cutoff and its rollback was confirmed; all COMPLETED and all recent orders stay; kept orders are unchanged |
| `Saga.CleanupStep` | services/order-service/src/main/java/com/ecommerce/orderservice/service/OrderService.java:142-155 | for one candidate: first the rollback call with the order's own (sku, quantity) list, then a deletion of that order exactly when the rollback is confirmed, and nothing else |
| `Saga.CleanupTrace` | services/order-service/src/main/java/com/ecommerce/orderservice/service/OrderService.java:141-155 | a pass over n candidates makes between n and 2n calls and writes |
| `Saga.CleanupRollsBackEachCandidateOnce` | services/order-service/src/main/java/com/ecommerce/orderservice/service/OrderService.java:141-152 | a pass makes exactly one rollback call per candidate, in snapshot order, each with that order's own (sku, quantity) list |
| `Saga.CleanupDeletesOnlyAfterConfirmedRollback` | services/order-service/src/main/java/com/ecommerce/orderservice/service/OrderService.java:146-155 | every deletion comes right after the rollback of the same order and only when that rollback answered "inventory-updated" |
| `Saga.CleanupDeletesEveryConfirmed` | services/order-service/src/main/java/com/ecommerce/orderservice/service/OrderService.java:153-154 | every candidate whose rollback is confirmed is deleted |
| `Saga.CleanupIsIdempotent` | services/order-service/src/main/java/com/ecommerce/orderservice/service/OrderService.java:140-155 | intended: a second `AfterCleanup` pass with the same clock and replies leaves the store as the first left it |
| `Saga.PassIsIdempotentWithoutFailures` | services/order-service/src/main/java/com/ecommerce/orderservice/service/OrderService.java:140-156 | the code's pass: when no rollback call fails in either pass, a second pass with the same clock and replies, over its own snapshot, leaves the store as the first left it; once a call fails this no longer holds, since the unordered query may list the candidates differently the second time |
| `Saga.SecondPassFindsNothing` | services/order-service/src/main/java/com/ecommerce/orderservice/service/OrderService.java:140-154 | after a pass in which every rollback was confirmed, a pass with the same clock has no candidates |
| `Saga.SecondPassIssuesNoRollback` | services/order-service/src/main/java/com/ecommerce/orderservice/service/OrderService.java:140-155 | and that second pass has an empty snapshot and makes no rollback call and no deletion, whatever inventory would answer |
| `Saga.CleanupKeepsInvariants` | services/order-service/src/main/java/com/ecommerce/orderservice/service/OrderService.java:153-154 | a pass keeps order numbers unique and only removes records, never altering one |
| `Service.OrderService.RemoveOrder` | services/order-service/src/main/java/com/ecommerce/orderservice/service/OrderService.java:38-41 | removes exactly the given id from the store, keeping the invariants |
| `Service.OrderService.PlaceOrder` | services/order-service/src/main/java/com/ecommerce/orderservice/service/OrderService.java:45-95 | any not-in-stock answer: ItemsNotInStock with the answers, only the stock check issued, store unchanged; reservation reply other than "inventory-updated": InventoryError, store unchanged; otherwise exactly one new order under a fresh id: PENDING, given user, copied items, timestamp now, the fresh number, no tracking status; result holds that id and the (sku, quantity) list; calls are check, reserve, save, "<number> order placed" notification |
| `Service.OrderService.CompleteOrder` | services/order-service/src/main/java/com/ecommerce/orderservice/service/OrderService.java:103-136 | charge transport failure: rethrown, store unchanged; status other than "succeeded": "Order Cancelled", store unchanged, order still as it was; succeeded on a missing order: NoSuchElement after charging; succeeded on a stored order: tracking told (its number, PROCESSING) before the save, then status COMPLETED and tracking PROCESSING, "order completed"; a failed tracking call leaves the store unchanged; no other order ever changes |
| `Service.OrderService.UpdateTrackingStatus` | services/order-service/src/main/java/com/ecommerce/orderservice/service/OrderService.java:204-214 | NotFound exactly when no order has the number, store then unchanged; otherwise only that order's tracking status is overwritten, status, items and timestamp kept |
| `Saga.AttemptedFrom` | services/order-service/src/main/java/com/ecommerce/orderservice/service/OrderService.java:141-152 | after the loop has got through `i` candidates without a failed call, the pass ends at the snapshot's end, or right after candidate `i` when its rollback call fails |
| `Saga.AttemptedStopsAtFailure` | services/order-service/src/main/java/com/ecommerce/orderservice/service/OrderService.java:146-152 | the pass never gets past a candidate whose rollback call fails |
| `Saga.AfterPass` | services/order-service/src/main/java/com/ecommerce/orderservice/service/OrderService.java:141-156 | the store after a pass as the code runs it only loses records and never alters a kept one |
| `Saga.CleanupPassOutcome` | services/order-service/src/main/java/com/ecommerce/orderservice/service/OrderService.java:140-156 | when no rollback call fails, the pass over a snapshot of the stale orders leaves exactly the store `AfterCleanup` describes |
| `Saga.PassDeletesNoMoreThanCleanup` | services/order-service/src/main/java/com/ecommerce/orderservice/service/OrderService.java:140-156 | a pass, failed or not, deletes only orders `AfterCleanup` deletes, alters none, and keeps order numbers unique and `Evolves` |
| `Saga.FailedRollbackStrandsLaterCandidates` | services/order-service/src/main/java/com/ecommerce/orderservice/service/OrderService.java:141-156 | as written: a confirmed candidate listed after a candidate whose rollback call fails stays in the store, although `AfterCleanup` removes it |
| `Saga.FailedRollbackStrandsOrderTwo` | services/order-service/src/main/java/com/ecommerce/orderservice/service/OrderService.java:141-156 | as written, on two stale orders: order 1's rollback call fails, order 2's would be confirmed, and order 2 stays |
| `Saga.FailedRollbackDefersOnlyThatOrder` | services/order-service/src/main/java/com/ecommerce/orderservice/service/OrderService.java:141-156 | intended: an order whose rollback call fails stays unchanged and is a candidate again next pass, while every other confirmed candidate is removed |
| `Service.OrderService.CleanupPendingOrders` | services/order-service/src/main/java/com/ecommerce/orderservice/service/OrderService.java:137-157 | the snapshot lists each PENDING order older than now minus five minutes once, as stored; the store becomes `AfterPass` of the snapshot and the calls are `CleanupTrace` of the candidates gone through; the result is `Err(RemoteCallFailed)` exactly when some rollback call of the snapshot fails; the store never loses more than `AfterCleanup` removes, and equals it when no call fails |
| `Service.OrderService.RollBackEach` | services/order-service/src/main/java/com/ecommerce/orderservice/service/OrderService.java:141-156 | going through the listed orders in order and stopping at the first failed rollback call, the store loses exactly the confirmed orders gone through, the calls are `CleanupTrace` of those orders, and the failure is reported exactly when some call fails |

## Left out

- HTTP plumbing: the WebClient calls, their URLs and `.block()`. Each reply is a parameter. A null reply body, which the code would dereference, is not modelled.
- Transport failures of the stock check, the reservation and the "order placed" notification are not modelled. Those replies are assumed to arrive. Transport failures are modelled for the charge and tracking calls, where the code catches and rethrows them (lines 131-132), and for the rollback call of the cleanup pass, where nothing catches them.
- `@Transactional` rollback and JPA managed-entity flushing. Only an explicit save changes the store. With transactional flushing, the order set COMPLETED before a failed tracking call would also not be committed, since the transaction rolls back.
- The `@Scheduled` timer (every 6 seconds), and what the scheduler does with an exception that ends a pass (it logs it). `CleanupPendingOrders` is one pass, given `now`.
- Concurrency between the cleanup pass and request threads.
- The commented-out circuit breaker and retry, and `placeOrderFallback`, which only prints and returns null.
- `viewOrdersByUser`: a read-only composition with one catalog call per line item and no decision logic.
- UUID generation and the system clock. They appear as `freshNumber`, which must not be in use, and `now`.
- The charge request payload and Stripe internals. The charge call appears as one `Charge` effect, and `price` is carried and never used.
- The JPA mapping of `Order` and `OrderLineItem`, and line-item ids. The entity classes are not part of this model; an order has the fields the service sets or reads.
- TrackingStatus constants other than PROCESSING. They are kept by name (`Reported(name)`).
- The result of a duplicate order number in `findByOrderNumber`. Unique numbers are an invariant of the model, so that case cannot arise.
- Product and delivery DTOs: data holders with no behaviour.

## Findings

| source | as written | input that shows it | evidently intended | confidence | as-written member | corrected member |
|---|---|---|---|---|---|---|
| services/order-service/src/main/java/com/ecommerce/orderservice/service/OrderService.java:141-156 | a rollback call that fails throws out of the `for` loop, so every later candidate of the snapshot is left neither rolled back nor deleted; with a stable query order, one order whose rollback keeps failing blocks those behind it on every pass | two stale PENDING orders listed as [1, 2]; the rollback call for 1 fails, the one for 2 would answer "inventory-updated"; order 2 stays in the store | a failed rollback defers only its own order to the next pass, and the loop goes on with the rest | medium, not executed | `Saga.FailedRollbackStrandsLaterCandidates` (with `Saga.FailedRollbackStrandsOrderTwo`) | `Saga.FailedRollbackDefersOnlyThatOrder` about `Saga.AfterCleanup` |
