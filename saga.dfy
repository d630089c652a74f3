/** The invariants of the order lifecycle and the specification of one cleanup pass
    (the compensation step of the placement saga). */
module Saga {
  import opened Orders
  import opened Repository

  /** No two stored orders share an order number. */
  ghost predicate UniqueOrderNumbers(orders: map<OrderId, Order>)
  {
    forall a, b :: a in orders && b in orders && orders[a].orderNumber == orders[b].orderNumber ==> a == b
  }

  /** One step of the service keeps the lifecycle rules of an order: number, owner, line
      items and creation time never change, COMPLETED never goes back to PENDING, and a
      record that appears is PENDING. Records may disappear (compensation, removal). */
  ghost predicate Evolves(before: map<OrderId, Order>, after: map<OrderId, Order>)
  {
    && (forall id :: id in before && id in after ==>
          && after[id].orderNumber == before[id].orderNumber
          && after[id].userName == before[id].userName
          && after[id].lineItems == before[id].lineItems
          && after[id].timestamp == before[id].timestamp
          && (before[id].status == Completed ==> after[id].status == Completed))
    && (forall id :: id in after && id !in before ==> after[id].status == Pending)
  }

  /** The cutoff of a cleanup pass run at `now`. */
  function Cutoff(now: Millis): (cutoff: Millis)
    ensures cutoff < now && now - cutoff == 300000
  {
    now - StalenessWindow
  }

  /** A store that only loses records keeps the lifecycle rules and unique numbers. */
  lemma SubStoreEvolves(before: map<OrderId, Order>, after: map<OrderId, Order>)
    requires forall id :: id in after ==> id in before && after[id] == before[id]
    ensures Evolves(before, after)
    ensures UniqueOrderNumbers(before) ==> UniqueOrderNumbers(after)
  {
  }

  /** The candidates of a cleanup pass: PENDING orders created strictly before the cutoff. */
  ghost function StaleIds(orders: map<OrderId, Order>, cutoff: Millis): set<OrderId>
  {
    MatchingIds(orders, Pending, cutoff)
  }

  /** A pass run at `now` picks exactly the PENDING orders more than five minutes old. */
  lemma StaleMeansOlderThanWindow(orders: map<OrderId, Order>, now: Millis, id: OrderId)
    ensures id in StaleIds(orders, Cutoff(now))
            <==> id in orders && orders[id].status == Pending && now - orders[id].timestamp > 5 * 60 * 1000
  {
  }

  /** The inventory service confirmed a rollback: the call went through and answered
      "inventory-updated". */
  predicate Confirmed(reply: Reply<string>)
  {
    reply == Received(InventoryUpdated)
  }

  /** The candidates whose rollback the inventory service confirms. */
  ghost function RolledBack(orders: map<OrderId, Order>, cutoff: Millis, rollbackReply: OrderId -> Reply<string>): set<OrderId>
  {
    set id | id in StaleIds(orders, cutoff) && Confirmed(rollbackReply(id))
  }

  /** The store after one cleanup pass in which a failed rollback defers only its own
      order, given the rollback reply for each order. It is the store the code's pass
      (`AfterPass`) leaves when no rollback call fails. */
  ghost function AfterCleanup(orders: map<OrderId, Order>, cutoff: Millis, rollbackReply: OrderId -> Reply<string>)
    : (after: map<OrderId, Order>)
    ensures forall id :: id in after ==> id in orders && after[id] == orders[id]
    ensures forall id :: id in orders ==>
              (id !in after <==> orders[id].status == Pending && orders[id].timestamp < cutoff
                                 && Confirmed(rollbackReply(id)))
    ensures forall id :: id in orders && orders[id].status == Completed ==> id in after
    ensures forall id :: id in orders && orders[id].timestamp >= cutoff ==> id in after
  {
    orders - RolledBack(orders, cutoff, rollbackReply)
  }

  /** What the pass does for one candidate: roll its items back, then delete it if the
      rollback is confirmed. */
  function CleanupStep(order: Order, rollbackReply: OrderId -> Reply<string>): (step: seq<Effect>)
    ensures |step| == if Confirmed(rollbackReply(order.id)) then 2 else 1
    ensures step[0] == Rollback(InventoryRequests(order.lineItems))
    ensures |step| == 2 ==> step[1] == Deleted(order.id)
  {
    [Rollback(InventoryRequests(order.lineItems))]
      + (if Confirmed(rollbackReply(order.id)) then [Deleted(order.id)] else [])
  }

  /** The item lists of the rollback calls in a trace, in order. */
  function RollbackItems(trace: seq<Effect>): seq<seq<InventoryRequest>>
    decreases |trace|
  {
    if trace == [] then []
    else
      var last := trace[|trace| - 1];
      RollbackItems(trace[..|trace| - 1]) + (if last.Rollback? then [last.items] else [])
  }

  lemma {:induction false} RollbackItemsAppend(a: seq<Effect>, b: seq<Effect>)
    ensures RollbackItems(a + b) == RollbackItems(a) + RollbackItems(b)
    decreases |b|
  {
    if b != [] {
      var b' := b[..|b| - 1];
      assert (a + b)[..|a + b| - 1] == a + b';
      RollbackItemsAppend(a, b');
    } else {
      assert a + b == a;
    }
  }

  /** The rollback item lists of some candidates, in order. */
  function CandidateRollbacks(candidates: seq<Order>): seq<seq<InventoryRequest>>
  {
    seq(|candidates|, j requires 0 <= j < |candidates| => InventoryRequests(candidates[j].lineItems))
  }

  lemma CandidateRollbacksSnoc(candidates: seq<Order>)
    requires candidates != []
    ensures CandidateRollbacks(candidates)
            == CandidateRollbacks(candidates[..|candidates| - 1])
               + [InventoryRequests(candidates[|candidates| - 1].lineItems)]
  {
  }

  /** The effects of a cleanup pass over `candidates`, in iteration order. */
  function CleanupTrace(candidates: seq<Order>, rollbackReply: OrderId -> Reply<string>): (trace: seq<Effect>)
    ensures |candidates| <= |trace| <= 2 * |candidates|
    decreases |candidates|
  {
    if candidates == [] then []
    else
      var n := |candidates| - 1;
      CleanupTrace(candidates[..n], rollbackReply) + CleanupStep(candidates[n], rollbackReply)
  }

  lemma RollbackItemsOfStep(order: Order, rollbackReply: OrderId -> Reply<string>)
    ensures RollbackItems(CleanupStep(order, rollbackReply)) == [InventoryRequests(order.lineItems)]
  {
    var rollback := Rollback(InventoryRequests(order.lineItems));
    assert [rollback][..0] == [];
    assert RollbackItems([rollback]) == [rollback.items];
    if Confirmed(rollbackReply(order.id)) {
      assert CleanupStep(order, rollbackReply)[..1] == [rollback];
    }
  }

  /** A pass makes exactly one rollback call per candidate, in iteration order, each with
      that candidate's own (sku, quantity) list. */
  lemma {:induction false} CleanupRollsBackEachCandidateOnce(candidates: seq<Order>, rollbackReply: OrderId -> Reply<string>)
    ensures RollbackItems(CleanupTrace(candidates, rollbackReply)) == CandidateRollbacks(candidates)
    decreases |candidates|
  {
    if candidates != [] {
      var n := |candidates| - 1;
      CleanupRollsBackEachCandidateOnce(candidates[..n], rollbackReply);
      RollbackItemsAppend(CleanupTrace(candidates[..n], rollbackReply), CleanupStep(candidates[n], rollbackReply));
      RollbackItemsOfStep(candidates[n], rollbackReply);
      CandidateRollbacksSnoc(candidates);
    }
  }

  /** Every deletion in `trace` comes right after the rollback of that same candidate
      and only when the inventory service confirmed that rollback. */
  ghost predicate DeletesFollowConfirmedRollbacks(candidates: seq<Order>, trace: seq<Effect>,
                                                  rollbackReply: OrderId -> Reply<string>)
  {
    forall k :: 0 <= k < |trace| && trace[k].Deleted? ==>
      exists j :: 0 <= j < |candidates| && candidates[j].id == trace[k].id
                  && Confirmed(rollbackReply(candidates[j].id))
                  && 0 < k && trace[k - 1] == Rollback(InventoryRequests(candidates[j].lineItems))
  }

  /** A pass deletes an order only right after the rollback of that same order, and only
      when the inventory service confirmed it: deletion is never ahead of its rollback. */
  lemma {:induction false} CleanupDeletesOnlyAfterConfirmedRollback(candidates: seq<Order>, rollbackReply: OrderId -> Reply<string>)
    ensures DeletesFollowConfirmedRollbacks(candidates, CleanupTrace(candidates, rollbackReply), rollbackReply)
    decreases |candidates|
  {
    if candidates != [] {
      var n := |candidates| - 1;
      var prefix := CleanupTrace(candidates[..n], rollbackReply);
      var step := CleanupStep(candidates[n], rollbackReply);
      var trace := prefix + step;
      CleanupDeletesOnlyAfterConfirmedRollback(candidates[..n], rollbackReply);
      forall k | 0 <= k < |trace| && trace[k].Deleted?
        ensures exists j :: 0 <= j < |candidates| && candidates[j].id == trace[k].id
                            && Confirmed(rollbackReply(candidates[j].id))
                            && 0 < k && trace[k - 1] == Rollback(InventoryRequests(candidates[j].lineItems))
      {
        if k < |prefix| {
          assert trace[k] == prefix[k];
          var j :| 0 <= j < |candidates[..n]| && candidates[..n][j].id == prefix[k].id
                   && Confirmed(rollbackReply(candidates[..n][j].id))
                   && 0 < k && prefix[k - 1] == Rollback(InventoryRequests(candidates[..n][j].lineItems));
          assert trace[k - 1] == prefix[k - 1];
          assert candidates[..n][j] == candidates[j];
        } else {
          assert k == |prefix| + 1 && trace[k - 1] == step[0];
          assert candidates[n].id == trace[k].id;
        }
      }
    }
  }

  /** A pass deletes every candidate whose rollback is confirmed. */
  lemma {:induction false} CleanupDeletesEveryConfirmed(candidates: seq<Order>, rollbackReply: OrderId -> Reply<string>)
    ensures forall j :: 0 <= j < |candidates| && Confirmed(rollbackReply(candidates[j].id)) ==>
              Deleted(candidates[j].id) in CleanupTrace(candidates, rollbackReply)
    decreases |candidates|
  {
    if candidates != [] {
      var n := |candidates| - 1;
      CleanupDeletesEveryConfirmed(candidates[..n], rollbackReply);
      assert forall j :: 0 <= j < n ==> candidates[..n][j] == candidates[j];
    }
  }

  /** The ids among `candidates` whose rollback is confirmed. */
  ghost function ConfirmedAmong(candidates: seq<Order>, rollbackReply: OrderId -> Reply<string>): set<OrderId>
    decreases |candidates|
  {
    if candidates == [] then {}
    else
      var last := candidates[|candidates| - 1];
      ConfirmedAmong(candidates[..|candidates| - 1], rollbackReply)
        + (if Confirmed(rollbackReply(last.id)) then {last.id} else {})
  }

  lemma {:induction false} ConfirmedAmongMembers(candidates: seq<Order>, rollbackReply: OrderId -> Reply<string>, id: OrderId)
    ensures id in ConfirmedAmong(candidates, rollbackReply)
            <==> (exists j :: 0 <= j < |candidates| && candidates[j].id == id)
                 && Confirmed(rollbackReply(id))
    decreases |candidates|
  {
    if candidates != [] {
      var n := |candidates| - 1;
      ConfirmedAmongMembers(candidates[..n], rollbackReply, id);
      assert forall j :: 0 <= j < n ==> candidates[..n][j] == candidates[j];
      if j :| 0 <= j < |candidates| && candidates[j].id == id {
        if j < n {
          assert candidates[..n][j].id == id;
        }
      }
    }
  }

  /** Going one candidate further in a pass. */
  lemma CleanupAdvance(candidates: seq<Order>, i: nat, rollbackReply: OrderId -> Reply<string>)
    requires i < |candidates|
    ensures ConfirmedAmong(candidates[..i + 1], rollbackReply)
            == ConfirmedAmong(candidates[..i], rollbackReply)
               + (if Confirmed(rollbackReply(candidates[i].id)) then {candidates[i].id} else {})
    ensures CleanupTrace(candidates[..i + 1], rollbackReply)
            == CleanupTrace(candidates[..i], rollbackReply) + CleanupStep(candidates[i], rollbackReply)
  {
    assert candidates[..i + 1][..i] == candidates[..i];
  }

  /** One step of the loop on the store: the candidate is deleted when its rollback is
      confirmed. */
  lemma CleanupAdvanceStore(orders: map<OrderId, Order>, candidates: seq<Order>, i: nat,
                            rollbackReply: OrderId -> Reply<string>)
    requires i < |candidates|
    ensures orders - ConfirmedAmong(candidates[..i + 1], rollbackReply)
            == if Confirmed(rollbackReply(candidates[i].id))
               then (orders - ConfirmedAmong(candidates[..i], rollbackReply)) - {candidates[i].id}
               else orders - ConfirmedAmong(candidates[..i], rollbackReply)
  {
    CleanupAdvance(candidates, i, rollbackReply);
  }

  /** When the snapshot lists exactly the stale orders, its confirmed ids are exactly
      the orders a pass is to delete. */
  lemma ConfirmedAmongSnapshot(orders: map<OrderId, Order>, cutoff: Millis, rollbackReply: OrderId -> Reply<string>,
                               snapshot: seq<Order>)
    requires IdsOf(snapshot) == StaleIds(orders, cutoff)
    ensures ConfirmedAmong(snapshot, rollbackReply) == RolledBack(orders, cutoff, rollbackReply)
  {
    forall id ensures id in ConfirmedAmong(snapshot, rollbackReply) <==> id in RolledBack(orders, cutoff, rollbackReply)
    {
      ConfirmedAmongMembers(snapshot, rollbackReply, id);
    }
  }

  /** How many candidates a pass gets through. A rollback call that fails throws out of
      the loop, so the pass ends with the first candidate whose rollback call fails, and
      goes through all of them when none fails. */
  function Attempted(candidates: seq<Order>, rollbackReply: OrderId -> Reply<string>): (k: nat)
    ensures k <= |candidates| && (k == 0 <==> candidates == [])
    decreases |candidates|
  {
    if candidates == [] then 0
    else if rollbackReply(candidates[0].id).TransportFailure? then 1
    else 1 + Attempted(candidates[1..], rollbackReply)
  }

  /** Where the pass stops, seen from a loop that has got through the first `i`
      candidates without a failed call. */
  lemma {:induction false} AttemptedFrom(candidates: seq<Order>, i: nat, rollbackReply: OrderId -> Reply<string>)
    requires i <= |candidates|
    requires forall j :: 0 <= j < i ==> rollbackReply(candidates[j].id).Received?
    ensures i == |candidates| ==> Attempted(candidates, rollbackReply) == i
    ensures i < |candidates| && rollbackReply(candidates[i].id).TransportFailure? ==>
              Attempted(candidates, rollbackReply) == i + 1
    decreases i
  {
    if i > 0 {
      var rest := candidates[1..];
      assert forall j :: 0 <= j < i - 1 ==> rest[j] == candidates[j + 1];
      AttemptedFrom(rest, i - 1, rollbackReply);
    }
  }

  /** A pass never gets past a candidate whose rollback call fails. */
  lemma {:induction false} AttemptedStopsAtFailure(candidates: seq<Order>, failed: nat,
                                                   rollbackReply: OrderId -> Reply<string>)
    requires failed < |candidates| && rollbackReply(candidates[failed].id).TransportFailure?
    ensures Attempted(candidates, rollbackReply) <= failed + 1
    decreases failed
  {
    if failed > 0 && rollbackReply(candidates[0].id).Received? {
      var rest := candidates[1..];
      assert rest[failed - 1] == candidates[failed];
      AttemptedStopsAtFailure(rest, failed - 1, rollbackReply);
    }
  }

  /** A failed rollback call adds the call itself to the trace and deletes nothing. */
  lemma FailedStep(orders: map<OrderId, Order>, candidates: seq<Order>, i: nat,
                   rollbackReply: OrderId -> Reply<string>)
    requires i < |candidates| && rollbackReply(candidates[i].id).TransportFailure?
    ensures CleanupTrace(candidates[..i + 1], rollbackReply)
            == CleanupTrace(candidates[..i], rollbackReply) + [Rollback(InventoryRequests(candidates[i].lineItems))]
    ensures orders - ConfirmedAmong(candidates[..i + 1], rollbackReply)
            == orders - ConfirmedAmong(candidates[..i], rollbackReply)
  {
    CleanupAdvance(candidates, i, rollbackReply);
  }

  /** Such a pass stops early exactly when some rollback call of the snapshot fails. */
  lemma PassFailsAt(candidates: seq<Order>, i: nat, rollbackReply: OrderId -> Reply<string>)
    requires i <= |candidates|
    requires forall j :: 0 <= j < i ==> rollbackReply(candidates[j].id).Received?
    requires i < |candidates| ==> rollbackReply(candidates[i].id).TransportFailure?
    ensures (exists j :: 0 <= j < |candidates| && rollbackReply(candidates[j].id).TransportFailure?)
            <==> i < |candidates|
  {
  }

  /** The store after a pass over `snapshot` as the code runs it: the candidates it gets
      through are rolled back and the confirmed ones deleted; after a failed rollback call
      nothing more happens. */
  ghost function AfterPass(orders: map<OrderId, Order>, snapshot: seq<Order>, rollbackReply: OrderId -> Reply<string>)
    : (after: map<OrderId, Order>)
    ensures forall id :: id in after ==> id in orders && after[id] == orders[id]
  {
    orders - ConfirmedAmong(snapshot[..Attempted(snapshot, rollbackReply)], rollbackReply)
  }

  /** A pass in which no rollback call fails goes through the whole snapshot. */
  lemma PassReachesEnd(snapshot: seq<Order>, rollbackReply: OrderId -> Reply<string>)
    requires forall j :: 0 <= j < |snapshot| ==> rollbackReply(snapshot[j].id).Received?
    ensures Attempted(snapshot, rollbackReply) == |snapshot|
    ensures snapshot[..Attempted(snapshot, rollbackReply)] == snapshot
  {
    AttemptedFrom(snapshot, |snapshot|, rollbackReply);
  }

  /** When no rollback call fails, the pass over a snapshot of the stale orders leaves
      the store `AfterCleanup` describes. */
  lemma CleanupPassOutcome(orders: map<OrderId, Order>, cutoff: Millis, rollbackReply: OrderId -> Reply<string>,
                           snapshot: seq<Order>)
    requires IdsOf(snapshot) == StaleIds(orders, cutoff)
    requires forall j :: 0 <= j < |snapshot| ==> rollbackReply(snapshot[j].id).Received?
    ensures AfterPass(orders, snapshot, rollbackReply) == AfterCleanup(orders, cutoff, rollbackReply)
  {
    PassReachesEnd(snapshot, rollbackReply);
    ConfirmedAmongSnapshot(orders, cutoff, rollbackReply, snapshot);
  }

  /** Any pass, failed or not, deletes only orders `AfterCleanup` deletes too, never
      alters a kept order, and keeps the invariants. */
  lemma {:induction false} PassDeletesNoMoreThanCleanup(orders: map<OrderId, Order>, cutoff: Millis,
                                                        rollbackReply: OrderId -> Reply<string>, snapshot: seq<Order>)
    requires UniqueOrderNumbers(orders)
    requires IdsOf(snapshot) == StaleIds(orders, cutoff)
    ensures AfterCleanup(orders, cutoff, rollbackReply).Keys <= AfterPass(orders, snapshot, rollbackReply).Keys
    ensures UniqueOrderNumbers(AfterPass(orders, snapshot, rollbackReply))
    ensures Evolves(orders, AfterPass(orders, snapshot, rollbackReply))
  {
    var k := Attempted(snapshot, rollbackReply);
    var reached := snapshot[..k];
    forall id | id in orders && id !in AfterPass(orders, snapshot, rollbackReply)
      ensures id !in AfterCleanup(orders, cutoff, rollbackReply)
    {
      ConfirmedAmongMembers(reached, rollbackReply, id);
      var j :| 0 <= j < |reached| && reached[j].id == id;
      assert snapshot[j].id in IdsOf(snapshot);
    }
  }

  /** As the code stands, a failed rollback call strands every later candidate: a
      candidate behind it whose rollback the inventory service would confirm is neither
      rolled back nor deleted, although `AfterCleanup` removes it. */
  lemma {:induction false} FailedRollbackStrandsLaterCandidates(orders: map<OrderId, Order>, cutoff: Millis,
                                                                rollbackReply: OrderId -> Reply<string>,
                                                                snapshot: seq<Order>, failed: nat, later: nat)
    requires IdsOf(snapshot) == StaleIds(orders, cutoff)
    requires forall j, k :: 0 <= j < k < |snapshot| ==> snapshot[j].id != snapshot[k].id
    requires failed < later < |snapshot|
    requires rollbackReply(snapshot[failed].id).TransportFailure? && Confirmed(rollbackReply(snapshot[later].id))
    ensures Attempted(snapshot, rollbackReply) <= failed + 1
    ensures snapshot[later].id in AfterPass(orders, snapshot, rollbackReply)
    ensures snapshot[later].id !in AfterCleanup(orders, cutoff, rollbackReply)
  {
    AttemptedStopsAtFailure(snapshot, failed, rollbackReply);
    var k := Attempted(snapshot, rollbackReply);
    var id := snapshot[later].id;
    assert id in IdsOf(snapshot);
    ConfirmedAmongMembers(snapshot[..k], rollbackReply, id);
  }

  /** The smallest instance: orders 1 and 2 are both stale and listed in that order; the
      rollback call for order 1 fails and the one for order 2 would be confirmed. Order 2
      stays in the store, although a pass that deferred only order 1 would delete it. */
  lemma FailedRollbackStrandsOrderTwo()
    ensures var first := Order(1, "first", "alice", [], Pending, None, 0);
            var second := Order(2, "second", "bob", [], Pending, None, 0);
            var reply := (id: OrderId) => if id == 1 then TransportFailure else Received(InventoryUpdated);
            && 2 in AfterPass(map[1 := first, 2 := second], [first, second], reply)
            && 2 !in AfterCleanup(map[1 := first, 2 := second], 1, reply)
  {
    var first := Order(1, "first", "alice", [], Pending, None, 0);
    var second := Order(2, "second", "bob", [], Pending, None, 0);
    var reply := (id: OrderId) => if id == 1 then TransportFailure else Received(InventoryUpdated);
    var orders := map[1 := first, 2 := second];
    var snapshot := [first, second];
    assert IdsOf(snapshot) == {1, 2} by {
      assert snapshot[0].id == 1 && snapshot[1].id == 2;
    }
    assert StaleIds(orders, 1) == {1, 2};
    FailedRollbackStrandsLaterCandidates(orders, 1, reply, snapshot, 0, 1);
  }

  /** What the pass promises instead: a failed rollback call defers only its own order,
      which stays as it was and is a candidate again on the next pass, while every other
      candidate with a confirmed rollback is removed. */
  lemma FailedRollbackDefersOnlyThatOrder(orders: map<OrderId, Order>, cutoff: Millis,
                                          rollbackReply: OrderId -> Reply<string>, failed: OrderId)
    requires failed in StaleIds(orders, cutoff) && rollbackReply(failed).TransportFailure?
    ensures failed in AfterCleanup(orders, cutoff, rollbackReply)
    ensures AfterCleanup(orders, cutoff, rollbackReply)[failed] == orders[failed]
    ensures failed in StaleIds(AfterCleanup(orders, cutoff, rollbackReply), cutoff)
    ensures forall id :: id in StaleIds(orders, cutoff) && Confirmed(rollbackReply(id)) ==>
              id !in AfterCleanup(orders, cutoff, rollbackReply)
  {
  }

  /** A pass does not change its outcome when repeated with the same replies: the
      orders whose rollback failed are tried again and fail again. */
  lemma CleanupIsIdempotent(orders: map<OrderId, Order>, cutoff: Millis, rollbackReply: OrderId -> Reply<string>)
    ensures AfterCleanup(AfterCleanup(orders, cutoff, rollbackReply), cutoff, rollbackReply)
            == AfterCleanup(orders, cutoff, rollbackReply)
  {
  }

  /** The pass the code runs repeats its outcome as long as no rollback call fails in
      either pass: the second pass, over its own snapshot of the orders still stale, leaves
      the store as the first left it. */
  lemma PassIsIdempotentWithoutFailures(orders: map<OrderId, Order>, cutoff: Millis,
                                        rollbackReply: OrderId -> Reply<string>,
                                        first: seq<Order>, second: seq<Order>)
    requires IdsOf(first) == StaleIds(orders, cutoff)
    requires forall j :: 0 <= j < |first| ==> rollbackReply(first[j].id).Received?
    requires IdsOf(second) == StaleIds(AfterPass(orders, first, rollbackReply), cutoff)
    requires forall j :: 0 <= j < |second| ==> rollbackReply(second[j].id).Received?
    ensures AfterPass(AfterPass(orders, first, rollbackReply), second, rollbackReply)
            == AfterPass(orders, first, rollbackReply)
  {
    CleanupPassOutcome(orders, cutoff, rollbackReply, first);
    CleanupPassOutcome(AfterPass(orders, first, rollbackReply), cutoff, rollbackReply, second);
    CleanupIsIdempotent(orders, cutoff, rollbackReply);
  }

  /** After a pass in which every rollback was confirmed, a second pass with the same
      clock has no candidates. */
  lemma SecondPassFindsNothing(orders: map<OrderId, Order>, cutoff: Millis, rollbackReply: OrderId -> Reply<string>)
    requires forall id :: id in StaleIds(orders, cutoff) ==> Confirmed(rollbackReply(id))
    ensures StaleIds(AfterCleanup(orders, cutoff, rollbackReply), cutoff) == {}
  {
  }

  /** ... and therefore issues no rollback call at all, whatever the inventory would reply. */
  lemma SecondPassIssuesNoRollback(orders: map<OrderId, Order>, cutoff: Millis, rollbackReply: OrderId -> Reply<string>,
                                   secondSnapshot: seq<Order>, secondReply: OrderId -> Reply<string>)
    requires forall id :: id in StaleIds(orders, cutoff) ==> Confirmed(rollbackReply(id))
    requires IdsOf(secondSnapshot) == StaleIds(AfterCleanup(orders, cutoff, rollbackReply), cutoff)
    ensures secondSnapshot == [] && CleanupTrace(secondSnapshot, secondReply) == []
  {
    SecondPassFindsNothing(orders, cutoff, rollbackReply);
  }

  /** A cleanup pass keeps the lifecycle rules and the uniqueness of order numbers. */
  lemma CleanupKeepsInvariants(orders: map<OrderId, Order>, cutoff: Millis, rollbackReply: OrderId -> Reply<string>)
    requires UniqueOrderNumbers(orders)
    ensures UniqueOrderNumbers(AfterCleanup(orders, cutoff, rollbackReply))
    ensures Evolves(orders, AfterCleanup(orders, cutoff, rollbackReply))
  {
  }
}
