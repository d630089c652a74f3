/** Entities, request/response values and the pure mappings of the order service.

    The order and its line items are values here: the service changes an order by
    building an updated copy and saving it to the repository. */
module Orders {

  datatype Option<+T> = None | Some(value: T)

  datatype Result<+T, +E> = Ok(value: T) | Err(error: E)

  /** Store-assigned identity of an order (a JPA Long id). */
  type OrderId = nat

  /** Unit price of a line item; carried through, never computed with. */
  type Price = real

  /** Instants in milliseconds since the epoch. */
  type Millis = int

  datatype OrderStatus = Pending | Completed

  /** Only PROCESSING is set by the service itself; the other values come from the
      tracking service and are only mirrored, so they are kept by name. `Processing` and
      `Reported("PROCESSING")` stand for the same status: the second form is PROCESSING
      as mirrored from the tracking service, and no contract tells the two apart. */
  datatype TrackingStatus = Processing | Reported(name: string)

  datatype OrderLineItem = OrderLineItem(skuCode: string, price: Price, quantity: int)

  /** An order record. `trackingStatus` is None until a tracking status is set. */
  datatype Order = Order(
    id: OrderId,
    orderNumber: string,
    userName: string,
    lineItems: seq<OrderLineItem>,
    status: OrderStatus,
    trackingStatus: Option<TrackingStatus>,
    timestamp: Millis)

  /** One requested line of an incoming order request. */
  datatype OrderLineItemsDto = OrderLineItemsDto(skuCode: string, price: Price, quantity: int)

  datatype OrderRequest = OrderRequest(lineItems: seq<OrderLineItemsDto>)

  /** The (sku, quantity) pair sent to the inventory service. */
  datatype InventoryRequest = InventoryRequest(skuCode: string, quantity: int)

  /** One entry of the inventory service's stock answer. */
  datatype InventoryResponse = InventoryResponse(skuCode: string, inStock: bool)

  /** What a successful placement returns: the new order's id and the reserved items. */
  datatype InventoryUpdateRequestDto = InventoryUpdateRequestDto(orderId: OrderId, items: seq<InventoryRequest>)

  datatype TrackingInfo = TrackingInfo(orderNumber: string, orderStatus: TrackingStatus)

  /** The outcome of a remote call: a decoded reply, or a transport-level failure
      (WebClientRequestException / WebClientResponseException). */
  datatype Reply<+T> = Received(body: T) | TransportFailure

  /** Errors the service raises to its caller. */
  datatype Failure =
    | ItemsNotInStock(responses: seq<InventoryResponse>)  // ItemsNotInStockException
    | InventoryError                                     // IllegalStateException("Inventory-error")
    | NoSuchElement                                      // Optional.get() on an absent order
    | RemoteCallFailed                                   // a rethrown WebClient exception

  /** Answer of the tracking-status endpoint. */
  datatype TrackingResponse = Acknowledged | NotFound

  /** Everything the service does outside its own variables, in the order it does it:
      calls to the collaborators and writes to the order store. */
  datatype Effect =
    | CheckStock(items: seq<InventoryRequest>)
    | Reserve(items: seq<InventoryRequest>)
    | Rollback(items: seq<InventoryRequest>)
    | Notify(message: string)
    | Charge
    | CreateTracking(info: TrackingInfo)
    | Saved(id: OrderId)
    | Deleted(id: OrderId)

  const InventoryUpdated: string := "inventory-updated"
  const ChargeSucceeded: string := "succeeded"
  const OrderCompletedReply: string := "order completed"
  const OrderCancelledReply: string := "Order Cancelled"
  const OrderPlacedSuffix: string := " order placed"

  /** How long an order may stay PENDING before the cleanup pass rolls it back: 5 minutes. */
  const StalenessWindow: Millis := 5 * 60 * 1000

  /** The request lines turned into order line items (mapToDto over the list). */
  function ToLineItems(dtos: seq<OrderLineItemsDto>): (items: seq<OrderLineItem>)
    ensures |items| == |dtos|
    ensures forall i :: 0 <= i < |dtos| ==>
              && items[i].skuCode == dtos[i].skuCode
              && items[i].price == dtos[i].price
              && items[i].quantity == dtos[i].quantity
  {
    seq(|dtos|, i requires 0 <= i < |dtos| => OrderLineItem(dtos[i].skuCode, dtos[i].price, dtos[i].quantity))
  }

  /** The (sku, quantity) list sent to the inventory service for some line items. */
  function InventoryRequests(items: seq<OrderLineItem>): (reqs: seq<InventoryRequest>)
    ensures |reqs| == |items|
    ensures forall i :: 0 <= i < |items| ==>
              reqs[i].skuCode == items[i].skuCode && reqs[i].quantity == items[i].quantity
  {
    seq(|items|, i requires 0 <= i < |items| => InventoryRequest(items[i].skuCode, items[i].quantity))
  }

  /** The stock gate: true when some answer of the stock check says "not in stock".
      It looks at the answers only, so an empty answer list lets the order through. */
  function AnyOutOfStock(responses: seq<InventoryResponse>): (r: bool)
    ensures r <==> exists i :: 0 <= i < |responses| && !responses[i].inStock
  {
    if responses == [] then false
    else if !responses[0].inStock then true
    else
      var rest := AnyOutOfStock(responses[1..]);
      assert forall i :: 1 <= i < |responses| ==> responses[i] == responses[1..][i - 1];
      rest
  }

  /** The inventory request of a placed order is built from the request lines alone:
      the price plays no part in it and the request order is kept. */
  lemma PlacementRequestsFollowRequest(dtos: seq<OrderLineItemsDto>)
    ensures InventoryRequests(ToLineItems(dtos))
            == seq(|dtos|, i requires 0 <= i < |dtos| => InventoryRequest(dtos[i].skuCode, dtos[i].quantity))
  {
  }
}
