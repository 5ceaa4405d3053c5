/**
 * The checkout page's "Place Order" handler: it posts the raw cart to the checkout
 * endpoint and empties the cart only when the response is successful.
 */
module CheckoutClient {
  import opened Basics
  import opened Domain
  import Cart
  import CartView
  import CheckoutRoute

  /** What `fetch` did: it answered with the given `response.ok`, or it threw. */
  datatype FetchResult = Answered(ok: bool) | FetchThrew

  /**
   * The observable effect of one call: the cart afterwards, the body that was posted
   * (if any), whether the page moved on to the order history, and `isProcessing` once
   * the handler has finished.
   */
  datatype CheckoutEffect = CheckoutEffect(items: seq<Id>, posted: Option<seq<Id>>, toOrders: bool, processing: bool)

  /** The Place Order button is disabled while a request is in flight. */
  predicate CanPlaceOrder(isProcessing: bool)
  {
    !isProcessing
  }

  /**
   * `handleCheckout`, called with the `isProcessing` flag it found: nothing happens when
   * no line is displayed. Otherwise the flag is raised, the whole id list, duplicates and
   * ids whose book was not found included, is posted; a successful response clears the
   * cart and navigates, a failed or thrown request leaves the cart as it was, and the
   * `finally` block lowers the flag again in every case.
   */
  function HandleCheckout(items: seq<Id>, lines: seq<CartView.Line>, fetch: FetchResult, processing: bool)
    : (r: CheckoutEffect)
    ensures r.posted.None? <==> |lines| == 0
    ensures r.posted.Some? ==> r.posted.value == items
    ensures r.toOrders <==> |lines| > 0 && fetch == Answered(true)
    ensures r.toOrders ==> forall id :: id !in r.items
    ensures !r.toOrders ==> r.items == items
    ensures |lines| == 0 ==> r.processing == processing
    ensures |lines| > 0 ==> CanPlaceOrder(r.processing)
  {
    if |lines| == 0 then CheckoutEffect(items, None, false, processing)
    else
      match fetch
      case Answered(true) => CheckoutEffect(Cart.Clear(items), Some(items), true, false)
      case _ => CheckoutEffect(items, Some(items), false, false)
  }

  /** Whatever the request does, a page that was idle is idle again: the button is re-enabled. */
  lemma ButtonReenabled(items: seq<Id>, lines: seq<CartView.Line>, fetch: FetchResult)
    ensures CanPlaceOrder(HandleCheckout(items, lines, fetch, false).processing)
    ensures HandleCheckout(items, lines, fetch, false).processing
         == HandleCheckout(items, lines, FetchThrew, false).processing
  {
  }

  /** `response.ok`: a status in the 2xx range; the JSON order list is sent with 200. */
  predicate ResponseOk(resp: CheckoutRoute.Response)
  {
    match resp
    case OrdersJson(_) => true
    case TextResponse(status, _) => 200 <= status < 300
  }

  /** The endpoint answers 2xx exactly when it created the orders. */
  lemma OkIffOrdersCreated(auth: Outcome<Option<Session>>, body: CheckoutRoute.RequestBody,
                           create: CheckoutRoute.Creator)
    ensures ResponseOk(CheckoutRoute.Post(auth, body, create)) <==> CheckoutRoute.Post(auth, body, create).OrdersJson?
  {
  }

  /**
   * End to end: a signed-in shopper with displayed lines whose every order is created
   * ends with an empty cart, and the orders placed are one per cart entry, in cart order.
   */
  lemma CheckoutSucceeds(items: seq<Id>, lines: seq<CartView.Line>, auth: Outcome<Option<Session>>,
                         create: CheckoutRoute.Creator)
    requires CheckoutRoute.SignedIn(auth) && |lines| > 0 && |items| > 0
    requires CheckoutRoute.StoresDraft(create)
    requires forall i :: 0 <= i < |items| ==>
      create(i, CheckoutRoute.OrderDraft(items[i], auth.value.value.user.value.id, PENDING)).Some?
    ensures var resp := CheckoutRoute.Post(auth, CheckoutRoute.JsonValue(CheckoutRoute.ArrayOf(items)), create);
      var r := HandleCheckout(items, lines, Answered(ResponseOk(resp)), false);
      r.toOrders && r.items == [] && resp.OrdersJson? && |resp.orders| == |items| &&
      forall i :: 0 <= i < |items| ==> resp.orders[i].bookId == items[i] && resp.orders[i].status == PENDING
  {
    CheckoutRoute.SuccessOrdersMatchItems(auth, items, create);
  }

  /** End to end: a signed-out shopper keeps the cart, and the page stays where it is. */
  lemma CheckoutSignedOutKeepsCart(items: seq<Id>, lines: seq<CartView.Line>, session: Option<Session>,
                                   create: CheckoutRoute.Creator)
    requires session.None? || session.value.user.None?
    ensures var resp := CheckoutRoute.Post(Returned(session), CheckoutRoute.JsonValue(CheckoutRoute.ArrayOf(items)), create);
      var r := HandleCheckout(items, lines, Answered(ResponseOk(resp)), false);
      r.items == items && !r.toOrders
  {
  }

  /** A network failure behaves like a refused request: the cart survives. */
  lemma ThrownFetchKeepsCart(items: seq<Id>, lines: seq<CartView.Line>)
    ensures HandleCheckout(items, lines, FetchThrew, false) == HandleCheckout(items, lines, Answered(false), false)
    ensures HandleCheckout(items, lines, FetchThrew, false).items == items
  {
  }
}
