/**
 * The checkout endpoint `POST /api/checkout`: it requires a session user, a non-empty
 * `items` array, and creates one PENDING order per element, duplicates included.
 */
module CheckoutRoute {
  import opened Basics
  import opened Domain

  /** The `items` field of the parsed body: absent or falsy, truthy but not an array, or an array. */
  datatype ItemsField = Missing | NotAnArray | ArrayOf(ids: seq<Id>)

  /** What `request.json()` produced: a parse failure, the JSON `null`, or a value with an `items` field. */
  datatype RequestBody = Unparsable | JsonNull | JsonValue(items: ItemsField)

  /** The data passed to `prisma.order.create`. */
  datatype OrderDraft = OrderDraft(bookId: Id, userId: Id, status: OrderStatus)

  /** A plain-text response with a status code, or the created orders as JSON (status 200). */
  datatype Response = TextResponse(status: int, message: string) | OrdersJson(orders: seq<Order>)

  const Unauthorized := TextResponse(401, "Unauthorized")
  const InvalidBody := TextResponse(400, "Invalid request body")
  const InternalError := TextResponse(500, "Internal error")

  /** The create data for each element of `items`: its book, the caller, and status PENDING. */
  function Drafts(ids: seq<Id>, userId: Id): (r: seq<OrderDraft>)
    ensures |r| == |ids|
    ensures forall i :: 0 <= i < |ids| ==> r[i].bookId == ids[i] && r[i].userId == userId && r[i].status == PENDING
  {
    if |ids| == 0 then [] else [OrderDraft(ids[0], userId, PENDING)] + Drafts(ids[1..], userId)
  }

  /**
   * The database's answer to the create call made for element `i` with the given data:
   * the stored row, or `None` when the call throws. Each element is a separate call, so
   * two elements with equal data may get different rows (their own ids and times).
   */
  type Creator = (nat, OrderDraft) -> Option<Order>

  /**
   * `Promise.all(drafts.map(create))`: the created orders in input order, or nothing when
   * any creation throws.
   */
  function CreateAll(drafts: seq<OrderDraft>, create: Creator): (r: Option<seq<Order>>)
    ensures r.Some? <==> forall i :: 0 <= i < |drafts| ==> create(i, drafts[i]).Some?
    ensures r.Some? ==> (|r.value| == |drafts| &&
      forall i :: 0 <= i < |drafts| ==> r.value[i] == create(i, drafts[i]).value)
  {
    if |drafts| == 0 then Some([])
    else
      var n := |drafts| - 1;
      assert forall i :: 0 <= i < n ==> drafts[..n][i] == drafts[i];
      match CreateAll(drafts[..n], create)
      case None => None
      case Some(init) =>
        match create(n, drafts[n])
        case None => None
        case Some(o) => Some(init + [o])
  }

  /**
   * The handler. `auth` is what `auth()` returned (or that it threw); `create` is the
   * database's answer to each create call. Every throw inside the `try` becomes 500.
   */
  function Post(auth: Outcome<Option<Session>>, body: RequestBody, create: Creator): (r: Response)
    ensures auth.Threw? ==> r == InternalError
    ensures auth.Returned? && (auth.value.None? || auth.value.value.user.None?) ==> r == Unauthorized
    ensures r.OrdersJson? ==>
      && auth.Returned? && auth.value.Some? && auth.value.value.user.Some?
      && body.JsonValue? && body.items.ArrayOf? && |body.items.ids| > 0
      && |r.orders| == |body.items.ids|
      && forall i :: 0 <= i < |r.orders| ==>
           var d := OrderDraft(body.items.ids[i], auth.value.value.user.value.id, PENDING);
           create(i, d).Some? && r.orders[i] == create(i, d).value
  {
    match auth
    case Threw => InternalError
    case Returned(session) =>
      if session.None? || session.value.user.None? then Unauthorized
      else
        var user := session.value.user.value;
        match body
        case Unparsable => InternalError
        case JsonNull => InternalError
        case JsonValue(items) =>
          if !items.ArrayOf? || |items.ids| == 0 then InvalidBody
          else
            match CreateAll(Drafts(items.ids, user.id), create)
            case None => InternalError
            case Some(orders) => OrdersJson(orders)
  }

  /** A signed-in caller: `auth()` returned a session with a user. */
  predicate SignedIn(auth: Outcome<Option<Session>>)
  {
    auth.Returned? && auth.value.Some? && auth.value.value.user.Some?
  }

  /**
   * The session check comes first: without a session user the answer is 401 whatever the
   * body, and no order is created (the answer does not depend on `create`).
   */
  lemma UnauthenticatedIgnoresBody(session: Option<Session>, b1: RequestBody, b2: RequestBody,
                                   c1: Creator, c2: Creator)
    requires session.None? || session.value.user.None?
    ensures Post(Returned(session), b1, c1) == Post(Returned(session), b2, c2) == Unauthorized
  {
  }

  /** A signed-in caller with a missing, non-array or empty `items` gets 400 and creates nothing. */
  lemma InvalidItemsRejected(auth: Outcome<Option<Session>>, items: ItemsField,
                             c1: Creator, c2: Creator)
    requires SignedIn(auth)
    requires !items.ArrayOf? || |items.ids| == 0
    ensures Post(auth, JsonValue(items), c1) == Post(auth, JsonValue(items), c2) == InvalidBody
  {
  }

  /** A body that does not parse, or the JSON `null`, makes the handler throw: 500. */
  lemma MalformedBodyIsInternalError(auth: Outcome<Option<Session>>, body: RequestBody, create: Creator)
    requires SignedIn(auth)
    requires body.Unparsable? || body.JsonNull?
    ensures Post(auth, body, create) == InternalError
  {
  }

  /**
   * On success there is one order per element of `items`, duplicates included and in the
   * same order; when the database stores the draft it was given, order `i` is for book
   * `items[i]`, belongs to the caller, and is PENDING.
   */
  lemma SuccessOrdersMatchItems(auth: Outcome<Option<Session>>, ids: seq<Id>, create: Creator)
    requires SignedIn(auth) && |ids| > 0
    requires StoresDraft(create)
    requires forall i :: 0 <= i < |ids| ==> create(i, OrderDraft(ids[i], auth.value.value.user.value.id, PENDING)).Some?
    ensures var r := Post(auth, JsonValue(ArrayOf(ids)), create);
      r.OrdersJson? && |r.orders| == |ids| &&
      forall i :: 0 <= i < |ids| ==>
        r.orders[i].bookId == ids[i] && r.orders[i].userId == auth.value.value.user.value.id &&
        r.orders[i].status == PENDING
  {
    var drafts := Drafts(ids, auth.value.value.user.value.id);
    assert forall i :: 0 <= i < |drafts| ==> drafts[i] == OrderDraft(ids[i], auth.value.value.user.value.id, PENDING);
  }

  /** Every row the database stores carries the book, user and status it was given. */
  ghost predicate StoresDraft(create: Creator)
  {
    forall i: nat, d :: create(i, d).Some? ==>
      create(i, d).value.bookId == d.bookId && create(i, d).value.userId == d.userId &&
      create(i, d).value.status == d.status
  }

  /**
   * Each element is its own create call: when the database gives every call a fresh id,
   * a cart holding the same book twice yields two different orders.
   */
  lemma DuplicatesAreSeparateOrders(auth: Outcome<Option<Session>>, ids: seq<Id>, create: Creator)
    requires forall i: nat, j: nat, d, e :: i != j && create(i, d).Some? && create(j, e).Some? ==>
      create(i, d).value.id != create(j, e).value.id
    requires Post(auth, JsonValue(ArrayOf(ids)), create).OrdersJson?
    ensures var orders := Post(auth, JsonValue(ArrayOf(ids)), create).orders;
      forall i, j :: 0 <= i < j < |orders| ==> orders[i].id != orders[j].id
  {
    var orders := Post(auth, JsonValue(ArrayOf(ids)), create).orders;
    var userId := auth.value.value.user.value.id;
    forall i, j | 0 <= i < j < |orders|
      ensures orders[i].id != orders[j].id
    {
      var di := OrderDraft(ids[i], userId, PENDING);
      var dj := OrderDraft(ids[j], userId, PENDING);
      assert orders[i] == create(i, di).value && orders[j] == create(j, dj).value;
    }
  }

  /** If any creation throws, the response is 500. */
  lemma CreateFailureIsInternalError(auth: Outcome<Option<Session>>, ids: seq<Id>, create: Creator, i: nat)
    requires SignedIn(auth) && i < |ids|
    requires create(i, OrderDraft(ids[i], auth.value.value.user.value.id, PENDING)).None?
    ensures Post(auth, JsonValue(ArrayOf(ids)), create) == InternalError
  {
    var drafts := Drafts(ids, auth.value.value.user.value.id);
    assert drafts[i] == OrderDraft(ids[i], auth.value.value.user.value.id, PENDING);
  }
}
