/** The "Add to Cart" button on a book page: it adds the book once, then links to the cart. */
module AddToCart {
  import opened Domain
  import Cart

  /** What a click did besides changing the cart. */
  datatype ClickEffect = Added | NavigatedToCart

  /** `isInCart`, recomputed from `items.includes(bookId)` whenever the cart changes. */
  function IsInCart(items: seq<Id>, bookId: Id): (r: bool)
    ensures r <==> exists i :: 0 <= i < |items| && items[i] == bookId
  {
    bookId in items
  }

  /** The button's caption. */
  function Label(items: seq<Id>, bookId: Id): (r: string)
    ensures r == "View Cart" <==> bookId in items
    ensures r == "Add to Cart" <==> bookId !in items
  {
    if IsInCart(items, bookId) then "View Cart" else "Add to Cart"
  }

  /**
   * The click handler: navigate to /cart when the book is in the cart, otherwise call
   * `addItem(bookId)` once.
   */
  function Click(items: seq<Id>, bookId: Id): (r: (seq<Id>, ClickEffect))
    ensures bookId in items ==> r == (items, NavigatedToCart)
    ensures bookId !in items ==> r == (Cart.AddItem(items, bookId), Added)
    ensures multiset(r.0)[bookId] == if bookId in items then multiset(items)[bookId] else 1
  {
    if IsInCart(items, bookId) then (items, NavigatedToCart) else (Cart.AddItem(items, bookId), Added)
  }

  /** The cart after `n` clicks on the button of one book. */
  function ClickTimes(items: seq<Id>, bookId: Id, n: nat): seq<Id>
    decreases n
  {
    if n == 0 then items else ClickTimes(Click(items, bookId).0, bookId, n - 1)
  }

  /**
   * However often it is clicked, this button adds at most one unit of its book, and
   * none at all when the book is already in the cart; other books are untouched.
   */
  lemma {:induction false} RepeatedClicks(items: seq<Id>, bookId: Id, n: nat)
    ensures multiset(ClickTimes(items, bookId, n))[bookId]
         == if n > 0 && bookId !in items then 1 else multiset(items)[bookId]
    ensures forall x :: x != bookId ==> multiset(ClickTimes(items, bookId, n))[x] == multiset(items)[x]
    decreases n
  {
    if n > 0 {
      var next := Click(items, bookId).0;
      RepeatedClicks(next, bookId, n - 1);
      assert bookId in next;
    }
  }

  /** Starting from a cart with at most one unit of the book, clicks keep it at most one. */
  lemma ClicksNeverDuplicate(items: seq<Id>, bookId: Id, n: nat)
    requires multiset(items)[bookId] <= 1
    ensures multiset(ClickTimes(items, bookId, n))[bookId] <= 1
  {
    RepeatedClicks(items, bookId, n);
  }
}
