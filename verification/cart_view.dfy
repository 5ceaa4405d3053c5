/**
 * The cart and checkout pages' view of the cart: the raw id list is counted, deduplicated
 * in order of first occurrence, each distinct id is looked up, and ids that do not
 * resolve are dropped from the displayed lines.
 */
module CartView {
  import opened Basics
  import opened Seqs
  import opened Domain
  import Cart

  /** What `getBookById` did for one id: found the book, found nothing, or threw. */
  datatype Lookup = Found(book: Book) | NotFound | Failed

  /** A displayed line: the book spread together with its `quantity`. */
  datatype Line = Line(book: Book, quantity: nat)

  /** What the page shows. */
  datatype View = Loading | EmptyCart | Lines(lines: seq<Line>)

  /**
   * `bookCounts`: `items.reduce((acc, id) => { acc[id] = (acc[id] || 0) + 1 }, {})`,
   * folded from the left. Its keys are the ids in the cart and each value is the number
   * of occurrences.
   */
  function BookCounts(items: seq<Id>): (m: map<Id, nat>)
    ensures forall id :: id in m <==> id in items
    ensures forall id :: id in m ==> m[id] == multiset(items)[id]
  {
    if |items| == 0 then map[]
    else
      var init := items[..|items| - 1];
      var id := items[|items| - 1];
      assert items == init + [id];
      var acc := BookCounts(init);
      acc[id := (if id in acc then acc[id] else 0) + 1]
  }

  /** The lookup found a book for the id. */
  function Resolves(lookup: Id -> Lookup): Id -> bool
  {
    id => lookup(id).Found?
  }

  /** The distinct ids whose book was found, in order of first occurrence in the cart. */
  function ResolvedIds(items: seq<Id>, lookup: Id -> Lookup): seq<Id>
  {
    Filter(Distinct(items), Resolves(lookup))
  }

  /** Some lookup threw, so `Promise.all` rejects. */
  predicate AnyFailed(ids: seq<Id>, lookup: Id -> Lookup)
  {
    exists i :: 0 <= i < |ids| && lookup(ids[i]).Failed?
  }

  /**
   * `uniqueIds.map(id => book ? { ...book, quantity: bookCounts[id] } : null)` followed by
   * the null filter: one line per id that resolves, in the order of `ids`.
   */
  function ResolveLines(ids: seq<Id>, counts: map<Id, nat>, lookup: Id -> Lookup): (r: seq<Line>)
    requires forall i :: 0 <= i < |ids| ==> ids[i] in counts
    ensures LinesFor(r, Filter(ids, Resolves(lookup)), counts, lookup)
  {
    if |ids| == 0 then []
    else
      FilterFirst(ids, Resolves(lookup));
      var rest := ResolveLines(ids[1..], counts, lookup);
      match lookup(ids[0])
      case Found(b) =>
        LinesForCons(ids[0], rest, Filter(ids[1..], Resolves(lookup)), counts, lookup);
        [Line(b, counts[ids[0]])] + rest
      case _ => rest
  }

  /** Line `k` shows the book of the `k`-th id with that id's count. */
  predicate LinesFor(lines: seq<Line>, ids: seq<Id>, counts: map<Id, nat>, lookup: Id -> Lookup)
  {
    && |lines| == |ids|
    && forall k :: 0 <= k < |lines| ==>
      ids[k] in counts && lookup(ids[k]).Found? && lines[k] == Line(lookup(ids[k]).book, counts[ids[k]])
  }

  /** A resolved id in front adds its line in front. */
  lemma LinesForCons(id: Id, lines: seq<Line>, ids: seq<Id>, counts: map<Id, nat>, lookup: Id -> Lookup)
    requires LinesFor(lines, ids, counts, lookup)
    requires id in counts && lookup(id).Found?
    ensures LinesFor([Line(lookup(id).book, counts[id])] + lines, [id] + ids, counts, lookup)
  {
  }

  /**
   * `fetchCartBooks`: the lines shown once the effect has run. When a lookup throws, the
   * error is caught and the lines from before stay; otherwise line `k` is the book of the
   * `k`-th resolved id, with that id's number of occurrences as its quantity.
   */
  function LoadLines(items: seq<Id>, lookup: Id -> Lookup, previous: seq<Line>): (r: seq<Line>)
    ensures AnyFailed(Distinct(items), lookup) ==> r == previous
    ensures !AnyFailed(Distinct(items), lookup) ==>
      |r| == |ResolvedIds(items, lookup)| &&
      forall k :: 0 <= k < |r| ==>
        var id := ResolvedIds(items, lookup)[k];
        lookup(id).Found? && r[k] == Line(lookup(id).book, multiset(items)[id])
  {
    var uniqueIds := Distinct(items);
    if AnyFailed(uniqueIds, lookup) then previous
    else ResolveLines(uniqueIds, BookCounts(items), lookup)
  }

  /** What the page renders: loading, the empty-cart notice when no line resolved, or the lines. */
  function Render(isLoading: bool, lines: seq<Line>): (v: View)
    ensures v == EmptyCart <==> !isLoading && |lines| == 0
    ensures v.Lines? ==> v.lines == lines
  {
    if isLoading then Loading else if |lines| == 0 then EmptyCart else Lines(lines)
  }

  /** When nothing in the cart resolves, the page shows the empty cart. */
  lemma NothingResolvesShowsEmpty(items: seq<Id>, lookup: Id -> Lookup)
    requires forall i :: 0 <= i < |items| ==> lookup(items[i]).NotFound?
    ensures Render(false, LoadLines(items, lookup, [])) == EmptyCart
  {
    var d := Distinct(items);
    assert forall i :: 0 <= i < |d| ==> d[i] in items;
    FilterRejectsAll(d, Resolves(lookup));
  }

  /** The sum of `w` over the cart's entries, one term per unit. */
  function EntriesSum(items: seq<Id>, w: Id -> int): int
  {
    if |items| == 0 then 0 else EntriesSum(items[..|items| - 1], w) + w(items[|items| - 1])
  }

  /** The sum over the given ids of `w(id)` times the number of units of `id` in `items`. */
  function SumCounts(ids: seq<Id>, items: seq<Id>, w: Id -> int): int
  {
    if |ids| == 0 then 0
    else SumCounts(ids[..|ids| - 1], items, w) + w(ids[|ids| - 1]) * multiset(items)[ids[|ids| - 1]]
  }

  /** One more entry in the cart adds its weight once, to the ids that hold it. */
  lemma {:induction false} SumCountsSnoc(ids: seq<Id>, items: seq<Id>, x: Id, w: Id -> int)
    requires NoDups(ids)
    ensures SumCounts(ids, items + [x], w) == SumCounts(ids, items, w) + (if x in ids then w(x) else 0)
  {
    if |ids| > 0 {
      var init := ids[..|ids| - 1];
      var last := ids[|ids| - 1];
      assert ids == init + [last];
      assert NoDups(init) && last !in init;
      SumCountsSnoc(init, items, x, w);
      var before := multiset(items)[last];
      var after := multiset(items + [x])[last];
      assert after == before + (if x == last then 1 else 0);
      assert w(last) * after == w(last) * before + (if x == last then w(last) else 0);
    }
  }

  /** Summing per distinct id, weighted by its count, is summing per cart entry. */
  lemma {:induction false} SumOverUniqueIds(items: seq<Id>, w: Id -> int)
    ensures SumCounts(Distinct(items), items, w) == EntriesSum(items, w)
  {
    if |items| > 0 {
      var init := items[..|items| - 1];
      var x := items[|items| - 1];
      assert items == init + [x];
      var d := Distinct(init);
      SumOverUniqueIds(init, w);
      SumCountsSnoc(d, init, x, w);
      if x !in d {
        SumCountsNewId(d, init, x, w);
      }
    }
  }

  /** An id first seen at the end of the cart adds its weight exactly once. */
  lemma SumCountsNewId(d: seq<Id>, init: seq<Id>, x: Id, w: Id -> int)
    requires d == Distinct(init) && x !in d
    ensures Distinct(init + [x]) == d + [x]
    ensures SumCounts(d + [x], init + [x], w) == SumCounts(d, init + [x], w) + w(x)
  {
    DistinctSnocNew(init, x);
    var e := d + [x];
    assert e[..|e| - 1] == d && e[|e| - 1] == x;
    assert multiset(init + [x])[x] == 1 by {
      assert x !in init;
      assert multiset(init)[x] == 0;
    }
  }

  /** Every entry counts once. */
  function Unit(id: Id): int
  {
    1
  }

  /** The unit sum of a cart is its length. */
  lemma {:induction false} UnitSumIsLength(items: seq<Id>)
    ensures EntriesSum(items, Unit) == |items|
  {
    if |items| > 0 {
      UnitSumIsLength(items[..|items| - 1]);
    }
  }

  /** The number of units the lines display. */
  function TotalQuantity(lines: seq<Line>): nat
  {
    if |lines| == 0 then 0 else TotalQuantity(lines[..|lines| - 1]) + lines[|lines| - 1].quantity
  }

  /**
   * The page's `total`: `cartBooks.reduce((sum, book) => sum + book.price * book.quantity, 0)`,
   * in integer cents.
   */
  function Total(lines: seq<Line>): int
  {
    if |lines| == 0 then 0
    else Total(lines[..|lines| - 1]) + lines[|lines| - 1].book.priceCents * lines[|lines| - 1].quantity
  }

  /** Lines whose quantities are the counts of `ids` display `SumCounts(ids, items, Unit)` units. */
  lemma {:induction false} TotalQuantityIsSum(lines: seq<Line>, ids: seq<Id>, items: seq<Id>)
    requires |lines| == |ids|
    requires forall k :: 0 <= k < |lines| ==> lines[k].quantity == multiset(items)[ids[k]]
    ensures TotalQuantity(lines) == SumCounts(ids, items, Unit)
  {
    if |lines| > 0 {
      TotalQuantityIsSum(lines[..|lines| - 1], ids[..|ids| - 1], items);
    }
  }

  /** The price of the book the lookup finds for an id, and 0 for an id it does not find. */
  function PriceOf(lookup: Id -> Lookup): Id -> int
  {
    id => if lookup(id).Found? then lookup(id).book.priceCents else 0
  }

  /** Lines built from the counts of `ids` with the looked-up books total the priced counts. */
  lemma {:induction false} TotalIsSum(lines: seq<Line>, ids: seq<Id>, items: seq<Id>, lookup: Id -> Lookup)
    requires |lines| == |ids|
    requires forall k :: 0 <= k < |lines| ==>
      lookup(ids[k]).Found? && lines[k] == Line(lookup(ids[k]).book, multiset(items)[ids[k]])
    ensures Total(lines) == SumCounts(ids, items, PriceOf(lookup))
  {
    if |lines| > 0 {
      TotalIsSum(lines[..|lines| - 1], ids[..|ids| - 1], items, lookup);
    }
  }

  /** Every distinct id of a cart whose entries all resolve is kept by the resolved filter. */
  lemma AllResolvedKeepsUniqueIds(items: seq<Id>, lookup: Id -> Lookup)
    requires forall i :: 0 <= i < |items| ==> lookup(items[i]).Found?
    ensures ResolvedIds(items, lookup) == Distinct(items)
    ensures !AnyFailed(Distinct(items), lookup)
  {
    var d := Distinct(items);
    forall i | 0 <= i < |d|
      ensures Resolves(lookup)(d[i])
    {
      assert d[i] in items;
    }
    FilterKeepsAll(d, Resolves(lookup));
  }

  /** When every book is found, the lines display exactly as many units as the cart holds. */
  lemma AllResolvedShowsEveryUnit(items: seq<Id>, lookup: Id -> Lookup, previous: seq<Line>)
    requires forall i :: 0 <= i < |items| ==> lookup(items[i]).Found?
    ensures TotalQuantity(LoadLines(items, lookup, previous)) == |items|
  {
    AllResolvedKeepsUniqueIds(items, lookup);
    TotalQuantityIsSum(LoadLines(items, lookup, previous), Distinct(items), items);
    SumOverUniqueIds(items, Unit);
    UnitSumIsLength(items);
  }

  /**
   * When no lookup throws, the total is the sum of the prices of the cart's entries, one
   * term per unit; entries whose book is not found add nothing.
   */
  lemma TotalIsPricePerEntry(items: seq<Id>, lookup: Id -> Lookup, previous: seq<Line>)
    requires !AnyFailed(Distinct(items), lookup)
    ensures Total(LoadLines(items, lookup, previous)) == EntriesSum(items, PriceOf(lookup))
  {
    var d := Distinct(items);
    var f := ResolvedIds(items, lookup);
    var lines := LoadLines(items, lookup, previous);
    TotalIsSum(lines, f, items, lookup);
    SumCountsFilter(d, items, lookup);
    SumOverUniqueIds(items, PriceOf(lookup));
  }

  /** Dropping ids that do not resolve does not change the priced sum: they weigh nothing. */
  lemma {:induction false} SumCountsFilter(ids: seq<Id>, items: seq<Id>, lookup: Id -> Lookup)
    ensures SumCounts(Filter(ids, Resolves(lookup)), items, PriceOf(lookup)) == SumCounts(ids, items, PriceOf(lookup))
  {
    if |ids| > 0 {
      var init := ids[..|ids| - 1];
      var x := ids[|ids| - 1];
      assert ids == init + [x];
      FilterAppend(init, [x], Resolves(lookup));
      SumCountsFilter(init, items, lookup);
      SumCountsAppend(Filter(init, Resolves(lookup)), Filter([x], Resolves(lookup)), items, PriceOf(lookup));
    }
  }

  /** The sum over a concatenation of ids adds up. */
  lemma {:induction false} SumCountsAppend(a: seq<Id>, b: seq<Id>, items: seq<Id>, w: Id -> int)
    ensures SumCounts(a + b, items, w) == SumCounts(a, items, w) + SumCounts(b, items, w)
  {
    if |b| == 0 {
      assert a + b == a;
    } else {
      assert (a + b)[..|a + b| - 1] == a + b[..|b| - 1];
      assert (a + b)[|a + b| - 1] == b[|b| - 1];
      SumCountsAppend(a, b[..|b| - 1], items, w);
    }
  }

  /**
   * The line's trash button calls `removeItem(book.id)`. When the lookup returns the book
   * stored under the requested id, that removes every unit of the line's book, which were
   * exactly `quantity` entries.
   */
  lemma RemoveLineRemovesAllUnits(items: seq<Id>, lookup: Id -> Lookup, k: nat)
    requires forall id :: lookup(id).Found? ==> lookup(id).book.id == id
    requires !AnyFailed(Distinct(items), lookup)
    requires k < |LoadLines(items, lookup, [])|
    ensures var line := LoadLines(items, lookup, [])[k];
      multiset(items)[line.book.id] == line.quantity &&
      multiset(Cart.RemoveItem(items, line.book.id))[line.book.id] == 0
  {
  }
}
