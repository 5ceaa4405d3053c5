/**
 * The client-side cart store: an ordered list of book ids, one entry per unit, with
 * append, remove-every-occurrence and clear. Persistence to local storage is not modelled.
 */
module Cart {
  import opened Seqs
  import opened Domain

  /** The store's initial `items`: the empty cart. */
  function Initial(): (items: seq<Id>)
    ensures forall id :: multiset(items)[id] == 0
  {
    []
  }

  /** `addItem(id)`: one more unit of `id`, at the end, with every earlier entry unchanged. */
  function AddItem(items: seq<Id>, id: Id): (r: seq<Id>)
    ensures |r| == |items| + 1
    ensures r[..|items|] == items && r[|items|] == id
    ensures multiset(r) == multiset(items) + multiset{id}
  {
    items + [id]
  }

  /** The selector `item !== id` of `removeItem`. */
  function Other(id: Id): Id -> bool
  {
    item => item != id
  }

  /**
   * `removeItem(id)`: every unit of `id` is gone, duplicates included; every other entry
   * stays, as often as before and in its original relative order.
   */
  function RemoveItem(items: seq<Id>, id: Id): (r: seq<Id>)
    ensures id !in r
    ensures forall x :: x != id ==> multiset(r)[x] == multiset(items)[x]
    ensures IsSubsequence(r, items)
  {
    FilterCounts(items, Other(id));
    FilterIsSubsequence(items, Other(id));
    Filter(items, Other(id))
  }

  /** `clear()`: the empty cart, whatever the state. */
  function Clear(items: seq<Id>): (r: seq<Id>)
    ensures forall id :: id !in r
  {
    []
  }

  /** Removing an id that is not in the cart changes nothing. */
  lemma RemoveItemAbsent(items: seq<Id>, id: Id)
    requires id !in items
    ensures RemoveItem(items, id) == items
  {
    FilterKeepsAll(items, Other(id));
  }

  /** Removing twice is removing once. */
  lemma RemoveItemIdempotent(items: seq<Id>, id: Id)
    ensures RemoveItem(RemoveItem(items, id), id) == RemoveItem(items, id)
  {
    FilterIdempotent(items, Other(id));
  }

  /** Removal acts piecewise on a split cart, so it never reorders the entries it keeps. */
  lemma RemoveItemAppend(a: seq<Id>, b: seq<Id>, id: Id)
    ensures RemoveItem(a + b, id) == RemoveItem(a, id) + RemoveItem(b, id)
  {
    FilterAppend(a, b, Other(id));
  }

  /** Adding a unit and then removing its book is removing the book. */
  lemma RemoveAfterAdd(items: seq<Id>, id: Id)
    ensures RemoveItem(AddItem(items, id), id) == RemoveItem(items, id)
  {
    FilterAppend(items, [id], Other(id));
    assert Filter([id], Other(id)) == [];
  }
}
