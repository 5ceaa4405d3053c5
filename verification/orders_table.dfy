/**
 * The manager's orders table: book search, an exact creation-date filter, a sortable
 * column, and the local list updates after delete and status change.
 */
module OrdersTable {
  import opened Basics
  import opened Seqs
  import opened Domain
  import opened Sorting
  import opened Search
  import ListEdits

  /** The book fields shown with an order. */
  datatype BookSummary = BookSummary(title: string, author: string, priceCents: int)

  /** The user fields shown with an order. */
  datatype UserSummary = UserSummary(firstName: string, lastName: string, email: string)

  /** A table row: the order record joined with its book and user. */
  datatype OrderRow = OrderRow(order: Order, book: BookSummary, user: UserSummary)

  /** The sortable columns. */
  datatype OrderSortKey = BookTitle | UserEmail | Status | BookPrice | CreatedAt

  /** The table starts with the newest orders first. */
  const InitialSort: SortConfig<OrderSortKey> := SortConfig(CreatedAt, Desc)

  /** The book search looks at the book's title and author. */
  function SearchedFields(row: OrderRow): seq<string>
  {
    [row.book.title, row.book.author]
  }

  /** The row's id is its order's id. */
  function RowId(row: OrderRow): Id
  {
    row.order.id
  }

  /** The comparator's value for a column: text lower-cased, price and time as numbers. */
  function ColumnKey(column: OrderSortKey, lower: string -> string): OrderRow -> Key
  {
    (row: OrderRow) =>
      match column
      case BookTitle => Str(lower(row.book.title))
      case UserEmail => Str(lower(row.user.email))
      case Status => Str(lower(StatusName(row.order.status)))
      case BookPrice => Num(row.book.priceCents)
      case CreatedAt => Num(row.order.createdAt)
  }

  /** `createdAt`'s date as `toISOString().split("T")[0]` renders it equals the term. */
  function OnDate(isoDate: int -> string, term: string): OrderRow -> bool
  {
    (row: OrderRow) => isoDate(row.order.createdAt) == term
  }

  /** `if (searchTermDate) list = list.filter(...)`: only orders placed on that date. */
  function DateFilter(rows: seq<OrderRow>, term: string, isoDate: int -> string): (r: seq<OrderRow>)
    ensures term == "" ==> r == rows
    ensures term != "" ==> forall row :: row in r <==> row in rows && isoDate(row.order.createdAt) == term
    ensures term != "" ==> forall row ::
      multiset(r)[row] == if isoDate(row.order.createdAt) == term then multiset(rows)[row] else 0
    ensures IsSubsequence(r, rows)
  {
    if term == "" then
      SubsequenceReflexive(rows);
      rows
    else
      FilterIsSubsequence(rows, OnDate(isoDate, term));
      FilterCounts(rows, OnDate(isoDate, term));
      Filter(rows, OnDate(isoDate, term))
  }

  /**
   * `filteredAndSortedOrders`: the book search, then the date filter, then the sort.
   * `isoDate` renders a time as its ISO calendar date.
   */
  function Visible(rows: seq<OrderRow>, bookTerm: string, dateTerm: string, cfg: SortConfig<OrderSortKey>,
                   lower: string -> string, isoDate: int -> string): (r: seq<OrderRow>)
    ensures forall row :: row in r <==>
      && row in rows
      && (bookTerm == "" || AnyFieldMatches(SearchedFields(row), bookTerm, lower))
      && (dateTerm == "" || isoDate(row.order.createdAt) == dateTerm)
    ensures multiset(r) == multiset(DateFilter(SearchFilter(rows, bookTerm, SearchedFields, lower), dateTerm, isoDate))
    ensures cfg.direction == Unsorted ==> IsSubsequence(r, rows)
    ensures cfg.direction == Asc ==> forall i, j :: 0 <= i < j < |r| ==>
      !KeyLt(ColumnKey(cfg.key, lower)(r[j]), ColumnKey(cfg.key, lower)(r[i]))
    ensures cfg.direction == Desc ==> forall i, j :: 0 <= i < j < |r| ==>
      !KeyLt(ColumnKey(cfg.key, lower)(r[i]), ColumnKey(cfg.key, lower)(r[j]))
  {
    var byBook := SearchFilter(rows, bookTerm, SearchedFields, lower);
    var byDate := DateFilter(byBook, dateTerm, isoDate);
    SubsequenceTransitive(byDate, byBook, rows);
    var r := SortBy(byDate, ColumnKey(cfg.key, lower), cfg.direction);
    assert forall row :: row in r <==> row in multiset(r);
    r
  }

  /** Initially the newest order is on top: creation times never increase down the table. */
  lemma InitiallyNewestFirst(rows: seq<OrderRow>, lower: string -> string, isoDate: int -> string)
    ensures var r := Visible(rows, "", "", InitialSort, lower, isoDate);
      forall i, j :: 0 <= i < j < |r| ==> r[i].order.createdAt >= r[j].order.createdAt
  {
  }

  /** `handleDeleteOrder`: the list after the delete action threw or returned. */
  function DeleteOrder(rows: seq<OrderRow>, id: Id, action: Outcome<()>): (r: seq<OrderRow>)
    ensures action.Threw? ==> r == rows
    ensures action.Returned? ==> forall i :: 0 <= i < |r| ==> r[i].order.id != id
    ensures forall row: OrderRow :: row.order.id != id ==> multiset(r)[row] == multiset(rows)[row]
  {
    ListEdits.AfterDelete(rows, RowId, id, action)
  }

  /** `{ ...orderToUpdate, ...updatedOrderData }`: the returned order fields over the row's joins. */
  function Merge(row: OrderRow, updated: Order): (r: OrderRow)
    ensures r.order == updated && r.book == row.book && r.user == row.user
  {
    OrderRow(updated, row.book, row.user)
  }

  /** The first row with the id: `orders.find(o => o.id === id)`. */
  function FindRow(rows: seq<OrderRow>, id: Id): (r: Option<OrderRow>)
    ensures r.None? <==> forall i :: 0 <= i < |rows| ==> rows[i].order.id != id
    ensures r.Some? ==> r.value in rows && r.value.order.id == id
  {
    if |rows| == 0 then None
    else if rows[0].order.id == id then Some(rows[0])
    else FindRow(rows[1..], id)
  }

  /**
   * `handleUpdateStatus`: when the action returns an order and a row with the requested id
   * exists, every row with that id takes the returned fields, keeping the first such
   * row's book and user. When the action throws or returns nothing, or the id is not in
   * the list, the list is unchanged.
   */
  function UpdateStatus(rows: seq<OrderRow>, id: Id, result: Outcome<Option<Order>>): (r: seq<OrderRow>)
    ensures |r| == |rows|
    ensures result.Threw? || result == Returned(None) ==> r == rows
    ensures forall i :: 0 <= i < |rows| && rows[i].order.id != id ==> r[i] == rows[i]
    ensures result.Returned? && result.value.Some? ==> forall i :: 0 <= i < |rows| && rows[i].order.id == id ==>
      r[i].order == result.value.value && r[i].book == FindRow(rows, id).value.book && r[i].user == FindRow(rows, id).value.user
  {
    match result
    case Threw => rows
    case Returned(None) => rows
    case Returned(Some(updated)) =>
      match FindRow(rows, id)
      case None => rows
      case Some(row) => MapWhere(rows, ListEdits.HasId(RowId, id), ListEdits.Always(Merge(row, updated)))
  }

  /** A status update for an order that is not in the list changes nothing. */
  lemma UpdateUnknownOrder(rows: seq<OrderRow>, id: Id, result: Outcome<Option<Order>>)
    requires forall i :: 0 <= i < |rows| ==> rows[i].order.id != id
    ensures UpdateStatus(rows, id, result) == rows
  {
  }

  /** A returned order that keeps its id leaves the table's ids, in order, as they were. */
  lemma UpdateKeepsIds(rows: seq<OrderRow>, id: Id, updated: Order)
    requires updated.id == id
    ensures ListEdits.Ids(UpdateStatus(rows, id, Returned(Some(updated))), RowId) == ListEdits.Ids(rows, RowId)
  {
  }
}
