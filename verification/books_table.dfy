/**
 * The manager's books table: title/author search, a sortable column with a three-state
 * direction, and the local list updates after delete, update and create.
 */
module BooksTable {
  import opened Basics
  import opened Seqs
  import opened Domain
  import opened Sorting
  import opened Search
  import ListEdits

  /** The sortable columns. */
  datatype BookSortKey = Title | Author | Type | Price

  /** The table starts sorted by nothing, on the title column. */
  const InitialSort: SortConfig<BookSortKey> := SortConfig(Title, Unsorted)

  /** The searched fields: title and author. */
  function SearchedFields(b: Book): seq<string>
  {
    [b.title, b.author]
  }

  /** The comparator's value for a column: text lower-cased, the price as a number. */
  function ColumnKey(column: BookSortKey, lower: string -> string): Book -> Key
  {
    (b: Book) =>
      match column
      case Title => Str(lower(b.title))
      case Author => Str(lower(b.author))
      case Type => Str(lower(TypeName(b.bookType)))
      case Price => Num(b.priceCents)
  }

  /** The book's id. */
  function BookId(b: Book): Id
  {
    b.id
  }

  /**
   * `filteredAndSortedBooks`: the books matching the search, ordered by the selected
   * column in the selected direction, equal keys in their original order.
   */
  function Visible(books: seq<Book>, term: string, cfg: SortConfig<BookSortKey>, lower: string -> string)
    : (r: seq<Book>)
    ensures multiset(r) == multiset(SearchFilter(books, term, SearchedFields, lower))
    ensures forall b :: b in r <==> b in books && (term == "" || AnyFieldMatches(SearchedFields(b), term, lower))
    ensures cfg.direction == Unsorted ==> r == SearchFilter(books, term, SearchedFields, lower)
    ensures cfg.direction == Asc ==> forall i, j :: 0 <= i < j < |r| ==>
      !KeyLt(ColumnKey(cfg.key, lower)(r[j]), ColumnKey(cfg.key, lower)(r[i]))
    ensures cfg.direction == Desc ==> forall i, j :: 0 <= i < j < |r| ==>
      !KeyLt(ColumnKey(cfg.key, lower)(r[i]), ColumnKey(cfg.key, lower)(r[j]))
  {
    var filtered := SearchFilter(books, term, SearchedFields, lower);
    var r := SortBy(filtered, ColumnKey(cfg.key, lower), cfg.direction);
    assert forall b :: b in r <==> b in multiset(r);
    r
  }

  /** Before any header is clicked, the table shows the books in the order they came. */
  lemma InitialOrderIsInputOrder(books: seq<Book>, lower: string -> string)
    ensures Visible(books, "", InitialSort, lower) == books
  {
  }

  /**
   * Books that tie on the sorted column keep their relative order, so sorting never
   * shuffles rows the user cannot tell apart by that column.
   */
  lemma TiesKeepOrder(books: seq<Book>, term: string, cfg: SortConfig<BookSortKey>, lower: string -> string, k: Key)
    ensures Filter(Visible(books, term, cfg, lower), WithKey(ColumnKey(cfg.key, lower), k))
         == Filter(SearchFilter(books, term, SearchedFields, lower), WithKey(ColumnKey(cfg.key, lower), k))
  {
    SortByStable(SearchFilter(books, term, SearchedFields, lower), ColumnKey(cfg.key, lower), cfg.direction, k);
  }

  /** `handleDeleteBook`: the list after the delete action threw or returned. */
  function DeleteBook(books: seq<Book>, id: Id, action: Outcome<()>): (r: seq<Book>)
    ensures action.Threw? ==> r == books
    ensures action.Returned? ==> forall i :: 0 <= i < |r| ==> r[i].id != id
    ensures forall b: Book :: b.id != id ==> multiset(r)[b] == multiset(books)[b]
  {
    ListEdits.AfterDelete(books, BookId, id, action)
  }

  /** `handleSaveBook`: the list after the update or create action. */
  function SaveBook(books: seq<Book>, dialog: ListEdits.Dialog<Book>, result: Outcome<Option<Book>>): (r: seq<Book>)
    ensures result.Threw? || result == Returned(None) ==> r == books
    ensures result.Returned? && result.value.Some? && dialog.Editing? ==>
      ListEdits.Ids(r, BookId) == ListEdits.Ids(books, BookId) &&
      forall i :: 0 <= i < |books| ==> r[i] == if books[i].id == result.value.value.id then result.value.value else books[i]
    ensures result.Returned? && result.value.Some? && dialog.Creating? ==>
      |r| == |books| + 1 && r[..|books|] == books && r[|books|] == result.value.value
  {
    ListEdits.AfterSave(books, BookId, dialog, result)
  }
}
