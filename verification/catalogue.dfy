/**
 * The public catalogue's filter panel: a title/author search, a genre and a book type,
 * the last two with an "All" entry that applies no filter.
 */
module Catalogue {
  import opened Seqs
  import opened Text
  import opened Domain
  import opened Search

  /** The sentinel of the genre and type selectors. */
  const All := "All"

  /** The type selector's entries. */
  const BookTypes: seq<string> := [All, "PAPER", "ELECTRONIC", "AUDIO"]

  /** The current state of the panel. */
  datatype Filters = Filters(searchQuery: string, selectedGenre: string, selectedType: string)

  /** The panel's initial state. */
  const Defaults := Filters("", All, All)

  /** The searched fields: title and author. */
  function SearchedFields(b: Book): seq<string>
  {
    [b.title, b.author]
  }

  /** `book.genreId === selectedGenre`. */
  function InGenre(genre: string): Book -> bool
  {
    (b: Book) => b.genreId == genre
  }

  /** `book.type === selectedType`. */
  function OfType(bookType: string): Book -> bool
  {
    (b: Book) => TypeName(b.bookType) == bookType
  }

  /** The effect's filter chain: search, then genre, then type, each skipped at its default. */
  function Apply(books: seq<Book>, f: Filters, lower: string -> string): (r: seq<Book>)
    ensures IsSubsequence(r, books)
  {
    var bySearch := SearchFilter(books, f.searchQuery, SearchedFields, lower);
    var byGenre := if f.selectedGenre != All then Filter(bySearch, InGenre(f.selectedGenre)) else bySearch;
    var byType := if f.selectedType != All then Filter(byGenre, OfType(f.selectedType)) else byGenre;
    SubsequenceReflexive(bySearch);
    SubsequenceReflexive(byGenre);
    FilterIsSubsequence(bySearch, InGenre(f.selectedGenre));
    FilterIsSubsequence(byGenre, OfType(f.selectedType));
    SubsequenceTransitive(byGenre, bySearch, books);
    SubsequenceTransitive(byType, byGenre, books);
    byType
  }

  /** A book passes every active filter. */
  predicate Shown(b: Book, f: Filters, lower: string -> string)
  {
    && (f.searchQuery == "" || AnyFieldMatches(SearchedFields(b), f.searchQuery, lower))
    && (f.selectedGenre == All || b.genreId == f.selectedGenre)
    && (f.selectedType == All || TypeName(b.bookType) == f.selectedType)
  }

  /** The conjunction of the three filters as one selector. */
  function ShownBy(f: Filters, lower: string -> string): Book -> bool
  {
    (b: Book) => Shown(b, f, lower)
  }

  /** The search filter alone, as a selector that accepts everything for an empty query. */
  function SearchPasses(f: Filters, lower: string -> string): Book -> bool
  {
    (b: Book) => f.searchQuery == "" || AnyFieldMatches(SearchedFields(b), f.searchQuery, lower)
  }

  /** The search and genre filters together. */
  function SearchAndGenre(f: Filters, lower: string -> string): Book -> bool
  {
    (b: Book) => SearchPasses(f, lower)(b) && (f.selectedGenre == All || b.genreId == f.selectedGenre)
  }

  /** The search step is a filter by `SearchPasses`. */
  lemma SearchStep(books: seq<Book>, f: Filters, lower: string -> string)
    ensures SearchFilter(books, f.searchQuery, SearchedFields, lower) == Filter(books, SearchPasses(f, lower))
  {
    if f.searchQuery == "" {
      FilterKeepsAll(books, SearchPasses(f, lower));
    } else {
      FilterCongruent(books, MatchesTerm(SearchedFields, f.searchQuery, lower), SearchPasses(f, lower));
    }
  }

  /** After the genre step, the books are those passing search and genre. */
  lemma GenreStep(books: seq<Book>, f: Filters, lower: string -> string)
    ensures var bySearch := Filter(books, SearchPasses(f, lower));
      (if f.selectedGenre != All then Filter(bySearch, InGenre(f.selectedGenre)) else bySearch)
      == Filter(books, SearchAndGenre(f, lower))
  {
    if f.selectedGenre != All {
      FilterFilter(books, SearchPasses(f, lower), InGenre(f.selectedGenre), SearchAndGenre(f, lower));
    } else {
      FilterCongruent(books, SearchPasses(f, lower), SearchAndGenre(f, lower));
    }
  }

  /** After the type step, the books are those passing all three filters. */
  lemma TypeStep(books: seq<Book>, f: Filters, lower: string -> string)
    ensures var byGenre := Filter(books, SearchAndGenre(f, lower));
      (if f.selectedType != All then Filter(byGenre, OfType(f.selectedType)) else byGenre)
      == Filter(books, ShownBy(f, lower))
  {
    forall i | 0 <= i < |books|
      ensures ShownBy(f, lower)(books[i]) ==
        (SearchAndGenre(f, lower)(books[i]) && (f.selectedType == All || OfType(f.selectedType)(books[i])))
    {
      var b := books[i];
      assert SearchPasses(f, lower)(b) == (f.searchQuery == "" || AnyFieldMatches(SearchedFields(b), f.searchQuery, lower));
      assert SearchAndGenre(f, lower)(b) == (SearchPasses(f, lower)(b) && (f.selectedGenre == All || b.genreId == f.selectedGenre));
      assert ShownBy(f, lower)(b) == Shown(b, f, lower);
    }
    if f.selectedType != All {
      FilterFilter(books, SearchAndGenre(f, lower), OfType(f.selectedType), ShownBy(f, lower));
    } else {
      FilterCongruent(books, SearchAndGenre(f, lower), ShownBy(f, lower));
    }
  }

  /**
   * The chain is one filter by the conjunction: the shown books are exactly those passing
   * every active filter, in catalogue order, whatever order the filters are applied in.
   */
  lemma ApplyIsConjunction(books: seq<Book>, f: Filters, lower: string -> string)
    ensures Apply(books, f, lower) == Filter(books, ShownBy(f, lower))
  {
    SearchStep(books, f, lower);
    GenreStep(books, f, lower);
    TypeStep(books, f, lower);
  }

  /** With every filter at its default, the whole catalogue is shown, in order. */
  lemma DefaultsShowEverything(books: seq<Book>, lower: string -> string)
    ensures Apply(books, Defaults, lower) == books
  {
  }

  /** Narrowing: a book shown under a genre is shown under "All" with the same search and type. */
  lemma GenreNarrows(books: seq<Book>, f: Filters, lower: string -> string, b: Book)
    requires b in Apply(books, f, lower)
    ensures b in Apply(books, f.(selectedGenre := All), lower)
  {
    ApplyIsConjunction(books, f, lower);
    ApplyIsConjunction(books, f.(selectedGenre := All), lower);
  }

  /** A selected genre shows exactly the books of that genre that pass the other filters. */
  lemma GenreSelects(books: seq<Book>, f: Filters, lower: string -> string, b: Book)
    requires f.selectedGenre != All
    ensures b in Apply(books, f, lower) <==>
      b in Apply(books, f.(selectedGenre := All), lower) && b.genreId == f.selectedGenre
  {
    ApplyIsConjunction(books, f, lower);
    ApplyIsConjunction(books, f.(selectedGenre := All), lower);
  }
}
