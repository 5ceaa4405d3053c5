/**
 * The manager's genres table: name search, a single sort toggle on the name, and the
 * local list updates after delete, update and create.
 */
module GenresTable {
  import opened Basics
  import opened Seqs
  import opened Text
  import opened Domain
  import opened Sorting
  import opened Search
  import ListEdits

  /** The table starts unsorted. */
  const InitialDirection := Unsorted

  /**
   * `toggleSortDirection`: the sort toggle of the name column. The genres table writes
   * out its own copy of the none, asc, desc cycle instead of using the shared sort hook.
   */
  function ToggleSortDirection(d: Direction): (r: Direction)
    ensures r == NextDirection(d)
  {
    if d == Unsorted then Asc
    else if d == Asc then Desc
    else Unsorted
  }

  /** Three toggles are the identity; one or two never are. */
  lemma ToggleThrice(d: Direction)
    ensures ToggleSortDirection(ToggleSortDirection(ToggleSortDirection(d))) == d
    ensures ToggleSortDirection(d) != d && ToggleSortDirection(ToggleSortDirection(d)) != d
  {
    NextDirectionPeriod(d);
  }

  /** The search looks at the name only. */
  function SearchedFields(g: Genre): seq<string>
  {
    [g.name]
  }

  /** Genres are compared by lower-cased name. */
  function NameKey(lower: string -> string): Genre -> Key
  {
    (g: Genre) => Str(lower(g.name))
  }

  /** The genre's id. */
  function GenreId(g: Genre): Id
  {
    g.id
  }

  /** `filteredAndSortedGenres`: the name search, then the sort by lower-cased name. */
  function Visible(genres: seq<Genre>, term: string, dir: Direction, lower: string -> string): (r: seq<Genre>)
    ensures forall g :: g in r <==> g in genres && (term == "" || AnyFieldMatches(SearchedFields(g), term, lower))
    ensures multiset(r) == multiset(SearchFilter(genres, term, SearchedFields, lower))
    ensures dir == Unsorted ==> r == SearchFilter(genres, term, SearchedFields, lower)
    ensures dir == Asc ==> forall i, j :: 0 <= i < j < |r| ==> !LexLtNames(lower, r[j], r[i])
    ensures dir == Desc ==> forall i, j :: 0 <= i < j < |r| ==> !LexLtNames(lower, r[i], r[j])
  {
    var filtered := SearchFilter(genres, term, SearchedFields, lower);
    var r := SortBy(filtered, NameKey(lower), dir);
    assert forall g :: g in r <==> g in multiset(r);
    r
  }

  /** `a.name.toLowerCase() < b.name.toLowerCase()`. */
  predicate LexLtNames(lower: string -> string, a: Genre, b: Genre)
  {
    KeyLt(NameKey(lower)(a), NameKey(lower)(b))
  }

  /** In ascending order each lower-cased name is at most every name below it. */
  lemma AscNamesNonDecreasing(genres: seq<Genre>, term: string, lower: string -> string, i: nat, j: nat)
    requires i < j < |Visible(genres, term, Asc, lower)|
    ensures lower(Visible(genres, term, Asc, lower)[i].name) == lower(Visible(genres, term, Asc, lower)[j].name) ||
            LexLt(lower(Visible(genres, term, Asc, lower)[i].name), lower(Visible(genres, term, Asc, lower)[j].name))
  {
    var r := Visible(genres, term, Asc, lower);
    KeyLtStrictTotal(NameKey(lower)(r[i]), NameKey(lower)(r[j]), NameKey(lower)(r[i]));
  }

  /** `handleDeleteGenre`: the list after the delete action threw or returned. */
  function DeleteGenre(genres: seq<Genre>, id: Id, action: Outcome<()>): (r: seq<Genre>)
    ensures action.Threw? ==> r == genres
    ensures action.Returned? ==> forall i :: 0 <= i < |r| ==> r[i].id != id
    ensures forall g: Genre :: g.id != id ==> multiset(r)[g] == multiset(genres)[g]
  {
    ListEdits.AfterDelete(genres, GenreId, id, action)
  }

  /** `handleSaveGenre`: the list after the update or create action. */
  function SaveGenre(genres: seq<Genre>, dialog: ListEdits.Dialog<Genre>, result: Outcome<Option<Genre>>): (r: seq<Genre>)
    ensures result.Threw? || result == Returned(None) ==> r == genres
    ensures result.Returned? && result.value.Some? && dialog.Editing? ==>
      ListEdits.Ids(r, GenreId) == ListEdits.Ids(genres, GenreId) &&
      forall i :: 0 <= i < |genres| ==> r[i] == if genres[i].id == result.value.value.id then result.value.value else genres[i]
    ensures result.Returned? && result.value.Some? && dialog.Creating? ==>
      |r| == |genres| + 1 && r[..|genres|] == genres && r[|genres|] == result.value.value
  {
    ListEdits.AfterSave(genres, GenreId, dialog, result)
  }
}
