/**
 * The case-insensitive search boxes of the management tables and the catalogue: an empty
 * term keeps everything, otherwise an entry is kept when one of its searched fields,
 * lower-cased, includes the lower-cased term. Lower-casing is a parameter.
 */
module Search {
  import opened Seqs
  import opened Text

  /** Some searched field includes the term, both lower-cased. */
  predicate AnyFieldMatches(fields: seq<string>, term: string, lower: string -> string)
  {
    exists i :: 0 <= i < |fields| && Contains(lower(fields[i]), lower(term))
  }

  /** The entry's searched fields match the term. */
  function MatchesTerm<T>(fieldsOf: T -> seq<string>, term: string, lower: string -> string): T -> bool
  {
    x => AnyFieldMatches(fieldsOf(x), term, lower)
  }

  /** `if (term) list = list.filter(...)`: a falsy (empty) term applies no filter. */
  function SearchFilter<T(==,!new)>(s: seq<T>, term: string, fieldsOf: T -> seq<string>, lower: string -> string)
    : (r: seq<T>)
    ensures term == "" ==> r == s
    ensures term != "" ==> forall x :: x in r <==> x in s && AnyFieldMatches(fieldsOf(x), term, lower)
    ensures term != "" ==> forall x ::
      multiset(r)[x] == if AnyFieldMatches(fieldsOf(x), term, lower) then multiset(s)[x] else 0
    ensures IsSubsequence(r, s)
  {
    if term == "" then
      SubsequenceReflexive(s);
      s
    else
      FilterIsSubsequence(s, MatchesTerm(fieldsOf, term, lower));
      FilterCounts(s, MatchesTerm(fieldsOf, term, lower));
      Filter(s, MatchesTerm(fieldsOf, term, lower))
  }

  /**
   * A guard on the abstract `lower` only: should a non-empty term lower-case to the empty
   * string, it would filter nothing out, since the empty string is included in every text.
   * `toLowerCase` never does this, so the program itself never meets the case.
   */
  lemma EmptyAfterLoweringKeepsAll<T(!new)>(s: seq<T>, term: string, fieldsOf: T -> seq<string>, lower: string -> string)
    requires lower(term) == ""
    requires forall i :: 0 <= i < |s| ==> |fieldsOf(s[i])| > 0
    ensures SearchFilter(s, term, fieldsOf, lower) == s
  {
    if term != "" {
      forall i | 0 <= i < |s|
        ensures MatchesTerm(fieldsOf, term, lower)(s[i])
      {
        ContainsEmpty(lower(fieldsOf(s[i])[0]));
      }
      FilterKeepsAll(s, MatchesTerm(fieldsOf, term, lower));
    }
  }

  /** Searching the result again with the same term changes nothing. */
  lemma SearchIdempotent<T(!new)>(s: seq<T>, term: string, fieldsOf: T -> seq<string>, lower: string -> string)
    ensures SearchFilter(SearchFilter(s, term, fieldsOf, lower), term, fieldsOf, lower) == SearchFilter(s, term, fieldsOf, lower)
  {
    if term != "" {
      FilterIdempotent(s, MatchesTerm(fieldsOf, term, lower));
    }
  }
}
