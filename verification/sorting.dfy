/**
 * Column sorting as the admin and manager tables do it: a three-state direction per
 * column, a comparator over lower-cased text or numbers, and JavaScript's stable sort.
 */
module Sorting {
  import opened Text
  import opened Seqs

  /** The `"asc" | "desc" | "none"` state of a sortable column. */
  datatype Direction = Asc | Desc | Unsorted

  /** One more click on the active column, and the genre table's toggle: none → asc → desc → none. */
  function NextDirection(d: Direction): (r: Direction)
    ensures r != d
    ensures r == Asc <==> d == Unsorted
  {
    match d
    case Unsorted => Asc
    case Asc => Desc
    case Desc => Unsorted
  }

  /** The direction cycle has period exactly three. */
  lemma NextDirectionPeriod(d: Direction)
    ensures NextDirection(NextDirection(NextDirection(d))) == d
    ensures NextDirection(NextDirection(d)) != d
  {
  }

  /** The sort state of a table: the active column and its direction. */
  datatype SortConfig<K> = SortConfig(key: K, direction: Direction)

  /**
   * `handleSort(key)`: asc becomes desc and desc becomes none on the active column;
   * every other case, a new column or the active one at none, becomes asc.
   */
  function HandleSort<K(==)>(cfg: SortConfig<K>, key: K): (r: SortConfig<K>)
    ensures r.key == key
    ensures cfg.key == key ==> r.direction == NextDirection(cfg.direction)
    ensures cfg.key != key ==> r.direction == Asc
  {
    if cfg.key == key && cfg.direction == Asc then SortConfig(key, Desc)
    else if cfg.key == key && cfg.direction == Desc then SortConfig(key, Unsorted)
    else SortConfig(key, Asc)
  }

  /** Three clicks on the active column restore the sort state; fewer never do. */
  lemma HandleSortPeriod<K>(cfg: SortConfig<K>)
    ensures HandleSort(HandleSort(HandleSort(cfg, cfg.key), cfg.key), cfg.key) == cfg
    ensures HandleSort(cfg, cfg.key) != cfg
    ensures HandleSort(HandleSort(cfg, cfg.key), cfg.key) != cfg
  {
  }

  /** Clicking a column that is not the active one cycles asc, desc, none. */
  lemma HandleSortNewColumn<K>(cfg: SortConfig<K>, key: K)
    requires cfg.key != key
    ensures HandleSort(cfg, key) == SortConfig(key, Asc)
    ensures HandleSort(HandleSort(cfg, key), key) == SortConfig(key, Desc)
    ensures HandleSort(HandleSort(HandleSort(cfg, key), key), key) == SortConfig(key, Unsorted)
  {
  }

  /** A comparable cell value: lower-cased text, or a number (price in cents, time in ms). */
  datatype Key = Str(s: string) | Num(n: int)

  /**
   * JavaScript's `<` on the values of one column: string order on text, numeric order on
   * numbers. A column never mixes the two; numbers are put first should they meet.
   */
  predicate KeyLt(a: Key, b: Key)
  {
    match (a, b)
    case (Str(x), Str(y)) => LexLt(x, y)
    case (Num(x), Num(y)) => x < y
    case (Num(_), Str(_)) => true
    case (Str(_), Num(_)) => false
  }

  /** `KeyLt` is a strict total order. */
  lemma KeyLtStrictTotal(a: Key, b: Key, c: Key)
    ensures !KeyLt(a, a)
    ensures KeyLt(a, b) && KeyLt(b, c) ==> KeyLt(a, c)
    ensures a == b || KeyLt(a, b) || KeyLt(b, a)
  {
    if a.Str? {
      LexLtIrreflexive(a.s);
    }
    if a.Str? && b.Str? && c.Str? && KeyLt(a, b) && KeyLt(b, c) {
      LexLtTransitive(a.s, b.s, c.s);
    }
    if a.Str? && b.Str? {
      LexLtTotal(a.s, b.s);
    }
  }

  /** `a` must be placed strictly before `b` under direction `dir`. */
  predicate Before(dir: Direction, a: Key, b: Key)
  {
    (dir == Asc && KeyLt(a, b)) || (dir == Desc && KeyLt(b, a))
  }

  /** `Before` is irreflexive and transitive, so it is a strict order whatever the direction. */
  lemma BeforeStrict(dir: Direction, a: Key, b: Key, c: Key)
    ensures !Before(dir, a, a)
    ensures Before(dir, a, b) && Before(dir, b, c) ==> Before(dir, a, c)
  {
    KeyLtStrictTotal(a, b, c);
    KeyLtStrictTotal(c, b, a);
  }

  /**
   * The comparator the book, order and genre tables pass to `sort`:
   * `valA < valB ? (asc ? -1 : 1) : valA > valB ? (asc ? 1 : -1) : 0`.
   */
  function Compare(dir: Direction, a: Key, b: Key): (r: int)
    ensures -1 <= r <= 1
  {
    if KeyLt(a, b) then (if dir == Asc then -1 else 1)
    else if KeyLt(b, a) then (if dir == Asc then 1 else -1)
    else 0
  }

  /**
   * The comparator is consistent, as `Array.prototype.sort` requires: negative exactly when
   * `Before` holds, antisymmetric, zero only on equal values, and the descending
   * comparator is the negation of the ascending one.
   */
  lemma CompareConsistent(dir: Direction, a: Key, b: Key)
    requires dir != Unsorted
    ensures Compare(dir, a, b) < 0 <==> Before(dir, a, b)
    ensures Compare(dir, a, b) == -Compare(dir, b, a)
    ensures Compare(dir, a, b) == 0 <==> a == b
    ensures Compare(Desc, a, b) == -Compare(Asc, a, b)
  {
    KeyLtStrictTotal(a, b, a);
    KeyLtStrictTotal(b, a, b);
  }

  /** No element is followed by one that must come before it. */
  predicate SortedBy<T>(s: seq<T>, keyOf: T -> Key, dir: Direction)
  {
    forall i, j :: 0 <= i < j < |s| ==> !Before(dir, keyOf(s[j]), keyOf(s[i]))
  }

  /** Inserts `x` before the first element it must precede, so after every equal element. */
  function Insert<T(==)>(x: T, s: seq<T>, keyOf: T -> Key, dir: Direction): (r: seq<T>)
    ensures |r| == |s| + 1
    ensures multiset(r) == multiset(s) + multiset{x}
    ensures forall k :: 0 <= k < |r| ==> r[k] == x || r[k] in s
  {
    if |s| == 0 then [x]
    else if Before(dir, keyOf(x), keyOf(s[0])) then [x] + s
    else
      assert s == [s[0]] + s[1..];
      [s[0]] + Insert(x, s[1..], keyOf, dir)
  }

  /** Inserting into a sorted sequence keeps it sorted. */
  lemma {:induction false} InsertSorted<T>(x: T, s: seq<T>, keyOf: T -> Key, dir: Direction)
    requires SortedBy(s, keyOf, dir)
    ensures SortedBy(Insert(x, s, keyOf, dir), keyOf, dir)
  {
    if |s| == 0 {
    } else if Before(dir, keyOf(x), keyOf(s[0])) {
      var r := [x] + s;
      forall i, j | 0 <= i < j < |r|
        ensures !Before(dir, keyOf(r[j]), keyOf(r[i]))
      {
        if i == 0 {
          BeforeStrict(dir, keyOf(s[j - 1]), keyOf(x), keyOf(s[0]));
        }
      }
    } else {
      var rest := Insert(x, s[1..], keyOf, dir);
      InsertSorted(x, s[1..], keyOf, dir);
      var r := [s[0]] + rest;
      forall i, j | 0 <= i < j < |r|
        ensures !Before(dir, keyOf(r[j]), keyOf(r[i]))
      {
        if i == 0 && r[j] != x {
          var m :| 0 <= m < |s[1..]| && s[1..][m] == r[j];
          assert s[m + 1] == r[j];
        }
      }
    }
  }

  /** Insertion sort, inserting the elements in their original order: a stable sort. */
  function InsertionSort<T(==)>(s: seq<T>, keyOf: T -> Key, dir: Direction): (r: seq<T>)
    ensures multiset(r) == multiset(s)
    ensures SortedBy(r, keyOf, dir)
  {
    if |s| == 0 then []
    else
      var init := s[..|s| - 1];
      assert s == init + [s[|s| - 1]];
      var sorted := InsertionSort(init, keyOf, dir);
      InsertSorted(s[|s| - 1], sorted, keyOf, dir);
      Insert(s[|s| - 1], sorted, keyOf, dir)
  }

  /**
   * `if (direction !== "none") filtered.sort(comparator)`: a permutation of the input,
   * non-decreasing in the key when ascending, non-increasing when descending, and the
   * input itself when unsorted.
   */
  function SortBy<T(==)>(s: seq<T>, keyOf: T -> Key, dir: Direction): (r: seq<T>)
    ensures multiset(r) == multiset(s)
    ensures |r| == |s|
    ensures dir == Unsorted ==> r == s
    ensures dir == Asc ==> forall i, j :: 0 <= i < j < |r| ==> !KeyLt(keyOf(r[j]), keyOf(r[i]))
    ensures dir == Desc ==> forall i, j :: 0 <= i < j < |r| ==> !KeyLt(keyOf(r[i]), keyOf(r[j]))
  {
    if dir == Unsorted then s
    else
      var r := InsertionSort(s, keyOf, dir);
      assert |r| == |multiset(r)| == |multiset(s)| == |s|;
      r
  }

  /** The elements whose key is `k`: the classes a stable sort must not reorder. */
  function WithKey<T>(keyOf: T -> Key, k: Key): T -> bool
  {
    y => keyOf(y) == k
  }

  /** In a sorted sequence nothing that must come after `s[0]` can share a key with an element before it. */
  lemma {:induction false} NoKeyAfterInsertPoint<T(!new)>(x: T, s: seq<T>, keyOf: T -> Key, dir: Direction)
    requires SortedBy(s, keyOf, dir)
    requires |s| > 0 && Before(dir, keyOf(x), keyOf(s[0]))
    ensures Filter(s, WithKey(keyOf, keyOf(x))) == []
  {
    forall m | 0 <= m < |s|
      ensures keyOf(s[m]) != keyOf(x)
    {
      BeforeStrict(dir, keyOf(x), keyOf(s[0]), keyOf(s[0]));
      if m > 0 {
        assert !Before(dir, keyOf(s[m]), keyOf(s[0]));
      }
    }
    FilterRejectsAll(s, WithKey(keyOf, keyOf(x)));
  }

  /** Inserting `x` puts it after every element that shares its key, and moves nothing else. */
  lemma {:induction false} InsertStable<T(!new)>(x: T, s: seq<T>, keyOf: T -> Key, dir: Direction, k: Key)
    requires SortedBy(s, keyOf, dir)
    ensures Filter(Insert(x, s, keyOf, dir), WithKey(keyOf, k))
         == Filter(s, WithKey(keyOf, k)) + (if keyOf(x) == k then [x] else [])
  {
    if |s| == 0 {
      FilterCons(x, [], WithKey(keyOf, k));
      assert Insert(x, s, keyOf, dir) == [x] + [];
    } else if Before(dir, keyOf(x), keyOf(s[0])) {
      InsertStableFront(x, s, keyOf, dir, k);
    } else {
      InsertStable(x, s[1..], keyOf, dir, k);
      InsertStableLater(x, s, keyOf, dir, k);
    }
  }

  /** `InsertStable` when `x` goes first. */
  lemma InsertStableFront<T(!new)>(x: T, s: seq<T>, keyOf: T -> Key, dir: Direction, k: Key)
    requires SortedBy(s, keyOf, dir)
    requires |s| > 0 && Before(dir, keyOf(x), keyOf(s[0]))
    ensures Filter(Insert(x, s, keyOf, dir), WithKey(keyOf, k))
         == Filter(s, WithKey(keyOf, k)) + (if keyOf(x) == k then [x] else [])
  {
    if keyOf(x) == k {
      NoKeyAfterInsertPoint(x, s, keyOf, dir);
    }
    FilterCons(x, s, WithKey(keyOf, k));
    assert Insert(x, s, keyOf, dir) == [x] + s;
  }

  /** `InsertStable` when `x` goes after `s[0]`, given the property for the tail. */
  lemma InsertStableLater<T(!new)>(x: T, s: seq<T>, keyOf: T -> Key, dir: Direction, k: Key)
    requires |s| > 0 && !Before(dir, keyOf(x), keyOf(s[0]))
    requires Filter(Insert(x, s[1..], keyOf, dir), WithKey(keyOf, k))
          == Filter(s[1..], WithKey(keyOf, k)) + (if keyOf(x) == k then [x] else [])
    ensures Filter(Insert(x, s, keyOf, dir), WithKey(keyOf, k))
         == Filter(s, WithKey(keyOf, k)) + (if keyOf(x) == k then [x] else [])
  {
    var p := WithKey(keyOf, k);
    var head := if p(s[0]) then [s[0]] else [];
    FilterInsertLater(x, s, keyOf, dir, p);
    FilterFirst(s, p);
    Regroup(Filter(Insert(x, s, keyOf, dir), p), head, Filter(Insert(x, s[1..], keyOf, dir), p),
            Filter(s[1..], p), if keyOf(x) == k then [x] else [], Filter(s, p));
  }

  /** When `x` goes after `s[0]`, filtering the insertion starts with what filtering `s[0]` gives. */
  lemma FilterInsertLater<T(!new)>(x: T, s: seq<T>, keyOf: T -> Key, dir: Direction, p: T -> bool)
    requires |s| > 0 && !Before(dir, keyOf(x), keyOf(s[0]))
    ensures Filter(Insert(x, s, keyOf, dir), p)
         == (if p(s[0]) then [s[0]] else []) + Filter(Insert(x, s[1..], keyOf, dir), p)
  {
    assert Insert(x, s, keyOf, dir) == [s[0]] + Insert(x, s[1..], keyOf, dir);
    FilterCons(s[0], Insert(x, s[1..], keyOf, dir), p);
  }

  /** Insertion sort is stable: the elements of each key class keep their original order. */
  lemma {:induction false} InsertionSortStable<T(!new)>(s: seq<T>, keyOf: T -> Key, dir: Direction, k: Key)
    ensures Filter(InsertionSort(s, keyOf, dir), WithKey(keyOf, k)) == Filter(s, WithKey(keyOf, k))
  {
    if |s| > 0 {
      var init := s[..|s| - 1];
      var last := s[|s| - 1];
      assert s == init + [last];
      InsertionSortStable(init, keyOf, dir, k);
      InsertStable(last, InsertionSort(init, keyOf, dir), keyOf, dir, k);
      FilterAppend(init, [last], WithKey(keyOf, k));
      FilterCons(last, [], WithKey(keyOf, k));
      assert [last] + [] == [last];
    }
  }

  /**
   * Like JavaScript's `sort` (stable since ES2019), `SortBy` keeps elements with equal keys
   * in their input order.
   */
  lemma SortByStable<T(!new)>(s: seq<T>, keyOf: T -> Key, dir: Direction, k: Key)
    ensures Filter(SortBy(s, keyOf, dir), WithKey(keyOf, k)) == Filter(s, WithKey(keyOf, k))
  {
    if dir != Unsorted {
      InsertionSortStable(s, keyOf, dir, k);
    }
  }
}
