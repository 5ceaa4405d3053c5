/**
 * The administrator's users table: email search, a sortable column whose comparator uses
 * `localeCompare` on text and time differences on dates, and the local role update.
 */
module UsersTable {
  import opened Basics
  import opened Seqs
  import opened Text
  import opened Domain
  import opened Sorting
  import opened Search

  /** A table row; the two timestamps are in milliseconds. */
  datatype UserRow = UserRow(id: Id, firstName: string, lastName: string, email: string, role: Role,
                             createdAt: int, updatedAt: int)

  /** The sortable columns. */
  datatype UserSortKey = FirstName | LastName | Email | RoleColumn | CreatedAt | UpdatedAt

  /** The table starts with the newest accounts first. */
  const InitialSort: SortConfig<UserSortKey> := SortConfig(CreatedAt, Desc)

  /** The email search looks at the email only. */
  function SearchedFields(u: UserRow): seq<string>
  {
    [u.email]
  }

  /** The column's value: text lower-cased, times as numbers. */
  function ColumnKey(column: UserSortKey, lower: string -> string): UserRow -> Key
  {
    (u: UserRow) =>
      match column
      case FirstName => Str(lower(u.firstName))
      case LastName => Str(lower(u.lastName))
      case Email => Str(lower(u.email))
      case RoleColumn => Str(lower(RoleName(u.role)))
      case CreatedAt => Num(u.createdAt)
      case UpdatedAt => Num(u.updatedAt)
  }

  /** The sign of `a.localeCompare(b)`, approximated by the code-point order. */
  function LocaleCompare(a: string, b: string): (r: int)
    ensures r < 0 <==> LexLt(a, b)
    ensures r > 0 <==> LexLt(b, a)
  {
    if LexLt(a, b) then
      LexLtAsymmetric(a, b);
      -1
    else if LexLt(b, a) then 1
    else 0
  }

  /**
   * The table's comparator: `localeCompare` on text columns, the time difference on date
   * columns, negated for descending order.
   */
  function Comparator(dir: Direction, a: Key, b: Key): int
  {
    var comparison :=
      match (a, b)
      case (Str(x), Str(y)) => LocaleCompare(x, y)
      case (Num(x), Num(y)) => x - y
      case (Num(_), Str(_)) => -1
      case (Str(_), Num(_)) => 1;
    if dir == Asc then comparison else -comparison
  }

  /**
   * The comparator agrees with the order the model sorts by: it is negative exactly when
   * the first row must come first, zero exactly on equal keys, and the descending
   * comparator is the negation of the ascending one.
   */
  lemma ComparatorConsistent(dir: Direction, a: Key, b: Key)
    requires dir != Unsorted
    ensures Comparator(dir, a, b) < 0 <==> Before(dir, a, b)
    ensures Comparator(dir, a, b) == 0 <==> a == b
    ensures Comparator(Desc, a, b) == -Comparator(Asc, a, b)
  {
    KeyLtStrictTotal(a, b, a);
    if a.Str? && b.Str? && a.s == b.s {
      LexLtIrreflexive(a.s);
    }
  }

  /** `filteredAndSortedUsers`: the email search, then the sort. */
  function Visible(users: seq<UserRow>, term: string, cfg: SortConfig<UserSortKey>, lower: string -> string)
    : (r: seq<UserRow>)
    ensures forall u :: u in r <==> u in users && (term == "" || AnyFieldMatches(SearchedFields(u), term, lower))
    ensures multiset(r) == multiset(SearchFilter(users, term, SearchedFields, lower))
    ensures cfg.direction == Unsorted ==> r == SearchFilter(users, term, SearchedFields, lower)
    ensures cfg.direction != Unsorted ==> forall i, j :: 0 <= i < j < |r| ==>
      !Before(cfg.direction, ColumnKey(cfg.key, lower)(r[j]), ColumnKey(cfg.key, lower)(r[i]))
  {
    var filtered := SearchFilter(users, term, SearchedFields, lower);
    var r := SortBy(filtered, ColumnKey(cfg.key, lower), cfg.direction);
    assert forall u :: u in r <==> u in multiset(r);
    r
  }

  /** Sorted rows never need swapping: the comparator of each pair in order is not positive. */
  lemma VisibleRespectsComparator(users: seq<UserRow>, term: string, cfg: SortConfig<UserSortKey>,
                                  lower: string -> string, i: nat, j: nat)
    requires cfg.direction != Unsorted
    requires i < j < |Visible(users, term, cfg, lower)|
    ensures var r := Visible(users, term, cfg, lower);
      Comparator(cfg.direction, ColumnKey(cfg.key, lower)(r[i]), ColumnKey(cfg.key, lower)(r[j])) <= 0
  {
    var r := Visible(users, term, cfg, lower);
    var a := ColumnKey(cfg.key, lower)(r[i]);
    var b := ColumnKey(cfg.key, lower)(r[j]);
    ComparatorConsistent(cfg.direction, a, b);
    ComparatorConsistent(cfg.direction, b, a);
    KeyLtStrictTotal(a, b, a);
  }

  /** `{ ...user, role: newRole }`. */
  function WithRole(u: UserRow, role: Role): UserRow
  {
    u.(role := role)
  }

  /**
   * `onRoleChange`: once the update action has returned, the matching user's role is
   * changed locally; every other field and every other user is unchanged. When the action
   * throws, nothing changes.
   */
  function OnRoleChange(users: seq<UserRow>, userId: Id, newRole: Role, action: Outcome<()>): (r: seq<UserRow>)
    ensures |r| == |users|
    ensures action.Threw? ==> r == users
    ensures forall i :: 0 <= i < |users| && users[i].id != userId ==> r[i] == users[i]
    ensures action.Returned? ==> forall i :: 0 <= i < |users| && users[i].id == userId ==>
      r[i] == users[i].(role := newRole)
  {
    if action.Threw? then users
    else MapWhere(users, (u: UserRow) => u.id == userId, (u: UserRow) => WithRole(u, newRole))
  }

  /** Changing a role twice to the same value is changing it once. */
  lemma OnRoleChangeIdempotent(users: seq<UserRow>, userId: Id, newRole: Role)
    ensures OnRoleChange(OnRoleChange(users, userId, newRole, Returned(())), userId, newRole, Returned(()))
         == OnRoleChange(users, userId, newRole, Returned(()))
  {
  }

  /** Changing a role and then changing it back restores the list when the old role was uniform. */
  lemma OnRoleChangeUndo(users: seq<UserRow>, userId: Id, oldRole: Role, newRole: Role)
    requires forall i :: 0 <= i < |users| && users[i].id == userId ==> users[i].role == oldRole
    ensures OnRoleChange(OnRoleChange(users, userId, newRole, Returned(())), userId, oldRole, Returned(())) == users
  {
  }
}
