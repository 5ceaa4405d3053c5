/**
 * The local list updates the management tables make after a server action: delete by id,
 * replace the entry with the returned record's id, and append a created record.
 */
module ListEdits {
  import opened Basics
  import opened Seqs
  import opened Domain

  /** The selector `x.id !== id`. */
  function Except<T>(idOf: T -> Id, id: Id): T -> bool
  {
    x => idOf(x) != id
  }

  /** The selector `x.id === id`. */
  function HasId<T>(idOf: T -> Id, id: Id): T -> bool
  {
    x => idOf(x) == id
  }

  /** The constant map `_ => v`. */
  function Always<T>(v: T): T -> T
  {
    _ => v
  }

  /** The ids of a list, in order. */
  function Ids<T>(s: seq<T>, idOf: T -> Id): (r: seq<Id>)
    ensures |r| == |s|
    ensures forall i :: 0 <= i < |s| ==> r[i] == idOf(s[i])
  {
    if |s| == 0 then [] else [idOf(s[0])] + Ids(s[1..], idOf)
  }

  /**
   * `list.filter(x => x.id !== id)`: no entry with that id remains; every other entry
   * stays, as often as before and in its original order.
   */
  function DeleteById<T(==,!new)>(s: seq<T>, idOf: T -> Id, id: Id): (r: seq<T>)
    ensures forall i :: 0 <= i < |r| ==> idOf(r[i]) != id
    ensures forall x :: idOf(x) != id ==> multiset(r)[x] == multiset(s)[x]
    ensures IsSubsequence(r, s)
  {
    FilterCounts(s, Except(idOf, id));
    FilterIsSubsequence(s, Except(idOf, id));
    Filter(s, Except(idOf, id))
  }

  /**
   * `list.map(x => x.id === updated.id ? updated : x)`: every entry with the returned
   * record's id becomes that record, and every other entry is unchanged, in place.
   */
  function ReplaceById<T>(s: seq<T>, idOf: T -> Id, updated: T): (r: seq<T>)
    ensures |r| == |s|
    ensures forall i :: 0 <= i < |s| && idOf(s[i]) == idOf(updated) ==> r[i] == updated
    ensures forall i :: 0 <= i < |s| && idOf(s[i]) != idOf(updated) ==> r[i] == s[i]
  {
    MapWhere(s, HasId(idOf, idOf(updated)), Always(updated))
  }

  /** `[...list, created]`. */
  function Append<T>(s: seq<T>, created: T): (r: seq<T>)
    ensures |r| == |s| + 1 && r[..|s|] == s && r[|s|] == created
  {
    s + [created]
  }

  /** Deleting an id that is not in the list changes nothing. */
  lemma DeleteAbsent<T(!new)>(s: seq<T>, idOf: T -> Id, id: Id)
    requires forall i :: 0 <= i < |s| ==> idOf(s[i]) != id
    ensures DeleteById(s, idOf, id) == s
  {
    FilterKeepsAll(s, Except(idOf, id));
  }

  /** Deleting twice is deleting once. */
  lemma DeleteIdempotent<T(!new)>(s: seq<T>, idOf: T -> Id, id: Id)
    ensures DeleteById(DeleteById(s, idOf, id), idOf, id) == DeleteById(s, idOf, id)
  {
    FilterIdempotent(s, Except(idOf, id));
  }

  /** A replacement never changes the list's ids, so rows keep their keys and positions. */
  lemma ReplaceKeepsIds<T>(s: seq<T>, idOf: T -> Id, updated: T)
    ensures Ids(ReplaceById(s, idOf, updated), idOf) == Ids(s, idOf)
  {
  }

  /** Replacing twice with the same record is replacing once. */
  lemma ReplaceIdempotent<T>(s: seq<T>, idOf: T -> Id, updated: T)
    ensures ReplaceById(ReplaceById(s, idOf, updated), idOf, updated) == ReplaceById(s, idOf, updated)
  {
  }

  /** A record whose id is not in the list replaces nothing. */
  lemma ReplaceAbsent<T>(s: seq<T>, idOf: T -> Id, updated: T)
    requires forall i :: 0 <= i < |s| ==> idOf(s[i]) != idOf(updated)
    ensures ReplaceById(s, idOf, updated) == s
  {
  }

  /** Deleting a replaced record leaves what deleting the original would have left. */
  lemma {:induction false} DeleteAfterReplace<T(!new)>(s: seq<T>, idOf: T -> Id, updated: T)
    ensures DeleteById(ReplaceById(s, idOf, updated), idOf, idOf(updated)) == DeleteById(s, idOf, idOf(updated))
  {
    if |s| > 0 {
      var r := ReplaceById(s, idOf, updated);
      assert r[1..] == ReplaceById(s[1..], idOf, updated);
      DeleteAfterReplace(s[1..], idOf, updated);
    }
  }

  /** Deleting a just-appended record's id undoes the append when the id was new. */
  lemma DeleteAfterAppend<T(!new)>(s: seq<T>, idOf: T -> Id, created: T)
    requires forall i :: 0 <= i < |s| ==> idOf(s[i]) != idOf(created)
    ensures DeleteById(Append(s, created), idOf, idOf(created)) == s
  {
    FilterAppend(s, [created], Except(idOf, idOf(created)));
    DeleteAbsent(s, idOf, idOf(created));
  }

  /**
   * The delete handler: the list changes only when the server action returned; when it
   * threw, the list is as it was.
   */
  function AfterDelete<T(==,!new)>(s: seq<T>, idOf: T -> Id, id: Id, action: Outcome<()>): (r: seq<T>)
    ensures action.Threw? ==> r == s
    ensures action.Returned? ==> forall i :: 0 <= i < |r| ==> idOf(r[i]) != id
    ensures forall x :: idOf(x) != id ==> multiset(r)[x] == multiset(s)[x]
    ensures IsSubsequence(r, s)
  {
    if action.Threw? then
      SubsequenceReflexive(s);
      s
    else DeleteById(s, idOf, id)
  }

  /** Which dialog the save handler was called from. */
  datatype Dialog<T> = Creating | Editing(selected: T)

  /**
   * The save handler: nothing changes when the action throws or returns nothing; an edit
   * replaces by the returned record's id, and a creation appends.
   */
  function AfterSave<T>(s: seq<T>, idOf: T -> Id, dialog: Dialog<T>, result: Outcome<Option<T>>): (r: seq<T>)
    ensures result.Threw? || result == Returned(None) ==> r == s
    ensures result.Returned? && result.value.Some? && dialog.Editing? ==>
      var record := result.value.value;
      Ids(r, idOf) == Ids(s, idOf) &&
      forall i :: 0 <= i < |s| ==> r[i] == if idOf(s[i]) == idOf(record) then record else s[i]
    ensures result.Returned? && result.value.Some? && dialog.Creating? ==>
      |r| == |s| + 1 && r[..|s|] == s && r[|s|] == result.value.value
  {
    match result
    case Threw => s
    case Returned(None) => s
    case Returned(Some(record)) =>
      if dialog.Editing? then
        ReplaceKeepsIds(s, idOf, record);
        ReplaceById(s, idOf, record)
      else Append(s, record)
  }
}
