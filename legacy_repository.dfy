/**
 * StudentRepository of the legacy variant (no Email column) over an
 * in-memory table, with the same conventions as module Repository: `rows`
 * keyed by Id, the identity counter `nextId`, a `fail` argument for a
 * failing session or transaction, and the log `calls`.
 */
module LegacyRepository {
  import opened Wrappers
  import opened LegacyDomain

  datatype Call =
    | GetCall(id: int)
    | ListCall
    | AddCall(student: Student)
    | UpdateCall(id: int, updated: Student)
    | RemoveCall(id: int)

  /** The fields UpdateStudentAsync copies: Name, Course and Gender, which
      here are all the fields but the Id. */
  function ApplyUpdate(stored: Student, updated: Student): (s: Student)
    ensures s == updated.(id := stored.id)
  {
    var s := stored.(name := updated.name);
    var s := s.(course := updated.course);
    s.(gender := updated.gender)
  }

  ghost predicate IsListing(list: seq<Student>, rows: map<int, Student>) {
    && (forall k :: 0 <= k < |list| ==> list[k].id in rows && rows[list[k].id] == list[k])
    && (forall id :: id in rows ==> rows[id] in list)
    && (forall k, l :: 0 <= k < l < |list| ==> list[k].id != list[l].id)
  }

  class StudentRepository {
    var rows: map<int, Student>
    var nextId: int
    ghost var calls: seq<Call>

    ghost predicate Valid()
      reads this
    {
      && 1 <= nextId
      && forall id :: id in rows ==> 1 <= id < nextId && rows[id].id == id
    }

    constructor ()
      ensures Valid() && rows == map[] && nextId == 1 && calls == []
    {
      rows := map[];
      nextId := 1;
      calls := [];
    }

    /** AddStudentAsync: true after save and commit; false when either
        throws. There is no explicit rollback: the uncommitted transaction
        is discarded when the session is disposed, so nothing is stored. */
    method AddStudent(student: Student, fail: bool) returns (ok: bool, id: int)
      requires Valid()
      modifies this
      ensures Valid() && calls == old(calls) + [AddCall(student)]
      ensures ok == !fail
      ensures ok ==> && id == old(nextId) && id !in old(rows)
                     && rows == old(rows)[id := student.(id := id)]
                     && nextId == old(nextId) + 1
      ensures !ok ==> rows == old(rows) && nextId == old(nextId)
    {
      calls := calls + [AddCall(student)];
      id := student.id;
      if fail {
        return false, id;
      }
      id := nextId;
      nextId := nextId + 1;
      rows := rows[id := student.(id := id)];
      ok := true;
    }

    /** GetStudentAsync: the stored row, or absent (also on a failure). */
    method GetStudent(id: int, fail: bool) returns (student: Option<Student>)
      requires Valid()
      modifies this`calls
      ensures Valid() && calls == old(calls) + [GetCall(id)]
      ensures student == if !fail && id in rows then Some(rows[id]) else None
      ensures student.Some? ==> student.value.id == id
    {
      calls := calls + [GetCall(id)];
      if fail || id !in rows {
        return None;
      }
      student := Some(rows[id]);
    }

    /** GetStudentsListAsync: all stored rows in Id order, or the empty
        sequence on a failure. */
    method GetStudentsList(fail: bool) returns (list: seq<Student>)
      requires Valid()
      modifies this`calls
      ensures Valid() && calls == old(calls) + [ListCall]
      ensures fail ==> list == []
      ensures !fail ==> IsListing(list, rows)
    {
      calls := calls + [ListCall];
      list := [];
      if fail {
        return;
      }
      var id := 1;
      while id < nextId
        invariant 1 <= id <= nextId
        invariant forall k :: 0 <= k < |list| ==> list[k].id in rows && rows[list[k].id] == list[k] && list[k].id < id
        invariant forall k, l :: 0 <= k < l < |list| ==> list[k].id < list[l].id
        invariant forall i :: i in rows && i < id ==> rows[i] in list
      {
        if id in rows {
          list := list + [rows[id]];
        }
        id := id + 1;
      }
    }

    /** RemoveStudentAsync: deletes exactly the row under `id` and answers
        true; false and no change when it is absent or on a rollback. */
    method RemoveStudent(id: int, fail: bool) returns (ok: bool)
      requires Valid()
      modifies this
      ensures Valid() && calls == old(calls) + [RemoveCall(id)] && nextId == old(nextId)
      ensures ok == (!fail && id in old(rows))
      ensures rows == if ok then old(rows) - {id} else old(rows)
    {
      calls := calls + [RemoveCall(id)];
      if fail || id !in rows {
        return false;
      }
      rows := rows - {id};
      ok := true;
    }

    /** UpdateStudentAsync: the row under `id` takes every field of
        `updated` but keeps its Id; false and no change when it is absent
        or on a rollback. */
    method UpdateStudent(id: int, updated: Student, fail: bool) returns (ok: bool)
      requires Valid()
      modifies this
      ensures Valid() && calls == old(calls) + [UpdateCall(id, updated)] && nextId == old(nextId)
      ensures ok == (!fail && id in old(rows))
      ensures rows == if ok then old(rows)[id := updated.(id := id)] else old(rows)
    {
      calls := calls + [UpdateCall(id, updated)];
      if fail || id !in rows {
        return false;
      }
      rows := rows[id := ApplyUpdate(rows[id], updated)];
      ok := true;
    }
  }
}
