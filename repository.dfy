/**
 * StudentRepository of the current variant over an in-memory table.
 *
 * The table is `rows`, keyed by Id; `nextId` is the identity counter that
 * hands out the Id of the next inserted row. A session or transaction that
 * fails is modelled by the `fail` argument of each operation: the unit of
 * work then changes nothing and the operation degrades to false, absent or
 * empty. `calls` records the operations invoked, in order, so that callers
 * can state which were made.
 */
module Repository {
  import opened Wrappers
  import opened Domain

  /** One invocation of a repository operation. */
  datatype Call =
    | GetCall(id: int)
    | ListCall
    | AddCall(student: Student)
    | UpdateCall(id: int, updated: Student)
    | RemoveCall(id: int)

  /** The fields UpdateStudentAsync copies onto the stored row: Name, Course
      and Gender. Id and Email keep their stored values. */
  function ApplyUpdate(stored: Student, updated: Student): (s: Student)
    ensures s.id == stored.id && s.email == stored.email
    ensures s.name == updated.name && s.course == updated.course && s.gender == updated.gender
  {
    var s := stored.(name := updated.name);
    var s := s.(course := updated.course);
    s.(gender := updated.gender)
  }

  /** `list` holds every stored row exactly once and nothing else. */
  ghost predicate IsListing(list: seq<Student>, rows: map<int, Student>) {
    && (forall k :: 0 <= k < |list| ==> list[k].id in rows && rows[list[k].id] == list[k])
    && (forall id :: id in rows ==> rows[id] in list)
    && (forall k, l :: 0 <= k < l < |list| ==> list[k].id != list[l].id)
  }

  class StudentRepository {
    var rows: map<int, Student>
    var nextId: int
    ghost var calls: seq<Call>

    /** Every stored row sits under its own Id, and the identity counter is
        past every Id handed out. */
    ghost predicate Valid()
      reads this
    {
      && 1 <= nextId
      && forall id :: id in rows ==> 1 <= id < nextId && rows[id].id == id
    }

    constructor ()
      ensures Valid() && rows == map[] && nextId == 1 && calls == []
    {
      rows := map[];
      nextId := 1;
      calls := [];
    }

    /** AddStudentAsync: inserts the student under a fresh Id and answers
        true, or answers false and stores nothing. `id` is the Id the save
        writes back into the entity. */
    method AddStudent(student: Student, fail: bool) returns (ok: bool, id: int)
      requires Valid()
      modifies this
      ensures Valid() && calls == old(calls) + [AddCall(student)]
      ensures ok == !fail
      ensures ok ==> && id == old(nextId) && id !in old(rows)
                     && rows == old(rows)[id := student.(id := id)]
                     && nextId == old(nextId) + 1
      ensures !ok ==> rows == old(rows) && nextId == old(nextId)
    {
      calls := calls + [AddCall(student)];
      id := student.id;
      if fail {
        // the uncommitted transaction is discarded with the session
        return false, id;
      }
      id := nextId;
      nextId := nextId + 1;
      rows := rows[id := student.(id := id)];
      ok := true;
    }

    /** GetStudentAsync: the stored row, or absent when there is none or
        the fetch fails. */
    method GetStudent(id: int, fail: bool) returns (student: Option<Student>)
      requires Valid()
      modifies this`calls
      ensures Valid() && calls == old(calls) + [GetCall(id)]
      ensures student == if !fail && id in rows then Some(rows[id]) else None
      ensures student.Some? ==> student.value.id == id
    {
      calls := calls + [GetCall(id)];
      if fail || id !in rows {
        return None;
      }
      student := Some(rows[id]);
    }

    /** GetStudentsListAsync: all stored rows, or the empty sequence when
        the query fails. The rows come out in Id order. */
    method GetStudentsList(fail: bool) returns (list: seq<Student>)
      requires Valid()
      modifies this`calls
      ensures Valid() && calls == old(calls) + [ListCall]
      ensures fail ==> list == []
      ensures !fail ==> IsListing(list, rows)
    {
      calls := calls + [ListCall];
      list := [];
      if fail {
        return;
      }
      var id := 1;
      while id < nextId
        invariant 1 <= id <= nextId
        invariant forall k :: 0 <= k < |list| ==> list[k].id in rows && rows[list[k].id] == list[k] && list[k].id < id
        invariant forall k, l :: 0 <= k < l < |list| ==> list[k].id < list[l].id
        invariant forall i :: i in rows && i < id ==> rows[i] in list
      {
        if id in rows {
          list := list + [rows[id]];
        }
        id := id + 1;
      }
    }

    /** RemoveStudentAsync: deletes the row stored under `id` and answers
        true; answers false, changing nothing, when there is no such row or
        the transaction is rolled back. */
    method RemoveStudent(id: int, fail: bool) returns (ok: bool)
      requires Valid()
      modifies this
      ensures Valid() && calls == old(calls) + [RemoveCall(id)] && nextId == old(nextId)
      ensures ok == (!fail && id in old(rows))
      ensures rows == if ok then old(rows) - {id} else old(rows)
    {
      calls := calls + [RemoveCall(id)];
      if fail || id !in rows {
        return false;
      }
      rows := rows - {id};
      ok := true;
    }

    /** UpdateStudentAsync: copies Name, Course and Gender of `updated` onto
        the row stored under `id` and answers true; answers false, changing
        nothing, when there is no such row or the transaction is rolled back. */
    method UpdateStudent(id: int, updated: Student, fail: bool) returns (ok: bool)
      requires Valid()
      modifies this
      ensures Valid() && calls == old(calls) + [UpdateCall(id, updated)] && nextId == old(nextId)
      ensures ok == (!fail && id in old(rows))
      ensures rows == if ok then old(rows)[id := ApplyUpdate(old(rows)[id], updated)] else old(rows)
    {
      calls := calls + [UpdateCall(id, updated)];
      if fail || id !in rows {
        return false;
      }
      rows := rows[id := ApplyUpdate(rows[id], updated)];
      ok := true;
    }
  }

  /** Repeating an update changes nothing more. */
  lemma ApplyUpdateIdempotent(stored: Student, updated: Student)
    ensures ApplyUpdate(ApplyUpdate(stored, updated), updated) == ApplyUpdate(stored, updated)
  {
  }
}
