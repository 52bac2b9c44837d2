/**
 * The command and query handlers of the application layer, called directly
 * (the mediator only routes each record to its handler).
 *
 * Each handler catches every exception and turns it into a Failure. The
 * repository catches the failures of its own queries, but opening a session
 * or beginning a transaction (and a rollback) happens outside its `try` and
 * can throw out of it, and the cache can throw too; `raised` stands for
 * such an exception, with its message, raised by the handler's first
 * awaited call before that call took effect.
 * `fail` and its variants are the repository calls' failure flags.
 */
module Handlers {
  import opened Wrappers
  import opened Domain
  import opened Shared
  import opened Mapping
  import opened Messages
  import opened Repository

  /** The FusionCache instance the list query uses, as an untimed map from
      keys to cached student lists. */
  class Cache {
    var entries: map<string, seq<Student>>

    constructor ()
      ensures entries == map[]
    {
      entries := map[];
    }
  }

  /** The key `students:{request}`. The query record has no fields, so
      every call reads and fills one shared slot. */
  function CacheKey(query: GetStudentsQuery): (key: string)
    ensures key == "students:GetStudentsQuery { }"
  {
    "students:" + QueryText(query)
  }

  /** GetStudentByIdQueryHandler.Handle: one read by request.Id; a Failure
      naming the id when there is no student, else a Success with the
      student's five fields. The table is left as it is. */
  method GetStudentById(repo: StudentRepository, request: GetStudentByIdQuery,
                        fail: bool, raised: Option<string>)
    returns (r: Result<StudentResponse>)
    requires repo.Valid()
    modifies repo`calls
    ensures repo.Valid() && repo.calls == old(repo.calls) + [GetCall(request.id)]
    ensures raised.Some? ==> r == Failure(FetchStudentErrorPrefix(request.id) + raised.value)
    ensures raised.None? && (fail || request.id !in repo.rows) ==> r == Failure(NotFoundMessage(request.id))
    ensures raised.None? && !fail && request.id in repo.rows ==>
              r == Success(ToResponse(repo.rows[request.id])) && r.data.value.id == request.id
  {
    if raised.Some? {
      repo.calls := repo.calls + [GetCall(request.id)];
      return Failure(FetchStudentErrorPrefix(request.id) + raised.value);
    }
    var student := repo.GetStudent(request.id, fail);
    if student.None? {
      return Failure(NotFoundMessage(request.id));
    }
    var response := ToResponse(student.value);
    r := Success(response);
  }

  /** GetStudentsQueryHandler.Handle: the list comes from the cache slot,
      which a miss fills from the repository; it is mapped element by
      element and always wrapped in a Success. */
  method GetStudents(repo: StudentRepository, cache: Cache, request: GetStudentsQuery,
                     fail: bool, raised: Option<string>)
    returns (r: Result<seq<StudentResponse>>)
    requires repo.Valid()
    modifies repo`calls, cache
    ensures repo.Valid()
    ensures raised.Some? ==>
              && r == Failure(FetchStudentsErrorPrefix + raised.value)
              && cache.entries == old(cache.entries) && repo.calls == old(repo.calls)
    ensures raised.None? ==>
              && CacheKey(request) in cache.entries
              && r == Success(ToResponses(cache.entries[CacheKey(request)]))
    // a hit: the cached list, and the repository is not asked
    ensures raised.None? && CacheKey(request) in old(cache.entries) ==>
              cache.entries == old(cache.entries) && repo.calls == old(repo.calls)
    // a miss: one list call, whose answer (empty on a failure) is cached
    ensures raised.None? && CacheKey(request) !in old(cache.entries) ==>
              && repo.calls == old(repo.calls) + [ListCall]
              && cache.entries == old(cache.entries)[CacheKey(request) := cache.entries[CacheKey(request)]]
              && (fail ==> cache.entries[CacheKey(request)] == [])
              && (!fail ==> IsListing(cache.entries[CacheKey(request)], repo.rows))
  {
    if raised.Some? {
      return Failure(FetchStudentsErrorPrefix + raised.value);
    }
    var key := CacheKey(request);
    var students: seq<Student>;
    if key in cache.entries {
      students := cache.entries[key];
    } else {
      students := repo.GetStudentsList(fail);
      cache.entries := cache.entries[key := students];
    }
    var responses := ToResponses(students);
    r := Success(responses);
  }

  /** CreateStudentCommandHandler.Handle: no existence or duplicate check;
      exactly one insert of ToDomain(request.Student), whose answer is
      wrapped in a Success, so IsSuccess holds even when nothing was stored. */
  method CreateStudent(repo: StudentRepository, request: CreateStudentCommand,
                       fail: bool, raised: Option<string>)
    returns (r: Result<bool>)
    requires repo.Valid()
    modifies repo
    ensures repo.Valid() && repo.calls == old(repo.calls) + [AddCall(ToDomain(request.student))]
    ensures raised.Some? ==>
              && r == Failure(InsertErrorPrefix + raised.value)
              && repo.rows == old(repo.rows) && repo.nextId == old(repo.nextId)
    ensures raised.None? ==> r == Success(!fail)
    ensures raised.None? && !fail ==>
              repo.rows == old(repo.rows)[old(repo.nextId) := ToDomain(request.student).(id := old(repo.nextId))]
    ensures raised.None? && fail ==> repo.rows == old(repo.rows)
  {
    var student := ToDomain(request.student);
    if raised.Some? {
      repo.calls := repo.calls + [AddCall(student)];
      return Failure(InsertErrorPrefix + raised.value);
    }
    var success, _ := repo.AddStudent(student, fail);
    r := Success(success);
  }

  /** UpdateStudentCommandHandler.Handle: one read by request.Id; when there
      is no student, a not-found Failure and no update; otherwise exactly one
      update with request.Id and ToDomain(request.Student), wrapped in a
      Success whatever it answered. */
  method UpdateStudent(repo: StudentRepository, request: UpdateStudentCommand,
                       getFail: bool, updateFail: bool, raised: Option<string>)
    returns (r: Result<bool>)
    requires repo.Valid()
    modifies repo
    ensures repo.Valid() && repo.nextId == old(repo.nextId)
    ensures raised.Some? ==>
              && r == Failure(UpdateErrorPrefix(request.id) + raised.value)
              && repo.calls == old(repo.calls) + [GetCall(request.id)]
              && repo.rows == old(repo.rows)
    ensures raised.None? && (getFail || request.id !in old(repo.rows)) ==>
              && r == Failure(NotFoundMessage(request.id))
              && repo.calls == old(repo.calls) + [GetCall(request.id)]
              && repo.rows == old(repo.rows)
    ensures raised.None? && !getFail && request.id in old(repo.rows) ==>
              && repo.calls == old(repo.calls) + [GetCall(request.id), UpdateCall(request.id, ToDomain(request.student))]
              && r == Success(!updateFail)
              && repo.rows == if updateFail then old(repo.rows)
                              else old(repo.rows)[request.id := ApplyUpdate(old(repo.rows)[request.id], ToDomain(request.student))]
  {
    if raised.Some? {
      repo.calls := repo.calls + [GetCall(request.id)];
      return Failure(UpdateErrorPrefix(request.id) + raised.value);
    }
    var student := repo.GetStudent(request.id, getFail);
    if student.None? {
      return Failure(NotFoundMessage(request.id));
    }
    var updatedStudent := ToDomain(request.student);
    var success := repo.UpdateStudent(request.id, updatedStudent, updateFail);
    r := Success(success);
  }

  /** RemoveStudentCommandHandler.Handle: one read by request.Id; when there
      is no student, a not-found Failure and no removal; otherwise exactly
      one removal by the fetched student's Id, wrapped in a Success. After a
      Success(true) the id is gone from the table. */
  method RemoveStudent(repo: StudentRepository, request: RemoveStudentCommand,
                       getFail: bool, removeFail: bool, raised: Option<string>)
    returns (r: Result<bool>)
    requires repo.Valid()
    modifies repo
    ensures repo.Valid() && repo.nextId == old(repo.nextId)
    ensures raised.Some? ==>
              && r == Failure(RemoveErrorPrefix(request.id) + raised.value)
              && repo.calls == old(repo.calls) + [GetCall(request.id)]
              && repo.rows == old(repo.rows)
    ensures raised.None? && (getFail || request.id !in old(repo.rows)) ==>
              && r == Failure(NotFoundMessage(request.id))
              && repo.calls == old(repo.calls) + [GetCall(request.id)]
              && repo.rows == old(repo.rows)
    ensures raised.None? && !getFail && request.id in old(repo.rows) ==>
              && repo.calls == old(repo.calls) + [GetCall(request.id), RemoveCall(request.id)]
              && r == Success(!removeFail)
              && repo.rows == if removeFail then old(repo.rows) else old(repo.rows) - {request.id}
    ensures r == Success(true) ==> request.id !in repo.rows
  {
    if raised.Some? {
      repo.calls := repo.calls + [GetCall(request.id)];
      return Failure(RemoveErrorPrefix(request.id) + raised.value);
    }
    var student := repo.GetStudent(request.id, getFail);
    if student.None? {
      return Failure(NotFoundMessage(request.id));
    }
    var success := repo.RemoveStudent(student.value.id, removeFail);
    r := Success(success);
  }

  /** Create followed by get-by-id on a fresh table, with the request of the
      endpoint tests: the student comes back under Id 1 with its four fields. */
  method CreateThenGet() returns (created: Result<bool>, fetched: Result<StudentResponse>)
    ensures created == Success(true)
    ensures fetched == Success(StudentResponse(1, "Alice Johnson", "alice.johnson@example.com",
                                               "Computer Science", "Female"))
  {
    var repo := new StudentRepository();
    var request := StudentRequest("Alice Johnson", "alice.johnson@example.com", "Computer Science", "Female");
    created := CreateStudent(repo, CreateStudentCommand(request), false, None);
    fetched := GetStudentById(repo, GetStudentByIdQuery(1), false, None);
  }

  /** Create, update with another Email, then get: Name, Course and Gender
      change, the first Email stays. */
  method UpdateKeepsEmail() returns (updated: Result<bool>, fetched: Result<StudentResponse>)
    ensures updated == Success(true)
    ensures fetched == Success(StudentResponse(1, "Emily Turner", "emily.turner@example.com",
                                               "Marketing", "Female"))
  {
    var repo := new StudentRepository();
    var first := StudentRequest("Emily Turner", "emily.turner@example.com", "Business Administration", "Female");
    var second := StudentRequest("Emily Turner", "emily.t@example.com", "Marketing", "Female");
    var _ := CreateStudent(repo, CreateStudentCommand(first), false, None);
    updated := UpdateStudent(repo, UpdateStudentCommand(1, second), false, false, None);
    fetched := GetStudentById(repo, GetStudentByIdQuery(1), false, None);
  }

  /** Remove followed by get-by-id: the second read finds nothing. */
  method RemoveThenGet() returns (removed: Result<bool>, fetched: Result<StudentResponse>)
    ensures removed == Success(true)
    ensures fetched == Failure(NotFoundMessage(1))
  {
    var repo := new StudentRepository();
    var request := StudentRequest("Michael Thompson", "michael.thompson@example.com", "Mechanical Engineering", "Male");
    var _ := CreateStudent(repo, CreateStudentCommand(request), false, None);
    removed := RemoveStudent(repo, RemoveStudentCommand(1), false, false, None);
    fetched := GetStudentById(repo, GetStudentByIdQuery(1), false, None);
  }
}
