/**
 * The five route handlers of StudentEndpoint. Each sends one request record
 * through the mediator, given here as the function `send`, and maps the
 * Result it gets back to an HTTP result; Add and Update first run request
 * validation and send nothing when it fails.
 */
module Endpoint {
  import opened Wrappers
  import opened Domain
  import opened Shared
  import opened Validation
  import opened Messages
  import opened Repository
  import Handlers

  /** The IResult values the endpoint produces, with the Result as body. */
  datatype HttpResult<T> =
    | Ok(body: Result<T>)
    | NoContent
    | NotFound(body: Result<T>)
    | BadRequest(body: Result<T>)
    | ValidationProblem(errors: set<Field>)

  function StatusCode<T>(h: HttpResult<T>): int {
    match h
    case Ok(_) => 200
    case NoContent => 204
    case NotFound(_) => 404
    case BadRequest(_) => 400
    case ValidationProblem(_) => 400
  }

  /** The HTTP result together with the records sent to the mediator, in order. */
  datatype Reply<C, T> = Reply(response: HttpResult<T>, sent: seq<C>)

  /** IsSuccess != false ? Ok : BadRequest, shared by the three commands. */
  function CommandResponse(result: Result<bool>): (h: HttpResult<bool>)
    ensures StatusCode(h) == 200 <==> result.isSuccess
    ensures StatusCode(h) == 400 <==> !result.isSuccess
    ensures (h.Ok? || h.BadRequest?) && h.body == result
  {
    if result.isSuccess then Ok(result) else BadRequest(result)
  }

  /** GET /students: 200 with the Result exactly when its Data is present and
      not empty; 204 otherwise, failures included. */
  function GetStudentsList(send: GetStudentsQuery -> Result<seq<StudentResponse>>)
    : (reply: Reply<GetStudentsQuery, seq<StudentResponse>>)
    ensures reply.sent == [GetStudentsQuery]
    ensures StatusCode(reply.response) == 200 <==>
              send(GetStudentsQuery).data.Some? && |send(GetStudentsQuery).data.value| > 0
    ensures StatusCode(reply.response) == 204 <==> !reply.response.Ok?
    ensures reply.response.Ok? ==> reply.response.body == send(GetStudentsQuery)
  {
    var students := send(GetStudentsQuery);
    if students.data.Some? && |students.data.value| > 0 then Reply(Ok(students), [GetStudentsQuery])
    else Reply(NoContent, [GetStudentsQuery])
  }

  /** GET /students/{id}: 200 exactly when Data is present, whatever IsSuccess
      says; 404 otherwise; the Result is the body either way. */
  function GetStudent(send: GetStudentByIdQuery -> Result<StudentResponse>, id: int)
    : (reply: Reply<GetStudentByIdQuery, StudentResponse>)
    ensures reply.sent == [GetStudentByIdQuery(id)]
    ensures StatusCode(reply.response) == 200 <==> send(GetStudentByIdQuery(id)).data.Some?
    ensures StatusCode(reply.response) == 404 <==> send(GetStudentByIdQuery(id)).data.None?
    ensures (reply.response.Ok? || reply.response.NotFound?) && reply.response.body == send(GetStudentByIdQuery(id))
  {
    var student := send(GetStudentByIdQuery(id));
    if student.data.Some? then Reply(Ok(student), [GetStudentByIdQuery(id)])
    else Reply(NotFound(student), [GetStudentByIdQuery(id)])
  }

  /** POST /students: an invalid request is a validation problem listing the
      failing members and sends nothing; a valid one sends exactly one
      CreateStudentCommand with the request, then 200 iff IsSuccess, else 400. */
  function AddStudent(send: CreateStudentCommand -> Result<bool>, isEmail: string -> bool,
                      student: StudentRequest)
    : (reply: Reply<CreateStudentCommand, bool>)
    ensures reply.response.ValidationProblem? <==> !IsValid(student, isEmail)
    ensures !IsValid(student, isEmail) ==>
              reply.sent == [] && reply.response.errors == Errors(student, isEmail) && reply.response.errors != {}
    ensures IsValid(student, isEmail) ==>
              && reply.sent == [CreateStudentCommand(student)]
              && (StatusCode(reply.response) == 200 <==> send(CreateStudentCommand(student)).isSuccess)
              && (reply.response.Ok? || reply.response.BadRequest?)
              && reply.response.body == send(CreateStudentCommand(student))
  {
    if !IsValid(student, isEmail) then Reply(ValidationProblem(Errors(student, isEmail)), [])
    else
      var success := send(CreateStudentCommand(student));
      Reply(CommandResponse(success), [CreateStudentCommand(student)])
  }

  /** PATCH /students/{id}: as AddStudent, with one UpdateStudentCommand
      carrying the path id and the request. */
  function UpdateStudent(send: UpdateStudentCommand -> Result<bool>, isEmail: string -> bool,
                         id: int, student: StudentRequest)
    : (reply: Reply<UpdateStudentCommand, bool>)
    ensures reply.response.ValidationProblem? <==> !IsValid(student, isEmail)
    ensures !IsValid(student, isEmail) ==>
              reply.sent == [] && reply.response.errors == Errors(student, isEmail) && reply.response.errors != {}
    ensures IsValid(student, isEmail) ==>
              && reply.sent == [UpdateStudentCommand(id, student)]
              && (StatusCode(reply.response) == 200 <==> send(UpdateStudentCommand(id, student)).isSuccess)
              && (reply.response.Ok? || reply.response.BadRequest?)
              && reply.response.body == send(UpdateStudentCommand(id, student))
  {
    if !IsValid(student, isEmail) then Reply(ValidationProblem(Errors(student, isEmail)), [])
    else
      var success := send(UpdateStudentCommand(id, student));
      Reply(CommandResponse(success), [UpdateStudentCommand(id, student)])
  }

  /** DELETE /students/{id}: no validation; always exactly one
      RemoveStudentCommand with the path id, then 200 iff IsSuccess, else 400. */
  function RemoveStudent(send: RemoveStudentCommand -> Result<bool>, id: int)
    : (reply: Reply<RemoveStudentCommand, bool>)
    ensures reply.sent == [RemoveStudentCommand(id)]
    ensures StatusCode(reply.response) == 200 <==> send(RemoveStudentCommand(id)).isSuccess
    ensures StatusCode(reply.response) == 400 <==> !send(RemoveStudentCommand(id)).isSuccess
    ensures (reply.response.Ok? || reply.response.BadRequest?) && reply.response.body == send(RemoveStudentCommand(id))
  {
    var success := send(RemoveStudentCommand(id));
    Reply(CommandResponse(success), [RemoveStudentCommand(id)])
  }

  /** A command answered with Success(false), nothing done, is still a 200. */
  lemma NothingDoneIsStillOk(sendCreate: CreateStudentCommand -> Result<bool>,
                             sendUpdate: UpdateStudentCommand -> Result<bool>,
                             sendRemove: RemoveStudentCommand -> Result<bool>,
                             isEmail: string -> bool, id: int, student: StudentRequest)
    requires IsValid(student, isEmail)
    requires sendCreate(CreateStudentCommand(student)) == Success(false)
    requires sendUpdate(UpdateStudentCommand(id, student)) == Success(false)
    requires sendRemove(RemoveStudentCommand(id)) == Success(false)
    ensures StatusCode(AddStudent(sendCreate, isEmail, student).response) == 200
    ensures StatusCode(UpdateStudent(sendUpdate, isEmail, id, student).response) == 200
    ensures StatusCode(RemoveStudent(sendRemove, id).response) == 200
    ensures Flag(RemoveStudent(sendRemove, id).response.body) == false
  {
  }

  /** The handlers' not-found Failure is a 404 on get and a 400 on update and
      remove, with the message naming the id in the body. */
  lemma NotFoundStatuses(sendGet: GetStudentByIdQuery -> Result<StudentResponse>,
                         sendUpdate: UpdateStudentCommand -> Result<bool>,
                         sendRemove: RemoveStudentCommand -> Result<bool>,
                         isEmail: string -> bool, id: int, student: StudentRequest)
    requires IsValid(student, isEmail)
    requires sendGet(GetStudentByIdQuery(id)) == Failure(NotFoundMessage(id))
    requires sendUpdate(UpdateStudentCommand(id, student)) == Failure(NotFoundMessage(id))
    requires sendRemove(RemoveStudentCommand(id)) == Failure(NotFoundMessage(id))
    ensures GetStudent(sendGet, id).response == NotFound(Failure(NotFoundMessage(id)))
    ensures UpdateStudent(sendUpdate, isEmail, id, student).response == BadRequest(Failure(NotFoundMessage(id)))
    ensures RemoveStudent(sendRemove, id).response == BadRequest(Failure(NotFoundMessage(id)))
  {
  }

  /** For an envelope whose failures carry no Data, a 200 on get-by-id
      always reports a success. */
  lemma GetOkOnlyOnSuccess(send: GetStudentByIdQuery -> Result<StudentResponse>, id: int)
    requires WellFormed(send(GetStudentByIdQuery(id)))
    ensures StatusCode(GetStudent(send, id).response) == 200 ==> send(GetStudentByIdQuery(id)).isSuccess
  {
  }

  /** An empty table and a failed listing both answer 204. */
  lemma EmptyOrFailedListIsNoContent(send: GetStudentsQuery -> Result<seq<StudentResponse>>, message: string)
    requires send(GetStudentsQuery) == Success([]) || send(GetStudentsQuery) == Failure(message)
    ensures GetStudentsList(send).response == NoContent
  {
  }

  /** DELETE /students/{id} served by the remove handler over the current
      repository: a 400 leaves the table as it was, and a 200 carrying true
      means the row is gone. */
  method RemoveRoute(repo: StudentRepository, id: int,
                     getFail: bool, removeFail: bool, raised: Option<string>)
    returns (reply: Reply<RemoveStudentCommand, bool>)
    requires repo.Valid()
    modifies repo
    ensures repo.Valid()
    ensures reply.sent == [RemoveStudentCommand(id)]
    ensures StatusCode(reply.response) == 400 ==> repo.rows == old(repo.rows)
    ensures StatusCode(reply.response) == 200 && Flag(reply.response.body) ==>
              id in old(repo.rows) && repo.rows == old(repo.rows) - {id}
  {
    var result := Handlers.RemoveStudent(repo, RemoveStudentCommand(id), getFail, removeFail, raised);
    reply := RemoveStudent(_ => result, id);
  }
}
