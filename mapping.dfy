/** Entity/DTO conversions of the current variant (MappingExtensions). */
module Mapping {
  import opened Domain

  /** StudentRequest.ToDomain(): a transient entity with the request's fields. */
  function ToDomain(request: StudentRequest): (student: Student)
    ensures student.id == TransientId
    ensures student.name == request.name && student.email == request.email
    ensures student.course == request.course && student.gender == request.gender
  {
    NewStudent(request.name, request.email, request.course, request.gender)
  }

  /** Student.ToResponse(): copies all five fields. */
  function ToResponse(student: Student): (response: StudentResponse)
    ensures response.id == student.id && response.name == student.name && response.email == student.email
    ensures response.course == student.course && response.gender == student.gender
  {
    StudentResponse(student.id, student.name, student.email, student.course, student.gender)
  }

  /** IEnumerable<Student>.ToResponse(): the Select over the sequence keeps
      its length and order and maps each element on its own. */
  function ToResponses(students: seq<Student>): (responses: seq<StudentResponse>)
    ensures |responses| == |students|
    ensures forall i :: 0 <= i < |students| ==> responses[i] == ToResponse(students[i])
  {
    if students == [] then []
    else [ToResponse(students[0])] + ToResponses(students[1..])
  }

  /** Mapping a request to an entity and the entity to a response gives Id 0
      and the request's four fields. */
  lemma ResponseOfRequest(request: StudentRequest)
    ensures ToResponse(ToDomain(request)) ==
            StudentResponse(TransientId, request.name, request.email, request.course, request.gender)
  {
  }

  /** ToDomain loses nothing of the request, and ToResponse nothing of the entity. */
  lemma MappingsLossless(r1: StudentRequest, r2: StudentRequest, s1: Student, s2: Student)
    ensures ToDomain(r1) == ToDomain(r2) ==> r1 == r2
    ensures ToResponse(s1) == ToResponse(s2) ==> s1 == s2
  {
  }

  /** The sequence form distributes over concatenation. */
  lemma ToResponsesAppend(a: seq<Student>, b: seq<Student>)
    ensures ToResponses(a + b) == ToResponses(a) + ToResponses(b)
  {
  }
}
