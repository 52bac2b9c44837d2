/** Entity/DTO conversions of the legacy variant (three data fields). */
module LegacyMapping {
  import opened LegacyDomain

  /** StudentRequest.ToDomain(): a transient entity with Name, Course, Gender. */
  function ToDomain(request: StudentRequest): (student: Student)
    ensures student.id == TransientId
    ensures student.name == request.name && student.course == request.course && student.gender == request.gender
  {
    NewStudent(request.name, request.course, request.gender)
  }

  /** Student.ToResponse(): copies Id, Name, Course and Gender. */
  function ToResponse(student: Student): (response: StudentResponse)
    ensures response.id == student.id && response.name == student.name
    ensures response.course == student.course && response.gender == student.gender
  {
    StudentResponse(student.id, student.name, student.course, student.gender)
  }

  /** IEnumerable<Student>.ToResponse(): length, order and elements agree
      with the single form. */
  function ToResponses(students: seq<Student>): (responses: seq<StudentResponse>)
    ensures |responses| == |students|
    ensures forall i :: 0 <= i < |students| ==> responses[i] == ToResponse(students[i])
  {
    if students == [] then []
    else [ToResponse(students[0])] + ToResponses(students[1..])
  }

  lemma ResponseOfRequest(request: StudentRequest)
    ensures ToResponse(ToDomain(request)) ==
            StudentResponse(TransientId, request.name, request.course, request.gender)
  {
  }

  lemma MappingsLossless(r1: StudentRequest, r2: StudentRequest, s1: Student, s2: Student)
    ensures ToDomain(r1) == ToDomain(r2) ==> r1 == r2
    ensures ToResponse(s1) == ToResponse(s2) ==> s1 == s2
  {
  }
}
