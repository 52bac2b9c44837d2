/** The request records sent through the mediator, and the handlers' messages. */
module Messages {
  import opened Text
  import opened Domain

  datatype GetStudentsQuery = GetStudentsQuery
  datatype GetStudentByIdQuery = GetStudentByIdQuery(id: int)
  datatype CreateStudentCommand = CreateStudentCommand(student: StudentRequest)
  datatype UpdateStudentCommand = UpdateStudentCommand(id: int, student: StudentRequest)
  datatype RemoveStudentCommand = RemoveStudentCommand(id: int)

  /** What a field-less record prints: "GetStudentsQuery { }". */
  function QueryText(query: GetStudentsQuery): string {
    "GetStudentsQuery { }"
  }

  /** "Student with Id {id} not found!" */
  function NotFoundMessage(id: int): (m: string)
    ensures |m| > 27 && m[..16] == "Student with Id " && m[|m| - 11..] == " not found!"
    ensures m[16..|m| - 11] == IntToString(id)
  {
    "Student with Id " + IntToString(id) + " not found!"
  }

  /** The message for Id 2 as clients see it. */
  lemma NotFoundMessageExample()
    ensures NotFoundMessage(2) == "Student with Id 2 not found!"
  {
  }

  /** The not-found message names the id: distinct ids give distinct messages. */
  lemma NotFoundMessageNamesId(a: int, b: int)
    requires NotFoundMessage(a) == NotFoundMessage(b)
    ensures a == b
  {
    var m := NotFoundMessage(a);
    assert IntToString(a) == m[16..|m| - 11] == IntToString(b);
    IntToStringInjective(a, b);
  }

  /** Prefixes of the messages the handlers build from a caught exception. */
  function FetchStudentErrorPrefix(id: int): string {
    "An error occurred while fetching student with Id " + IntToString(id) + ": "
  }

  const FetchStudentsErrorPrefix: string := "An error occurred while fetching students: "

  const InsertErrorPrefix: string := "An error occurred while trying to insert a new student"

  function UpdateErrorPrefix(id: int): string {
    "An error occurred while trying to update the student with Id " + IntToString(id)
  }

  function RemoveErrorPrefix(id: int): string {
    "An error occurred while trying to delete the student with Id " + IntToString(id)
  }
}
