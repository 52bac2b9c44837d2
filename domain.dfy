/**
 * Entities and DTOs of the current variant (NHibernateDemo.Core), and the
 * column lengths its table mapping (StudentMap) declares.
 */
module Domain {
  import opened Text

  /** Student.Id before the storage layer assigns one (the C# default of int). */
  const TransientId: int := 0

  /** The persisted entity. */
  datatype Student = Student(id: int, name: string, email: string, course: string, gender: string)

  /** `new Student(name, email, course, gender)`: the Id keeps its default. */
  function NewStudent(name: string, email: string, course: string, gender: string): Student {
    Student(TransientId, name, email, course, gender)
  }

  /** The body of POST and PATCH requests. */
  datatype StudentRequest = StudentRequest(name: string, email: string, course: string, gender: string)

  /** The read model handed back to clients. */
  datatype StudentResponse = StudentResponse(id: int, name: string, email: string, course: string, gender: string)

  // Column lengths of the Students table.
  const NameColumnLength: nat := 100
  const EmailColumnLength: nat := 100
  const CourseColumnLength: nat := 100
  const GenderColumnLength: nat := 6

  /** The row fits the declared column lengths, counted in UTF-16 code units. */
  predicate FitsColumns(s: Student) {
    && Utf16Length(s.name) <= NameColumnLength
    && Utf16Length(s.email) <= EmailColumnLength
    && Utf16Length(s.course) <= CourseColumnLength
    && Utf16Length(s.gender) <= GenderColumnLength
  }
}
