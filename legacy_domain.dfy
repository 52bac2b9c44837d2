/**
 * Entities and DTOs of the legacy variant (NHbibernateDemo.Core), which has
 * no Email field anywhere.
 */
module LegacyDomain {

  /** Student.Id before the storage layer assigns one. */
  const TransientId: int := 0

  datatype Student = Student(id: int, name: string, course: string, gender: string)

  /** `new Student(name, course, gender)`: the Id keeps its default. */
  function NewStudent(name: string, course: string, gender: string): Student {
    Student(TransientId, name, course, gender)
  }

  /** The request DTO, with the three fields the legacy mapping reads. */
  datatype StudentRequest = StudentRequest(name: string, course: string, gender: string)

  datatype StudentResponse = StudentResponse(id: int, name: string, course: string, gender: string)
}
