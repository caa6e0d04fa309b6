/**
 * The record types the service works on: the persistent `Student` entity,
 * the `StudentDTO` write payload, and the field copy done by the mapper.
 */
module Students {
  import opened Wrappers

  /** A calendar date, as `java.time.LocalDate` carries it; the model never inspects it. */
  datatype Date = Date(year: int, month: int, day: int)

  /**
   * The persistent entity. Every reference field of the Java class may be null,
   * so each is an `Option`; `id` is null until the store assigns one.
   */
  datatype Student = Student(
    id: Option<int>,
    firstName: Option<string>,
    lastName: Option<string>,
    email: Option<string>,
    createdDate: Option<Date>)

  /** The write payload of create and update; any of its fields may be null. */
  datatype StudentDto = StudentDto(
    id: Option<int>,
    firstName: Option<string>,
    lastName: Option<string>,
    email: Option<string>)

  /**
   * The generated field-copy mapper. Its code is not visible, so whether it
   * carries the payload's id over to the entity is a parameter of the model:
   * every contract about create holds for both settings.
   */
  datatype StudentMapper = StudentMapper(copiesId: bool)

  /** `StudentMapper.toStudent`: a fresh entity holding the payload's three text fields. */
  function ToStudent(mapper: StudentMapper, dto: StudentDto): (s: Student)
    ensures s.firstName == dto.firstName && s.lastName == dto.lastName && s.email == dto.email
    ensures s.createdDate == None
    ensures s.id == (if mapper.copiesId then dto.id else None)
  {
    Student(if mapper.copiesId then dto.id else None, dto.firstName, dto.lastName, dto.email, None)
  }

  /**
   * What the update operation does to a found record through its four setters:
   * the three text fields are overwritten unconditionally (a null or empty
   * payload field included), the date is re-stamped, and the id is kept.
   */
  function Overwrite(s: Student, dto: StudentDto, today: Date): (u: Student)
    ensures u.id == s.id
    ensures u.firstName == dto.firstName && u.lastName == dto.lastName && u.email == dto.email
    ensures u.createdDate == Some(today)
  {
    s.(firstName := dto.firstName).(lastName := dto.lastName).(email := dto.email).(createdDate := Some(today))
  }

  /**
   * Update supports no partial overwrite: what the record held before, other
   * than its id, does not survive it.
   */
  lemma OverwriteKeepsOnlyId(s: Student, t: Student, dto: StudentDto, today: Date)
    ensures Overwrite(s, dto, today) == Overwrite(t, dto, today) <==> s.id == t.id
  {
  }
}
