/**
 * The record service: the five operations that turn a request into store
 * calls and an outcome. Reads are functions of the store's state; create,
 * update and delete are methods that change the store.
 */
module Service {
  import opened Wrappers
  import opened Students
  import opened Errors
  import opened Outcomes
  import opened Repository

  class StudentService {
    const repository: StudentRepository
    const mapper: StudentMapper

    /** The service gets its store and its mapper injected. */
    constructor (repository: StudentRepository, mapper: StudentMapper)
      ensures this.repository == repository && this.mapper == mapper
    {
      this.repository := repository;
      this.mapper := mapper;
    }

    /**
     * `getStudent`: the stored record with status OK, or NOT_FOUND with the
     * standard error body; `referenceId` is the token the UUID generator
     * hands out for this call. Being a function, it leaves the store alone.
     */
    function GetStudent(id: int, referenceId: string): (r: Outcome)
      reads repository
      requires repository.Valid() && IsUuidString(referenceId)
      ensures r.status == Ok <==> id in repository.records
      ensures r.status == Ok || r.status == NotFound
      ensures id in repository.records ==>
                r.body.StudentBody? && r.body.student == repository.records[id] && r.body.student.id == Some(id)
      ensures id !in repository.records ==>
                r.body == ErrorBody(NotFoundError(id, referenceId))
    {
      match repository.FindById(id)
      case Some(s) => Outcome(Ok, StudentBody(s))
      case None => Outcome(NotFound, ErrorBody(NotFoundError(id, referenceId)))
    }

    /**
     * `getStudents`: status OK with every stored record exactly once; an
     * empty store gives an empty list, never an error.
     */
    function GetStudents(): (r: Outcome)
      reads repository
      requires repository.Valid()
      ensures r.status == Ok && r.body.StudentList?
      ensures ListsExactly(repository.records, r.body.students)
      ensures repository.records == map[] ==> r.body.students == []
    {
      Outcome(Ok, StudentList(repository.FindAll()))
    }

    /**
     * `deleteStudentById`: removes the entry for `id` without looking it up
     * first, and answers OK with the id whether or not it was stored.
     */
    method DeleteStudentById(id: int) returns (r: Outcome)
      requires repository.Valid()
      modifies repository
      ensures repository.Valid()
      ensures r == Outcome(Ok, IdBody(id))
      ensures id !in repository.records
      ensures repository.records.Keys == old(repository.records.Keys) - {id}
      ensures forall k :: k in repository.records ==> repository.records[k] == old(repository.records[k])
      ensures repository.saveCalls == old(repository.saveCalls)
    {
      repository.DeleteById(id);
      r := Outcome(Ok, IdBody(id));
    }

    /**
     * `createStudent`: maps the payload, stamps today's date, saves once and
     * answers CREATED with the record as saved. Whether the payload's id
     * reaches the store is the mapper's business; when it does not (or names
     * no stored record) the record gets a fresh id.
     */
    method CreateStudent(dto: StudentDto, today: Date) returns (r: Outcome)
      requires repository.Valid()
      modifies repository
      ensures repository.Valid()
      ensures r.status == Created && r.body.StudentBody?
      ensures r.body.student.firstName == dto.firstName
      ensures r.body.student.lastName == dto.lastName
      ensures r.body.student.email == dto.email
      ensures r.body.student.createdDate == Some(today)
      ensures r.body.student.id.Some?
      ensures repository.records == old(repository.records)[r.body.student.id.value := r.body.student]
      ensures !(mapper.copiesId && dto.id.Some? && dto.id.value in old(repository.records)) ==>
                r.body.student.id.value !in old(repository.records)
      ensures mapper.copiesId && dto.id.Some? && dto.id.value in old(repository.records) ==>
                r.body.student.id == dto.id
      ensures repository.saveCalls == old(repository.saveCalls) + 1
    {
      var student := ToStudent(mapper, dto);
      student := student.(createdDate := Some(today));
      var saved := repository.Save(student);
      r := Outcome(Created, StudentBody(saved));
    }

    /**
     * `updateStudent`: for a stored id, overwrites the three text fields,
     * re-stamps the date, saves once and answers CREATED (not OK) with the
     * saved record; for a missing id, answers NOT_FOUND with the standard
     * error body and neither saves nor changes the store.
     */
    method UpdateStudent(id: int, dto: StudentDto, today: Date, referenceId: string) returns (r: Outcome)
      requires repository.Valid() && IsUuidString(referenceId)
      modifies repository
      ensures repository.Valid()
      ensures r.status == Created <==> id in old(repository.records)
      ensures r.status == Created || r.status == NotFound
      ensures id in old(repository.records) ==>
                && r.body == StudentBody(Overwrite(old(repository.records[id]), dto, today))
                && repository.records == old(repository.records)[id := r.body.student]
                && repository.saveCalls == old(repository.saveCalls) + 1
      ensures repository.records.Keys == old(repository.records.Keys)
      ensures forall k :: k in repository.records && k != id ==> repository.records[k] == old(repository.records[k])
      ensures id !in old(repository.records) ==>
                && r == Outcome(NotFound, ErrorBody(NotFoundError(id, referenceId)))
                && unchanged(repository)
    {
      match repository.FindById(id) {
        case Some(student) =>
          var s := student;
          s := s.(firstName := dto.firstName);
          s := s.(lastName := dto.lastName);
          s := s.(email := dto.email);
          s := s.(createdDate := Some(today));
          var saved := repository.Save(s);
          r := Outcome(Created, StudentBody(saved));
        case None =>
          r := Outcome(NotFound, ErrorBody(NotFoundError(id, referenceId)));
      }
    }
  }
}
