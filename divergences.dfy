/**
 * A client of the service that replays the scenario its unit tests walk
 * through, and records, in its postcondition, the three places where the
 * code answers differently from what those tests expect: update answers
 * CREATED, deleting a missing id answers OK with the id, and the not-found
 * message has no space after the colon.
 */
module Divergences {
  import opened Wrappers
  import opened Students
  import opened Decimal
  import opened Errors
  import opened Outcomes
  import opened Repository
  import opened Service

  method ReplayServiceTests(referenceId: string)
    returns (id: int, updated: Outcome, deletedTwice: Outcome, missing: Outcome)
    requires IsUuidString(referenceId)
    ensures updated.status == Created && updated.body.StudentBody? && updated.body.student.id == Some(id)
    ensures deletedTwice == Outcome(Ok, IdBody(id))
    ensures missing == Outcome(NotFound, ErrorBody(NotFoundError(id, referenceId)))
    ensures missing.body.error.errorMessage != ConstantsNotFoundMessage + LongToString(id)
  {
    var repository := new StudentRepository();
    var service := new StudentService(repository, StudentMapper(false));
    var dto := StudentDto(None, Some("firstName"), Some("lastName"), Some("email@email.com"));
    var today := Date(2022, 12, 31);

    var created := service.CreateStudent(dto, today);
    id := created.body.student.id.value;
    assert service.GetStudent(id, referenceId) == Outcome(Ok, StudentBody(created.body.student));

    // the test of a successful update expects OK
    updated := service.UpdateStudent(id, dto.(firstName := Some("New")), today, referenceId);
    assert updated.body.student.firstName == Some("New");

    var deleted := service.DeleteStudentById(id);
    // the test of deleting a missing id expects NOT_FOUND with an error body
    deletedTwice := service.DeleteStudentById(id);
    assert deletedTwice == deleted == Outcome(Ok, IdBody(id));

    // the tests expect "Student does not exist with id: " followed by the id
    missing := service.GetStudent(id, referenceId);
    NotFoundMessageDiffersFromConstant(id);
  }
}
