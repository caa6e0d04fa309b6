/** What every service operation returns: an abstract status paired with a body. */
module Outcomes {
  import opened Students
  import opened Errors

  /** The three statuses the service uses (HTTP 200, 201 and 404). */
  datatype Status = Ok | Created | NotFound

  datatype Body =
    | StudentBody(student: Student)
    | StudentList(students: seq<Student>)
    | IdBody(id: int)
    | ErrorBody(error: ErrorResponse)

  datatype Outcome = Outcome(status: Status, body: Body)
}
