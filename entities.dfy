/**
 The records of the course-management store and the outcomes its
 operations report. Console prompts and messages are not modelled: each
 operation reports one of the tags below instead of printing a message.
 */
module Entities {

  datatype Option<+T> = None | Some(value: T)

  /** A calendar date as entered by the operator; it is stored, never checked. */
  datatype Date = Date(year: int, month: int, day: int)

  /** A course row: its id, name, description and duration in hours. */
  datatype Course = Course(id: int, name: string, description: string, duration: int)

  /**
   A student row. `courses` holds the ids of the courses the student is
   enrolled in, in the order they were added.
   */
  datatype Student = Student(id: int, name: string, email: string, birthDate: Date, courses: seq<int>)

  /** Outcome of an update or delete addressed by id. */
  datatype Status = Ok | NotFound

  /**
   Outcome of an enrollment request. `Missing` reports the student lookup
   and the course lookup separately, so both can fail in one call.
   */
  datatype EnrollStatus =
    | Enrolled
    | AlreadyEnrolled
    | Missing(noStudent: bool, noCourse: bool)
}
