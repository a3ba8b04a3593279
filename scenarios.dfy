/**
 Callers of the store that use nothing but the operations' contracts:
 repeated enrollment, and a walk through the menu from an empty database.
 */
module Scenarios {
  import opened Entities
  import opened CourseManagement

  /**
   Enrolling the same pair twice changes the store at most once: the second
   call never enrolls, and it reports AlreadyEnrolled whenever the first
   one enrolled.
   */
  method EnrollTwice(db: Store, courseId: int, email: string) returns (first: EnrollStatus, second: EnrollStatus)
    requires db.Valid()
    modifies db
    ensures db.Valid()
    ensures !second.Enrolled?
    ensures first.Enrolled? ==> second == AlreadyEnrolled
    ensures !first.Enrolled? ==> second == first && unchanged(db)
    ensures first.Enrolled? ==> old(db.FindStudentByEmail(email)).Some? && courseId in old(db.courses)
    ensures first.Enrolled? ==>
      var s := old(db.FindStudentByEmail(email)).value;
      db.students == old(db.students)[s.id := s.(courses := s.courses + [courseId])]
    ensures db.courses == old(db.courses)
  {
    ghost var found := db.FindStudentByEmail(email);
    first := db.Enroll(courseId, email);
    if first.Enrolled? {
      // The first enrollment changed no email, so the same student is still
      // the first one with this email, and its list now holds the course.
      var s := found.value;
      var again := db.FindStudentByEmail(email);
      assert db.students[s.id].email == email;
      assert again.Some?;
      assert again.value.id == s.id;
      assert courseId in again.value.courses;
    }
    second := db.Enroll(courseId, email);
  }

  /**
   Add a course and a student to an empty store, enroll the student twice,
   then delete the course: the first enrollment succeeds, the second is
   refused as a duplicate and leaves the student's courses as they were,
   and the deletion empties the student's list.
   */
  method Walkthrough() returns (math: int, first: EnrollStatus, second: EnrollStatus,
                                listed: seq<Course>, relisted: seq<Course>, left: seq<int>)
    ensures first == Enrolled && second == AlreadyEnrolled
    ensures listed == [Course(math, "Math", "Algebra", 10)] && relisted == listed
    ensures left == []
  {
    var db := new Store();
    math := db.AddCourse("Math", "Algebra", 10);
    var ann := db.AddStudent("Ann", "ann@x.com", Date(2000, 1, 1));
    assert db.students[ann].email == "ann@x.com";
    first := db.Enroll(math, "ann@x.com");
    listed := db.EnrolledCourses(ann);
    second := db.Enroll(math, "ann@x.com");
    relisted := db.EnrolledCourses(ann);
    var deleted := db.DeleteCourse(math);
    left := db.students[ann].courses;
  }
}
