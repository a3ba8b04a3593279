/**
 The course and student tables and the operations of the menu, with the
 console prompts removed: each operation takes its already-parsed
 arguments, changes the tables in one atomic step (what `SaveChanges`
 commits) and reports an outcome tag instead of printing a message.
 */
module CourseManagement {
  import opened Entities
  import opened Tables

  class Store {
    /** The course table, keyed by id. */
    var courses: map<int, Course>
    /** The student table, keyed by id; each row holds the student's course list. */
    var students: map<int, Student>
    /** The storage layer's id source for each table: the next id it hands out. */
    var nextCourseId: int
    var nextStudentId: int

    /**
     The store invariant: every row sits under its own id, ids are positive
     and below the id source, every enrolled id names a stored course, and
     no student's course list holds an id twice.
     */
    ghost predicate Valid()
      reads this
    {
      && 1 <= nextCourseId
      && 1 <= nextStudentId
      && (forall id :: id in courses ==> 1 <= id < nextCourseId && courses[id].id == id)
      && (forall id :: id in students ==>
            && 1 <= id < nextStudentId
            && students[id].id == id
            && NoDuplicates(students[id].courses)
            && (forall c :: c in students[id].courses ==> c in courses))
    }

    /** An empty store, as a freshly migrated database. */
    constructor ()
      ensures Valid()
      ensures courses == map[] && students == map[]
    {
      courses := map[];
      students := map[];
      nextCourseId := 1;
      nextStudentId := 1;
    }

    // ---------------------------------------------------------------- queries

    /** `Courses.Find(id)`: the course stored under `id`, if any. */
    function FindCourse(id: int): (r: Option<Course>)
      requires Valid()
      reads this
      ensures r.Some? <==> id in courses
      ensures r.Some? ==> r.value.id == id && courses[id] == r.value
    {
      if id in courses then Some(courses[id]) else None
    }

    /** `Students.Find(id)`: the student stored under `id`, if any. */
    function FindStudent(id: int): (r: Option<Student>)
      requires Valid()
      reads this
      ensures r.Some? <==> id in students
      ensures r.Some? ==> r.value.id == id && students[id] == r.value
    {
      if id in students then Some(students[id]) else None
    }

    /**
     The smallest id, not below `from`, of a student whose email is
     exactly `email`.
     */
    function FirstWithEmail(email: string, from: int): (r: Option<int>)
      reads this
      ensures r.Some? ==>
        && from <= r.value
        && r.value in students
        && students[r.value].email == email
        && forall k :: from <= k < r.value && k in students ==> students[k].email != email
      ensures r.None? ==>
        forall k :: from <= k < nextStudentId && k in students ==> students[k].email != email
      decreases nextStudentId - from
    {
      if from >= nextStudentId then None
      else if from in students && students[from].email == email then Some(from)
      else FirstWithEmail(email, from + 1)
    }

    /**
     `Students.FirstOrDefault(s => s.Email == email)`: the first student, in
     table order, whose email equals `email`; none only when no stored
     student has that email.
     */
    function FindStudentByEmail(email: string): (r: Option<Student>)
      requires Valid()
      reads this
      ensures r.Some? ==> r.value.email == email && r.value.id in students && students[r.value.id] == r.value
      ensures r.Some? ==> forall k :: k in students && k < r.value.id ==> students[k].email != email
      ensures r.None? <==> forall k :: k in students ==> students[k].email != email
    {
      match FirstWithEmail(email, 1)
      case Some(id) => Some(students[id])
      case None => None
    }

    /** `Courses.ToList()`: every stored course, once each, in ascending id order. */
    function ListCourses(): (r: seq<Course>)
      requires Valid()
      reads this
      ensures forall i :: 0 <= i < |r| ==> r[i].id in courses && courses[r[i].id] == r[i]
      ensures forall i, j :: 0 <= i < j < |r| ==> r[i].id < r[j].id
      ensures forall id :: id in courses ==> courses[id] in r
    {
      var r := OrderedValues(courses, 1, nextCourseId);
      ghost var ids := OrderedKeys(courses.Keys, 1, nextCourseId);
      assert forall i :: 0 <= i < |r| ==> r[i].id == ids[i];
      r
    }

    /** `Students.ToList()`: every stored student, once each, in ascending id order. */
    function ListStudents(): (r: seq<Student>)
      requires Valid()
      reads this
      ensures forall i :: 0 <= i < |r| ==> r[i].id in students && students[r[i].id] == r[i]
      ensures forall i, j :: 0 <= i < j < |r| ==> r[i].id < r[j].id
      ensures forall id :: id in students ==> students[id] in r
    {
      var r := OrderedValues(students, 1, nextStudentId);
      ghost var ids := OrderedKeys(students.Keys, 1, nextStudentId);
      assert forall i :: 0 <= i < |r| ==> r[i].id == ids[i];
      r
    }

    /**
     `Include(s => s.Courses)`: the courses of student `id`, resolved
     through the course table, in enrollment order and without repeats.
     */
    function EnrolledCourses(id: int): (r: seq<Course>)
      requires Valid() && id in students
      reads this
      ensures |r| == |students[id].courses|
      ensures forall i :: 0 <= i < |r| ==> r[i].id == students[id].courses[i] && r[i] in courses.Values
      ensures forall i, j :: 0 <= i < j < |r| ==> r[i] != r[j]
    {
      var table := courses;
      var ids := students[id].courses;
      assert forall i :: 0 <= i < |ids| ==> ids[i] in ids && ids[i] in table;
      seq(|ids|, i requires 0 <= i < |ids| && ids[i] in table => table[ids[i]])
    }

    // ---------------------------------------------------------------- courses

    /** Adds a course under an id not yet in the table. */
    method AddCourse(name: string, description: string, duration: int) returns (id: int)
      requires Valid()
      modifies this
      ensures Valid()
      ensures 1 <= id && id !in old(courses)
      ensures courses == old(courses)[id := Course(id, name, description, duration)]
      ensures FindCourse(id) == Some(Course(id, name, description, duration))
      ensures students == old(students) && nextStudentId == old(nextStudentId)
    {
      id := nextCourseId;
      courses := courses[id := Course(id, name, description, duration)];
      nextCourseId := nextCourseId + 1;
    }

    /** Overwrites name, description and duration of course `id`, if it exists. */
    method UpdateCourse(id: int, name: string, description: string, duration: int) returns (r: Status)
      requires Valid()
      modifies this
      ensures Valid()
      ensures r == Ok <==> id in old(courses)
      ensures r == Ok ==> courses == old(courses)[id := Course(id, name, description, duration)]
      ensures r == NotFound ==> unchanged(this)
      ensures students == old(students)
      ensures nextCourseId == old(nextCourseId) && nextStudentId == old(nextStudentId)
    {
      var found := FindCourse(id);
      if found.Some? {
        var course := found.value;
        course := course.(name := name);
        course := course.(description := description);
        course := course.(duration := duration);
        courses := courses[id := course];
        r := Ok;
      } else {
        r := NotFound;
      }
    }

    /**
     Removes course `id`, if it exists, from the course table and from every
     student's course list.
     */
    method DeleteCourse(id: int) returns (r: Status)
      requires Valid()
      modifies this
      ensures Valid()
      ensures r == Ok <==> id in old(courses)
      ensures r == NotFound ==> unchanged(this)
      ensures courses == old(courses) - {id}
      ensures students.Keys == old(students).Keys
      ensures forall k :: k in students ==>
        students[k] == old(students)[k].(courses := Without(old(students)[k].courses, id))
      ensures forall k :: k in students ==> id !in students[k].courses
      ensures nextCourseId == old(nextCourseId) && nextStudentId == old(nextStudentId)
    {
      var found := FindCourse(id);
      if found.Some? {
        courses := courses - {id};
        var table := students;
        students := map k | k in table :: table[k].(courses := Without(table[k].courses, id));
        r := Ok;
      } else {
        r := NotFound;
      }
    }

    // --------------------------------------------------------------- students

    /** Adds a student, enrolled in no course, under an id not yet in the table. */
    method AddStudent(name: string, email: string, birthDate: Date) returns (id: int)
      requires Valid()
      modifies this
      ensures Valid()
      ensures 1 <= id && id !in old(students)
      ensures students == old(students)[id := Student(id, name, email, birthDate, [])]
      ensures courses == old(courses) && nextCourseId == old(nextCourseId)
    {
      id := nextStudentId;
      students := students[id := Student(id, name, email, birthDate, [])];
      nextStudentId := nextStudentId + 1;
    }

    /**
     Overwrites name, email and birth date of student `id`, if it exists;
     the student's course list is kept.
     */
    method UpdateStudent(id: int, name: string, email: string, birthDate: Date) returns (r: Status)
      requires Valid()
      modifies this
      ensures Valid()
      ensures r == Ok <==> id in old(students)
      ensures r == Ok ==>
        students == old(students)[id := Student(id, name, email, birthDate, old(students)[id].courses)]
      ensures r == NotFound ==> unchanged(this)
      ensures courses == old(courses)
      ensures nextCourseId == old(nextCourseId) && nextStudentId == old(nextStudentId)
    {
      var found := FindStudent(id);
      if found.Some? {
        var student := found.value;
        student := student.(name := name);
        student := student.(email := email);
        student := student.(birthDate := birthDate);
        students := students[id := student];
        r := Ok;
      } else {
        r := NotFound;
      }
    }

    /** Removes student `id`, if it exists; the course table is untouched. */
    method DeleteStudent(id: int) returns (r: Status)
      requires Valid()
      modifies this
      ensures Valid()
      ensures r == Ok <==> id in old(students)
      ensures r == NotFound ==> unchanged(this)
      ensures students == old(students) - {id}
      ensures courses == old(courses)
      ensures nextCourseId == old(nextCourseId) && nextStudentId == old(nextStudentId)
    {
      var found := FindStudent(id);
      if found.Some? {
        students := students - {id};
        r := Ok;
      } else {
        r := NotFound;
      }
    }

    // ------------------------------------------------------------- enrollment

    /**
     Enrolls the first student whose email is `email` in course `courseId`.
     A missing student and a missing course are reported together and change
     nothing; a course already in the student's list is reported and changes
     nothing; otherwise the course id is appended to the student's list.
     */
    method Enroll(courseId: int, email: string) returns (r: EnrollStatus)
      requires Valid()
      modifies this
      ensures Valid()
      ensures r.Missing? <==> old(FindStudentByEmail(email)).None? || courseId !in old(courses)
      ensures r.Missing? ==>
        r.noStudent == old(FindStudentByEmail(email)).None? && r.noCourse == (courseId !in old(courses))
      ensures r.AlreadyEnrolled? <==>
        && old(FindStudentByEmail(email)).Some?
        && courseId in old(courses)
        && courseId in old(FindStudentByEmail(email)).value.courses
      ensures !r.Enrolled? ==> unchanged(this)
      ensures r.Enrolled? ==>
        var s := old(FindStudentByEmail(email)).value;
        students == old(students)[s.id := s.(courses := s.courses + [courseId])]
      ensures courses == old(courses)
      ensures nextCourseId == old(nextCourseId) && nextStudentId == old(nextStudentId)
    {
      var student := FindStudentByEmail(email);
      var course := FindCourse(courseId);
      if student.None? || course.None? {
        r := Missing(student.None?, course.None?);
      } else if courseId !in student.value.courses {
        var s := student.value;
        students := students[s.id := s.(courses := s.courses + [courseId])];
        r := Enrolled;
      } else {
        r := AlreadyEnrolled;
      }
    }
  }
}
