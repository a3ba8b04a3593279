# Course management store, modelled in Dafny

The system is a console menu for managing courses and students on top of an
Entity Framework Core context backed by SQLite
(`ConsoleApp1/Program.cs`). It keeps a course table and a student table,
each keyed by an integer id; every student owns a list of the courses they
are enrolled in. The operator can add, list, update and delete courses and
students, and enroll a student (looked up by email) in a course (looked up
by id).

This project models that store once the console is taken away. The class
`CourseManagement.Store` holds the two tables as maps from id to record, an
id source per table, and, inside each student record, the list of enrolled
course ids. Every menu action becomes a method that takes already-parsed
arguments, performs one atomic update (what `SaveChanges` commits) and
returns an outcome tag (`Ok`/`NotFound`, or for enrollment
`Enrolled`/`AlreadyEnrolled`/`Missing(noStudent, noCourse)`) instead of
printing a message. The lookups and listings are functions.

Files:

- `entities.dfy` (module `Entities`): the `Course`, `Student` and `Date`
  records and the outcome tags.
- `tables.dfy` (module `Tables`): ordered key listing, removal of an id from
  a course list, and the no-duplicates predicate.
- `store.dfy` (module `CourseManagement`): the `Store` class, its invariant
  `Valid()`, the queries and the operations.
- `scenarios.dfy` (module `Scenarios`): callers that rely only on the
  contracts: enrolling the same pair twice, and a walk from an empty store
  through add, enroll, enroll again and delete.

`Store.Valid()` is the invariant every operation preserves: each row is
stored under its own id, ids are positive and below the table's id source,
every id in a student's course list names a stored course, and no course
list holds an id twice (lists start empty and `Enroll` only appends an id
that is not yet there).

The code does not check that a duration is positive, and a failed
`int.Parse` or `DateTime.Parse` throws an uncaught exception that ends the
program. So the model takes any `int` and any `Date` and has no validation
outcome.

The program opens an existing database file at start-up, so it may begin
with rows from earlier runs. The empty store built by the constructor is
only the first-run state; a start on an existing database is any store that
satisfies `Store.Valid()`, and every operation's contract covers that case.

## Model

| member | source | states |
|---|---|---|
| `CourseManagement.Store.constructor` | ConsoleApp1/Program.cs:38-39 | a new store is empty and satisfies the store invariant (the first-run state; any `Valid()` store stands for an existing database) |
| `CourseManagement.Store.FindCourse` | ConsoleApp1/Program.cs:133 | a course is found exactly when its id is in the table, and the found course carries the requested id |
| `CourseManagement.Store.FindStudent` | ConsoleApp1/Program.cs:239 | a student is found exactly when its id is in the table, and the found student carries the requested id |
| `CourseManagement.Store.FirstWithEmail` | ConsoleApp1/Program.cs:291 | the id returned is the smallest id from the starting point on whose student has exactly that email; none means no such student in the range |
| `CourseManagement.Store.FindStudentByEmail` | ConsoleApp1/Program.cs:291 | a returned student is stored and has exactly the given email, no student with a smaller id has it, and nothing is returned exactly when no stored student has that email |
| `Tables.OrderedValues` | ConsoleApp1/Program.cs:110 | the rows of a table within a key range, each at the position of its key in ascending key order, and every row in the range is listed |
| `CourseManagement.Store.ListCourses` | ConsoleApp1/Program.cs:110 | the listing holds every stored course, only stored courses, in strictly ascending id order |
| `CourseManagement.Store.ListStudents` | ConsoleApp1/Program.cs:201 | the listing holds every stored student, only stored students, in strictly ascending id order |
| `CourseManagement.Store.EnrolledCourses` | ConsoleApp1/Program.cs:209-216 | a student's courses resolve to stored courses whose ids are the student's list, in that order, with no course twice |
| `CourseManagement.Store.AddCourse` | ConsoleApp1/Program.cs:93-105 | exactly one course is added, under an id not previously in the table, carrying the given name, description and duration; the student table is unchanged and the invariant holds |
| `CourseManagement.Store.UpdateCourse` | ConsoleApp1/Program.cs:126-152 | on an existing id the course's name, description and duration are overwritten and no other row changes; on a missing id NotFound is reported and nothing changes |
| `CourseManagement.Store.DeleteCourse` | ConsoleApp1/Program.cs:154-174 | on an existing id the course leaves the table and every student's course list, the rest of each list keeping its order; on a missing id NotFound is reported and nothing changes |
| `CourseManagement.Store.AddStudent` | ConsoleApp1/Program.cs:184-196 | exactly one student is added, under an id not previously in the table, with the given name, email and birth date and an empty course list; the course table is unchanged |
| `CourseManagement.Store.UpdateStudent` | ConsoleApp1/Program.cs:232-258 | on an existing id the student's name, email and birth date are overwritten, the course list kept, and no other row changes; on a missing id NotFound is reported and nothing changes |
| `CourseManagement.Store.DeleteStudent` | ConsoleApp1/Program.cs:260-280 | on an existing id exactly that student is removed and the course table is unchanged; on a missing id NotFound is reported and nothing changes |
| `CourseManagement.Store.Enroll` | ConsoleApp1/Program.cs:282-318 | a missing student and a missing course are reported independently (both in one call) and change nothing; a course already in the student's list gives AlreadyEnrolled and changes nothing; otherwise that student's list becomes the old list followed by the course and nothing else changes; the no-duplicates invariant is kept |
| `Tables.OrderedKeys` | ConsoleApp1/Program.cs:110 | the ids of a table within a range, each once, in strictly ascending order, and every id of the table in the range is among them |
| `Tables.Without` | ConsoleApp1/Program.cs:165 | removing a course id from a list leaves exactly the other ids, keeps a duplicate-free list duplicate-free, and leaves a list without that id as it was |
| `Scenarios.EnrollTwice` | ConsoleApp1/Program.cs:304-315 | enrolling the same pair twice changes the store at most once: the second call never enrolls, and reports AlreadyEnrolled after a successful first call |
| `Scenarios.Walkthrough` | ConsoleApp1/Program.cs:282-318 | from an empty store: add course Math and student Ann, enroll her (Enrolled, her courses are [Math]), enroll again (AlreadyEnrolled, her courses still [Math]), delete Math (her list is empty) |

## Left out

- The menu loop, the prompts, `Console.Clear`/`WriteLine`/`ReadLine` and `BackToMainMenu` (lines 36-83, 319-323): console I/O only; every operation reports an outcome tag instead.
- Display formatting of the listings (lines 114-116, 205-222): the listings are returned as sequences of records.
- `int.Parse` and `DateTime.Parse`: their failures throw exceptions that end the program; the model takes already-parsed values, and a birth date is an unchecked (year, month, day) triple.
- EF Core and SQLite (`AppDbContext`, `UseSqlite`, `Database.Migrate`, `SaveChanges`, change tracking): each operation is one atomic update of the in-memory tables; persistence and crash behaviour are not modelled.
- Id assignment by SQLite is modelled as a per-table counter inside the store. The add operations promise only that a new id is positive and not in the table at the time of the insert, so the model claims nothing about whether ids are ever reused; the code does not show how SQLite picks them.
- The relationship mapping chosen by EF Core conventions (only `Student` has a collection navigation, which EF maps as one-to-many): the model keeps one independent course list per student, so it does not model a course moving from one student's list to another's, and states nothing about the relation across students.
- Foreign-key side effects of deleting a student on the course table: they depend on EF conventions not visible in the code; `DeleteStudent` leaves the course table as it was.
- `CourseManagement.Store.FindStudentByEmail`: `FirstOrDefault` has no `OrderBy` in the code; the model fixes "first" as the smallest id, the order in which SQLite returns the rows.
- 32-bit integer range of ids and durations: no arithmetic is done on durations, and ids are unbounded in the model.
- Concurrency: the program is single-threaded.
