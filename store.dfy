/**
 * The application's SQLite database (src/models/database.py) as one object
 * whose fields are its tables. Each table is a sequence of rows in rowid order
 * together with its AUTOINCREMENT counter; the two UNIQUE constraints of the
 * schema are part of the object invariant. The controllers each open one
 * commit-or-rollback unit per call (src/utils/db_utils.py), so a method that
 * fails leaves its table as it was, while earlier calls stay committed.
 */
module Store {
  import opened Wrappers
  import opened Table

  /** Amounts and fees are Python floats; the modelled logic only stores and returns them. */
  type Money = real

  /** A `courses` row: a grade name, a section ("" when none) and the `active` flag. */
  datatype Course = Course(name: string, seccion: string, active: bool)

  /** An `estudiantes` row; `courseId` is the student's current-course pointer (NULL allowed). */
  datatype Student = Student(
    identificacion: string, nombre: string, apellido: string, courseId: Option<int>,
    representante: string, telefono: string, active: bool)

  /** An `enrollments` row: one student in one course for one academic year. */
  datatype Enrollment = Enrollment(
    studentId: int, courseId: Option<int>, academicYear: int, status: string, dateEnrolled: string)

  /** A `payments` row; the receipt number is filled in after the insert. */
  datatype Payment = Payment(
    studentId: int, enrollmentId: Option<int>, amount: Money, description: string,
    paymentDate: string, receiptNumber: Option<string>)

  /** A `course_fees` row: the monthly fee of a course in an academic year. */
  datatype CourseFee = CourseFee(courseId: int, academicYear: int, fee: Money)

  /** `UNIQUE(name, seccion)` on `courses`. */
  ghost predicate UniqueCourses(t: seq<Row<Course>>) {
    forall i, j :: 0 <= i < j < |t| ==>
      t[i].val.name != t[j].val.name || t[i].val.seccion != t[j].val.seccion
  }

  /** `identificacion TEXT UNIQUE` on `estudiantes`. */
  ghost predicate UniqueIdentifications(t: seq<Row<Student>>) {
    forall i, j :: 0 <= i < j < |t| ==> t[i].val.identificacion != t[j].val.identificacion
  }

  class Database {
    var courses: seq<Row<Course>>
    var nextCourseId: int
    var students: seq<Row<Student>>
    var nextStudentId: int
    var enrollments: seq<Row<Enrollment>>
    var nextEnrollmentId: int
    var payments: seq<Row<Payment>>
    var nextPaymentId: int
    /** `None` while the `course_fees` table does not exist. */
    var courseFees: Option<seq<Row<CourseFee>>>
    var nextFeeId: int
    /** The `config` table: `key TEXT PRIMARY KEY`, `value TEXT`. */
    var config: map<string, string>

    ghost predicate Valid()
      reads this
    {
      WellFormed(courses, nextCourseId) && UniqueCourses(courses) &&
      WellFormed(students, nextStudentId) && UniqueIdentifications(students) &&
      WellFormed(enrollments, nextEnrollmentId) &&
      WellFormed(payments, nextPaymentId) &&
      (courseFees.Some? ==> WellFormed(courseFees.value, nextFeeId))
    }

    /** `create_tables` as written: every table the application uses except `course_fees`. */
    constructor CreateTables()
      ensures Valid()
      ensures courses == [] && students == [] && enrollments == [] && payments == []
      ensures config == map[]
      ensures courseFees.None?
    {
      courses, students, enrollments, payments := [], [], [], [];
      nextCourseId, nextStudentId, nextEnrollmentId, nextPaymentId, nextFeeId := 1, 1, 1, 1, 1;
      courseFees := None;
      config := map[];
    }

    /** The schema the fee controller expects: the same tables plus an empty `course_fees`. */
    constructor CreateTablesWithFees()
      ensures Valid()
      ensures courses == [] && students == [] && enrollments == [] && payments == []
      ensures config == map[]
      ensures courseFees == Some([])
    {
      courses, students, enrollments, payments := [], [], [], [];
      nextCourseId, nextStudentId, nextEnrollmentId, nextPaymentId, nextFeeId := 1, 1, 1, 1, 1;
      courseFees := Some([]);
      config := map[];
    }
  }
}
