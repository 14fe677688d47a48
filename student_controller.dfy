/**
 * The student register (src/controllers/student_controller.py): validated
 * registration, the current-course pointer, deactivation and deletion by
 * identification number, and the display name of a student's course.
 */
module StudentController {
  import opened Wrappers
  import opened Text
  import opened Table
  import opened Store

  // The texts the operations below return.
  const MsgStudentRegistered: string := "Estudiante registrado correctamente."
  const MsgBadIdentificacion: string := "El número de identificación debe ser numérico y no vacío."
  const MsgEmptyNombre: string := "El nombre debe ser una cadena no vacía."
  const MsgEmptyApellido: string := "El apellido debe ser una cadena no vacía."
  const MsgRegisterError: string := "Error al registrar el estudiante."
  const MsgCourseUpdated: string := "Curso actualizado correctamente."
  const MsgCourseUpdateError: string := "Error al actualizar el curso: "
  const MsgStudentNotFound: string := "Estudiante no encontrado."
  const MsgStudentDeactivated: string := "Estudiante desactivado correctamente."
  const MsgStudentDeleted: string := "Estudiante eliminado correctamente."

  /** Some row carries the identification number `identificacion`. */
  predicate HasIdentification(t: seq<Row<Student>>, identificacion: string) {
    exists i :: 0 <= i < |t| && t[i].val.identificacion == identificacion
  }

  /** A subsequence of a table with unique identification numbers keeps them unique. */
  lemma UniqueIdentificationsOfSubset(t: seq<Row<Student>>, r: seq<Row<Student>>, next: int)
    requires UniqueIdentifications(t) && WellFormed(r, next)
    requires forall i :: 0 <= i < |r| ==> r[i] in t
    ensures UniqueIdentifications(r)
  {
    forall i, j | 0 <= i < j < |r| ensures r[i].val.identificacion != r[j].val.identificacion {
      var a :| 0 <= a < |t| && t[a] == r[i];
      var b :| 0 <= b < |t| && t[b] == r[j];
      assert a != b;
    }
  }

  /** `get_student_by_identification`: the first row with that identification number, if any. */
  function StudentByIdentification(t: seq<Row<Student>>, identificacion: string): (r: Option<Row<Student>>)
    ensures r.None? <==> !HasIdentification(t, identificacion)
    ensures r.Some? ==> r.value in t && r.value.val.identificacion == identificacion
  {
    var matches := Filter(t, (row: Row<Student>) => row.val.identificacion == identificacion);
    if matches == [] then
      FilterEmpty(t, (row: Row<Student>) => row.val.identificacion == identificacion);
      None
    else Some(matches[0])
  }

  /** Under the UNIQUE constraint the row found by identification number is the only one carrying it. */
  lemma IdentificationFindsTheRow(t: seq<Row<Student>>, i: int)
    requires UniqueIdentifications(t) && 0 <= i < |t|
    ensures StudentByIdentification(t, t[i].val.identificacion) == Some(t[i])
  {
    var r := StudentByIdentification(t, t[i].val.identificacion).value;
    var k :| 0 <= k < |t| && t[k] == r;
    assert k == i;
  }

  /** `get_student_by_id`: the row with that id, or `None`. */
  function StudentById(t: seq<Row<Student>>, studentId: int): (r: Option<Row<Student>>)
    ensures r.None? <==> !HasId(t, studentId)
    ensures r.Some? ==> r.value in t && r.value.id == studentId
  {
    Find(t, studentId)
  }

  /**
   * `register_student`: the identification number must be a non-empty string
   * of digits and the first and last names non-empty; a new active row is
   * then inserted, which the UNIQUE constraint refuses for a number already
   * registered.
   */
  method RegisterStudent(
    db: Database, identificacion: string, nombre: string, apellido: string,
    courseId: Option<int>, representante: string, telefono: string)
    returns (ok: bool, msg: string)
    requires db.Valid()
    modifies db`students, db`nextStudentId
    ensures db.Valid()
    ensures ok <==> IsDigitString(identificacion) && nombre != "" && apellido != "" &&
                    !HasIdentification(old(db.students), identificacion)
    ensures !IsDigitString(identificacion) ==>
      msg == MsgBadIdentificacion
    ensures IsDigitString(identificacion) && nombre == "" ==> msg == MsgEmptyNombre
    ensures IsDigitString(identificacion) && nombre != "" && apellido == "" ==>
      msg == MsgEmptyApellido
    ensures IsDigitString(identificacion) && nombre != "" && apellido != "" && !ok ==>
      msg == MsgRegisterError
    ensures ok ==> msg == MsgStudentRegistered
    ensures ok ==>
      db.students == old(db.students) + [Row(old(db.nextStudentId), Student(identificacion, nombre, apellido, courseId, representante, telefono, true))]
    ensures ok ==> db.nextStudentId == old(db.nextStudentId) + 1
    ensures !ok ==> unchanged(db)
  {
    if !IsDigitString(identificacion) {
      return false, MsgBadIdentificacion;
    }
    if nombre == "" {
      return false, MsgEmptyNombre;
    }
    if apellido == "" {
      return false, MsgEmptyApellido;
    }
    if HasIdentification(db.students, identificacion) {
      return false, MsgRegisterError;
    }
    var s := Student(identificacion, nombre, apellido, courseId, representante, telefono, true);
    AppendWellFormed(db.students, db.nextStudentId, s);
    db.students := db.students + [Row(db.nextStudentId, s)];
    db.nextStudentId := db.nextStudentId + 1;
    return true, MsgStudentRegistered;
  }

  /** `UPDATE estudiantes SET course_id = ? WHERE id = ?`. */
  function WithCourse(t: seq<Row<Student>>, studentId: int, courseId: Option<int>): (r: seq<Row<Student>>)
    ensures |r| == |t|
    ensures forall i :: 0 <= i < |t| ==> r[i].id == t[i].id
    ensures forall i :: 0 <= i < |t| && t[i].id == studentId ==> r[i].val == t[i].val.(courseId := courseId)
    ensures forall i :: 0 <= i < |t| && t[i].id != studentId ==> r[i] == t[i]
  {
    UpdateWhere(t, (row: Row<Student>) => row.id == studentId, (s: Student) => s.(courseId := courseId))
  }

  /**
   * `update_student_course`: only the course pointer of that student changes,
   * and an absent id is a successful update of no row. `failure` is the text
   * of the storage error the statement raises, if it raises one; the rollback
   * then leaves the table as it was.
   */
  method UpdateStudentCourse(db: Database, studentId: int, newCourseId: Option<int>, failure: Option<string>)
    returns (ok: bool, msg: string)
    requires db.Valid()
    modifies db`students
    ensures db.Valid()
    ensures ok <==> failure.None?
    ensures ok ==> msg == MsgCourseUpdated &&
                   db.students == WithCourse(old(db.students), studentId, newCourseId)
    ensures !ok ==> msg == MsgCourseUpdateError + failure.value && db.students == old(db.students)
  {
    if failure.Some? {
      return false, MsgCourseUpdateError + failure.value;
    }
    db.students := WithCourse(db.students, studentId, newCourseId);
    return true, MsgCourseUpdated;
  }

  /** `UPDATE estudiantes SET active = 0 WHERE identificacion = ?`. */
  function WithoutActive(t: seq<Row<Student>>, identificacion: string): (r: seq<Row<Student>>)
    ensures |r| == |t|
    ensures forall i :: 0 <= i < |t| ==> r[i].id == t[i].id
    ensures forall i :: 0 <= i < |t| && t[i].val.identificacion == identificacion ==>
      r[i].val == t[i].val.(active := false)
    ensures forall i :: 0 <= i < |t| && t[i].val.identificacion != identificacion ==> r[i] == t[i]
  {
    UpdateWhere(t, (row: Row<Student>) => row.val.identificacion == identificacion, (s: Student) => s.(active := false))
  }

  /** `deactivate_student`: an unknown number is refused; otherwise that student's `active` flag is cleared. */
  method DeactivateStudent(db: Database, identificacion: string) returns (ok: bool, msg: string)
    requires db.Valid()
    modifies db`students
    ensures db.Valid()
    ensures ok <==> HasIdentification(old(db.students), identificacion)
    ensures !ok ==> msg == MsgStudentNotFound && db.students == old(db.students)
    ensures ok ==> msg == MsgStudentDeactivated &&
                   db.students == WithoutActive(old(db.students), identificacion)
  {
    if StudentByIdentification(db.students, identificacion).None? {
      return false, MsgStudentNotFound;
    }
    db.students := WithoutActive(db.students, identificacion);
    return true, MsgStudentDeactivated;
  }

  /** `DELETE FROM estudiantes WHERE identificacion = ?`. */
  function WithoutStudent(t: seq<Row<Student>>, identificacion: string): (r: seq<Row<Student>>)
    ensures forall i :: 0 <= i < |r| ==> r[i] in t && r[i].val.identificacion != identificacion
    ensures forall i :: 0 <= i < |t| && t[i].val.identificacion != identificacion ==> t[i] in r
  {
    Filter(t, (row: Row<Student>) => row.val.identificacion != identificacion)
  }

  /**
   * `delete_student`: an unknown number is refused; otherwise exactly the row
   * with that number is removed (enrollments and payments of the student stay).
   */
  method DeleteStudent(db: Database, identificacion: string) returns (ok: bool, msg: string)
    requires db.Valid()
    modifies db`students
    ensures db.Valid()
    ensures ok <==> HasIdentification(old(db.students), identificacion)
    ensures !ok ==> msg == MsgStudentNotFound && db.students == old(db.students)
    ensures ok ==> msg == MsgStudentDeleted &&
                   db.students == WithoutStudent(old(db.students), identificacion)
  {
    if StudentByIdentification(db.students, identificacion).None? {
      return false, MsgStudentNotFound;
    }
    var r := WithoutStudent(db.students, identificacion);
    FilterWellFormed(db.students, db.nextStudentId, (row: Row<Student>) => row.val.identificacion != identificacion);
    UniqueIdentificationsOfSubset(db.students, r, db.nextStudentId);
    db.students := r;
    return true, MsgStudentDeleted;
  }

  /** After a deletion the number is no longer found, and every other student still is, unchanged. */
  lemma DeletedIsGone(t: seq<Row<Student>>, identificacion: string, other: string)
    requires UniqueIdentifications(t) && other != identificacion
    ensures StudentByIdentification(WithoutStudent(t, identificacion), identificacion).None?
    ensures StudentByIdentification(WithoutStudent(t, identificacion), other) == StudentByIdentification(t, other)
  {
    var r := WithoutStudent(t, identificacion);
    if HasIdentification(t, other) {
      var k :| 0 <= k < |t| && t[k].val.identificacion == other;
      IdentificationFindsTheRow(t, k);
      var s := StudentByIdentification(r, other).value;
      var a :| 0 <= a < |t| && t[a] == s;
      assert a == k;
    }
  }

  /**
   * `get_course_name`: `"N/A"` when the student has no course or the course
   * row is missing; `"name - seccion"` when the section is not blank; the bare
   * name otherwise.
   */
  function CourseName(courses: seq<Row<Course>>, courseId: Option<int>): (r: string)
    ensures courseId.None? || !HasId(courses, courseId.value) ==> r == "N/A"
    ensures courseId.Some? && HasId(courses, courseId.value) ==>
      exists i :: 0 <= i < |courses| && courses[i].id == courseId.value &&
        r == if Strip(courses[i].val.seccion) == "" then courses[i].val.name
             else courses[i].val.name + " - " + courses[i].val.seccion
  {
    if courseId.None? then "N/A"
    else match Find(courses, courseId.value)
      case None => "N/A"
      case Some(row) =>
        if Strip(row.val.seccion) != "" then row.val.name + " - " + row.val.seccion else row.val.name
  }

  /** One entry of `get_all_students`: the row with its course pointer replaced by the course's display name. */
  datatype StudentView = StudentView(
    id: int, identificacion: string, nombre: string, apellido: string, courseName: string,
    representante: string, telefono: string, active: bool)

  function View(courses: seq<Row<Course>>, row: Row<Student>): StudentView {
    StudentView(row.id, row.val.identificacion, row.val.nombre, row.val.apellido,
                CourseName(courses, row.val.courseId), row.val.representante, row.val.telefono, row.val.active)
  }

  /** `get_all_students`: one entry per row, in rowid order. */
  function AllStudents(students: seq<Row<Student>>, courses: seq<Row<Course>>): (r: seq<StudentView>)
    ensures |r| == |students|
    ensures forall i :: 0 <= i < |r| ==> r[i] == View(courses, students[i])
  {
    seq(|students|, i requires 0 <= i < |students| => View(courses, students[i]))
  }

  /** A student without a course, or whose course row is gone, is shown with the course `"N/A"`. */
  lemma MissingCourseShowsNA(students: seq<Row<Student>>, courses: seq<Row<Course>>, i: int)
    requires 0 <= i < |students|
    requires students[i].val.courseId.None? || !HasId(courses, students[i].val.courseId.value)
    ensures AllStudents(students, courses)[i].courseName == "N/A"
  {
  }
}
