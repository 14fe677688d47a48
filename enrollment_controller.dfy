/**
 * Enrollments and promotion (src/controllers/enrollment_controller.py).
 * Every controller call runs in its own commit-or-rollback unit, so
 * `promote_student`, which calls two of them in turn, is not atomic: the
 * student's new course stays committed when the enrollment insert after it
 * fails. `promote_student` never touches the status of the enrollment it
 * promotes from.
 */
module EnrollmentController {
  import opened Wrappers
  import opened Table
  import opened Store
  import opened Timestamp
  import opened Progression
  import opened CourseController
  import opened StudentController

  // The texts the operations below return.
  const StatusEnrolled: string := "inscrito"
  const MsgStatusUpdated: string := "Estado actualizado correctamente."
  const MsgEmptyStatus: string := "El estado debe ser una cadena no vacía."
  const MsgStatusUpdateError: string := "Error al actualizar el estado: "
  const MsgEnrollmentCreated: string := "Inscripción creada correctamente."
  const MsgBadAcademicYear: string := "El año académico debe ser un número entero positivo."
  const MsgCreateEnrollmentError: string := "Error al crear inscripción: "
  const MsgEnrollmentNotFound: string := "Inscripción no encontrada."
  const MsgCurrentCourseNotFound: string := "Curso actual no encontrado."
  const MsgAlreadyLast: string := "El estudiante ya está en el último curso."
  const MsgNoCoursesForGrade: string := "No hay cursos disponibles para el grado "
  const MsgPromoted: string := "Estudiante promovido y nueva inscripción creada."

  /** `get_enrollment_by_id`: the row with that id, or `None`. */
  function EnrollmentById(t: seq<Row<Enrollment>>, enrollmentId: int): (r: Option<Row<Enrollment>>)
    ensures r.None? <==> !HasId(t, enrollmentId)
    ensures r.Some? ==> r.value in t && r.value.id == enrollmentId
  {
    Find(t, enrollmentId)
  }

  /** `UPDATE enrollments SET status = ? WHERE id = ?`. */
  function WithStatus(t: seq<Row<Enrollment>>, enrollmentId: int, status: string): (r: seq<Row<Enrollment>>)
    ensures |r| == |t|
    ensures forall i :: 0 <= i < |t| ==> r[i].id == t[i].id
    ensures forall i :: 0 <= i < |t| && t[i].id == enrollmentId ==> r[i].val == t[i].val.(status := status)
    ensures forall i :: 0 <= i < |t| && t[i].id != enrollmentId ==> r[i] == t[i]
  {
    UpdateWhere(t, (row: Row<Enrollment>) => row.id == enrollmentId, (e: Enrollment) => e.(status := status))
  }

  /**
   * `update_enrollment_status`: an empty status is refused; otherwise only
   * that row's status changes, and an absent id is a successful update of no
   * row. `failure` is the text of the storage error, if the statement raises one.
   */
  method UpdateEnrollmentStatus(db: Database, enrollmentId: int, status: string, failure: Option<string>)
    returns (ok: bool, msg: string)
    requires db.Valid()
    modifies db`enrollments
    ensures db.Valid()
    ensures ok <==> status != "" && failure.None?
    ensures status == "" ==> msg == MsgEmptyStatus
    ensures status != "" && failure.Some? ==> msg == MsgStatusUpdateError + failure.value
    ensures ok ==> msg == MsgStatusUpdated &&
                   db.enrollments == WithStatus(old(db.enrollments), enrollmentId, status)
    ensures !ok ==> db.enrollments == old(db.enrollments)
  {
    if status == "" {
      return false, MsgEmptyStatus;
    }
    if failure.Some? {
      return false, MsgStatusUpdateError + failure.value;
    }
    db.enrollments := WithStatus(db.enrollments, enrollmentId, status);
    return true, MsgStatusUpdated;
  }

  /**
   * `create_enrollment`: a negative year is refused; otherwise one row with
   * the given student, course, year and status, dated `now`, is inserted and
   * its fresh id returned. `failure` is the text of the storage error, if the
   * insert raises one.
   */
  method CreateEnrollment(
    db: Database, studentId: int, courseId: Option<int>, academicYear: int, status: string,
    now: DateTime, failure: Option<string>)
    returns (ok: bool, msg: string, newId: Option<int>)
    requires db.Valid() && Valid(now)
    modifies db`enrollments, db`nextEnrollmentId
    ensures db.Valid()
    ensures ok <==> academicYear >= 0 && failure.None?
    ensures ok <==> newId.Some?
    ensures academicYear < 0 ==> msg == MsgBadAcademicYear
    ensures academicYear >= 0 && failure.Some? ==> msg == MsgCreateEnrollmentError + failure.value
    ensures ok ==> msg == MsgEnrollmentCreated && newId == Some(old(db.nextEnrollmentId))
    ensures ok ==>
      db.enrollments == old(db.enrollments) + [Row(newId.value, Enrollment(studentId, courseId, academicYear, status, Format(now)))]
    ensures ok ==> db.nextEnrollmentId == old(db.nextEnrollmentId) + 1
    ensures !ok ==> unchanged(db)
  {
    if academicYear < 0 {
      return false, MsgBadAcademicYear, None;
    }
    if failure.Some? {
      return false, MsgCreateEnrollmentError + failure.value, None;
    }
    var e := Enrollment(studentId, courseId, academicYear, status, Format(now));
    AppendWellFormed(db.enrollments, db.nextEnrollmentId, e);
    newId := Some(db.nextEnrollmentId);
    db.enrollments := db.enrollments + [Row(db.nextEnrollmentId, e)];
    db.nextEnrollmentId := db.nextEnrollmentId + 1;
    return true, MsgEnrollmentCreated, newId;
  }

  /** What `promote_student` decides from the tables before it writes anything. */
  datatype PromotionPlan =
    | NoEnrollment
    | NoCurrentCourse
    | AlreadyLast
    | NoCourseFor(grade: string)
    | MoveTo(studentId: int, courseId: int, year: int)

  /**
   * The look-ups of `promote_student`: the enrollment, its course, the next
   * grade by name, and the first of the active courses named exactly that
   * grade, which is the one with the lowest section.
   */
  function PlanPromotion(enrollments: seq<Row<Enrollment>>, courses: seq<Row<Course>>, enrollmentId: int)
    : (p: PromotionPlan)
    ensures p.NoEnrollment? <==> !HasId(enrollments, enrollmentId)
  {
    match EnrollmentById(enrollments, enrollmentId)
    case None => NoEnrollment
    case Some(e) =>
      if e.val.courseId.None? then NoCurrentCourse
      else match CourseById(courses, e.val.courseId.value)
        case None => NoCurrentCourse
        case Some(c) =>
          var next := GetNextCourse(c.val.name);
          if next == c.val.name then AlreadyLast
          else
            var candidates := CoursesByGrade(courses, next);
            if candidates == [] then NoCourseFor(next)
            else MoveTo(e.val.studentId, candidates[0].id, e.val.academicYear + 1)
  }

  /** The message `promote_student` returns when the look-ups stop it. */
  function PlanMessage(p: PromotionPlan): string
    requires !p.MoveTo?
  {
    match p
    case NoEnrollment => MsgEnrollmentNotFound
    case NoCurrentCourse => MsgCurrentCourseNotFound
    case AlreadyLast => MsgAlreadyLast
    case NoCourseFor(g) => MsgNoCoursesForGrade + g + "."
  }

  /**
   * `promote_student` as written. When the look-ups succeed it points the
   * student at the destination course (one committed call) and then inserts
   * the `year + 1` enrollment with status `"inscrito"` (a second one).
   * `updateFailure` and `insertFailure` are the storage errors of the two
   * writes, if they raise one.
   */
  method PromoteStudent(
    db: Database, enrollmentId: int, now: DateTime,
    updateFailure: Option<string>, insertFailure: Option<string>)
    returns (ok: bool, msg: string)
    requires db.Valid() && Valid(now)
    modifies db`students, db`enrollments, db`nextEnrollmentId
    ensures db.Valid()
    ensures var p := PlanPromotion(old(db.enrollments), old(db.courses), enrollmentId);
      && (!p.MoveTo? ==> !ok && msg == PlanMessage(p) && unchanged(db))
      && (p.MoveTo? && updateFailure.Some? ==>
            !ok && msg == MsgCourseUpdateError + updateFailure.value && unchanged(db))
      && (p.MoveTo? && updateFailure.None? ==>
            db.students == WithCourse(old(db.students), p.studentId, Some(p.courseId)))
      && (p.MoveTo? && updateFailure.None? && (p.year < 0 || insertFailure.Some?) ==>
            !ok && db.enrollments == old(db.enrollments) && db.nextEnrollmentId == old(db.nextEnrollmentId))
      && (p.MoveTo? && updateFailure.None? && p.year < 0 ==>
            msg == MsgBadAcademicYear)
      && (p.MoveTo? && updateFailure.None? && p.year >= 0 && insertFailure.Some? ==>
            msg == MsgCreateEnrollmentError + insertFailure.value)
      && (ok <==> p.MoveTo? && updateFailure.None? && p.year >= 0 && insertFailure.None?)
      && (ok ==> msg == MsgPromoted &&
                 db.enrollments == old(db.enrollments) +
                   [Row(old(db.nextEnrollmentId), Enrollment(p.studentId, Some(p.courseId), p.year, StatusEnrolled, Format(now)))] &&
                 db.nextEnrollmentId == old(db.nextEnrollmentId) + 1)
  {
    var p := PlanPromotion(db.enrollments, db.courses, enrollmentId);
    if !p.MoveTo? {
      return false, PlanMessage(p);
    }
    var updated, updateMsg := UpdateStudentCourse(db, p.studentId, Some(p.courseId), updateFailure);
    if !updated {
      return false, updateMsg;
    }
    var created, createMsg, _ := CreateEnrollment(db, p.studentId, Some(p.courseId), p.year, StatusEnrolled, now, insertFailure);
    if created {
      return true, MsgPromoted;
    }
    return false, createMsg;
  }

  /**
   * A planned promotion moves the enrolled student one grade up, for the
   * following academic year: to the active course named the successor of
   * the current course's name whose section comes first. Under
   * `UNIQUE(name, seccion)` that course is the only one with that section.
   */
  lemma PlanMovesOneGradeUp(enrollments: seq<Row<Enrollment>>, courses: seq<Row<Course>>, enrollmentId: int)
    requires PlanPromotion(enrollments, courses, enrollmentId).MoveTo?
    ensures var p := PlanPromotion(enrollments, courses, enrollmentId);
      var e := EnrollmentById(enrollments, enrollmentId).value.val;
      var current := CourseById(courses, e.courseId.value).value.val;
      var next := GetNextCourse(current.name);
      && p.studentId == e.studentId && p.year == e.academicYear + 1
      && next != current.name
      && exists k :: 0 <= k < |courses| && courses[k].id == p.courseId && courses[k].val.active
           && courses[k].val.name == next
           && forall i :: 0 <= i < |courses| && courses[i].val.active && courses[i].val.name == next ==>
                Text.TextLe(courses[k].val.seccion, courses[i].val.seccion) &&
                (UniqueCourses(courses) && i != k ==> courses[k].val.seccion != courses[i].val.seccion)
  {
    var e := EnrollmentById(enrollments, enrollmentId).value.val;
    var current := CourseById(courses, e.courseId.value).value.val;
    var next := GetNextCourse(current.name);
    FirstOfGrade(courses, next);
    var c := CoursesByGrade(courses, next)[0];
    var k :| 0 <= k < |courses| && courses[k] == c;
  }

  /** A student in the final grade is never promoted: `once` is its own successor. */
  lemma FinalGradeIsNotPromoted(enrollments: seq<Row<Enrollment>>, courses: seq<Row<Course>>, enrollmentId: int)
    requires EnrollmentById(enrollments, enrollmentId).Some?
    requires var e := EnrollmentById(enrollments, enrollmentId).value.val;
      e.courseId.Some? && CourseById(courses, e.courseId.value).Some? &&
      CourseById(courses, e.courseId.value).value.val.name == FinalGrade
    ensures PlanPromotion(enrollments, courses, enrollmentId) == AlreadyLast
  {
    FixedPointIff(FinalGrade);
  }

  /**
   * A course name that is not a grade label (an accented `Transición`, or a
   * name with the section written into it) is reported as the last grade.
   */
  lemma UnknownGradeLooksFinal(enrollments: seq<Row<Enrollment>>, courses: seq<Row<Course>>, enrollmentId: int)
    requires EnrollmentById(enrollments, enrollmentId).Some?
    requires var e := EnrollmentById(enrollments, enrollmentId).value.val;
      e.courseId.Some? && CourseById(courses, e.courseId.value).Some? &&
      Text.ToLower(CourseById(courses, e.courseId.value).value.val.name) !in Grades
    ensures PlanPromotion(enrollments, courses, enrollmentId) == AlreadyLast
  {
  }

  /** Descending academic year: the order of `ORDER BY academic_year DESC`. */
  predicate YearDesc(a: Row<Enrollment>, b: Row<Enrollment>) {
    a.val.academicYear >= b.val.academicYear
  }

  lemma YearDescIsTotalPreorder()
    ensures TotalPreorder(YearDesc)
  {
  }

  /** `get_all_enrollments`: every row, latest academic year first. */
  function AllEnrollments(t: seq<Row<Enrollment>>): (r: seq<Row<Enrollment>>)
    ensures multiset(r) == multiset(t)
    ensures forall i :: 0 <= i < |t| ==> t[i] in r
    ensures forall i, j :: 0 <= i < j < |r| ==> r[i].val.academicYear >= r[j].val.academicYear
  {
    YearDescIsTotalPreorder();
    SortBySorted(t, YearDesc);
    var r := SortBy(t, YearDesc);
    assert forall i :: 0 <= i < |t| ==> t[i] in multiset(r);
    r
  }

  /** The rows `WHERE student_id = ?` selects, in rowid order. */
  function EnrollmentsOf(t: seq<Row<Enrollment>>, studentId: int): seq<Row<Enrollment>> {
    Filter(t, (row: Row<Enrollment>) => row.val.studentId == studentId)
  }

  /** `get_enrollment_history`: exactly the rows of that student, each once, latest academic year first. */
  function EnrollmentHistory(t: seq<Row<Enrollment>>, studentId: int): (r: seq<Row<Enrollment>>)
    ensures forall i :: 0 <= i < |r| ==> r[i] in t && r[i].val.studentId == studentId
    ensures forall i :: 0 <= i < |t| && t[i].val.studentId == studentId ==> t[i] in r
    ensures multiset(r) == multiset(EnrollmentsOf(t, studentId))
    ensures forall i, j :: 0 <= i < j < |r| ==> r[i].val.academicYear >= r[j].val.academicYear
  {
    var mine := EnrollmentsOf(t, studentId);
    var r := SortBy(mine, YearDesc);
    YearDescIsTotalPreorder();
    SortBySorted(mine, YearDesc);
    SortByMembers(mine, YearDesc);
    assert forall i :: 0 <= i < |r| ==> r[i] in t && r[i].val.studentId == studentId by {
      forall i | 0 <= i < |r| ensures r[i] in t && r[i].val.studentId == studentId {
        assert r[i] in mine;
        var k :| 0 <= k < |mine| && mine[k] == r[i];
      }
    }
    r
  }

  /**
   * After a successful promotion the student's history holds the new
   * enrollment, in the promoted course for the following year, and it still
   * holds every earlier enrollment, the promoted one with its status as it was.
   */
  lemma PromotionExtendsHistory(
    t: seq<Row<Enrollment>>, next: int, studentId: int, courseId: int, year: int, date: string)
    requires WellFormed(t, next)
    ensures var t' := t + [Row(next, Enrollment(studentId, Some(courseId), year, StatusEnrolled, date))];
      && Row(next, Enrollment(studentId, Some(courseId), year, StatusEnrolled, date)) in EnrollmentHistory(t', studentId)
      && forall i :: 0 <= i < |t| && t[i].val.studentId == studentId ==> t[i] in EnrollmentHistory(t', studentId)
  {
    var row := Row(next, Enrollment(studentId, Some(courseId), year, StatusEnrolled, date));
    var t' := t + [row];
    assert t'[|t|] == row;
    forall i | 0 <= i < |t| && t[i].val.studentId == studentId
      ensures t[i] in EnrollmentHistory(t', studentId)
    {
      assert t'[i] == t[i];
    }
  }
}
