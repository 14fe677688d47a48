/**
 * The enrollment screen's own logic (src/views/enrollment_management_ui.py):
 * the current-year listing and `process_enrollment`, which first commits
 * the chosen status and then, for `promovido`, promotes by matching course
 * names on the grade text before the first `-`. Unlike `promote_student`
 * it has no final-grade check. The widgets themselves are not modelled;
 * each message box the procedure ends in is its result.
 */
module EnrollmentManagement {
  import opened Wrappers
  import opened Text
  import opened Table
  import opened Store
  import opened Timestamp
  import opened Progression
  import opened CourseController
  import opened StudentController
  import opened EnrollmentController

  // The texts the operations below return.
  const StatusPromoted: string := "promovido"
  const MsgEnrollmentUpdated: string := "Inscripción actualizada."
  const MsgNoCurrentEnrollment: string := "No se pudo obtener la inscripción actual."
  const MsgNoCourseData: string := "No se pudieron obtener los datos del curso actual."
  const MsgNoNextCourse: string := "No se encontró el curso siguiente en la lista de cursos activos."
  const MsgStudentMoveError: string := "No se pudo actualizar el curso del estudiante: "
  const MsgNewEnrollmentError: string := "No se pudo crear la nueva inscripción: "
  const MsgPromotedNextYear: string := "Estudiante promovido y nueva inscripción creada para el siguiente año académico."

  /** The message box `process_enrollment` ends with. */
  datatype Notice = Info(text: string) | Warning(text: string) | Error(text: string)

  /** `load_enrollments`: the rows of the current academic year, in the order they were listed. */
  function CurrentYearEnrollments(all: seq<Row<Enrollment>>, currentYear: int): (r: seq<Row<Enrollment>>)
    ensures forall i :: 0 <= i < |r| ==> r[i] in all && r[i].val.academicYear == currentYear
    ensures forall i :: 0 <= i < |all| && all[i].val.academicYear == currentYear ==> all[i] in r
  {
    Filter(all, (row: Row<Enrollment>) => row.val.academicYear == currentYear)
  }

  /** `extract_grade`: the text before the first `-`, stripped and lower-cased. */
  function ExtractGrade(fullCourseName: string): string {
    ToLower(Strip(BeforeFirst(fullCourseName, '-')))
  }

  /** The section written after a `-` is ignored. */
  lemma ExtractGradeIgnoresSection(grade: string, rest: string)
    requires '-' !in grade
    ensures ExtractGrade(grade + "-" + rest) == ExtractGrade(grade)
  {
    BeforeFirstOfJoin(grade, '-', rest);
    BeforeFirstAbsent(grade, '-');
    assert grade + "-" + rest == grade + ['-'] + rest;
  }

  /** Lower-case text without `-` and without surrounding blanks extracts to itself. */
  lemma ExtractGradeOfPlain(g: string)
    requires '-' !in g && IsStripped(g) && IsLowered(g)
    ensures ExtractGrade(g) == g
  {
    BeforeFirstAbsent(g, '-');
    StrippedIsFixed(g);
    LoweredIsFixed(g);
  }

  /** Every grade label but `pre-jardin` is plain: lower case, no `-`, no surrounding blanks. */
  lemma PlainLabel(k: nat)
    requires 1 <= k < |Grades|
    ensures '-' !in Grades[k] && IsStripped(Grades[k]) && IsLowered(Grades[k])
  {
    GradesAreLowered();
  }

  /** Every grade a course can be promoted to (all but `pre-jardin`) extracts to itself. */
  lemma ExtractGradeOfLabel(k: nat)
    requires 1 <= k < |Grades|
    ensures ExtractGrade(Grades[k]) == Grades[k]
  {
    PlainLabel(k);
    ExtractGradeOfPlain(Grades[k]);
  }

  /** The course's extracted grade is `grade`: the test of the destination search. */
  predicate OfGrade(course: Row<Course>, grade: string) {
    ExtractGrade(course.val.name) == grade
  }

  /** The test of the destination search, as a function of the course. */
  function HasGrade(grade: string): Row<Course> -> bool {
    (c: Row<Course>) => OfGrade(c, grade)
  }

  /** Position of the first course whose extracted grade is `grade`, or `None`. */
  function FirstWithGrade(courses: seq<Row<Course>>, grade: string): (r: Option<nat>)
    ensures r.Some? ==> r.value < |courses| && OfGrade(courses[r.value], grade)
    ensures r.Some? ==> forall i :: 0 <= i < r.value ==> !OfGrade(courses[i], grade)
    ensures r.None? ==> forall i :: 0 <= i < |courses| ==> !OfGrade(courses[i], grade)
  {
    FirstWhere(courses, HasGrade(grade))
  }

  /** The `for course in active_courses: ... break` search of the destination course. */
  method FindNextCourse(activeCourses: seq<Row<Course>>, grade: string) returns (nextCourseId: Option<int>)
    ensures nextCourseId.None? <==> FirstWithGrade(activeCourses, grade).None?
    ensures nextCourseId.Some? ==> nextCourseId.value == activeCourses[FirstWithGrade(activeCourses, grade).value].id
  {
    var k := FindFirst(activeCourses, HasGrade(grade));
    if k.Some? {
      return Some(activeCourses[k.value].id);
    }
    return None;
  }

  /** The `for enr in all_enrollments: ... break` search of the selected enrollment. */
  method FindEnrollment(all: seq<Row<Enrollment>>, enrollmentId: int) returns (found: Option<Row<Enrollment>>)
    ensures found.Some? ==> found.value in all && found.value.id == enrollmentId
    ensures found.None? ==> forall i :: 0 <= i < |all| ==> all[i].id != enrollmentId
  {
    var i := 0;
    while i < |all|
      invariant 0 <= i <= |all|
      invariant forall j :: 0 <= j < i ==> all[j].id != enrollmentId
    {
      if all[i].id == enrollmentId {
        return Some(all[i]);
      }
      i := i + 1;
    }
    return None;
  }

  /** What the promotion branch of `process_enrollment` decides from the tables. */
  datatype GuiPlan = NoEnrollmentFound | NoCourseData | NoDestination | Destination(courseId: int, year: int)

  /**
   * The look-ups of the promotion branch: the selected enrollment, then the
   * destination of its course for the following year.
   */
  function PlanGuiPromotion(enrollments: seq<Row<Enrollment>>, courses: seq<Row<Course>>, enrollmentId: int)
    : (p: GuiPlan)
    ensures p.NoEnrollmentFound? <==> !HasId(enrollments, enrollmentId)
  {
    match EnrollmentById(enrollments, enrollmentId)
    case None => NoEnrollmentFound
    case Some(e) => DestinationFor(courses, e.val.courseId, e.val.academicYear)
  }

  /**
   * The course with id `courseId`, the successor of its stripped, lower-cased
   * name, and the first active course whose extracted grade is that successor,
   * for the year after `year`.
   */
  function DestinationFor(courses: seq<Row<Course>>, courseId: Option<int>, year: int): (p: GuiPlan)
    ensures !p.NoEnrollmentFound?
  {
    if courseId.None? then NoCourseData
    else match CourseById(courses, courseId.value)
      case None => NoCourseData
      case Some(c) =>
        var active := ActiveCourses(courses);
        match FirstWithGrade(active, ToLower(GetNextCourse(ToLower(Strip(c.val.name)))))
        case None => NoDestination
        case Some(k) => Destination(active[k].id, year + 1)
  }

  function PlanNotice(p: GuiPlan): Notice
    requires !p.Destination?
  {
    match p
    case NoEnrollmentFound => Warning(MsgNoCurrentEnrollment)
    case NoCourseData => Warning(MsgNoCourseData)
    case NoDestination => Warning(MsgNoNextCourse)
  }

  /** Changing a status leaves what the promotion looks up, course and year, as it was. */
  lemma StatusChangeKeepsPlan(
    enrollments: seq<Row<Enrollment>>, next: int, courses: seq<Row<Course>>, enrollmentId: int, status: string)
    requires WellFormed(enrollments, next)
    ensures PlanGuiPromotion(WithStatus(enrollments, enrollmentId, status), courses, enrollmentId) ==
            PlanGuiPromotion(enrollments, courses, enrollmentId)
  {
    var u := WithStatus(enrollments, enrollmentId, status);
    UpdateWellFormed(enrollments, next, (row: Row<Enrollment>) => row.id == enrollmentId,
                     (e: Enrollment) => e.(status := status));
    if HasId(enrollments, enrollmentId) {
      var k :| 0 <= k < |enrollments| && enrollments[k].id == enrollmentId;
      FindUnique(enrollments, next, k);
      FindUnique(u, next, k);
      var e, e' := EnrollmentById(enrollments, enrollmentId).value, EnrollmentById(u, enrollmentId).value;
      assert e'.val.courseId == e.val.courseId && e'.val.academicYear == e.val.academicYear;
    } else {
      assert !HasId(u, enrollmentId);
    }
  }

  /** The look-ups of the promotion branch, in the order the screen makes them. */
  method LookUpDestination(db: Database, enrollmentId: int) returns (p: GuiPlan)
    requires db.Valid()
    ensures p == PlanGuiPromotion(db.enrollments, db.courses, enrollmentId)
  {
    var current := FindEnrollment(AllEnrollments(db.enrollments), enrollmentId);
    if current.None? {
      return NoEnrollmentFound;
    }
    var e := current.value;
    assert e in multiset(db.enrollments);
    assert EnrollmentById(db.enrollments, enrollmentId) == Some(e) by {
      var k :| 0 <= k < |db.enrollments| && db.enrollments[k] == e;
      FindUnique(db.enrollments, db.nextEnrollmentId, k);
    }
    p := FindDestination(db.courses, e.val.courseId, e.val.academicYear);
  }

  /** The course look-up and the `for course in active_courses` search. */
  method FindDestination(courses: seq<Row<Course>>, courseId: Option<int>, year: int) returns (p: GuiPlan)
    ensures p == DestinationFor(courses, courseId, year)
  {
    if courseId.None? {
      return NoCourseData;
    }
    var course := CourseById(courses, courseId.value);
    if course.None? {
      return NoCourseData;
    }
    var nextCourseName := GetNextCourse(ToLower(Strip(course.value.val.name)));
    var active := ActiveCourses(courses);
    var nextCourseId := FindNextCourse(active, ToLower(nextCourseName));
    if nextCourseId.None? {
      return NoDestination;
    }
    return Destination(nextCourseId.value, year + 1);
  }

  /**
   * The writes of the promotion branch: the student is pointed at the
   * destination course, then a `year` enrollment with status `"inscrito"` is
   * created; each write is a call of its own and a failure stops the rest.
   */
  method MoveAndReenroll(
    db: Database, studentId: int, courseId: int, year: int, now: DateTime,
    updateFailure: Option<string>, insertFailure: Option<string>)
    returns (notice: Notice)
    requires db.Valid() && Valid(now)
    modifies db`students, db`enrollments, db`nextEnrollmentId
    ensures db.Valid()
    ensures updateFailure.Some? ==>
      notice == Error(MsgStudentMoveError + (MsgCourseUpdateError + updateFailure.value)) &&
      unchanged(db)
    ensures updateFailure.None? ==> db.students == WithCourse(old(db.students), studentId, Some(courseId))
    ensures updateFailure.None? && (year < 0 || insertFailure.Some?) ==>
      notice.Error? && db.enrollments == old(db.enrollments) && db.nextEnrollmentId == old(db.nextEnrollmentId)
    ensures updateFailure.None? && year >= 0 && insertFailure.None? ==>
      && notice == Info(MsgPromotedNextYear)
      && db.enrollments == old(db.enrollments) +
           [Row(old(db.nextEnrollmentId), Enrollment(studentId, Some(courseId), year, StatusEnrolled, Format(now)))]
      && db.nextEnrollmentId == old(db.nextEnrollmentId) + 1
  {
    var ok, moveMsg := UpdateStudentCourse(db, studentId, Some(courseId), updateFailure);
    if !ok {
      return Error(MsgStudentMoveError + moveMsg);
    }
    ghost var moved := db.students;
    assert db.enrollments == old(db.enrollments) && db.nextEnrollmentId == old(db.nextEnrollmentId);
    var created, createMsg, _ := CreateEnrollment(db, studentId, Some(courseId), year, StatusEnrolled, now, insertFailure);
    assert db.students == moved;
    if created {
      return Info(MsgPromotedNextYear);
    }
    return Error(MsgNewEnrollmentError + createMsg);
  }

  /**
   * `process_enrollment` for the selected enrollment and student. The status
   * is written first, in a call of its own; a failure there stops everything.
   * Any status that is not `promovido` in some casing ends there. For
   * `promovido` the look-ups decide the destination and the two writes
   * follow. `statusFailure`, `updateFailure` and `insertFailure` are the
   * storage errors of the three writes, if they raise one.
   */
  method ProcessEnrollment(
    db: Database, enrollmentId: int, currentStudentId: int, newStatus: string, now: DateTime,
    statusFailure: Option<string>, updateFailure: Option<string>, insertFailure: Option<string>)
    returns (notice: Notice)
    requires db.Valid() && Valid(now)
    modifies db`students, db`enrollments, db`nextEnrollmentId
    ensures db.Valid()
    ensures newStatus == "" ==>
      notice == Error(MsgEmptyStatus) && unchanged(db)
    ensures newStatus != "" && statusFailure.Some? ==>
      notice == Error(MsgStatusUpdateError + statusFailure.value) && unchanged(db)
    ensures newStatus != "" && statusFailure.None? && ToLower(newStatus) != StatusPromoted ==>
      && notice == Info(MsgEnrollmentUpdated)
      && db.enrollments == WithStatus(old(db.enrollments), enrollmentId, newStatus)
      && db.students == old(db.students) && db.nextEnrollmentId == old(db.nextEnrollmentId)
    ensures newStatus != "" && statusFailure.None? && ToLower(newStatus) == StatusPromoted &&
            !PlanGuiPromotion(old(db.enrollments), old(db.courses), enrollmentId).Destination? ==>
      && notice == PlanNotice(PlanGuiPromotion(old(db.enrollments), old(db.courses), enrollmentId))
      && db.enrollments == WithStatus(old(db.enrollments), enrollmentId, newStatus)
      && db.students == old(db.students) && db.nextEnrollmentId == old(db.nextEnrollmentId)
    ensures newStatus != "" && statusFailure.None? && ToLower(newStatus) == StatusPromoted &&
            PlanGuiPromotion(old(db.enrollments), old(db.courses), enrollmentId).Destination? ==>
      var p := PlanGuiPromotion(old(db.enrollments), old(db.courses), enrollmentId);
      var statusOnly := WithStatus(old(db.enrollments), enrollmentId, newStatus);
      && (updateFailure.Some? ==>
            notice == Error(MsgStudentMoveError + (MsgCourseUpdateError + updateFailure.value)) &&
            db.enrollments == statusOnly && db.students == old(db.students) &&
            db.nextEnrollmentId == old(db.nextEnrollmentId))
      && (updateFailure.None? ==>
            db.students == WithCourse(old(db.students), currentStudentId, Some(p.courseId)))
      && (updateFailure.None? && (p.year < 0 || insertFailure.Some?) ==>
            notice.Error? && db.enrollments == statusOnly && db.nextEnrollmentId == old(db.nextEnrollmentId))
      && (updateFailure.None? && p.year >= 0 && insertFailure.None? ==>
            notice == Info(MsgPromotedNextYear) &&
            db.enrollments == statusOnly +
              [Row(old(db.nextEnrollmentId), Enrollment(currentStudentId, Some(p.courseId), p.year, StatusEnrolled, Format(now)))] &&
            db.nextEnrollmentId == old(db.nextEnrollmentId) + 1)
  {
    var updated, msg := UpdateEnrollmentStatus(db, enrollmentId, newStatus, statusFailure);
    if !updated {
      return Error(msg);
    }
    if ToLower(newStatus) != StatusPromoted {
      return Info(MsgEnrollmentUpdated);
    }
    StatusChangeKeepsPlan(old(db.enrollments), db.nextEnrollmentId, db.courses, enrollmentId, newStatus);
    var p := LookUpDestination(db, enrollmentId);
    if !p.Destination? {
      return PlanNotice(p);
    }
    notice := MoveAndReenroll(db, currentStudentId, p.courseId, p.year, now, updateFailure, insertFailure);
  }

  /**
   * No final-grade check: a student in a course named `once` (in any casing,
   * with any surrounding blanks) is sent to the first active `once` course
   * for the following year, whenever one exists.
   */
  lemma FinalGradeIsReenrolled(enrollments: seq<Row<Enrollment>>, courses: seq<Row<Course>>, enrollmentId: int)
    requires EnrollmentById(enrollments, enrollmentId).Some?
    requires var e := EnrollmentById(enrollments, enrollmentId).value.val;
      e.courseId.Some? && CourseById(courses, e.courseId.value).Some? &&
      ToLower(Strip(CourseById(courses, e.courseId.value).value.val.name)) == FinalGrade
    requires FirstWithGrade(ActiveCourses(courses), FinalGrade).Some?
    ensures PlanGuiPromotion(enrollments, courses, enrollmentId) ==
      Destination(ActiveCourses(courses)[FirstWithGrade(ActiveCourses(courses), FinalGrade).value].id,
                  EnrollmentById(enrollments, enrollmentId).value.val.academicYear + 1)
  {
    var e := EnrollmentById(enrollments, enrollmentId).value;
    var c := CourseById(courses, e.val.courseId.value).value;
    FinalGradeSucceedsItself(ToLower(Strip(c.val.name)));
    ReenrolledInSuccessor(enrollments, courses, enrollmentId, FinalGrade);
  }

  /** The destination is the first active course of the successor grade, for the following year. */
  lemma ReenrolledInSuccessor(enrollments: seq<Row<Enrollment>>, courses: seq<Row<Course>>, enrollmentId: int, grade: string)
    requires EnrollmentById(enrollments, enrollmentId).Some?
    requires var e := EnrollmentById(enrollments, enrollmentId).value.val;
      e.courseId.Some? && CourseById(courses, e.courseId.value).Some? &&
      ToLower(GetNextCourse(ToLower(Strip(CourseById(courses, e.courseId.value).value.val.name)))) == grade
    requires FirstWithGrade(ActiveCourses(courses), grade).Some?
    ensures PlanGuiPromotion(enrollments, courses, enrollmentId) ==
      Destination(ActiveCourses(courses)[FirstWithGrade(ActiveCourses(courses), grade).value].id,
                  EnrollmentById(enrollments, enrollmentId).value.val.academicYear + 1)
  {
  }

  /** The successor of `once`, lower-cased, is `once`. */
  lemma FinalGradeSucceedsItself(name: string)
    requires name == FinalGrade
    ensures ToLower(GetNextCourse(name)) == FinalGrade
  {
    FixedPointIff(name);
    LoweredIsFixed(name);
  }

  /**
   * For a course named with a grade label, the screen's destination is an
   * active course whose extracted grade is the label's successor, so a
   * sectioned name such as `segundo - B` qualifies.
   */
  lemma DestinationHasNextGrade(enrollments: seq<Row<Enrollment>>, courses: seq<Row<Course>>, enrollmentId: int)
    requires PlanGuiPromotion(enrollments, courses, enrollmentId).Destination?
    requires var e := EnrollmentById(enrollments, enrollmentId).value.val;
      ToLower(Strip(CourseById(courses, e.courseId.value).value.val.name)) in Grades
    ensures var e := EnrollmentById(enrollments, enrollmentId).value.val;
      var name := ToLower(Strip(CourseById(courses, e.courseId.value).value.val.name));
      exists k :: 0 <= k < |courses| && courses[k].id == PlanGuiPromotion(enrollments, courses, enrollmentId).courseId &&
        courses[k].val.active && ExtractGrade(courses[k].val.name) == GetNextCourse(name)
  {
    var e := EnrollmentById(enrollments, enrollmentId).value.val;
    var name := ToLower(Strip(CourseById(courses, e.courseId.value).value.val.name));
    var active := ActiveCourses(courses);
    var next := GetNextCourse(name);
    GradesAreLowered();
    var j := GradeRank(next);
    LoweredIsFixed(next);
    var k := FirstWithGrade(active, next).value;
    assert active[k] in courses;
    var m :| 0 <= m < |courses| && courses[m] == active[k];
  }

  /** A blank after a plain grade label does not change what it extracts to. */
  lemma ExtractGradeTrailingBlank(g: string)
    requires '-' !in g && IsStripped(g) && IsLowered(g)
    ensures ExtractGrade(g + " ") == g
  {
    assert '-' !in g + " ";
    BeforeFirstAbsent(g + " ", '-');
    StripTrailingBlank(g);
    LoweredIsFixed(g);
  }

  /** The display name `<grade> - <seccion>` of a plain grade extracts to the grade. */
  lemma ExtractGradeOfDisplayName(g: string, seccion: string)
    requires '-' !in g && IsStripped(g) && IsLowered(g)
    ensures ExtractGrade(g + " - " + seccion) == g
  {
    var head := g + " ";
    assert '-' !in head;
    assert g + " - " + seccion == head + "-" + (" " + seccion);
    ExtractGradeIgnoresSection(head, " " + seccion);
    ExtractGradeTrailingBlank(g);
  }

  /**
   * A course listed with its section, `<grade> - <seccion>`, is a destination
   * for a student in the grade before: the section after the `-` is ignored.
   */
  lemma SectionedNameIsDestination(k: nat, seccion: string)
    requires 1 <= k < |Grades|
    ensures ExtractGrade(Grades[k] + " - " + seccion) == GetNextCourse(Grades[k - 1])
  {
    PlainLabel(k);
    ExtractGradeOfDisplayName(Grades[k], seccion);
    SuccessorAt(k - 1);
  }
}
