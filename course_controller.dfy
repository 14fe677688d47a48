/**
 * The course catalogue (src/controllers/course_controller.py): adding,
 * renaming and deactivating courses in the `courses` table, and the three
 * queries the rest of the application uses. The `UNIQUE(name, seccion)`
 * constraint is what turns a duplicate course into an error.
 */
module CourseController {
  import opened Wrappers
  import opened Text
  import opened Table
  import opened Store

  // The texts the operations below return.
  const MsgCourseAdded: string := "Curso agregado correctamente."
  const MsgCourseEdited: string := "Curso editado correctamente."
  const MsgCourseDeactivated: string := "Curso desactivado correctamente."
  const MsgEmptyCourseName: string := "El nombre del curso debe ser una cadena no vacía."
  const MsgEmptyNewCourseName: string := "El nuevo nombre del curso debe ser una cadena no vacía."
  const MsgDuplicateCourse: string := "El curso con esa sección ya existe."
  const MsgEditIntegrityError: string := "Error al editar curso: integridad error."

  /** Some row of `t` already holds the pair `(name, seccion)`. */
  predicate HasCourse(t: seq<Row<Course>>, name: string, seccion: string) {
    exists i :: 0 <= i < |t| && t[i].val.name == name && t[i].val.seccion == seccion
  }

  /** Renaming row `id` to `(name, seccion)` would break `UNIQUE(name, seccion)`. */
  predicate RenameClashes(t: seq<Row<Course>>, id: int, name: string, seccion: string) {
    HasId(t, id) &&
    exists i :: 0 <= i < |t| && t[i].id != id && t[i].val.name == name && t[i].val.seccion == seccion
  }

  /** `UPDATE courses SET name = ?, seccion = ? WHERE id = ?`. */
  function Renamed(t: seq<Row<Course>>, id: int, name: string, seccion: string): (r: seq<Row<Course>>)
    ensures |r| == |t|
    ensures forall i :: 0 <= i < |t| ==> r[i].id == t[i].id && r[i].val.active == t[i].val.active
    ensures forall i :: 0 <= i < |t| && t[i].id == id ==> r[i].val.name == name && r[i].val.seccion == seccion
    ensures forall i :: 0 <= i < |t| && t[i].id != id ==> r[i] == t[i]
  {
    UpdateWhere(t, (row: Row<Course>) => row.id == id, (c: Course) => c.(name := name, seccion := seccion))
  }

  /** `UPDATE courses SET active = 0 WHERE id = ?`. */
  function Deactivated(t: seq<Row<Course>>, id: int): (r: seq<Row<Course>>)
    ensures |r| == |t|
    ensures forall i :: 0 <= i < |t| ==> r[i].id == t[i].id
    ensures forall i :: 0 <= i < |t| && t[i].id == id ==> r[i].val == t[i].val.(active := false)
    ensures forall i :: 0 <= i < |t| && t[i].id != id ==> r[i] == t[i]
  {
    UpdateWhere(t, (row: Row<Course>) => row.id == id, (c: Course) => c.(active := false))
  }

  /**
   * `add_course`: an empty name is refused; otherwise one active row
   * `(name, seccion or "")` is inserted, unless that pair already exists.
   */
  method AddCourse(db: Database, name: string, seccion: Option<string>) returns (ok: bool, msg: string)
    requires db.Valid()
    modifies db`courses, db`nextCourseId
    ensures db.Valid()
    ensures ok <==> name != "" && !HasCourse(old(db.courses), name, seccion.GetOr(""))
    ensures name == "" ==> msg == MsgEmptyCourseName
    ensures name != "" && !ok ==> msg == MsgDuplicateCourse
    ensures ok ==> msg == MsgCourseAdded
    ensures ok ==> db.courses == old(db.courses) + [Row(old(db.nextCourseId), Course(name, seccion.GetOr(""), true))]
    ensures ok ==> db.nextCourseId == old(db.nextCourseId) + 1
    ensures !ok ==> unchanged(db)
  {
    if name == "" {
      return false, MsgEmptyCourseName;
    }
    var sec := seccion.GetOr("");
    if HasCourse(db.courses, name, sec) {
      return false, MsgDuplicateCourse;
    }
    AppendWellFormed(db.courses, db.nextCourseId, Course(name, sec, true));
    db.courses := db.courses + [Row(db.nextCourseId, Course(name, sec, true))];
    db.nextCourseId := db.nextCourseId + 1;
    return true, MsgCourseAdded;
  }

  /**
   * `edit_course`: an empty name is refused; otherwise the row's name and
   * section (`None` becoming `""`) are replaced and its `active` flag kept.
   * An absent id is a successful update of no row.
   */
  method EditCourse(db: Database, courseId: int, newName: string, newSeccion: Option<string>)
    returns (ok: bool, msg: string)
    requires db.Valid()
    modifies db`courses
    ensures db.Valid()
    ensures ok <==> newName != "" && !RenameClashes(old(db.courses), courseId, newName, newSeccion.GetOr(""))
    ensures newName == "" ==> msg == MsgEmptyNewCourseName
    ensures newName != "" && !ok ==> msg == MsgEditIntegrityError
    ensures ok ==> msg == MsgCourseEdited
    ensures ok ==> db.courses == Renamed(old(db.courses), courseId, newName, newSeccion.GetOr(""))
    ensures !ok ==> db.courses == old(db.courses)
  {
    if newName == "" {
      return false, MsgEmptyNewCourseName;
    }
    var sec := newSeccion.GetOr("");
    if RenameClashes(db.courses, courseId, newName, sec) {
      return false, MsgEditIntegrityError;
    }
    RenamedKeepsUnique(db.courses, db.nextCourseId, courseId, newName, sec);
    db.courses := Renamed(db.courses, courseId, newName, sec);
    return true, MsgCourseEdited;
  }

  lemma RenamedKeepsUnique(t: seq<Row<Course>>, next: int, id: int, name: string, seccion: string)
    requires WellFormed(t, next) && UniqueCourses(t)
    requires !RenameClashes(t, id, name, seccion)
    ensures WellFormed(Renamed(t, id, name, seccion), next)
    ensures UniqueCourses(Renamed(t, id, name, seccion))
  {
    var r := Renamed(t, id, name, seccion);
    forall i, j | 0 <= i < j < |r|
      ensures r[i].val.name != r[j].val.name || r[i].val.seccion != r[j].val.seccion
    {
      if t[i].id == id {
        assert t[j].id != id && r[j] == t[j];
      } else if t[j].id == id {
        assert r[i] == t[i];
      }
    }
  }

  /** `deactivate_course`: only the `active` flag of that row is cleared; an absent id changes nothing. */
  method DeactivateCourse(db: Database, courseId: int) returns (ok: bool, msg: string)
    requires db.Valid()
    modifies db`courses
    ensures db.Valid()
    ensures ok && msg == MsgCourseDeactivated
    ensures db.courses == Deactivated(old(db.courses), courseId)
  {
    DeactivatedKeepsUnique(db.courses, db.nextCourseId, courseId);
    db.courses := Deactivated(db.courses, courseId);
    return true, MsgCourseDeactivated;
  }

  lemma DeactivatedKeepsUnique(t: seq<Row<Course>>, next: int, id: int)
    requires WellFormed(t, next) && UniqueCourses(t)
    ensures WellFormed(Deactivated(t, id), next)
    ensures UniqueCourses(Deactivated(t, id))
  {
  }

  /** `get_active_courses`: exactly the active rows, in rowid order. */
  function ActiveCourses(t: seq<Row<Course>>): (r: seq<Row<Course>>)
    ensures forall i :: 0 <= i < |r| ==> r[i] in t && r[i].val.active
    ensures forall i :: 0 <= i < |t| && t[i].val.active ==> t[i] in r
  {
    Filter(t, (row: Row<Course>) => row.val.active)
  }

  /** `get_course_by_id`: the row with that id, or `None` when there is none. */
  function CourseById(t: seq<Row<Course>>, courseId: int): (r: Option<Row<Course>>)
    ensures r.None? <==> !HasId(t, courseId)
    ensures r.Some? ==> r.value in t && r.value.id == courseId
  {
    Find(t, courseId)
  }

  /** The rows `WHERE name = grade AND active = 1` selects, in rowid order. */
  function ActiveOfGrade(t: seq<Row<Course>>, grade: string): seq<Row<Course>> {
    Filter(t, (row: Row<Course>) => row.val.active && row.val.name == grade)
  }

  /** Section order, the order of the `UNIQUE(name, seccion)` index among the rows of one name. */
  predicate BySeccion(x: Row<Course>, y: Row<Course>) {
    TextLe(x.val.seccion, y.val.seccion)
  }

  lemma BySeccionIsTotalPreorder()
    ensures TotalPreorder(BySeccion)
  {
    forall x: Row<Course>, y: Row<Course> ensures BySeccion(x, y) || BySeccion(y, x) {
      TextLeTotal(x.val.seccion, y.val.seccion);
    }
    forall x: Row<Course>, y: Row<Course>, z: Row<Course> | BySeccion(x, y) && BySeccion(y, z)
      ensures BySeccion(x, z)
    {
      TextLeTransitive(x.val.seccion, y.val.seccion, z.val.seccion);
    }
  }

  /**
   * `get_courses_by_grade`: exactly the active rows whose name is `grade`
   * character for character (no case folding, any section). The query has no
   * `ORDER BY`; SQLite answers `name = ?` from the index that backs
   * `UNIQUE(name, seccion)`, so the rows come in section order.
   */
  function CoursesByGrade(t: seq<Row<Course>>, grade: string): (r: seq<Row<Course>>)
    ensures forall i :: 0 <= i < |r| ==> r[i] in t && r[i].val.active && r[i].val.name == grade
    ensures forall i :: 0 <= i < |t| && t[i].val.active && t[i].val.name == grade ==> t[i] in r
    ensures multiset(r) == multiset(ActiveOfGrade(t, grade))
    ensures forall i, j :: 0 <= i < j < |r| ==> TextLe(r[i].val.seccion, r[j].val.seccion)
  {
    var s := ActiveOfGrade(t, grade);
    BySeccionIsTotalPreorder();
    SortBySorted(s, BySeccion);
    SortedGradeMembers(t, grade);
    SortBy(s, BySeccion)
  }

  /** Sorting the selected rows keeps exactly the active rows of that name. */
  lemma SortedGradeMembers(t: seq<Row<Course>>, grade: string)
    ensures var r := SortBy(ActiveOfGrade(t, grade), BySeccion);
      && (forall i :: 0 <= i < |r| ==> r[i] in t && r[i].val.active && r[i].val.name == grade)
      && (forall i :: 0 <= i < |t| && t[i].val.active && t[i].val.name == grade ==> t[i] in r)
  {
    var s := ActiveOfGrade(t, grade);
    var r := SortBy(s, BySeccion);
    SortByMembers(s, BySeccion);
    forall i | 0 <= i < |r| ensures r[i] in t && r[i].val.active && r[i].val.name == grade {
      assert r[i] in s;
    }
  }

  /**
   * The first course `get_courses_by_grade` lists has the lowest section of
   * the active courses of that grade; under `UNIQUE(name, seccion)` every
   * other one has a different, so greater, section.
   */
  lemma FirstOfGrade(t: seq<Row<Course>>, grade: string)
    requires CoursesByGrade(t, grade) != []
    ensures var c := CoursesByGrade(t, grade)[0];
      && c in t && c.val.active && c.val.name == grade
      && forall k :: 0 <= k < |t| && t[k].val.active && t[k].val.name == grade ==>
           TextLe(c.val.seccion, t[k].val.seccion) &&
           (UniqueCourses(t) && t[k] != c ==> c.val.seccion != t[k].val.seccion)
  {
    var r := CoursesByGrade(t, grade);
    var c := r[0];
    var m :| 0 <= m < |t| && t[m] == c;
    forall k | 0 <= k < |t| && t[k].val.active && t[k].val.name == grade
      ensures TextLe(c.val.seccion, t[k].val.seccion)
      ensures UniqueCourses(t) && t[k] != c ==> c.val.seccion != t[k].val.seccion
    {
      var j :| 0 <= j < |r| && r[j] == t[k];
      if j == 0 {
        TextLeTotal(c.val.seccion, c.val.seccion);
      }
      if UniqueCourses(t) && t[k] != c {
        assert k != m;
      }
    }
  }

  /** A course that was just added is found by its id and listed among the active courses of its grade. */
  lemma AddedCourseIsListed(t: seq<Row<Course>>, next: int, name: string, seccion: string)
    requires WellFormed(t, next)
    ensures CourseById(t + [Row(next, Course(name, seccion, true))], next) == Some(Row(next, Course(name, seccion, true)))
    ensures Row(next, Course(name, seccion, true)) in CoursesByGrade(t + [Row(next, Course(name, seccion, true))], name)
  {
    var t' := t + [Row(next, Course(name, seccion, true))];
    assert t'[|t|] == Row(next, Course(name, seccion, true));
    FindUnique(t', next + 1, |t|);
  }

  /** A deactivated course is still found by id but no longer offered for any grade. */
  lemma DeactivatedIsNotOffered(t: seq<Row<Course>>, next: int, id: int, grade: string)
    requires WellFormed(t, next)
    ensures CourseById(Deactivated(t, id), id) == (if HasId(t, id) then Some(Row(id, CourseById(t, id).value.val.(active := false))) else None)
    ensures forall i :: 0 <= i < |CoursesByGrade(Deactivated(t, id), grade)| ==> CoursesByGrade(Deactivated(t, id), grade)[i].id != id
    ensures forall i :: 0 <= i < |ActiveCourses(Deactivated(t, id))| ==> ActiveCourses(Deactivated(t, id))[i].id != id
  {
    var d := Deactivated(t, id);
    if HasId(t, id) {
      var k :| 0 <= k < |t| && t[k].id == id;
      FindUnique(t, next, k);
      FindUnique(d, next, k);
    }
    InactiveIsNotOffered(d, id, grade);
  }

  /** When every row with that id is inactive, neither query lists it. */
  lemma InactiveIsNotOffered(t: seq<Row<Course>>, id: int, grade: string)
    requires forall j :: 0 <= j < |t| && t[j].id == id ==> !t[j].val.active
    ensures forall i :: 0 <= i < |CoursesByGrade(t, grade)| ==> CoursesByGrade(t, grade)[i].id != id
    ensures forall i :: 0 <= i < |ActiveCourses(t)| ==> ActiveCourses(t)[i].id != id
  {
  }

  /** Two sections of `segundo` added B first: the query lists section A first all the same. */
  lemma SectionOrderNotRowidOrder()
    ensures var t := [Row(1, Course("segundo", "B", true)), Row(2, Course("segundo", "A", true))];
      CoursesByGrade(t, "segundo") == [t[1], t[0]]
  {
    var t := [Row(1, Course("segundo", "B", true)), Row(2, Course("segundo", "A", true))];
    assert ActiveOfGrade(t, "segundo") == t;
    assert TextLe("A", "B");
  }

  /**
   * `get_courses_by_grade` holds the rows of `get_active_courses` that carry
   * the name, put in section order.
   */
  lemma {:induction false} ByGradeNarrowsActive(t: seq<Row<Course>>, grade: string)
    ensures ActiveOfGrade(t, grade) == Filter(ActiveCourses(t), (row: Row<Course>) => row.val.name == grade)
    ensures CoursesByGrade(t, grade) == SortBy(Filter(ActiveCourses(t), (row: Row<Course>) => row.val.name == grade), BySeccion)
  {
    if t != [] {
      ByGradeNarrowsActive(t[1..], grade);
    }
  }
}
