/**
 * The student exports (src/utils/export_students.py): the students are put
 * in grade order, from `pre-jardin` to `once` with unknown grades last, and
 * then written to an Excel workbook, one sheet per course plus a `Todos`
 * sheet with everyone, or to a PDF table whose column widths fit the
 * longest text of each column.
 *
 * The students reach the exports as `get_all_students` gives them: records
 * whose course is already its display name. Such records have no
 * `course_id`, so the exports' own `get_course_name` returns that display
 * name (or `""` when it is empty) without looking anything up.
 */
module ExportStudents {
  import opened Table
  import opened Text
  import opened Progression
  import opened StudentController
  import EnrollmentManagement

  /** `HEADERS`: the column titles of both exports. */
  const Headers: seq<string> := ["Identificacion", "Nombre", "Apellido", "Grado", "Representante", "Numero de Telefono"]

  /** Title of the sheet of a course without a name. */
  const UnknownGradeSheet: string := "Grado_Desconocido"

  /** Title of the last sheet, which lists every student. */
  const AllStudentsSheet: string := "Todos"

  // ---------------------------------------------------------------- the sort key

  /** `names.index(x)`, or `len(names)` where `index` raises `ValueError`. */
  function IndexIn(names: seq<string>, x: string): (k: nat)
    ensures k <= |names|
    ensures k < |names| ==> names[k] == x
    ensures forall j :: 0 <= j < k ==> names[j] != x
  {
    if names == [] then 0
    else if names[0] == x then 0
    else 1 + IndexIn(names[1..], x)
  }

  /** A name that is not listed gets the position past the end. */
  lemma IndexInAbsent(names: seq<string>, x: string)
    requires x !in names
    ensures IndexIn(names, x) == |names|
  {
  }

  /** The grade part of a course name: the text before its first `-`, stripped and lower-cased. */
  function GradePart(course: string): string {
    if course == "" then "" else EnrollmentManagement.ExtractGrade(course)
  }

  /** The first half of `course_sort_key` as written: the grade part's position in `course_order`. */
  function CourseRankAsWritten(course: string): nat {
    IndexIn(Grades, GradePart(course))
  }

  /** The grade part of each label of `course_order`, in its order: `pre-jardin` gives `pre`. */
  const GradeParts: seq<string> := ["pre"] + Grades[1..]

  /**
   * The rank as evidently intended: the position of the course's grade part
   * among the grade parts of the labels, so that `pre-jardin`, whose grade
   * part is `pre`, comes first as `course_order` lists it.
   */
  function CourseRank(course: string): nat {
    IndexIn(GradeParts, GradePart(course))
  }

  /** `course_sort_key`'s value: the rank, then the lower-cased course name. */
  type SortKey = (nat, string)

  /** Python's `<=` on `(rank, name)` tuples. */
  predicate KeyLeq(x: SortKey, y: SortKey) {
    x.0 < y.0 || (x.0 == y.0 && TextLe(x.1, y.1))
  }

  function CourseKey(course: string): SortKey {
    (CourseRank(course), ToLower(course))
  }

  function CourseKeyAsWritten(course: string): SortKey {
    (CourseRankAsWritten(course), ToLower(course))
  }

  lemma KeyLeqTotal(x: SortKey, y: SortKey)
    ensures KeyLeq(x, y) || KeyLeq(y, x)
  {
    TextLeTotal(x.1, y.1);
  }

  lemma KeyLeqTransitive(x: SortKey, y: SortKey, z: SortKey)
    requires KeyLeq(x, y) && KeyLeq(y, z)
    ensures KeyLeq(x, z)
  {
    if x.0 == y.0 == z.0 {
      TextLeTransitive(x.1, y.1, z.1);
    }
  }

  /**
   * The order `sorted(..., key=course_sort_key)` puts the students in, with
   * the rank as written.
   */
  predicate ByCourse(a: StudentView, b: StudentView) {
    KeyLeq(CourseKeyAsWritten(a.courseName), CourseKeyAsWritten(b.courseName))
  }

  /** The same order with the rank as evidently intended. */
  predicate ByCourseIntended(a: StudentView, b: StudentView) {
    KeyLeq(CourseKey(a.courseName), CourseKey(b.courseName))
  }

  lemma ByCourseIsTotalPreorder()
    ensures TotalPreorder(ByCourse)
  {
    forall a: StudentView, b: StudentView ensures ByCourse(a, b) || ByCourse(b, a) {
      KeyLeqTotal(CourseKeyAsWritten(a.courseName), CourseKeyAsWritten(b.courseName));
    }
    forall a: StudentView, b: StudentView, c: StudentView | ByCourse(a, b) && ByCourse(b, c)
      ensures ByCourse(a, c)
    {
      KeyLeqTransitive(CourseKeyAsWritten(a.courseName), CourseKeyAsWritten(b.courseName), CourseKeyAsWritten(c.courseName));
    }
  }

  lemma ByCourseIntendedIsTotalPreorder()
    ensures TotalPreorder(ByCourseIntended)
  {
    forall a: StudentView, b: StudentView ensures ByCourseIntended(a, b) || ByCourseIntended(b, a) {
      KeyLeqTotal(CourseKey(a.courseName), CourseKey(b.courseName));
    }
    forall a: StudentView, b: StudentView, c: StudentView | ByCourseIntended(a, b) && ByCourseIntended(b, c)
      ensures ByCourseIntended(a, c)
    {
      KeyLeqTransitive(CourseKey(a.courseName), CourseKey(b.courseName), CourseKey(c.courseName));
    }
  }

  /** Students that compare equal have course names that lower-case alike. */
  lemma TiedCoursesLowerAlike(a: StudentView, b: StudentView)
    requires ByCourse(a, b) && ByCourse(b, a)
    ensures ToLower(a.courseName) == ToLower(b.courseName)
  {
    TextLeAntisymmetric(ToLower(a.courseName), ToLower(b.courseName));
  }

  // ---------------------------------------------------------------- ranks

  /** No two grade labels are the same. */
  lemma GradesDistinct()
    ensures forall i, j :: 0 <= i < j < |Grades| ==> Grades[i] != Grades[j]
  {
  }

  /** No two grade parts are the same. */
  lemma GradePartsDistinct()
    ensures forall i, j :: 0 <= i < j < |GradeParts| ==> GradeParts[i] != GradeParts[j]
  {
  }

  /** The grade part of `pre-jardin` is not itself a grade label. */
  lemma PreIsNoGrade()
    ensures GradeParts[0] !in Grades
  {
  }

  /** A name `<pre>-<rest>` whose first part is plain has that first part as its grade part. */
  lemma PrefixedPart(name: string, pre: string, rest: string)
    requires '-' !in pre && IsStripped(pre) && IsLowered(pre)
    requires name == pre + "-" + rest
    ensures GradePart(name) == pre
  {
    EnrollmentManagement.ExtractGradeIgnoresSection(pre, rest);
    EnrollmentManagement.ExtractGradeOfPlain(pre);
  }

  /** `pre` is plain text: lower case, no `-`, no surrounding blanks. */
  lemma PreIsPlain(pre: string)
    requires pre == GradeParts[0]
    ensures '-' !in pre && IsStripped(pre) && IsLowered(pre)
  {
  }

  /** `GradeParts` lists the grade part of each grade label. */
  lemma GradePartOfLabel(k: nat)
    requires k < |Grades|
    ensures GradePart(Grades[k]) == GradeParts[k]
  {
    if k == 0 {
      GradePartOfFirstLabel(Grades[0], GradeParts[0]);
    } else {
      GradePartOfLaterLabel(k, Grades[k]);
    }
  }

  lemma GradePartOfFirstLabel(name: string, part: string)
    requires name == Grades[0] && part == GradeParts[0]
    ensures GradePart(name) == part
  {
    PreIsPlain(part);
    PrefixedPart(name, part, Grades[1][..6]);
  }

  lemma GradePartOfLaterLabel(k: nat, name: string)
    requires 1 <= k < |Grades| && name == Grades[k]
    ensures GradePart(name) == GradeParts[k]
  {
    EnrollmentManagement.ExtractGradeOfLabel(k);
    assert GradeParts[k] == Grades[1..][k - 1] == name;
  }

  /** A course shown as `<grade> - <seccion>` has the grade part of the bare grade. */
  lemma GradePartOfCourse(k: nat, seccion: string)
    requires k < |Grades|
    ensures GradePart(Grades[k] + " - " + seccion) == GradeParts[k]
  {
    if k == 0 {
      PreIsPlain(GradeParts[0]);
      PrefixedPart(Grades[0] + " - " + seccion, GradeParts[0], Grades[1] + " - " + seccion);
    } else {
      EnrollmentManagement.PlainLabel(k);
      EnrollmentManagement.ExtractGradeOfDisplayName(Grades[k], seccion);
    }
  }

  /**
   * As written, `pre-jardin` is not found in `course_order`, because its
   * grade part is `pre`: its courses get the unknown rank.
   */
  lemma PreJardinRanksUnknownAsWritten(course: string, seccion: string)
    requires course == Grades[0] + " - " + seccion || course == Grades[0]
    ensures CourseRankAsWritten(course) == |Grades|
  {
    if course == Grades[0] {
      GradePartOfLabel(0);
    } else {
      GradePartOfCourse(0, seccion);
    }
    PreIsNoGrade();
    IndexInAbsent(Grades, GradeParts[0]);
  }

  /** So, as written, the courses of `pre-jardin` sort after those of `once`. */
  lemma PreJardinSortsLastAsWritten(seccion: string, other: string)
    ensures !KeyLeq(CourseKeyAsWritten(Grades[0] + " - " + seccion), CourseKeyAsWritten(Grades[13] + " - " + other))
  {
    PreJardinRanksUnknownAsWritten(Grades[0] + " - " + seccion, seccion);
    RankAsWrittenOfCourse(13, other);
  }

  /** Every other grade is found where `course_order` lists it. */
  lemma RankAsWrittenOfCourse(k: nat, seccion: string)
    requires 1 <= k < |Grades|
    ensures CourseRankAsWritten(Grades[k] + " - " + seccion) == k
    ensures CourseRankAsWritten(Grades[k]) == k
  {
    GradePartOfCourse(k, seccion);
    GradePartOfLabel(k);
    GradesDistinct();
  }

  /** With the grade labels taken apart alike, every grade, `pre-jardin` included, gets its position. */
  lemma RankOfCourse(k: nat, seccion: string)
    requires k < |Grades|
    ensures CourseRank(Grades[k] + " - " + seccion) == k
    ensures CourseRank(Grades[k]) == k
  {
    GradePartOfCourse(k, seccion);
    GradePartOfLabel(k);
    GradePartsDistinct();
  }

  /** So `pre-jardin` courses sort before the courses of every later grade. */
  lemma PreJardinSortsFirst(seccion: string, k: nat, other: string)
    requires 1 <= k < |Grades|
    ensures KeyLeq(CourseKey(Grades[0] + " - " + seccion), CourseKey(Grades[k] + " - " + other))
    ensures !KeyLeq(CourseKey(Grades[k] + " - " + other), CourseKey(Grades[0] + " - " + seccion))
  {
    RankOfCourse(0, seccion);
    RankOfCourse(k, other);
  }

  /** A course whose grade part is none of the grades' sorts after the courses of every grade. */
  lemma UnknownGradesSortLast(course: string, k: nat, seccion: string)
    requires k < |Grades|
    requires GradePart(course) !in GradeParts
    ensures CourseRank(course) == |Grades|
    ensures KeyLeq(CourseKey(Grades[k] + " - " + seccion), CourseKey(course))
    ensures !KeyLeq(CourseKey(course), CourseKey(Grades[k] + " - " + seccion))
  {
    RankOfCourse(k, seccion);
  }

  // ---------------------------------------------------------------- `_preparar_students`

  /**
   * The body of `_preparar_students` for a sort order `le`: every record is
   * copied into a new list, which is then sorted. The result is a stable
   * sort of the input: the same students, in order, and students that
   * compare equal in their original order.
   */
  method SortStudents(students: seq<StudentView>, le: (StudentView, StudentView) -> bool) returns (r: seq<StudentView>)
    requires TotalPreorder(le)
    ensures multiset(r) == multiset(students)
    ensures forall i, j :: 0 <= i < j < |r| ==> le(r[i], r[j])
    ensures forall y :: Filter(r, TiedWith(le, y)) == Filter(students, TiedWith(le, y))
    ensures r == SortBy(students, le)
  {
    var prepared: seq<StudentView> := [];
    for i := 0 to |students|
      invariant prepared == students[..i]
    {
      prepared := prepared + [students[i]];
    }
    assert prepared == students;
    r := SortBy(prepared, le);
    SortBySorted(prepared, le);
    forall y ensures Filter(r, TiedWith(le, y)) == Filter(students, TiedWith(le, y)) {
      SortByStable(prepared, le, y);
    }
  }

  /**
   * `_preparar_students` as written: the same students, in the order of
   * `course_sort_key` (so `pre-jardin` after `once`), ties in their
   * original order.
   */
  method PrepareStudents(students: seq<StudentView>) returns (r: seq<StudentView>)
    ensures multiset(r) == multiset(students)
    ensures forall i, j :: 0 <= i < j < |r| ==> ByCourse(r[i], r[j])
    ensures forall y :: Filter(r, TiedWith(ByCourse, y)) == Filter(students, TiedWith(ByCourse, y))
    ensures r == SortBy(students, ByCourse)
  {
    ByCourseIsTotalPreorder();
    r := SortStudents(students, ByCourse);
  }

  /** `_preparar_students` with the rank as evidently intended: `pre-jardin` first. */
  method PrepareStudentsIntended(students: seq<StudentView>) returns (r: seq<StudentView>)
    ensures multiset(r) == multiset(students)
    ensures forall i, j :: 0 <= i < j < |r| ==> ByCourseIntended(r[i], r[j])
    ensures forall y :: Filter(r, TiedWith(ByCourseIntended, y)) == Filter(students, TiedWith(ByCourseIntended, y))
    ensures r == SortBy(students, ByCourseIntended)
  {
    ByCourseIntendedIsTotalPreorder();
    r := SortStudents(students, ByCourseIntended);
  }

  // ---------------------------------------------------------------- the Excel workbook

  /** `get_course_name` on a record of `get_all_students`. */
  function CourseOf(v: StudentView): string {
    v.courseName
  }

  /** `itertools.groupby`: the maximal runs of neighbours with the same name, in order. */
  function Runs<T>(s: seq<T>, name: T -> string): seq<seq<T>>
    decreases |s|
  {
    if s == [] then []
    else
      var rest := Runs(s[1..], name);
      if rest != [] && rest[0] != [] && name(rest[0][0]) == name(s[0]) then [[s[0]] + rest[0]] + rest[1..]
      else [[s[0]]] + rest
  }

  function Flatten<T>(runs: seq<seq<T>>): seq<T> {
    if runs == [] then [] else runs[0] + Flatten(runs[1..])
  }

  /** Every run is non-empty and shares one name. */
  ghost predicate RunsOfOneName<T>(runs: seq<seq<T>>, name: T -> string) {
    forall i :: 0 <= i < |runs| ==> runs[i] != [] && forall x :: x in runs[i] ==> name(x) == name(runs[i][0])
  }

  /** Neighbouring runs have different names. */
  ghost predicate RunsMaximal<T>(runs: seq<seq<T>>, name: T -> string)
    requires RunsOfOneName(runs, name)
  {
    forall i :: 0 <= i < |runs| - 1 ==> name(runs[i][0]) != name(runs[i + 1][0])
  }

  /** The runs put back together give the sequence, and the first run starts with its first element. */
  lemma {:induction false} RunsFlatten<T>(s: seq<T>, name: T -> string)
    ensures Flatten(Runs(s, name)) == s
    ensures s != [] ==> Runs(s, name) != [] && Runs(s, name)[0] != [] && Runs(s, name)[0][0] == s[0]
    decreases |s|
  {
    if s != [] {
      var rest := Runs(s[1..], name);
      RunsFlatten(s[1..], name);
      var runs := Runs(s, name);
      if rest != [] && rest[0] != [] && name(rest[0][0]) == name(s[0]) {
        assert runs[1..] == rest[1..];
        assert Flatten(runs) == [s[0]] + rest[0] + Flatten(rest[1..]);
        assert Flatten(rest) == rest[0] + Flatten(rest[1..]);
      } else {
        assert runs[1..] == rest;
        assert s == [s[0]] + s[1..];
      }
    }
  }

  /** Each run is non-empty and of one name, and neighbouring runs differ. */
  lemma {:induction false} RunsShape<T>(s: seq<T>, name: T -> string)
    ensures RunsOfOneName(Runs(s, name), name) && RunsMaximal(Runs(s, name), name)
    decreases |s|
  {
    if s != [] {
      var rest := Runs(s[1..], name);
      RunsShape(s[1..], name);
      RunsFlatten(s[1..], name);
      var runs := Runs(s, name);
      if rest != [] && rest[0] != [] && name(rest[0][0]) == name(s[0]) {
        assert runs[1..] == rest[1..];
        forall x | x in runs[0] ensures name(x) == name(runs[0][0]) {
          if x != s[0] {
            assert x in rest[0];
          }
        }
      } else {
        assert runs[1..] == rest;
      }
    }
  }

  /** The runs put back together give the sequence; each is non-empty, of one name, and maximal. */
  lemma RunsSpec<T>(s: seq<T>, name: T -> string)
    ensures Flatten(Runs(s, name)) == s
    ensures RunsOfOneName(Runs(s, name), name) && RunsMaximal(Runs(s, name), name)
    ensures s != [] ==> Runs(s, name) != [] && Runs(s, name)[0][0] == s[0]
  {
    RunsFlatten(s, name);
    RunsShape(s, name);
  }

  /** Every element of a run is an element of the sequence. */
  lemma RunsMembers<T>(s: seq<T>, name: T -> string, m: int, x: T)
    requires 0 <= m < |Runs(s, name)| && x in Runs(s, name)[m]
    ensures x in s
  {
    RunsSpec(s, name);
    FlattenMembers(Runs(s, name), m, x);
  }

  lemma {:induction false} FlattenMembers<T>(runs: seq<seq<T>>, m: int, x: T)
    requires 0 <= m < |runs| && x in runs[m]
    ensures x in Flatten(runs)
  {
    if m > 0 {
      FlattenMembers(runs[1..], m - 1, x);
    }
  }

  /** Elements with the same name are never separated by one with another name. */
  ghost predicate Contiguous<T>(s: seq<T>, name: T -> string) {
    forall i, j, k :: 0 <= i < j < k < |s| && name(s[i]) == name(s[k]) ==> name(s[j]) == name(s[i])
  }

  /** In a sequence where same-named elements are contiguous, no run after the first has the first element's name. */
  lemma {:induction false} RunsAfterHead<T>(s: seq<T>, name: T -> string)
    requires s != [] && Contiguous(s, name)
    ensures forall m, x :: 1 <= m < |Runs(s, name)| && x in Runs(s, name)[m] ==> name(x) != name(s[0])
    decreases |s|
  {
    var runs := Runs(s, name);
    if |s| > 1 {
      var tail := s[1..];
      assert Contiguous(tail, name) by {
        forall i, j, k | 0 <= i < j < k < |tail| && name(tail[i]) == name(tail[k])
          ensures name(tail[j]) == name(tail[i])
        {
          assert tail[i] == s[i + 1] && tail[j] == s[j + 1] && tail[k] == s[k + 1];
        }
      }
      var rest := Runs(tail, name);
      RunsSpec(tail, name);
      RunsAfterHead(tail, name);
      forall m, x | 1 <= m < |runs| && x in runs[m] ensures name(x) != name(s[0]) {
        if rest != [] && rest[0] != [] && name(rest[0][0]) == name(s[0]) {
          assert runs[m] == rest[m];
        } else {
          assert runs[m] == rest[m - 1];
          if m - 1 == 0 {
            assert name(x) == name(rest[0][0]) == name(tail[0]);
          } else if name(x) == name(s[0]) {
            RunsMembers(tail, name, m - 1, x);
            assert false;
          }
        }
      }
    }
  }

  /** In such a sequence every name has a single run. */
  lemma {:induction false} RunsDistinct<T>(s: seq<T>, name: T -> string)
    requires Contiguous(s, name)
    ensures forall p, q :: 0 <= p < q < |Runs(s, name)| && Runs(s, name)[p] != [] && Runs(s, name)[q] != [] ==>
      name(Runs(s, name)[p][0]) != name(Runs(s, name)[q][0])
    decreases |s|
  {
    if s != [] {
      var runs := Runs(s, name);
      var tail := s[1..];
      assert Contiguous(tail, name) by {
        forall i, j, k | 0 <= i < j < k < |tail| && name(tail[i]) == name(tail[k])
          ensures name(tail[j]) == name(tail[i])
        {
          assert tail[i] == s[i + 1] && tail[j] == s[j + 1] && tail[k] == s[k + 1];
        }
      }
      var rest := Runs(tail, name);
      RunsSpec(s, name);
      RunsDistinct(tail, name);
      RunsAfterHead(s, name);
      var merged := rest != [] && rest[0] != [] && name(rest[0][0]) == name(s[0]);
      forall p, q | 0 <= p < q < |runs| ensures name(runs[p][0]) != name(runs[q][0]) {
        assert runs[q][0] in runs[q];
        if p == 0 {
          assert name(runs[0][0]) == name(s[0]);
        } else if merged {
          assert runs[p] == rest[p] && runs[q] == rest[q];
        } else {
          assert runs[p] == rest[p - 1] && runs[q] == rest[q - 1];
        }
      }
    }
  }

  /** No two course names of the students differ only in letter case. */
  ghost predicate CaseDistinct(s: seq<StudentView>) {
    forall i, j :: 0 <= i < |s| && 0 <= j < |s| && ToLower(s[i].courseName) == ToLower(s[j].courseName) ==>
      s[i].courseName == s[j].courseName
  }

  /** Sorted by course, the students of a course stand together, unless two names differ only in case. */
  lemma SortedCoursesContiguous(s: seq<StudentView>)
    requires SortedBy(s, ByCourse) && CaseDistinct(s)
    ensures Contiguous(s, CourseOf)
  {
    forall i, j, k | 0 <= i < j < k < |s| && CourseOf(s[i]) == CourseOf(s[k])
      ensures CourseOf(s[j]) == CourseOf(s[i])
    {
      assert ByCourse(s[i], s[j]) && ByCourse(s[j], s[k]);
      TextLeTransitive(ToLower(s[j].courseName), ToLower(s[k].courseName), ToLower(s[i].courseName));
      TiedCoursesLowerAlike(s[i], s[j]);
    }
  }

  /** A sheet of the workbook: its title and the students listed on it. */
  datatype SheetOut = SheetOut(title: string, students: seq<StudentView>)

  /** The title of a course's sheet: the name after a blank, or `Grado_Desconocido` for an empty name. */
  function SheetTitle(course: string): string {
    if course != "" then " " + course else UnknownGradeSheet
  }

  /** The workbook's sheets for the sorted students: one per run of a course, then `Todos`. */
  function ExcelSheets(sorted: seq<StudentView>): seq<SheetOut> {
    CourseSheets(Runs(sorted, CourseOf)) + [SheetOut(AllStudentsSheet, sorted)]
  }

  /** One sheet per group, titled after the group's course. */
  function CourseSheets(groups: seq<seq<StudentView>>): seq<SheetOut> {
    seq(|groups|, i requires 0 <= i < |groups| =>
      SheetOut(if groups[i] != [] then SheetTitle(groups[i][0].courseName) else UnknownGradeSheet, groups[i]))
  }

  /**
   * The workbook of `export_students_to_excel` for students already
   * prepared: one sheet for each group `groupby` yields, the default sheet
   * removed and the `Todos` sheet last.
   */
  method WorkbookSheets(sorted: seq<StudentView>) returns (sheets: seq<SheetOut>)
    ensures sheets == ExcelSheets(sorted)
  {
    var groups: seq<seq<StudentView>> := Runs(sorted, CourseOf);
    RunsSpec(sorted, CourseOf);
    sheets := MakeSheets(groups);
    sheets := sheets + [SheetOut(AllStudentsSheet, sorted)];
  }

  /** `export_students_to_excel`, without the files: the workbook of the prepared students. */
  method ExportToExcel(students: seq<StudentView>) returns (sheets: seq<SheetOut>)
    ensures sheets == ExcelSheets(SortBy(students, ByCourse))
  {
    var sorted := PrepareStudents(students);
    sheets := WorkbookSheets(sorted);
  }

  /** `export_students_to_excel` with the rank as evidently intended. */
  method ExportToExcelIntended(students: seq<StudentView>) returns (sheets: seq<SheetOut>)
    ensures sheets == ExcelSheets(SortBy(students, ByCourseIntended))
  {
    var sorted := PrepareStudentsIntended(students);
    sheets := WorkbookSheets(sorted);
  }

  /** The loop over the groups: one sheet per group, in order. */
  method MakeSheets(groups: seq<seq<StudentView>>) returns (sheets: seq<SheetOut>)
    requires forall g :: 0 <= g < |groups| ==> groups[g] != []
    ensures sheets == CourseSheets(groups)
  {
    sheets := [];
    for g := 0 to |groups|
      invariant |sheets| == g
      invariant forall i :: 0 <= i < g ==> sheets[i] == CourseSheets(groups)[i]
    {
      var courseName := groups[g][0].courseName;
      var title := if courseName != "" then " " + courseName else UnknownGradeSheet;
      sheets := sheets + [SheetOut(title, groups[g])];
    }
  }

  /**
   * The last sheet is `Todos` with every student, in the order given; the
   * sheets before it are the groups, in order, so together they hold every
   * student once.
   */
  lemma ExcelSheetsSpec(sorted: seq<StudentView>)
    ensures var sheets := ExcelSheets(sorted);
      && sheets != [] && sheets[|sheets| - 1] == SheetOut(AllStudentsSheet, sorted)
      && Flatten(seq(|sheets| - 1, i requires 0 <= i < |sheets| - 1 => sheets[i].students)) == sorted
  {
    RunsFlatten(sorted, CourseOf);
    var sheets := ExcelSheets(sorted);
    assert seq(|sheets| - 1, i requires 0 <= i < |sheets| - 1 => sheets[i].students) == Runs(sorted, CourseOf);
  }

  /**
   * Each sheet before `Todos` holds students of one course and is titled
   * after it; neighbouring sheets hold different courses.
   */
  lemma CourseSheetsSpec(sorted: seq<StudentView>)
    ensures var sheets := ExcelSheets(sorted);
      && (forall i :: 0 <= i < |sheets| - 1 ==>
            && sheets[i].students != []
            && sheets[i].title == SheetTitle(sheets[i].students[0].courseName)
            && forall x :: x in sheets[i].students ==> x.courseName == sheets[i].students[0].courseName)
      && (forall i :: 0 <= i < |sheets| - 2 ==> sheets[i].students[0].courseName != sheets[i + 1].students[0].courseName)
  {
    RunsSpec(sorted, CourseOf);
  }

  /** The sheets before the last are non-empty and no two of them hold the same course. */
  predicate DistinctCourseSheets(sheets: seq<SheetOut>) {
    forall p, q :: 0 <= p < q < |sheets| - 1 ==>
      sheets[p].students != [] && sheets[q].students != [] && sheets[p].students[0].courseName != sheets[q].students[0].courseName
  }

  /**
   * When no two course names differ only in case, every course has exactly
   * one sheet: the course sheets all have different courses.
   */
  lemma OneSheetPerCourse(students: seq<StudentView>)
    requires CaseDistinct(students)
    ensures DistinctCourseSheets(ExcelSheets(SortBy(students, ByCourse)))
  {
    SortedContiguous(students);
    ContiguousSheetsDistinct(SortBy(students, ByCourse));
  }

  /** Sorted by course, the students of each course stand together. */
  lemma SortedContiguous(students: seq<StudentView>)
    requires CaseDistinct(students)
    ensures Contiguous(SortBy(students, ByCourse), CourseOf)
  {
    ByCourseIsTotalPreorder();
    SortBySorted(students, ByCourse);
    SortedCaseDistinct(students);
    SortedCoursesContiguous(SortBy(students, ByCourse));
  }

  /** When each course's students stand together, no course has two sheets. */
  lemma ContiguousSheetsDistinct(sorted: seq<StudentView>)
    requires Contiguous(sorted, CourseOf)
    ensures DistinctCourseSheets(ExcelSheets(sorted))
  {
    RunsShape(sorted, CourseOf);
    RunsDistinct(sorted, CourseOf);
  }

  /** Sorting keeps the students, so it keeps course names that differ only in case apart. */
  lemma SortedCaseDistinct(students: seq<StudentView>)
    requires CaseDistinct(students)
    ensures CaseDistinct(SortBy(students, ByCourse))
  {
    var sorted := SortBy(students, ByCourse);
    SortByMembers(students, ByCourse);
    forall i, j | 0 <= i < |sorted| && 0 <= j < |sorted| && ToLower(sorted[i].courseName) == ToLower(sorted[j].courseName)
      ensures sorted[i].courseName == sorted[j].courseName
    {
      assert sorted[i] in students && sorted[j] in students;
      var a :| 0 <= a < |students| && students[a] == sorted[i];
      var b :| 0 <= b < |students| && students[b] == sorted[j];
    }
  }

  // ---------------------------------------------------------------- the PDF table

  /** The six cells of a student's line, in the order of `Headers`. */
  function Cells(v: StudentView): seq<string> {
    [v.identificacion, v.nombre, v.apellido, v.courseName, v.representante, v.telefono]
  }

  /**
   * The column widths of the PDF table: each starts at three units per
   * character of its title and grows to three per character of the longest
   * cell below it.
   */
  method ColumnWidths(rows: seq<StudentView>) returns (widths: array<int>)
    ensures fresh(widths) && widths.Length == |Headers|
    ensures forall c :: 0 <= c < |Headers| ==>
      && widths[c] >= 3 * |Headers[c]|
      && (forall r :: 0 <= r < |rows| ==> widths[c] >= 3 * |Cells(rows[r])[c]|)
      && (widths[c] == 3 * |Headers[c]| || exists r :: 0 <= r < |rows| && widths[c] == 3 * |Cells(rows[r])[c]|)
  {
    widths := new int[|Headers|](c requires 0 <= c < |Headers| => 3 * |Headers[c]|);
    for r := 0 to |rows|
      invariant forall c :: 0 <= c < |Headers| ==>
        && widths[c] >= 3 * |Headers[c]|
        && (forall q :: 0 <= q < r ==> widths[c] >= 3 * |Cells(rows[q])[c]|)
        && (widths[c] == 3 * |Headers[c]| || exists q :: 0 <= q < r && widths[c] == 3 * |Cells(rows[q])[c]|)
    {
      ghost var before := widths[..];
      Widen(widths, Cells(rows[r]));
      forall c | 0 <= c < |Headers|
        ensures widths[c] == 3 * |Headers[c]| || exists q :: 0 <= q <= r && widths[c] == 3 * |Cells(rows[q])[c]|
      {
        if widths[c] != before[c] {
          assert widths[c] == 3 * |Cells(rows[r])[c]|;
        }
      }
    }
  }

  /** One line of the table: each column grows to three units per character of its cell when that is wider. */
  method Widen(widths: array<int>, data: seq<string>)
    requires widths.Length == |data|
    modifies widths
    ensures forall c :: 0 <= c < |data| ==> widths[c] == if 3 * |data[c]| > old(widths[c]) then 3 * |data[c]| else old(widths[c])
  {
    for c := 0 to |data|
      invariant forall d :: 0 <= d < |data| ==>
        widths[d] == if d < c && 3 * |data[d]| > old(widths[d]) then 3 * |data[d]| else old(widths[d])
    {
      var contentWidth := |data[c]| * 3;
      if contentWidth > widths[c] {
        widths[c] := contentWidth;
      }
    }
  }

  /**
   * The body of `export_students_to_pdf` for a sort order `le`, without the
   * drawing: the records are copied, prepared, sorted once more by the same
   * key, and the column widths measured over them. The second sort keeps
   * the order of the first.
   */
  method PdfTable(students: seq<StudentView>, le: (StudentView, StudentView) -> bool)
    returns (rows: seq<StudentView>, widths: array<int>)
    requires TotalPreorder(le)
    ensures rows == SortBy(students, le)
    ensures fresh(widths) && widths.Length == |Headers|
    ensures forall c :: 0 <= c < |Headers| ==>
      && widths[c] >= 3 * |Headers[c]|
      && (forall r :: 0 <= r < |rows| ==> widths[c] >= 3 * |Cells(rows[r])[c]|)
      && (widths[c] == 3 * |Headers[c]| || exists r :: 0 <= r < |rows| && widths[c] == 3 * |Cells(rows[r])[c]|)
  {
    var withCourse: seq<StudentView> := [];
    for i := 0 to |students|
      invariant withCourse == students[..i]
    {
      withCourse := withCourse + [students[i]];
    }
    assert withCourse == students;
    var prepared := SortStudents(withCourse, le);
    rows := SortBy(prepared, le);
    SortByOfSorted(prepared, le);
    widths := ColumnWidths(rows);
  }

  /**
   * `export_students_to_pdf`, without the drawing: the rows in the order of
   * `course_sort_key` as written; every column at least as wide as its
   * title and every cell below it, and exactly as wide as one of them.
   */
  method ExportToPdf(students: seq<StudentView>) returns (rows: seq<StudentView>, widths: array<int>)
    ensures rows == SortBy(students, ByCourse)
    ensures fresh(widths) && widths.Length == |Headers|
    ensures forall c :: 0 <= c < |Headers| ==>
      && widths[c] >= 3 * |Headers[c]|
      && (forall r :: 0 <= r < |rows| ==> widths[c] >= 3 * |Cells(rows[r])[c]|)
      && (widths[c] == 3 * |Headers[c]| || exists r :: 0 <= r < |rows| && widths[c] == 3 * |Cells(rows[r])[c]|)
  {
    ByCourseIsTotalPreorder();
    rows, widths := PdfTable(students, ByCourse);
  }

  /** `export_students_to_pdf` with the rank as evidently intended. */
  method ExportToPdfIntended(students: seq<StudentView>) returns (rows: seq<StudentView>, widths: array<int>)
    ensures rows == SortBy(students, ByCourseIntended)
    ensures fresh(widths) && widths.Length == |Headers|
    ensures forall c :: 0 <= c < |Headers| ==>
      && widths[c] >= 3 * |Headers[c]|
      && (forall r :: 0 <= r < |rows| ==> widths[c] >= 3 * |Cells(rows[r])[c]|)
      && (widths[c] == 3 * |Headers[c]| || exists r :: 0 <= r < |rows| && widths[c] == 3 * |Cells(rows[r])[c]|)
  {
    ByCourseIntendedIsTotalPreorder();
    rows, widths := PdfTable(students, ByCourseIntended);
  }
}
