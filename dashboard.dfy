/**
 * The counting part of the statistics dashboard (`load_stats`): the number of
 * courses and students, the number of distinct course names in use, the
 * students per course name, and the students with no payment in the current
 * month. The money totals and the report text are not modelled. The current
 * month comes from the clock and is a parameter here.
 */
module Dashboard {
  import opened Table
  import opened Store
  import opened StudentController
  import opened PaymentController

  // ---------------------------------------------------------------- students per course

  /** How many students of `s` carry the course name `name`. */
  function CountOf(s: seq<StudentView>, name: string): nat {
    if s == [] then 0
    else CountOf(s[..|s| - 1], name) + (if s[|s| - 1].courseName == name then 1 else 0)
  }

  /**
   * The course names of `s` in the order they first appear, each once: the
   * key order of a Python dict filled by walking `s`.
   */
  function FirstAppearances(s: seq<StudentView>): (r: seq<string>)
    ensures forall i, j :: 0 <= i < j < |r| ==> r[i] != r[j]
  {
    if s == [] then []
    else
      var r := FirstAppearances(s[..|s| - 1]);
      if s[|s| - 1].courseName in r then r else r + [s[|s| - 1].courseName]
  }

  /** The listed names are exactly the course names the students carry. */
  lemma {:induction false} FirstAppearancesMembers(s: seq<StudentView>, name: string)
    ensures name in FirstAppearances(s) <==> exists i :: 0 <= i < |s| && s[i].courseName == name
  {
    if s != [] {
      var init := s[..|s| - 1];
      FirstAppearancesMembers(init, name);
      if name in FirstAppearances(init) {
        var i :| 0 <= i < |init| && init[i].courseName == name;
        assert s[i] == init[i];
      }
      if exists i :: 0 <= i < |s| && s[i].courseName == name {
        var i :| 0 <= i < |s| && s[i].courseName == name;
        if i < |init| {
          assert init[i] == s[i];
        }
      }
    }
  }

  /** The sum of the counts of `names`. */
  function SumCounts(names: seq<string>, counts: map<string, nat>): nat
    requires forall n :: n in names ==> n in counts
  {
    if names == [] then 0
    else SumCounts(names[..|names| - 1], counts) + counts[names[|names| - 1]]
  }

  /** Changing the count of a name that is not listed does not change the sum. */
  lemma {:induction false} SumOutside(names: seq<string>, counts: map<string, nat>, name: string, v: nat)
    requires forall n :: n in names ==> n in counts
    requires name !in names
    ensures SumCounts(names, counts[name := v]) == SumCounts(names, counts)
  {
    if names != [] {
      SumOutside(names[..|names| - 1], counts, name, v);
    }
  }

  /** Listing a new name with count `v` adds `v` to the sum. */
  lemma SumAppend(names: seq<string>, counts: map<string, nat>, name: string, v: nat)
    requires forall n :: n in names ==> n in counts
    requires name !in names
    ensures SumCounts(names + [name], counts[name := v]) == SumCounts(names, counts) + v
  {
    assert (names + [name])[..|names|] == names;
    SumOutside(names, counts, name, v);
  }

  /** Adding one to the count of a name listed once adds one to the sum. */
  lemma {:induction false} SumIncrement(names: seq<string>, counts: map<string, nat>, name: string)
    requires forall n :: n in names ==> n in counts
    requires forall i, j :: 0 <= i < j < |names| ==> names[i] != names[j]
    requires name in names
    ensures SumCounts(names, counts[name := counts[name] + 1]) == SumCounts(names, counts) + 1
  {
    var init, last := names[..|names| - 1], names[|names| - 1];
    if last == name {
      assert name !in init by {
        forall i | 0 <= i < |init| ensures init[i] != name {
          assert init[i] == names[i];
        }
      }
      SumOutside(init, counts, name, counts[name] + 1);
    } else {
      assert name in init by {
        var i :| 0 <= i < |names| && names[i] == name;
        assert i < |names| - 1 && init[i] == name;
      }
      SumIncrement(init, counts, name);
    }
  }

  /** The counts of `course_count_map` after walking `s`: one more for each student's course name. */
  function CountMap(s: seq<StudentView>): map<string, nat> {
    if s == [] then map[]
    else
      var m := CountMap(s[..|s| - 1]);
      var c := s[|s| - 1].courseName;
      m[c := (if c in m then m[c] else 0) + 1]
  }

  /** The count map has a key for exactly the listed course names. */
  lemma {:induction false} CountMapKeys(s: seq<StudentView>)
    ensures forall n :: n in CountMap(s) <==> n in FirstAppearances(s)
  {
    if s != [] {
      CountMapKeys(s[..|s| - 1]);
    }
  }

  /** The count of each key is the number of students carrying that course name. */
  lemma {:induction false} CountMapValues(s: seq<StudentView>)
    ensures forall n :: n in CountMap(s) ==> CountMap(s)[n] == CountOf(s, n)
  {
    if s != [] {
      var init, x := s[..|s| - 1], s[|s| - 1];
      CountMapValues(init);
      forall n | n in CountMap(s) ensures CountMap(s)[n] == CountOf(s, n) {
        if n == x.courseName && n !in CountMap(init) {
          CountMapKeys(init);
          CountPositiveIffListed(init, n);
        }
      }
    }
  }

  /** Every student is counted once: the counts add up to the number of students. */
  lemma {:induction false} CountMapSum(s: seq<StudentView>)
    ensures forall n :: n in FirstAppearances(s) ==> n in CountMap(s)
    ensures SumCounts(FirstAppearances(s), CountMap(s)) == |s|
  {
    if s != [] {
      var init := s[..|s| - 1];
      CountMapSum(init);
      CountMapKeys(init);
      SumStep(FirstAppearances(init), CountMap(init), s[|s| - 1].courseName, FirstAppearances(s), CountMap(s));
    }
  }

  /** One more student adds one to the sum, whether its course name is new or not. */
  lemma SumStep(names: seq<string>, counts: map<string, nat>, c: string, names': seq<string>, counts': map<string, nat>)
    requires forall n :: n in names ==> n in counts
    requires forall i, j :: 0 <= i < j < |names| ==> names[i] != names[j]
    requires c in counts <==> c in names
    requires names' == if c in names then names else names + [c]
    requires counts' == counts[c := (if c in counts then counts[c] else 0) + 1]
    ensures forall n :: n in names' ==> n in counts'
    ensures SumCounts(names', counts') == SumCounts(names, counts) + 1
  {
    if c in names {
      SumIncrement(names, counts, c);
    } else {
      SumAppend(names, counts, c, 1);
    }
  }

  /** Walking one more student: a new name goes to the end, and its count goes up by one. */
  lemma TallyStep(s: seq<StudentView>, i: nat)
    requires i < |s|
    ensures var names, c := FirstAppearances(s[..i]), s[i].courseName;
      FirstAppearances(s[..i + 1]) == if c in names then names else names + [c]
    ensures var counts, c := CountMap(s[..i]), s[i].courseName;
      CountMap(s[..i + 1]) == counts[c := (if c in counts then counts[c] else 0) + 1]
  {
    assert s[..i + 1][..i] == s[..i];
  }

  /**
   * The `course_count_map` loop: one count per course name, keys in order of
   * first appearance (a Python dict keeps insertion order). Every student is
   * counted once, so the counts add up to the number of students.
   */
  method CountByCourse(students: seq<StudentView>) returns (names: seq<string>, counts: map<string, nat>)
    ensures names == FirstAppearances(students) && counts == CountMap(students)
    ensures forall n :: n in counts <==> n in names
    ensures forall n :: n in counts ==> counts[n] == CountOf(students, n)
    ensures SumCounts(names, counts) == |students|
  {
    names, counts := [], map[];
    for i := 0 to |students|
      invariant names == FirstAppearances(students[..i]) && counts == CountMap(students[..i])
    {
      var c := students[i].courseName;
      CountMapKeys(students[..i]);
      TallyStep(students, i);
      var previous := if c in counts then counts[c] else 0;
      if c !in counts {
        names := names + [c];
      }
      counts := counts[c := previous + 1];
    }
    assert students[..|students|] == students;
    CountMapKeys(students);
    CountMapValues(students);
    CountMapSum(students);
  }

  /** A course name has a positive count exactly when some student carries it. */
  lemma {:induction false} CountPositiveIffCarried(s: seq<StudentView>, name: string)
    ensures CountOf(s, name) > 0 <==> exists i :: 0 <= i < |s| && s[i].courseName == name
  {
    if s != [] {
      var init := s[..|s| - 1];
      CountPositiveIffCarried(init, name);
      if CountOf(init, name) > 0 {
        var i :| 0 <= i < |init| && init[i].courseName == name;
        assert s[i] == init[i];
      }
      if s[|s| - 1].courseName != name && exists i :: 0 <= i < |s| && s[i].courseName == name {
        var i :| 0 <= i < |s| && s[i].courseName == name;
        assert init[i] == s[i];
      }
    }
  }

  /** The keys of the count map are exactly the course names with a positive count. */
  lemma CountPositiveIffListed(s: seq<StudentView>, name: string)
    ensures CountOf(s, name) > 0 <==> name in FirstAppearances(s)
  {
    CountPositiveIffCarried(s, name);
    FirstAppearancesMembers(s, name);
  }

  // ---------------------------------------------------------------- courses with students

  /** `set(stu["course_name"] for stu in all_students if stu.get("course_name"))`. */
  function CourseNamesInUse(students: seq<StudentView>): set<string> {
    set i | 0 <= i < |students| && students[i].courseName != "" :: students[i].courseName
  }

  /** `courses_with_students`. */
  function CoursesWithStudents(students: seq<StudentView>): nat {
    |CourseNamesInUse(students)|
  }

  /** A sequence without repeats has as many distinct elements as entries. */
  lemma {:induction false} DistinctCard(s: seq<string>)
    requires forall i, j :: 0 <= i < j < |s| ==> s[i] != s[j]
    ensures |set x | x in s| == |s|
  {
    if s != [] {
      var init := s[..|s| - 1];
      DistinctCard(init);
      assert (set x | x in s) == (set x | x in init) + {s[|s| - 1]};
      assert s[|s| - 1] !in init by {
        forall i | 0 <= i < |init| ensures init[i] != s[|s| - 1] {
          assert init[i] == s[i];
        }
      }
    }
  }

  /**
   * The number of courses with students is the number of keys of the count
   * map other than the empty name.
   */
  lemma CoursesWithStudentsAreNonEmptyKeys(students: seq<StudentView>)
    ensures CoursesWithStudents(students) == |Filter(FirstAppearances(students), (n: string) => n != "")|
  {
    var keys := FirstAppearances(students);
    var named := Filter(keys, (n: string) => n != "");
    FilterDistinct(keys, (n: string) => n != "");
    DistinctCard(named);
    forall n ensures n in named <==> n in CourseNamesInUse(students) {
      FirstAppearancesMembers(students, n);
      if n in CourseNamesInUse(students) {
        var i :| 0 <= i < |students| && students[i].courseName != "" && students[i].courseName == n;
      }
    }
    assert (set x | x in named) == CourseNamesInUse(students);
  }

  /**
   * A student without a course is shown under "N/A", so "N/A" counts as a
   * course with students.
   */
  lemma NoCourseCountsAsCourse(rows: seq<Row<Student>>, courses: seq<Row<Course>>, i: int)
    requires 0 <= i < |rows| && rows[i].val.courseId.None?
    ensures "N/A" in CourseNamesInUse(AllStudents(rows, courses))
  {
    var all := AllStudents(rows, courses);
    assert all[i].courseName == "N/A";
  }

  // ---------------------------------------------------------------- students without a payment

  /** The ids of the students who paid, from this month's payments. */
  function PayerIds(payments: seq<Row<Payment>>): set<int> {
    set i | 0 <= i < |payments| :: payments[i].val.studentId
  }

  function Unpaid(payers: set<int>): StudentView -> bool {
    (v: StudentView) => v.id !in payers
  }

  /** `students_without_payment_this_month`: the students whose id is not among the payers. */
  function WithoutPayment(students: seq<StudentView>, payments: seq<Row<Payment>>): (r: seq<StudentView>)
    ensures |r| <= |students|
    ensures forall k :: 0 <= k < |r| ==> r[k] in students && r[k].id !in PayerIds(payments)
    ensures forall i :: 0 <= i < |students| && students[i].id !in PayerIds(payments) ==> students[i] in r
  {
    Filter(students, Unpaid(PayerIds(payments)))
  }

  /** The students without a payment keep the order of the full list. */
  lemma WithoutPaymentKeepsOrder(students: seq<StudentView>, payments: seq<Row<Payment>>)
    ensures |WithoutPayment(students, payments)| == |Positions(students, Unpaid(PayerIds(payments)), 0)|
    ensures forall k :: 0 <= k < |WithoutPayment(students, payments)| ==>
      WithoutPayment(students, payments)[k] == students[Positions(students, Unpaid(PayerIds(payments)), 0)[k]]
  {
    assert students[0..] == students;
    FilterAtPositions(students, Unpaid(PayerIds(payments)), 0);
  }

  // ---------------------------------------------------------------- load_stats

  datatype Stats = Stats(
    totalCourses: nat,
    coursesWithStudents: nat,
    totalStudents: nat,
    courseNames: seq<string>,
    courseCounts: map<string, nat>,
    withoutPayment: seq<StudentView>)

  /** The counts `load_stats` shows, for the current month `currentMonth` ("YYYY-MM"). */
  method LoadStats(db: Database, currentMonth: string) returns (st: Stats)
    ensures st.totalCourses == |db.courses|
    ensures st.totalStudents == |db.students|
    ensures st.coursesWithStudents == CoursesWithStudents(AllStudents(db.students, db.courses))
    ensures forall n :: n in st.courseCounts <==> n in st.courseNames
    ensures SumCounts(st.courseNames, st.courseCounts) == st.totalStudents
    ensures forall n :: n in st.courseCounts ==>
      st.courseCounts[n] == CountOf(AllStudents(db.students, db.courses), n)
    ensures st.withoutPayment ==
      WithoutPayment(AllStudents(db.students, db.courses), PaymentsInMonth(db.payments, currentMonth))
  {
    var allStudents := AllStudents(db.students, db.courses);
    var names, counts := CountByCourse(allStudents);
    var paymentsMonth := PaymentsInMonth(db.payments, currentMonth);
    st := Stats(|db.courses|, CoursesWithStudents(allStudents), |allStudents|, names, counts,
                WithoutPayment(allStudents, paymentsMonth));
  }
}
