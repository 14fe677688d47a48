/**
 * The grade progression of the school (src/utils/progression.py): a fixed
 * table from each of the fourteen grade labels to the next one, the last
 * grade mapping to itself. The lookup lower-cases its input and echoes
 * unrecognised input back unchanged.
 */
module Progression {
  import opened Text

  /** The fourteen grades in schooling order, from `pre-jardin` to `once`. */
  const Grades: seq<string> := [
    "pre-jardin", "jardin", "transicion", "primero", "segundo", "tercero", "cuarto",
    "quinto", "sexto", "septimo", "octavo", "noveno", "decimo", "once"
  ]

  const FinalGrade: string := "once"

  /** The successor table exactly as the source writes it. */
  const Successors: map<string, string> := map[
    "pre-jardin" := "jardin",
    "jardin" := "transicion",
    "transicion" := "primero",
    "primero" := "segundo",
    "segundo" := "tercero",
    "tercero" := "cuarto",
    "cuarto" := "quinto",
    "quinto" := "sexto",
    "sexto" := "septimo",
    "septimo" := "octavo",
    "octavo" := "noveno",
    "noveno" := "decimo",
    "decimo" := "once",
    "once" := "once"
  ]

  /** Position of a grade label in `Grades`. */
  function GradeRank(g: string): (k: nat)
    requires g in Grades
    ensures k < |Grades| && Grades[k] == g
  {
    if g == Grades[0] then 0 else if g == Grades[1] then 1 else if g == Grades[2] then 2
    else if g == Grades[3] then 3 else if g == Grades[4] then 4 else if g == Grades[5] then 5
    else if g == Grades[6] then 6 else if g == Grades[7] then 7 else if g == Grades[8] then 8
    else if g == Grades[9] then 9 else if g == Grades[10] then 10 else if g == Grades[11] then 11
    else if g == Grades[12] then 12 else 13
  }

  /**
   * `get_next_course`: the successor of the lower-cased label in the linear
   * order of `Grades` (the last grade is its own successor); input whose
   * lower-case form is not a grade label comes back unchanged, casing included.
   */
  function GetNextCourse(currentCourseName: string): (r: string)
    ensures ToLower(currentCourseName) in Grades ==>
      r in Grades && r == Grades[if GradeRank(ToLower(currentCourseName)) == 13 then 13 else GradeRank(ToLower(currentCourseName)) + 1]
    ensures ToLower(currentCourseName) !in Grades ==> r == currentCourseName
  {
    var key := ToLower(currentCourseName);
    SuccessorsFollowGrades();
    if key in Successors then Successors[key] else currentCourseName
  }

  /** The dictionary and the ordered list describe the same linear sequence. */
  lemma SuccessorsFollowGrades()
    ensures Successors.Keys == set g | g in Grades
    ensures forall k :: 0 <= k < 13 ==> Successors[Grades[k]] == Grades[k + 1]
    ensures Successors[FinalGrade] == FinalGrade
  {
  }

  /** Every grade label is written in lower case. */
  lemma GradesAreLowered()
    ensures forall k :: 0 <= k < |Grades| ==> IsLowered(Grades[k])
  {
  }

  /** Each of the thirteen non-final grades is followed by the next label, which differs from it. */
  lemma DocumentedSuccessors()
    ensures forall k :: 0 <= k < 13 ==> GetNextCourse(Grades[k]) == Grades[k + 1] != Grades[k]
  {
    forall k | 0 <= k < 13 ensures GetNextCourse(Grades[k]) == Grades[k + 1] != Grades[k] {
      SuccessorAt(k);
    }
  }

  lemma SuccessorAt(k: nat)
    requires k < 13
    ensures GetNextCourse(Grades[k]) == Grades[k + 1] != Grades[k]
  {
    GradesAreLowered();
    LoweredIsFixed(Grades[k]);
    SuccessorsFollowGrades();
  }

  /** `n` successive applications of `get_next_course`. */
  function Advance(name: string, n: nat): string {
    if n == 0 then name else GetNextCourse(Advance(name, n - 1))
  }

  /** The final grade is a fixed point, however often the lookup is repeated. */
  lemma {:induction false} FinalGradeIsFixed(n: nat)
    ensures Advance(FinalGrade, n) == FinalGrade
  {
    if n > 0 {
      FinalGradeIsFixed(n - 1);
      assert ToLower(FinalGrade) == FinalGrade by {
        LoweredIsFixed(FinalGrade);
      }
    }
  }

  /** Starting at the first grade, `k` steps reach the `k`-th grade: the progression is one linear chain. */
  lemma {:induction false} ChainFromFirstGrade(k: nat)
    requires k < |Grades|
    ensures Advance(Grades[0], k) == Grades[k]
  {
    if k > 0 {
      ChainFromFirstGrade(k - 1);
      DocumentedSuccessors();
    }
  }

  /** Thirteen promotions take `pre-jardin` to `once`. */
  lemma ThirteenStepsToFinal()
    ensures Advance("pre-jardin", 13) == FinalGrade
  {
    ChainFromFirstGrade(13);
  }

  /** The lookup is case-insensitive: an upper-cased grade label has the same successor. */
  lemma CaseInsensitive(g: string)
    requires g in Grades
    ensures GetNextCourse(ToUpper(g)) == GetNextCourse(g)
  {
    GradesAreLowered();
    LowerOfUpper(g);
    LoweredIsFixed(g);
  }

  /** Only the lower-case form of the input matters, for any two inputs that name a grade. */
  lemma SameLowerSameSuccessor(a: string, b: string)
    requires ToLower(a) == ToLower(b) && ToLower(a) in Grades
    ensures GetNextCourse(a) == GetNextCourse(b)
  {
  }

  /** No accent folding: `Transición` is not recognised and is echoed back as it is. */
  lemma AccentedLabelIsEchoed()
    ensures GetNextCourse("Transición") == "Transición"
  {
    var lowered := ToLower("Transición");
    assert lowered[8] == 'ó';
    assert lowered !in Grades;
  }

  /**
   * The lookup returns its input exactly when the input is the final grade
   * written in lower case, or is not a grade label at all. A final grade written
   * with capitals (`Once`) is therefore not a fixed point.
   */
  lemma FixedPointIff(name: string)
    ensures GetNextCourse(name) == name <==> (name == FinalGrade || ToLower(name) !in Grades)
  {
    if ToLower(name) in Grades {
      var k := GradeRank(ToLower(name));
      if k < 13 {
        NonFinalMoves(name, k);
      } else {
        LoweredIsFixed(FinalGrade);
      }
    }
  }

  /** A name whose lower-case form is a non-final grade is neither the final grade nor a fixed point. */
  lemma NonFinalMoves(name: string, k: nat)
    requires k < 13 && ToLower(name) == Grades[k]
    ensures GetNextCourse(name) != name && name != FinalGrade
  {
    NonFinalIsNotFinal(name, k);
    SuccessorAt(k);
    GradesAreLowered();
    LoweredIsFixed(Grades[k]);
    SameLowerSameSuccessor(name, Grades[k]);
    if GetNextCourse(name) == name {
      LoweredIsFixed(Grades[k + 1]);
      assert false;
    }
  }

  lemma NonFinalIsNotFinal(name: string, k: nat)
    requires k < 13 && ToLower(name) == Grades[k]
    ensures name != FinalGrade
  {
    if name == FinalGrade {
      LoweredIsFixed(FinalGrade);
      assert false;
    }
  }
}
