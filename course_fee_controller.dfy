/**
 * Monthly fees per course and academic year
 * (src/controllers/course_fee_controller.py). `set_fee` is an upsert: it
 * updates the fee of every row for the `(course, year)` pair and inserts a
 * row only when the update matched none. The `course_fees` table is not
 * among those `create_tables` creates, so on a database made by it every
 * call meets a missing table: `set_fee` fails with SQLite's
 * "no such table" error and the getters fall back to `None` and `[]`.
 */
module CourseFeeController {
  import opened Wrappers
  import opened Table
  import opened Store

  // The texts the operations below return.
  const MsgFeeSet: string := "Tarifa establecida/actualizada correctamente."
  const MsgFeeError: string := "Error al establecer la tarifa: "
  /** SQLite's error text for a statement on the missing table. */
  const NoSuchFeeTable: string := "no such table: course_fees"

  /** The row is the fee of `courseId` in `academicYear`: the `WHERE` of every fee query. */
  predicate IsFeeOf(row: Row<CourseFee>, courseId: int, academicYear: int) {
    row.val.courseId == courseId && row.val.academicYear == academicYear
  }

  /** `IsFeeOf` as the condition of a query. */
  function SameKey(courseId: int, academicYear: int): Row<CourseFee> -> bool {
    (row: Row<CourseFee>) => IsFeeOf(row, courseId, academicYear)
  }

  /** `SET fee = ?`. */
  function WithFee(fee: Money): CourseFee -> CourseFee {
    (f: CourseFee) => f.(fee := fee)
  }

  /** At most one row per `(course, year)` pair. */
  ghost predicate UniqueFeeKeys(t: seq<Row<CourseFee>>) {
    forall i, j :: 0 <= i < j < |t| ==>
      t[i].val.courseId != t[j].val.courseId || t[i].val.academicYear != t[j].val.academicYear
  }

  /** `get_fee`: the fee of the first row for the pair, or `None` when there is none or no table. */
  function GetFee(fees: Option<seq<Row<CourseFee>>>, courseId: int, academicYear: int): (r: Option<Money>)
    ensures r.None? <==> fees.None? || forall i :: 0 <= i < |fees.value| ==> !IsFeeOf(fees.value[i], courseId, academicYear)
    ensures r.Some? ==> exists i :: 0 <= i < |fees.value| && IsFeeOf(fees.value[i], courseId, academicYear) &&
                                    fees.value[i].val.fee == r.value
  {
    match fees
    case None => None
    case Some(t) =>
      match FirstWhere(t, SameKey(courseId, academicYear))
      case None => None
      case Some(k) => Some(t[k].val.fee)
  }

  /** `get_all_fees`: exactly the rows of that academic year, in rowid order; `[]` without the table. */
  function GetAllFees(fees: Option<seq<Row<CourseFee>>>, academicYear: int): (r: seq<Row<CourseFee>>)
    ensures fees.None? ==> r == []
    ensures fees.Some? ==> forall i :: 0 <= i < |r| ==> r[i] in fees.value && r[i].val.academicYear == academicYear
    ensures fees.Some? ==> forall i :: 0 <= i < |fees.value| && fees.value[i].val.academicYear == academicYear ==>
                             fees.value[i] in r
  {
    match fees
    case None => []
    case Some(t) => Filter(t, (row: Row<CourseFee>) => row.val.academicYear == academicYear)
  }

  /** The table after `set_fee` succeeds, with the counter after it. */
  function Upsert(t: seq<Row<CourseFee>>, next: int, courseId: int, academicYear: int, fee: Money)
    : (r: (seq<Row<CourseFee>>, int))
  {
    var matches := SameKey(courseId, academicYear);
    if Filter(t, matches) == [] then (t + [Row(next, CourseFee(courseId, academicYear, fee))], next + 1)
    else (UpdateWhere(t, matches, WithFee(fee)), next)
  }

  /**
   * `set_fee`: the update, then the insert when the update matched no row,
   * in one unit. Without the table the first statement fails; `failure` is
   * the text of any other storage error, after which nothing persists.
   */
  method SetFee(db: Database, courseId: int, academicYear: int, fee: Money, failure: Option<string>)
    returns (ok: bool, msg: string)
    requires db.Valid()
    modifies db`courseFees, db`nextFeeId
    ensures db.Valid()
    ensures ok <==> old(db.courseFees).Some? && failure.None?
    ensures old(db.courseFees).None? ==> msg == MsgFeeError + NoSuchFeeTable
    ensures old(db.courseFees).Some? && failure.Some? ==> msg == MsgFeeError + failure.value
    ensures !ok ==> unchanged(db)
    ensures ok ==> msg == MsgFeeSet
    ensures ok ==> db.courseFees == Some(Upsert(old(db.courseFees.value), old(db.nextFeeId), courseId, academicYear, fee).0)
    ensures ok ==> db.nextFeeId == Upsert(old(db.courseFees.value), old(db.nextFeeId), courseId, academicYear, fee).1
  {
    if db.courseFees.None? {
      return false, MsgFeeError + NoSuchFeeTable;
    }
    var t := db.courseFees.value;
    UpsertWellFormed(t, db.nextFeeId, courseId, academicYear, fee);
    var staged, next := UpdateThenInsert(t, db.nextFeeId, courseId, academicYear, fee);
    if failure.Some? {
      return false, MsgFeeError + failure.value;
    }
    db.courseFees := Some(staged);
    db.nextFeeId := next;
    return true, MsgFeeSet;
  }

  /**
   * The two statements of `set_fee` on the rows: the update of the pair's
   * rows, then, when `rowcount` says it matched none, the insert.
   */
  method UpdateThenInsert(t: seq<Row<CourseFee>>, next: int, courseId: int, academicYear: int, fee: Money)
    returns (staged: seq<Row<CourseFee>>, next': int)
    ensures (staged, next') == Upsert(t, next, courseId, academicYear, fee)
  {
    var matches := SameKey(courseId, academicYear);
    staged := UpdateWhere(t, matches, WithFee(fee));
    next' := next;
    var rowcount := |Filter(t, matches)|;
    if rowcount == 0 {
      FilterEmpty(t, matches);
      UpdateNothing(t, matches, WithFee(fee));
      staged := staged + [Row(next, CourseFee(courseId, academicYear, fee))];
      next' := next + 1;
    }
  }

  /** The upsert keeps the table well formed under its counter. */
  lemma UpsertWellFormed(t: seq<Row<CourseFee>>, next: int, courseId: int, academicYear: int, fee: Money)
    requires WellFormed(t, next)
    ensures var (r, next') := Upsert(t, next, courseId, academicYear, fee); WellFormed(r, next')
  {
    var matches := SameKey(courseId, academicYear);
    if Filter(t, matches) == [] {
      AppendWellFormed(t, next, CourseFee(courseId, academicYear, fee));
    } else {
      UpdateWellFormed(t, next, matches, WithFee(fee));
    }
  }

  /** After setting a fee, reading it back gives that fee. */
  lemma SetThenGet(t: seq<Row<CourseFee>>, next: int, courseId: int, academicYear: int, fee: Money)
    ensures GetFee(Some(Upsert(t, next, courseId, academicYear, fee).0), courseId, academicYear) == Some(fee)
  {
    var matches := SameKey(courseId, academicYear);
    var r := Upsert(t, next, courseId, academicYear, fee).0;
    if Filter(t, matches) == [] {
      FilterEmpty(t, matches);
      FirstWhereAt(r, matches, |t|);
    } else {
      var k := FirstWhere(r, matches);
      assert r[0..|r|] == r;
    }
  }

  /** Setting one pair's fee leaves the fee of every other pair as it was. */
  lemma SetLeavesOtherFees(
    t: seq<Row<CourseFee>>, next: int, courseId: int, academicYear: int, fee: Money, c: int, y: int)
    requires c != courseId || y != academicYear
    ensures GetFee(Some(Upsert(t, next, courseId, academicYear, fee).0), c, y) == GetFee(Some(t), c, y)
  {
    var other := SameKey(c, y);
    var r := Upsert(t, next, courseId, academicYear, fee).0;
    match FirstWhere(t, other)
    case None =>
      assert forall i :: 0 <= i < |r| ==> !other(r[i]) by {
        forall i | 0 <= i < |r| ensures !other(r[i]) {
          if i < |t| { assert r[i].val.courseId == t[i].val.courseId && r[i].val.academicYear == t[i].val.academicYear; }
        }
      }
    case Some(k) =>
      assert r[k] == Row(t[k].id, t[k].val);
      assert forall i :: 0 <= i < k ==> !other(r[i]) by {
        forall i | 0 <= i < k ensures !other(r[i]) {
          assert r[i].val.courseId == t[i].val.courseId && r[i].val.academicYear == t[i].val.academicYear;
        }
      }
      FirstWhereAt(r, other, k);
  }

  /**
   * `set_fee` inserts exactly when no row holds the pair and otherwise
   * updates in place, so a table with one row per pair keeps one row per pair.
   */
  lemma UpsertKeepsKeysUnique(t: seq<Row<CourseFee>>, next: int, courseId: int, academicYear: int, fee: Money)
    requires UniqueFeeKeys(t)
    ensures var r := Upsert(t, next, courseId, academicYear, fee).0;
      && UniqueFeeKeys(r)
      && (|r| == |t| + 1 <==> forall i :: 0 <= i < |t| ==> !IsFeeOf(t[i], courseId, academicYear))
      && (|r| == |t| <==> exists i :: 0 <= i < |t| && IsFeeOf(t[i], courseId, academicYear))
  {
    var matches := SameKey(courseId, academicYear);
    var r := Upsert(t, next, courseId, academicYear, fee).0;
    if Filter(t, matches) == [] {
      FilterEmpty(t, matches);
      forall i, j | 0 <= i < j < |r|
        ensures r[i].val.courseId != r[j].val.courseId || r[i].val.academicYear != r[j].val.academicYear
      {
        if j == |t| { assert !matches(t[i]); }
      }
    } else {
      var x := Filter(t, matches)[0];
      assert x in t && matches(x);
    }
  }

  /** On the schema `create_tables` builds, no fee can be set and none is ever read. */
  lemma FeesWithoutTable(courseId: int, academicYear: int)
    ensures GetFee(None, courseId, academicYear).None?
    ensures GetAllFees(None, academicYear) == []
  {
  }
}
