/**
 * Payments (src/controllers/payment_controller.py). A payment is inserted
 * and then given a receipt number built from its own new id and its
 * payment date; both statements run in one commit-or-rollback unit, so a
 * failure in either leaves the table as it was. The month and year queries
 * compare SQLite's `strftime` of the stored date with the requested text.
 */
module PaymentController {
  import opened Wrappers
  import opened Text
  import opened Table
  import opened Store
  import opened Timestamp

  // The texts the operations below return.
  const MsgPaymentRegistered: string := "Pago registrado exitosamente."
  const MsgPaymentError: string := "Error al registrar el pago: "

  // ---------------------------------------------------------------- receipt numbers

  /** `f"{n:04d}"` for a non-negative `n`: at least four digits, zero-padded on the left. */
  function Pad4(n: nat): (s: string)
  {
    if n < Pow10(4) then Digits(n, 4) else NatToString(n)
  }

  /** The padded number is all digits, at least four of them, and reads back as `n`. */
  lemma Pad4Spec(n: nat)
    ensures |Pad4(n)| >= 4
    ensures AllDigits(Pad4(n))
    ensures DigitsValue(Pad4(n)) == n
  {
    if n < Pow10(4) {
      DigitsSpec(n, 4);
    } else {
      var s := NatToString(n);
      if |s| < 4 {
        DigitsOfValue(s);
        assert Pow10(|s|) <= Pow10(3) by { PowMonotone(|s|, 3); }
        assert false;
      }
    }
  }

  lemma {:induction false} PowMonotone(a: nat, b: nat)
    requires a <= b
    ensures Pow10(a) <= Pow10(b)
  {
    if a < b {
      PowMonotone(a, b - 1);
    }
  }

  /** `strftime("%Y%m%d")`: the date with no separators. */
  function DatePart(dt: DateTime): (s: string)
    requires Valid(dt)
  {
    Digits(dt.year, 4) + Digits(dt.month, 2) + Digits(dt.day, 2)
  }

  /**
   * `_format_receipt`: the payment date read back with `strptime` and
   * rewritten as `YYYYMMDD`, a dash, and the payment id padded to four
   * digits. `None` when the date does not read back (the `ValueError` of
   * `strptime`).
   */
  function FormatReceipt(paymentDate: string, rawReceipt: nat): (r: Option<string>)
    ensures r.Some? <==> Parse(paymentDate).Some?
  {
    match Parse(paymentDate)
    case None => None
    case Some(dt) => Some(DatePart(dt) + "-" + Pad4(rawReceipt))
  }

  /**
   * A receipt number is the payment date's year, month and day digits with
   * the dashes dropped, a dash, and the id in at least four digits that read
   * back as the id: `2025-03-03 10:00:00` and id 5 give `20250303-0005`.
   */
  lemma ReceiptFields(paymentDate: string, rawReceipt: nat)
    requires Parse(paymentDate).Some?
    ensures var r := FormatReceipt(paymentDate, rawReceipt).value;
      && |r| >= 13
      && r[..8] == paymentDate[0..4] + paymentDate[5..7] + paymentDate[8..10]
      && r[8] == '-'
      && AllDigits(r[9..]) && DigitsValue(r[9..]) == rawReceipt
  {
    var dt := Parse(paymentDate).value;
    FormatParse(paymentDate);
    FieldsOfFormat(dt);
    Pad4Spec(rawReceipt);
    var r := FormatReceipt(paymentDate, rawReceipt).value;
    assert r == DatePart(dt) + "-" + Pad4(rawReceipt);
    assert r[..8] == DatePart(dt);
    assert r[9..] == Pad4(rawReceipt);
  }

  /** Two receipts built from different ids differ: the number identifies the payment. */
  lemma ReceiptsAreDistinct(date1: string, id1: nat, date2: string, id2: nat)
    requires Parse(date1).Some? && Parse(date2).Some? && id1 != id2
    ensures FormatReceipt(date1, id1) != FormatReceipt(date2, id2)
  {
    ReceiptFields(date1, id1);
    ReceiptFields(date2, id2);
  }

  // ---------------------------------------------------------------- register_payment

  /**
   * `register_payment`: inserts the payment dated `now`, then sets its
   * receipt number from the new id, inside one unit. `failure` is the text
   * of the storage error, if either statement raises one, in which case
   * neither write persists.
   */
  method RegisterPayment(
    db: Database, studentId: int, amount: Money, description: string, enrollmentId: Option<int>,
    now: DateTime, failure: Option<string>)
    returns (ok: bool, msg: string, receipt: Option<string>, paymentDate: Option<string>)
    requires db.Valid() && Valid(now)
    modifies db`payments, db`nextPaymentId
    ensures db.Valid()
    ensures ok <==> failure.None?
    ensures !ok ==> msg == MsgPaymentError + failure.value && receipt.None? && paymentDate.None? && unchanged(db)
    ensures ok ==> msg == MsgPaymentRegistered && paymentDate == Some(Format(now)) && receipt.Some?
    ensures ok ==> receipt == FormatReceipt(Format(now), old(db.nextPaymentId))
    ensures ok ==> db.nextPaymentId == old(db.nextPaymentId) + 1
    ensures ok ==> db.payments == old(db.payments) +
                     [Row(old(db.nextPaymentId), Payment(studentId, enrollmentId, amount, description, Format(now), receipt))]
  {
    var date := Format(now);
    var rawReceipt := db.nextPaymentId;
    ParseFormat(now);
    var formatted := FormatReceipt(date, rawReceipt);
    var staged := WithReceipt(db.payments, rawReceipt, Payment(studentId, enrollmentId, amount, description, date, None), formatted);
    if failure.Some? {
      return false, MsgPaymentError + failure.value, None, None;
    }
    var row := Row(rawReceipt, Payment(studentId, enrollmentId, amount, description, date, formatted));
    AppendWellFormed(db.payments, rawReceipt, row.val);
    db.payments := staged;
    db.nextPaymentId := rawReceipt + 1;
    return true, MsgPaymentRegistered, formatted, Some(date);
  }

  /**
   * The two statements of `register_payment` on the table: insert the row
   * with no receipt, then set the receipt of the row with the new id. Since
   * the id is new, only the inserted row gets the receipt.
   */
  function WithReceipt(t: seq<Row<Payment>>, id: int, p: Payment, receipt: Option<string>): (r: seq<Row<Payment>>)
    requires forall i :: 0 <= i < |t| ==> t[i].id != id
    ensures r == t + [Row(id, p.(receiptNumber := receipt))]
  {
    var isNew := (row: Row<Payment>) => row.id == id;
    var setReceipt := (q: Payment) => q.(receiptNumber := receipt);
    UpdateLast(t, Row(id, p), isNew, setReceipt);
    UpdateWhere(t + [Row(id, p)], isNew, setReceipt)
  }

  /** Every stored receipt number is the one its own row's id and date give. */
  ghost predicate ReceiptsMatchRows(t: seq<Row<Payment>>) {
    forall i :: 0 <= i < |t| ==> t[i].id >= 0 && t[i].val.receiptNumber == FormatReceipt(t[i].val.paymentDate, t[i].id)
  }

  /**
   * Registering a payment keeps every receipt number tied to its row: the
   * new row's receipt comes from the new id and the very date returned.
   */
  lemma RegisterKeepsReceiptsMatched(t: seq<Row<Payment>>, next: nat, p: Payment, now: DateTime)
    requires ReceiptsMatchRows(t) && Valid(now)
    requires p.paymentDate == Format(now) && p.receiptNumber == FormatReceipt(Format(now), next)
    ensures ReceiptsMatchRows(t + [Row(next, p)])
    ensures p.receiptNumber.Some?
  {
    ParseFormat(now);
    var t' := t + [Row(next, p)];
    forall i | 0 <= i < |t'| ensures t'[i].id >= 0 && t'[i].val.receiptNumber == FormatReceipt(t'[i].val.paymentDate, t'[i].id) {
      if i < |t| {
        assert t'[i] == t[i];
      }
    }
  }

  // ---------------------------------------------------------------- queries

  /** `get_payment_by_id`: the row with that id, or `None`. */
  function PaymentById(t: seq<Row<Payment>>, paymentId: int): (r: Option<Row<Payment>>)
    ensures r.None? <==> !HasId(t, paymentId)
    ensures r.Some? ==> r.value in t && r.value.id == paymentId
  {
    Find(t, paymentId)
  }

  /** The order of `ORDER BY payment_date DESC`. */
  predicate DateDesc(x: Row<Payment>, y: Row<Payment>) {
    TextLe(y.val.paymentDate, x.val.paymentDate)
  }

  lemma DateDescIsTotalPreorder()
    ensures TotalPreorder(DateDesc)
  {
    forall x: Row<Payment>, y: Row<Payment> ensures DateDesc(x, y) || DateDesc(y, x) {
      TextLeTotal(x.val.paymentDate, y.val.paymentDate);
    }
    forall x: Row<Payment>, y: Row<Payment>, z: Row<Payment> | DateDesc(x, y) && DateDesc(y, z)
      ensures DateDesc(x, z)
    {
      TextLeTransitive(z.val.paymentDate, y.val.paymentDate, x.val.paymentDate);
    }
  }

  /** The rows `WHERE student_id = ?` selects, in rowid order. */
  function PaymentsOf(t: seq<Row<Payment>>, studentId: int): seq<Row<Payment>> {
    Filter(t, (row: Row<Payment>) => row.val.studentId == studentId)
  }

  /** `get_payments_by_student`: exactly that student's payments, each once, latest date first. */
  function PaymentsByStudent(t: seq<Row<Payment>>, studentId: int): (r: seq<Row<Payment>>)
    ensures forall i :: 0 <= i < |r| ==> r[i] in t && r[i].val.studentId == studentId
    ensures forall i :: 0 <= i < |t| && t[i].val.studentId == studentId ==> t[i] in r
    ensures multiset(r) == multiset(PaymentsOf(t, studentId))
    ensures forall i, j :: 0 <= i < j < |r| ==> TextLe(r[j].val.paymentDate, r[i].val.paymentDate)
  {
    var mine := PaymentsOf(t, studentId);
    var r := SortBy(mine, DateDesc);
    DateDescIsTotalPreorder();
    SortBySorted(mine, DateDesc);
    SortByMembers(mine, DateDesc);
    assert forall i :: 0 <= i < |r| ==> r[i] in t && r[i].val.studentId == studentId by {
      forall i | 0 <= i < |r| ensures r[i] in t && r[i].val.studentId == studentId {
        assert r[i] in mine;
      }
    }
    r
  }

  /** SQLite's `strftime('%Y-%m', d)`: the month of a stored date, or NULL when it does not read as one. */
  function SqlMonth(d: string): (r: Option<string>)
  {
    match Parse(d)
    case None => None
    case Some(dt) => Some(MonthText(dt))
  }

  /** SQLite's `strftime('%Y', d)`. */
  function SqlYear(d: string): (r: Option<string>)
  {
    match Parse(d)
    case None => None
    case Some(dt) => Some(YearText(dt))
  }

  /** A date that reads back has its month and year as its first seven and four characters. */
  lemma SqlMonthYearArePrefixes(d: string)
    requires Parse(d).Some?
    ensures SqlMonth(d) == Some(d[..7])
    ensures SqlYear(d) == Some(d[..4])
  {
    FormatParse(d);
  }

  /** `get_payments_in_month("YYYY-MM")`: the payments whose date falls in that month, in rowid order. */
  function PaymentsInMonth(t: seq<Row<Payment>>, yearMonth: string): (r: seq<Row<Payment>>)
    ensures forall i :: 0 <= i < |r| ==> r[i] in t && SqlMonth(r[i].val.paymentDate) == Some(yearMonth)
    ensures forall i :: 0 <= i < |t| && SqlMonth(t[i].val.paymentDate) == Some(yearMonth) ==> t[i] in r
  {
    Filter(t, (row: Row<Payment>) => SqlMonth(row.val.paymentDate) == Some(yearMonth))
  }

  /** `get_payments_in_year(year)`: the payments whose date falls in that year, in rowid order. */
  function PaymentsInYear(t: seq<Row<Payment>>, year: int): (r: seq<Row<Payment>>)
    ensures forall i :: 0 <= i < |r| ==> r[i] in t && SqlYear(r[i].val.paymentDate) == Some(IntToString(year))
    ensures forall i :: 0 <= i < |t| && SqlYear(t[i].val.paymentDate) == Some(IntToString(year)) ==> t[i] in r
  {
    Filter(t, (row: Row<Payment>) => SqlYear(row.val.paymentDate) == Some(IntToString(year)))
  }

  /** A number of exactly `w` significant digits is written by `str` as its `w`-digit rendering. */
  lemma {:induction false} NatToStringIsDigits(n: nat, w: nat)
    requires 1 <= w && Pow10(w - 1) <= n < Pow10(w)
    ensures NatToString(n) == Digits(n, w)
  {
    if w == 1 {
      assert n < 10;
    } else {
      assert n >= 10;
      assert Pow10(w - 2) <= n / 10 < Pow10(w - 1);
      NatToStringIsDigits(n / 10, w - 1);
    }
  }

  /**
   * A payment stored with the date `now` is listed by the month query for
   * `now`'s `YYYY-MM` and by the year query for `now`'s year, and by no
   * other month or year.
   */
  lemma PaymentFallsInItsMonthAndYear(t: seq<Row<Payment>>, i: int, now: DateTime, yearMonth: string, year: int)
    requires 0 <= i < |t| && Valid(now) && t[i].val.paymentDate == Format(now)
    ensures t[i] in PaymentsInMonth(t, yearMonth) <==> yearMonth == Format(now)[..7]
    ensures t[i] in PaymentsInYear(t, year) <==> year == now.year
  {
    ParseFormat(now);
    NatToStringIsDigits(now.year, 4);
    DigitsSpec(now.year, 4);
  }
}
