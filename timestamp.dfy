/**
 * Wall-clock time as the application writes it: `datetime.now()` rendered
 * with `strftime("%Y-%m-%d %H:%M:%S")`, stored as text in the
 * `date_enrolled` and `payment_date` columns, and read back with
 * `strptime` when a receipt number is built. The clock itself is not
 * modelled: the current time is a parameter of every operation that reads it.
 */
module Timestamp {
  import opened Wrappers
  import opened Text

  datatype DateTime = DateTime(year: int, month: int, day: int, hour: int, minute: int, second: int)

  predicate IsLeapYear(y: int) {
    y % 4 == 0 && (y % 100 != 0 || y % 400 == 0)
  }

  function DaysInMonth(y: int, m: int): int {
    if m == 2 then (if IsLeapYear(y) then 29 else 28)
    else if m == 4 || m == 6 || m == 9 || m == 11 then 30
    else 31
  }

  /** A calendar date and time of day whose year has the four digits `%Y` writes. */
  predicate Valid(dt: DateTime) {
    1000 <= dt.year <= 9999 && 1 <= dt.month <= 12 && 1 <= dt.day <= DaysInMonth(dt.year, dt.month) &&
    0 <= dt.hour < 24 && 0 <= dt.minute < 60 && 0 <= dt.second < 60
  }

  function Pow10(w: nat): (p: nat)
    ensures p >= 1
  {
    if w == 0 then 1 else 10 * Pow10(w - 1)
  }

  function DigitChar(d: nat): (c: char)
    requires d < 10
    ensures IsDigit(c) && c as int - '0' as int == d
  {
    ('0' as int + d) as char
  }

  predicate AllDigits(s: string) {
    forall i :: 0 <= i < |s| ==> IsDigit(s[i])
  }

  /** `n` written with exactly `w` digits, leading zeros included: `%0wd` for `n < 10^w`. */
  function Digits(n: nat, w: nat): (s: string)
    requires n < Pow10(w)
    ensures |s| == w
  {
    if w == 0 then "" else Digits(n / 10, w - 1) + [DigitChar(n % 10)]
  }

  /** The rendering is all digits and reads back as `n`. */
  lemma {:induction false} DigitsSpec(n: nat, w: nat)
    requires n < Pow10(w)
    ensures AllDigits(Digits(n, w))
    ensures DigitsValue(Digits(n, w)) == n
  {
    if w > 0 {
      DigitsSpec(n / 10, w - 1);
      var p := Digits(n / 10, w - 1);
      var s := Digits(n, w);
      assert s == p + [DigitChar(n % 10)];
      assert s[..|s| - 1] == p;
    }
  }

  /** A string of digits is the fixed-width rendering of its own value. */
  lemma {:induction false} DigitsOfValue(s: string)
    requires AllDigits(s)
    ensures DigitsValue(s) < Pow10(|s|)
    ensures Digits(DigitsValue(s), |s|) == s
  {
    if s != [] {
      var p := s[..|s| - 1];
      var d := s[|s| - 1] as int - '0' as int;
      DigitsOfValue(p);
      var n := DigitsValue(s);
      assert n == DigitsValue(p) * 10 + d;
      assert n / 10 == DigitsValue(p) && n % 10 == d;
      assert s == p + [s[|s| - 1]];
    }
  }

  /** `strftime("%Y-%m-%d %H:%M:%S")`. */
  function Format(dt: DateTime): (s: string)
    requires Valid(dt)
    ensures |s| == 19
  {
    Digits(dt.year, 4) + "-" + Digits(dt.month, 2) + "-" + Digits(dt.day, 2) + " " +
    Digits(dt.hour, 2) + ":" + Digits(dt.minute, 2) + ":" + Digits(dt.second, 2)
  }

  /** The shape `DDDD-DD-DD DD:DD:DD`. */
  predicate HasTimestampShape(s: string) {
    |s| == 19 && s[4] == '-' && s[7] == '-' && s[10] == ' ' && s[13] == ':' && s[16] == ':' &&
    AllDigits(s[0..4]) && AllDigits(s[5..7]) && AllDigits(s[8..10]) &&
    AllDigits(s[11..13]) && AllDigits(s[14..16]) && AllDigits(s[17..19])
  }

  /**
   * `strptime(s, "%Y-%m-%d %H:%M:%S")` on text of the shape the application
   * writes: the fields read back, or `None` when the shape or the calendar is wrong.
   */
  function Parse(s: string): (r: Option<DateTime>)
    ensures r.Some? ==> Valid(r.value)
  {
    if !HasTimestampShape(s) then None
    else
      var dt := DateTime(DigitsValue(s[0..4]), DigitsValue(s[5..7]), DigitsValue(s[8..10]),
                         DigitsValue(s[11..13]), DigitsValue(s[14..16]), DigitsValue(s[17..19]));
      if Valid(dt) then Some(dt) else None
  }

  lemma FieldsOfFormat(dt: DateTime)
    requires Valid(dt)
    ensures Format(dt)[0..4] == Digits(dt.year, 4)
    ensures Format(dt)[5..7] == Digits(dt.month, 2)
    ensures Format(dt)[8..10] == Digits(dt.day, 2)
    ensures Format(dt)[11..13] == Digits(dt.hour, 2)
    ensures Format(dt)[14..16] == Digits(dt.minute, 2)
    ensures Format(dt)[17..19] == Digits(dt.second, 2)
    ensures Format(dt)[4] == '-' && Format(dt)[7] == '-' && Format(dt)[10] == ' '
    ensures Format(dt)[13] == ':' && Format(dt)[16] == ':'
  {
    var a, b, c := Digits(dt.year, 4), Digits(dt.month, 2), Digits(dt.day, 2);
    var d, e, g := Digits(dt.hour, 2), Digits(dt.minute, 2), Digits(dt.second, 2);
    var f1 := a + "-";
    var f2 := f1 + b;
    var f3 := f2 + "-";
    var f4 := f3 + c;
    var f5 := f4 + " ";
    var f6 := f5 + d;
    var f7 := f6 + ":";
    var f8 := f7 + e;
    var f9 := f8 + ":";
    var f := f9 + g;
    assert f == Format(dt);
    assert f[..17] == f9 && f[17..19] == g;
    assert f9[..16] == f8 && f8[14..16] == e && f[14..16] == e;
    assert f8[..13] == f6 && f6[11..13] == d && f[11..13] == d;
    assert f6[..10] == f4 && f4[8..10] == c && f[8..10] == c;
    assert f4[..7] == f2 && f2[5..7] == b && f[5..7] == b;
    assert f2[..4] == a && f[0..4] == a;
    assert f[4] == f1[4] && f[7] == f3[7] && f[10] == f5[10] && f[13] == f7[13] && f[16] == f9[16];
  }

  /** Each field of the rendering is all digits and reads back as its value. */
  lemma FieldDigits(dt: DateTime)
    requires Valid(dt)
    ensures AllDigits(Digits(dt.year, 4)) && DigitsValue(Digits(dt.year, 4)) == dt.year
    ensures AllDigits(Digits(dt.month, 2)) && DigitsValue(Digits(dt.month, 2)) == dt.month
    ensures AllDigits(Digits(dt.day, 2)) && DigitsValue(Digits(dt.day, 2)) == dt.day
    ensures AllDigits(Digits(dt.hour, 2)) && DigitsValue(Digits(dt.hour, 2)) == dt.hour
    ensures AllDigits(Digits(dt.minute, 2)) && DigitsValue(Digits(dt.minute, 2)) == dt.minute
    ensures AllDigits(Digits(dt.second, 2)) && DigitsValue(Digits(dt.second, 2)) == dt.second
  {
    DigitsSpec(dt.year, 4);
    DigitsSpec(dt.month, 2);
    DigitsSpec(dt.day, 2);
    DigitsSpec(dt.hour, 2);
    DigitsSpec(dt.minute, 2);
    DigitsSpec(dt.second, 2);
  }

  lemma ShapeOfFormat(dt: DateTime)
    requires Valid(dt)
    ensures HasTimestampShape(Format(dt))
  {
    FieldsOfFormat(dt);
    FieldDigits(dt);
  }

  /** Reading back what was written gives the same date and time. */
  lemma ParseFormat(dt: DateTime)
    requires Valid(dt)
    ensures Parse(Format(dt)) == Some(dt)
  {
    FieldsOfFormat(dt);
    FieldDigits(dt);
    ShapeOfFormat(dt);
  }

  /** Whatever parses is written back character for character. */
  lemma FormatParse(s: string)
    requires Parse(s).Some?
    ensures Format(Parse(s).value) == s
  {
    var dt := Parse(s).value;
    DigitsOfValue(s[0..4]);
    DigitsOfValue(s[5..7]);
    DigitsOfValue(s[8..10]);
    DigitsOfValue(s[11..13]);
    DigitsOfValue(s[14..16]);
    DigitsOfValue(s[17..19]);
    FieldsOfFormat(dt);
    ShapeOfFormat(dt);
    var f := Format(dt);
    assert forall i :: 0 <= i < 19 ==> f[i] == s[i] by {
      forall i | 0 <= i < 19 ensures f[i] == s[i] {
        if i < 4 { assert f[i] == f[0..4][i] && s[i] == s[0..4][i]; }
        else if 5 <= i < 7 { assert f[i] == f[5..7][i - 5] && s[i] == s[5..7][i - 5]; }
        else if 8 <= i < 10 { assert f[i] == f[8..10][i - 8] && s[i] == s[8..10][i - 8]; }
        else if 11 <= i < 13 { assert f[i] == f[11..13][i - 11] && s[i] == s[11..13][i - 11]; }
        else if 14 <= i < 16 { assert f[i] == f[14..16][i - 14] && s[i] == s[14..16][i - 14]; }
        else if 17 <= i { assert f[i] == f[17..19][i - 17] && s[i] == s[17..19][i - 17]; }
      }
    }
  }

  /** `strftime("%Y")`: the year as four digits. */
  function YearText(dt: DateTime): (s: string)
    requires Valid(dt)
    ensures s == Format(dt)[..4]
  {
    Digits(dt.year, 4)
  }

  /** `strftime("%Y-%m")`: the year and month. */
  function MonthText(dt: DateTime): (s: string)
    requires Valid(dt)
    ensures s == Format(dt)[..7]
  {
    Digits(dt.year, 4) + "-" + Digits(dt.month, 2)
  }
}
