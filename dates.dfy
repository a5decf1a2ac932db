/**
  The calendar that Python's `datetime.date` and `datetime.datetime` implement:
  the proleptic Gregorian calendar for years 1 to 9999, with the day ordinal that
  `date.toordinal()` returns (0001-01-01 is day 1), the weekday that
  `date.weekday()` returns (Monday is 0) and the successor `d + timedelta(days=1)`,
  which raises past 9999-12-31.
 */
module Dates {
  import opened Wrappers

  const MinYear := 1
  const MaxYear := 9999

  /** The last day a Python `date` can hold. */
  const MaxDate := Date(MaxYear, 12, 31)

  predicate IsLeap(y: int) {
    y % 4 == 0 && (y % 100 != 0 || y % 400 == 0)
  }

  function DaysInMonth(y: int, m: int): (n: int)
    requires 1 <= m <= 12
    ensures 28 <= n <= 31
    ensures n == 29 <==> m == 2 && IsLeap(y)
  {
    if m == 2 then (if IsLeap(y) then 29 else 28)
    else if m == 4 || m == 6 || m == 9 || m == 11 then 30
    else 31
  }

  function DaysInYear(y: int): int {
    if IsLeap(y) then 366 else 365
  }

  /** Days of year `y` before the first of month `m`. */
  function DaysBeforeMonth(y: int, m: int): int
    requires 1 <= m <= 12
  {
    [0, 31, 59, 90, 120, 151, 181, 212, 243, 273, 304, 334][m - 1]
    + (if m > 2 && IsLeap(y) then 1 else 0)
  }

  /** Days before January 1 of year `y`, counting from 0001-01-01. */
  function DaysBeforeYear(y: int): int {
    var p := y - 1;
    365 * p + p / 4 - p / 100 + p / 400
  }

  /** A calendar day. */
  datatype Date = Date(year: int, month: int, day: int) {
    predicate Valid() {
      MinYear <= year <= MaxYear && 1 <= month <= 12 && 1 <= day <= DaysInMonth(year, month)
    }
  }

  /** A `datetime` without microseconds (nothing in the model produces any). */
  datatype Instant = Instant(year: int, month: int, day: int, hour: int, minute: int, second: int) {
    predicate Valid() {
      DayOf().Valid() && 0 <= hour <= 23 && 0 <= minute <= 59 && 0 <= second <= 59
    }

    /** `datetime.date()`. */
    function DayOf(): Date {
      Date(year, month, day)
    }

    predicate IsMidnight() {
      hour == 0 && minute == 0 && second == 0
    }
  }

  /** Chronological order of days: lexicographic on (year, month, day). */
  predicate DateLess(a: Date, b: Date) {
    a.year < b.year
    || (a.year == b.year && (a.month < b.month || (a.month == b.month && a.day < b.day)))
  }

  predicate DateLe(a: Date, b: Date) {
    a == b || DateLess(a, b)
  }

  /** Chronological order of instants, as `datetime` compares them. */
  predicate InstantLess(a: Instant, b: Instant) {
    DateLess(a.DayOf(), b.DayOf())
    || (a.DayOf() == b.DayOf()
        && (a.hour < b.hour
            || (a.hour == b.hour && (a.minute < b.minute || (a.minute == b.minute && a.second < b.second)))))
  }

  predicate InstantLe(a: Instant, b: Instant) {
    a == b || InstantLess(a, b)
  }

  lemma InstantOrderTotal(a: Instant, b: Instant)
    ensures InstantLess(a, b) || a == b || InstantLess(b, a)
    ensures !(InstantLess(a, b) && InstantLess(b, a))
    ensures !InstantLess(a, a)
  {
  }

  lemma InstantLessTransitive(a: Instant, b: Instant, c: Instant)
    requires InstantLess(a, b) && InstantLess(b, c)
    ensures InstantLess(a, c)
  {
  }

  lemma InstantOrderRefinesDays(a: Instant, b: Instant)
    requires InstantLe(a, b)
    ensures DateLe(a.DayOf(), b.DayOf())
  {
  }

  /** `date.toordinal()`. */
  function Ordinal(d: Date): int
    requires 1 <= d.month <= 12
  {
    DaysBeforeYear(d.year) + DaysBeforeMonth(d.year, d.month) + d.day
  }

  /** `date.weekday()`: Monday is 0, Sunday is 6. */
  function Weekday(d: Date): (w: int)
    requires 1 <= d.month <= 12
    ensures 0 <= w < 7
  {
    (Ordinal(d) + 6) % 7
  }

  /** `d + timedelta(days=1)`; `None` where Python raises `OverflowError`. */
  function NextDay(d: Date): (r: Option<Date>)
    requires d.Valid()
    ensures r.None? <==> d == MaxDate
    ensures r.Some? ==> r.value.Valid() && DateLess(d, r.value)
  {
    if d.day < DaysInMonth(d.year, d.month) then Some(Date(d.year, d.month, d.day + 1))
    else if d.month < 12 then Some(Date(d.year, d.month + 1, 1))
    else if d.year < MaxYear then Some(Date(d.year + 1, 1, 1))
    else None
  }

  lemma DivStep(a: int, k: int)
    requires k == 4 || k == 100 || k == 400
    ensures a / k - (a - 1) / k == (if a % k == 0 then 1 else 0)
  {
  }

  lemma LeapDivisibility(y: int)
    ensures y % 400 == 0 ==> y % 100 == 0
    ensures y % 100 == 0 ==> y % 4 == 0
  {
    if y % 400 == 0 {
      assert y == 400 * (y / 400);
      assert y == 100 * (4 * (y / 400));
    }
    if y % 100 == 0 {
      assert y == 100 * (y / 100);
      assert y == 4 * (25 * (y / 100));
    }
  }

  lemma DaysBeforeYearStep(y: int)
    ensures DaysBeforeYear(y + 1) == DaysBeforeYear(y) + DaysInYear(y)
  {
    DivStep(y, 4);
    DivStep(y, 100);
    DivStep(y, 400);
    LeapDivisibility(y);
  }

  lemma {:induction false} DaysBeforeYearMonotone(y: int, z: int)
    requires y <= z
    ensures DaysBeforeYear(y) <= DaysBeforeYear(z)
    decreases z - y
  {
    if y < z {
      DaysBeforeYearStep(y);
      DaysBeforeYearMonotone(y + 1, z);
    }
  }

  /** A valid day of an earlier year has a smaller ordinal. */
  lemma EarlierYear(a: Date, b: Date)
    requires a.Valid() && b.Valid() && a.year < b.year
    ensures Ordinal(a) < Ordinal(b)
  {
    DayWithinYear(a);
    DaysBeforeYearStep(a.year);
    DaysBeforeYearMonotone(a.year + 1, b.year);
  }

  lemma DaysBeforeMonthStep(y: int, m: int)
    requires 1 <= m < 12
    ensures DaysBeforeMonth(y, m + 1) == DaysBeforeMonth(y, m) + DaysInMonth(y, m)
  {
  }

  lemma DaysInYearSum(y: int)
    ensures DaysBeforeMonth(y, 12) + DaysInMonth(y, 12) == DaysInYear(y)
  {
  }

  lemma {:induction false} DaysBeforeMonthMonotone(y: int, m: int, n: int)
    requires 1 <= m < n <= 12
    ensures DaysBeforeMonth(y, m) + DaysInMonth(y, m) <= DaysBeforeMonth(y, n)
    decreases n - m
  {
    DaysBeforeMonthStep(y, m);
    if m + 1 < n {
      DaysBeforeMonthMonotone(y, m + 1, n);
    }
  }

  /** Every day of a year lies within that year's count of days. */
  lemma DayWithinYear(d: Date)
    requires d.Valid()
    ensures 1 <= DaysBeforeMonth(d.year, d.month) + d.day <= DaysInYear(d.year)
  {
    if d.month < 12 {
      DaysBeforeMonthMonotone(d.year, d.month, 12);
    }
    DaysInYearSum(d.year);
  }

  /** The successor of a day is the day with the next ordinal. */
  lemma NextDayOrdinal(d: Date)
    requires d.Valid() && d != MaxDate
    ensures Ordinal(NextDay(d).value) == Ordinal(d) + 1
  {
    if d.day == DaysInMonth(d.year, d.month) {
      if d.month < 12 {
        DaysBeforeMonthStep(d.year, d.month);
      } else {
        DaysBeforeYearStep(d.year);
        DaysInYearSum(d.year);
      }
    }
  }

  /** Chronological order and ordinal order agree on valid days. */
  lemma OrdinalMonotone(a: Date, b: Date)
    requires a.Valid() && b.Valid()
    ensures DateLess(a, b) <==> Ordinal(a) < Ordinal(b)
  {
    if a.year < b.year {
      EarlierYear(a, b);
    } else if b.year < a.year {
      EarlierYear(b, a);
    } else if a.month < b.month {
      DaysBeforeMonthMonotone(a.year, a.month, b.month);
    } else if b.month < a.month {
      DaysBeforeMonthMonotone(a.year, b.month, a.month);
    }
  }

  lemma DateLeOrdinal(a: Date, b: Date)
    requires a.Valid() && b.Valid()
    ensures DateLe(a, b) <==> Ordinal(a) <= Ordinal(b)
  {
    OrdinalMonotone(a, b);
    OrdinalMonotone(b, a);
  }

  /** No valid day lies strictly between a day and its successor. */
  lemma NoDayBetween(a: Date, b: Date)
    requires a.Valid() && b.Valid() && DateLess(a, b)
    ensures NextDay(a).Some? && DateLe(NextDay(a).value, b)
  {
  }

  /** `MaxDate` is the last valid day. */
  lemma MaxDateIsLast(d: Date)
    requires d.Valid()
    ensures DateLe(d, MaxDate)
  {
  }

  /** Days of one month run on consecutive ordinals, so consecutive weekdays. */
  lemma WeekdayWithinMonth(y: int, m: int, k: int)
    requires 1 <= m <= 12
    ensures Weekday(Date(y, m, k)) == (Weekday(Date(y, m, 1)) + k - 1) % 7
  {
    var a := Ordinal(Date(y, m, 1)) + 6;
    assert Ordinal(Date(y, m, k)) + 6 == a + (k - 1);
    ShiftMod7(a, k - 1);
  }

  /** Adding to a number adds to its remainder by 7, modulo 7. */
  lemma ShiftMod7(a: int, b: int)
    ensures (a + b) % 7 == (a % 7 + b) % 7
  {
    var q := a / 7;
    assert a == 7 * q + a % 7;
    assert a + b == 7 * q + (a % 7 + b);
  }
}
