/**
  The day numbers of the month grid both calendars draw: the days that
  `calendar.Calendar(firstweekday=0).itermonthdays(year, month)` yields (zeros
  for the days of the neighbouring months that fill the first and last week,
  then `1..n`), padded with zeros to six rows of seven.
 */
module MonthGrid {
  import opened Dates

  const GridCells := 42

  /**
    The year `calendar.weekday` looks the first of the month up in: a year
    outside 1..9999 is first moved to `2000 + year % 400`.
   */
  function CalendarYear(y: int): (r: int)
    ensures MinYear <= r <= MaxYear
    ensures MinYear <= y <= MaxYear ==> r == y
  {
    if MinYear <= y <= MaxYear then y else 2000 + y % 400
  }

  /** Integer division by a divisor of 400 moves by a whole amount when 400 is added. */
  lemma DivShift(p: int)
    ensures (p + 400) / 4 == p / 4 + 100
    ensures (p + 400) / 100 == p / 100 + 4
    ensures (p + 400) / 400 == p / 400 + 1
  {
  }

  /** Four hundred years hold 146097 days, and leap years recur with that period. */
  lemma FourHundredYears(y: int)
    ensures DaysBeforeYear(y + 400) == DaysBeforeYear(y) + 146097
    ensures IsLeap(y + 400) == IsLeap(y)
  {
    DivShift(y - 1);
    assert (y + 400) % 4 == y % 4 && (y + 400) % 100 == y % 100 && (y + 400) % 400 == y % 400;
  }

  /** The Gregorian calendar repeats every 400 years, which is a whole number of weeks. */
  lemma FourCenturies(y: int, m: int, d: int)
    requires 1 <= m <= 12
    ensures Weekday(Date(y + 400, m, d)) == Weekday(Date(y, m, d))
  {
    FourHundredYears(y);
    assert DaysBeforeMonth(y + 400, m) == DaysBeforeMonth(y, m);
    var a := Ordinal(Date(y, m, d)) + 6;
    assert Ordinal(Date(y + 400, m, d)) + 6 == a + 7 * 20871;
    WholeWeeks(a, 20871);
  }

  /** Adding whole weeks does not change a weekday. */
  lemma WholeWeeks(a: int, k: int)
    ensures (a + 7 * k) % 7 == a % 7
  {
    var q := a / 7;
    assert a + 7 * k == 7 * (q + k) + a % 7;
  }

  lemma {:induction false} ManyCenturies(y: int, m: int, d: int, k: nat)
    requires 1 <= m <= 12
    ensures Weekday(Date(y + 400 * k, m, d)) == Weekday(Date(y, m, d))
  {
    if k > 0 {
      ManyCenturies(y, m, d, k - 1);
      FourCenturies(y + 400 * (k - 1), m, d);
    }
  }

  /** Moving the year to `2000 + year % 400` does not change any weekday. */
  lemma CalendarYearKeepsWeekday(y: int, m: int, d: int)
    requires 1 <= m <= 12
    ensures Weekday(Date(CalendarYear(y), m, d)) == Weekday(Date(y, m, d))
  {
    if !(MinYear <= y <= MaxYear) {
      var c := 2000 + y % 400;
      var q := (y - c) / 400;
      assert y == c + 400 * q;
      if q >= 0 {
        ManyCenturies(c, m, d, q);
      } else {
        ManyCenturies(y, m, d, -q);
      }
    }
  }

  /** `monthrange(year, month)[0]`: the weekday of the first, Monday being 0. */
  function FirstWeekday(y: int, m: int): (w: int)
    requires 1 <= m <= 12
    ensures 0 <= w < 7
  {
    Weekday(Date(CalendarYear(y), m, 1))
  }

  /**
    `itermonthdays(year, month)`: blanks before, the days of the month, blanks
    after. The month's days fill whole weeks, at least four and at most six of
    them, and the blanks after the last day fill less than a week.
   */
  function MonthDays(y: int, m: int): (r: seq<int>)
    requires 1 <= m <= 12
    ensures |r| % 7 == 0 && 28 <= |r| <= GridCells
    ensures |r| - 7 < FirstWeekday(y, m) + DaysInMonth(y, m) <= |r|
  {
    var before := FirstWeekday(y, m);
    var n := DaysInMonth(y, m);
    var after := (-before - n) % 7;
    MonthSpansWeeks(before, n);
    seq(before, _ => 0) + seq(n, k => k + 1) + seq(after, _ => 0)
  }

  /** Up to six blanks, a month of days and the blanks that finish its last week make four to six weeks. */
  lemma MonthSpansWeeks(before: int, n: int)
    requires 0 <= before < 7 && 28 <= n <= 31
    ensures var total := before + n + (-before - n) % 7;
      total % 7 == 0 && 28 <= total <= GridCells && total - 7 < before + n <= total
  {
    var after := (-before - n) % 7;
    var weeks := -((-before - n) / 7);
    assert before + n + after == 7 * weeks;
  }

  /** The list after `while len(days) < 42: days.append(0)`. */
  function Padded(days: seq<int>): (r: seq<int>)
    ensures |r| == if |days| < GridCells then GridCells else |days|
  {
    if |days| < GridCells then days + seq(GridCells - |days|, _ => 0) else days
  }

  /** Padding keeps the list and appends zeros up to 42 entries. */
  lemma PaddedKeeps(days: seq<int>)
    ensures |Padded(days)| >= GridCells && Padded(days)[..|days|] == days
    ensures forall k :: |days| <= k < |Padded(days)| ==> Padded(days)[k] == 0
  {
  }

  /** The padding loop of `_render_calendar` and of the picker's `_render`. */
  method PadTo42(days: seq<int>) returns (r: seq<int>)
    ensures r == Padded(days)
  {
    r := days;
    while |r| < GridCells
      invariant |days| <= |r| <= if |days| < GridCells then GridCells else |days|
      invariant r[..|days|] == days
      invariant forall k :: |days| <= k < |r| ==> r[k] == 0
      decreases GridCells - |r|
    {
      r := r + [0];
    }
    assert r == Padded(days);
  }

  /** The 42 day numbers of the grid of one month. */
  function GridDays(y: int, m: int): (r: seq<int>)
    requires 1 <= m <= 12
  {
    Padded(MonthDays(y, m))
  }

  /**
    The grid has 42 cells; cell `i` is blank outside the run that starts at the
    weekday of the first, and inside it holds day `i - offset + 1`.
   */
  lemma GridLayout(y: int, m: int)
    requires 1 <= m <= 12
    ensures |GridDays(y, m)| == GridCells
    ensures forall i :: 0 <= i < GridCells ==>
      GridDays(y, m)[i] == if FirstWeekday(y, m) <= i < FirstWeekday(y, m) + DaysInMonth(y, m)
        then i - FirstWeekday(y, m) + 1 else 0
  {
  }

  /** The first non-zero entry of the grid is the cell of the first of the month. */
  lemma FirstDayCell(y: int, m: int, i: int)
    requires 1 <= m <= 12 && 0 <= i < GridCells
    requires forall k :: 0 <= k < i ==> GridDays(y, m)[k] == 0
    requires GridDays(y, m)[i] != 0
    ensures i == FirstWeekday(y, m)
  {
    LeadingBlanks(y, m);
  }

  /** The grid has 42 entries, none of them negative. */
  lemma GridShape(y: int, m: int)
    requires 1 <= m <= 12
    ensures |GridDays(y, m)| == GridCells
    ensures forall i :: 0 <= i < GridCells ==> GridDays(y, m)[i] >= 0
  {
    GridLayout(y, m);
  }

  /** Every day of the month has exactly one cell, in the column of its weekday. */
  lemma EachDayOnce(y: int, m: int, day: int)
    requires 1 <= m <= 12 && 1 <= day <= DaysInMonth(y, m)
    ensures var i := FirstWeekday(y, m) + day - 1;
      i < GridCells && GridDays(y, m)[i] == day
      && forall j :: 0 <= j < GridCells && GridDays(y, m)[j] == day ==> j == i
  {
    GridLayout(y, m);
  }

  /**
    A non-blank cell sits in the column of its date's weekday, so Monday to
    Sunday run left to right.
   */
  lemma ColumnIsWeekday(y: int, m: int, i: int)
    requires 1 <= m <= 12 && MinYear <= y <= MaxYear && 0 <= i < GridCells
    requires GridDays(y, m)[i] != 0
    ensures Date(y, m, GridDays(y, m)[i]).Valid()
    ensures i % 7 == Weekday(Date(y, m, GridDays(y, m)[i]))
  {
    GridLayout(y, m);
    WeekdayWithinMonth(y, m, GridDays(y, m)[i]);
  }

  /** The first non-blank cell is the first of the month; every cell before it is blank. */
  lemma LeadingBlanks(y: int, m: int)
    requires 1 <= m <= 12
    ensures forall i :: 0 <= i < FirstWeekday(y, m) ==> GridDays(y, m)[i] == 0
    ensures GridDays(y, m)[FirstWeekday(y, m)] == 1
  {
    GridLayout(y, m);
  }
}
