/**
  The main calendar window as state: the month shown, today's date, the day
  index built from the schedule, and the 42 cells `_render_calendar` lays out
  (a blank label for a padding zero, otherwise a label with the day number, a
  bullet when the day has events, a style for today / event day / plain day,
  and a tooltip binding when the day has events). `prev_month` and
  `next_month` move the month and render again.
 */
module CalendarView {
  import opened Text
  import opened Dates
  import opened Events
  import opened DayIndex
  import MonthNav
  import opened MonthGrid

  /** `Today.TLabel`, `EventDay.TLabel`, `Day.TLabel`. */
  datatype LabelStyle = TodayStyle | EventDayStyle | PlainDayStyle

  /** One grid cell: `Blank.TLabel`, or a day label and whether it shows the tooltip. */
  datatype DayCell = Blank | DayLabel(date: Date, text: string, style: LabelStyle, tooltip: bool)

  /** What a day with events gets after its number. */
  const EventMark := "  •"

  /** `day_map.get(d, [])`. */
  function EventsOn(dayMap: map<Date, seq<Event>>, d: Date): seq<Event> {
    if d in dayMap then dayMap[d] else []
  }

  /** The label of one day of the shown month. */
  function LabelFor(d: Date, today: Date, dayMap: map<Date, seq<Event>>): (c: DayCell)
    requires d.day >= 1
    ensures c.DayLabel? && c.date == d
    ensures c.tooltip <==> EventsOn(dayMap, d) != []
    ensures c.style == TodayStyle <==> d == today
    ensures c.style == EventDayStyle <==> d != today && EventsOn(dayMap, d) != []
    ensures c.text == DecimalText(d.day) + (if c.tooltip then EventMark else "")
  {
    var events := EventsOn(dayMap, d);
    DayLabel(
      d,
      DecimalText(d.day) + (if events != [] then EventMark else ""),
      if d == today then TodayStyle else if events != [] then EventDayStyle else PlainDayStyle,
      events != [])
  }

  /** The cell for grid entry `n` of month `m` of year `y`: blank for a padding zero. */
  function CellFor(y: int, m: int, n: int, today: Date, dayMap: map<Date, seq<Event>>): (c: DayCell)
    requires n >= 0
    ensures c.Blank? <==> n == 0
    ensures n != 0 ==> c == LabelFor(Date(y, m, n), today, dayMap)
  {
    if n == 0 then Blank else LabelFor(Date(y, m, n), today, dayMap)
  }

  /**
    The 42 cells of month `m` of year `y`, row by row: the days of the month
    in order from the column of the first's weekday, blanks elsewhere.
   */
  function MonthCells(y: int, m: int, today: Date, dayMap: map<Date, seq<Event>>): (r: seq<DayCell>)
    requires 1 <= m <= 12
    ensures |r| == GridCells
    ensures forall i :: 0 <= i < GridCells ==>
      (r[i].Blank? <==> !(FirstWeekday(y, m) <= i < FirstWeekday(y, m) + DaysInMonth(y, m)))
    ensures forall i :: 0 <= i < GridCells && r[i].DayLabel? ==>
      r[i].date == Date(y, m, i - FirstWeekday(y, m) + 1)
  {
    GridLayout(y, m);
    var days := GridDays(y, m);
    seq(GridCells, i requires 0 <= i < GridCells => CellFor(y, m, days[i], today, dayMap))
  }

  /**
    The loops of `_render_calendar`: the cells row by row, seven to a row.
    `date(year, month, day)` raises for a year outside 1..9999, at the first
    non-blank cell, so only the leading blanks are then laid out.
   */
  method LayOutMonth(y: int, m: int, today: Date, dayMap: map<Date, seq<Event>>)
    returns (grid: seq<DayCell>, ok: bool)
    requires 1 <= m <= 12
    ensures ok <==> MinYear <= y <= MaxYear
    ensures ok ==> grid == MonthCells(y, m, today, dayMap)
    ensures !ok ==> grid == seq(FirstWeekday(y, m), _ => Blank)
  {
    grid := [];
    var days := PadTo42(MonthDays(y, m));
    GridShape(y, m);
    for r := 0 to 6
      invariant |grid| == r * 7
      invariant LaidOut(grid, y, m, today, dayMap)
      invariant !(MinYear <= y <= MaxYear) ==> AllBlank(grid)
    {
      for c := 0 to 7
        invariant |grid| == r * 7 + c
        invariant LaidOut(grid, y, m, today, dayMap)
        invariant !(MinYear <= y <= MaxYear) ==> AllBlank(grid)
      {
        var day := days[r * 7 + c];
        if day == 0 {
          LaidOutStep(grid, y, m, today, dayMap, Blank);
          grid := grid + [Blank];
          continue;
        }
        if !(MinYear <= y <= MaxYear) {
          FailedAtFirstDay(grid, y, m, today, dayMap);
          return grid, false;
        }
        var cell := LabelAt(Date(y, m, day), today, dayMap);
        LaidOutStep(grid, y, m, today, dayMap, cell);
        grid := grid + [cell];
      }
    }
    LaidOutAll(grid, y, m, today, dayMap);
    return grid, true;
  }

  /** `grid` holds the first `|grid|` cells of the month. */
  ghost predicate LaidOut(grid: seq<DayCell>, y: int, m: int, today: Date, dayMap: map<Date, seq<Event>>)
    requires 1 <= m <= 12
  {
    |grid| <= GridCells && forall k :: 0 <= k < |grid| ==> grid[k] == MonthCells(y, m, today, dayMap)[k]
  }

  ghost predicate AllBlank(grid: seq<DayCell>) {
    forall k :: 0 <= k < |grid| ==> grid[k] == Blank
  }

  lemma LaidOutStep(grid: seq<DayCell>, y: int, m: int, today: Date, dayMap: map<Date, seq<Event>>, cell: DayCell)
    requires 1 <= m <= 12 && LaidOut(grid, y, m, today, dayMap) && |grid| < GridCells
    requires cell == CellFor(y, m, GridDays(y, m)[|grid|], today, dayMap)
    ensures LaidOut(grid + [cell], y, m, today, dayMap)
    ensures cell == Blank ==> (AllBlank(grid) ==> AllBlank(grid + [cell]))
  {
    GridShape(y, m);
    var i := |grid|;
    assert MonthCells(y, m, today, dayMap)[i] == cell;
    assert forall k :: 0 <= k < i ==> (grid + [cell])[k] == grid[k];
  }

  lemma FailedAtFirstDay(grid: seq<DayCell>, y: int, m: int, today: Date, dayMap: map<Date, seq<Event>>)
    requires 1 <= m <= 12 && LaidOut(grid, y, m, today, dayMap) && AllBlank(grid) && |grid| < GridCells
    requires GridDays(y, m)[|grid|] != 0
    ensures grid == seq(FirstWeekday(y, m), _ => Blank)
  {
    GridShape(y, m);
    forall k | 0 <= k < |grid|
      ensures GridDays(y, m)[k] == 0
    {
      assert MonthCells(y, m, today, dayMap)[k] == Blank;
    }
    FirstDayCell(y, m, |grid|);
  }

  lemma LaidOutAll(grid: seq<DayCell>, y: int, m: int, today: Date, dayMap: map<Date, seq<Event>>)
    requires 1 <= m <= 12 && LaidOut(grid, y, m, today, dayMap) && |grid| == GridCells
    ensures grid == MonthCells(y, m, today, dayMap)
    ensures !AllBlank(grid)
  {
    LeadingBlanks(y, m);
    GridShape(y, m);
    assert grid[FirstWeekday(y, m)] != Blank;
  }

  /** One day label of `_render_calendar`: its text, its style and whether it gets the tooltip. */
  method LabelAt(d: Date, today: Date, dayMap: map<Date, seq<Event>>) returns (cell: DayCell)
    requires d.day >= 1
    ensures cell == LabelFor(d, today, dayMap)
  {
    var eventsToday := if d in dayMap then dayMap[d] else [];
    var text := DecimalText(d.day);
    if eventsToday != [] {
      text := text + EventMark;
    }
    var style;
    if d == today {
      style := TodayStyle;
    } else if eventsToday != [] {
      style := EventDayStyle;
    } else {
      style := PlainDayStyle;
    }
    cell := DayLabel(d, text, style, eventsToday != []);
  }

  class CalendarApp {
    var year: int
    var month: int
    const today: Date
    var dayMap: map<Date, seq<Event>>
    var cells: seq<DayCell>

    predicate Valid()
      reads this
    {
      1 <= month <= 12
    }

    /** `__init__`: show today's month, with the day index of the loaded schedule. */
    constructor (today: Date, dayMap: map<Date, seq<Event>>)
      requires today.Valid()
      ensures Valid() && year == today.year && month == today.month
      ensures this.today == today && this.dayMap == dayMap
      ensures cells == MonthCells(year, month, today, dayMap)
    {
      year := today.year;
      month := today.month;
      this.today := today;
      this.dayMap := dayMap;
      cells := [];
      new;
      var ok := RenderCalendar();
    }

    /**
      `_render_calendar`: clear the grid and lay out the cells of the shown
      month; on failure the grid keeps only the leading blanks.
     */
    method RenderCalendar() returns (ok: bool)
      requires Valid()
      modifies this
      ensures Valid() && year == old(year) && month == old(month) && dayMap == old(dayMap)
      ensures ok <==> MinYear <= year <= MaxYear
      ensures ok ==> cells == MonthCells(year, month, today, dayMap)
      ensures !ok ==> cells == seq(FirstWeekday(year, month), _ => Blank)
    {
      var grid;
      grid, ok := LayOutMonth(year, month, today, dayMap);
      cells := grid;
    }

    /** `prev_month`: step back one month, wrapping at January, and render. */
    method PrevMonth() returns (ok: bool)
      requires Valid()
      modifies this
      ensures Valid() && dayMap == old(dayMap)
      ensures MonthNav.YearMonth(year, month) == MonthNav.PrevMonth(MonthNav.YearMonth(old(year), old(month)))
      ensures ok <==> MinYear <= year <= MaxYear
      ensures ok ==> cells == MonthCells(year, month, today, dayMap)
      ensures !ok ==> cells == seq(FirstWeekday(year, month), _ => Blank)
    {
      if month == 1 {
        month := 12;
        year := year - 1;
      } else {
        month := month - 1;
      }
      ok := RenderCalendar();
    }

    /** `next_month`: step forward one month, wrapping at December, and render. */
    method NextMonth() returns (ok: bool)
      requires Valid()
      modifies this
      ensures Valid() && dayMap == old(dayMap)
      ensures MonthNav.YearMonth(year, month) == MonthNav.NextMonth(MonthNav.YearMonth(old(year), old(month)))
      ensures ok <==> MinYear <= year <= MaxYear
      ensures ok ==> cells == MonthCells(year, month, today, dayMap)
      ensures !ok ==> cells == seq(FirstWeekday(year, month), _ => Blank)
    {
      if month == 12 {
        month := 1;
        year := year + 1;
      } else {
        month := month + 1;
      }
      ok := RenderCalendar();
    }
  }

  // ---- what the grid shows ----

  /**
    A cell is blank exactly where the grid has a padding zero; every other
    cell is the label of the day of the month it holds, in the column of that
    day's weekday.
   */
  lemma CellsFollowGrid(y: int, m: int, today: Date, dayMap: map<Date, seq<Event>>, i: int)
    requires 1 <= m <= 12 && MinYear <= y <= MaxYear && 0 <= i < GridCells
    ensures MonthCells(y, m, today, dayMap)[i].Blank? <==> GridDays(y, m)[i] == 0
    ensures MonthCells(y, m, today, dayMap)[i].DayLabel? ==>
      var d := MonthCells(y, m, today, dayMap)[i].date;
      d.Valid() && d.year == y && d.month == m && i % 7 == Weekday(d)
  {
    GridLayout(y, m);
    if GridDays(y, m)[i] != 0 {
      ColumnIsWeekday(y, m, i);
    }
  }

  /** Each day of the shown month has exactly one label. */
  lemma OneLabelPerDay(y: int, m: int, today: Date, dayMap: map<Date, seq<Event>>, day: int)
    requires 1 <= m <= 12 && 1 <= day <= DaysInMonth(y, m)
    ensures var cells := MonthCells(y, m, today, dayMap);
      exists i :: 0 <= i < GridCells && cells[i] == LabelFor(Date(y, m, day), today, dayMap)
    ensures var cells := MonthCells(y, m, today, dayMap);
      forall i, j ::
        (0 <= i < GridCells && 0 <= j < GridCells && cells[i].DayLabel? && cells[j].DayLabel?
         && cells[i].date == Date(y, m, day) && cells[j].date == Date(y, m, day)) ==> i == j
  {
    EachDayOnce(y, m, day);
    GridLayout(y, m);
    var i := FirstWeekday(y, m) + day - 1;
    assert MonthCells(y, m, today, dayMap)[i] == LabelFor(Date(y, m, day), today, dayMap);
  }

  /**
    With the index `build_day_map` returns, a day's label carries the bullet
    and the tooltip exactly when some event of the schedule touches that day.
   */
  lemma MarkedDays(events: seq<Event>, dayMap: map<Date, seq<Event>>, today: Date, d: Date)
    requires d.Valid() && IsDayIndex(events, dayMap)
    ensures LabelFor(d, today, dayMap).tooltip
      <==> exists k :: 0 <= k < |events| && OverlapsDay(events[k], d)
  {
    BucketNonEmpty(events, d);
    assert d in dayMap <==> Bucket(events, d) != [];
    if d in dayMap {
      assert |dayMap[d]| == |Bucket(events, d)|;
    }
  }
}
