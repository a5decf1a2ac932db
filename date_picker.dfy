/**
  `DatePickerDialog` as state: the month shown, today, the selected day and
  the 42 cells `_render` lays out (an empty frame for a padding zero,
  otherwise a day button whose colours and font mark the weekend, the
  selected day and today). `_prev_month` and `_next_month` move the month and
  render again.
 */
module DatePicker {
  import opened Wrappers
  import opened Text
  import opened Dates
  import opened Styles
  import MonthNav
  import opened MonthGrid

  /** One grid cell: an empty frame, or a day button with its look. */
  datatype PickerCell =
    | EmptyCell
    | DayButton(date: Date, text: string, bg: string, fg: string, bold: bool, outlined: bool)

  /** The foreground Tk is given for the selected day. */
  const SelectedFg := "white"

  /**
    The button of day `d` in column `col`: the accent background and white
    text when selected, otherwise the card background and the weekend or
    normal text colour of the column; bold for today and the selected day; an
    accent outline for today unless it is also selected.
   */
  function ButtonFor(theme: Theme, d: Date, col: int, today: Date, selected: Date): (c: PickerCell)
    requires d.day >= 1
    ensures c.DayButton? && c.date == d && c.text == DecimalText(d.day)
    ensures d == selected ==> c.bg == theme.accent && c.fg == SelectedFg
    ensures d != selected ==> c.bg == theme.cardBg && c.fg == DayLabelStyle(theme, col, false).0
    ensures c.bold <==> d == today || d == selected
    ensures c.outlined <==> d == today && d != selected
  {
    var isToday := d == today;
    var isSel := d == selected;
    var bg := if isSel then theme.accent else theme.cardBg;
    var fg := if isSel then SelectedFg else if col >= 5 then theme.weekendFg else theme.textFg;
    DayButton(d, DecimalText(d.day), bg, fg, isToday || isSel, isToday && !isSel)
  }

  /** The cell for grid entry `n` in column `col`: an empty frame for a padding zero. */
  function PickerCellFor(theme: Theme, y: int, m: int, n: int, col: int, today: Date, selected: Date): (c: PickerCell)
    requires n >= 0
    ensures c.EmptyCell? <==> n == 0
    ensures n != 0 ==> c == ButtonFor(theme, Date(y, m, n), col, today, selected)
  {
    if n == 0 then EmptyCell else ButtonFor(theme, Date(y, m, n), col, today, selected)
  }

  /**
    The 42 cells of month `m` of year `y`, row by row: the days of the month
    in order from the column of the first's weekday, blanks elsewhere.
   */
  function PickerCells(theme: Theme, y: int, m: int, today: Date, selected: Date): (r: seq<PickerCell>)
    requires 1 <= m <= 12
    ensures |r| == GridCells
    ensures forall i :: 0 <= i < GridCells ==>
      (r[i].EmptyCell? <==> !(FirstWeekday(y, m) <= i < FirstWeekday(y, m) + DaysInMonth(y, m)))
    ensures forall i :: 0 <= i < GridCells && r[i].DayButton? ==>
      r[i].date == Date(y, m, i - FirstWeekday(y, m) + 1)
  {
    GridLayout(y, m);
    var days := GridDays(y, m);
    seq(GridCells, i requires 0 <= i < GridCells => PickerCellFor(theme, y, m, days[i], i % 7, today, selected))
  }

  /** Cell `r * 7 + c` of the grid is in column `c`. */
  lemma ColumnOf(r: int, c: int)
    requires 0 <= r && 0 <= c < 7
    ensures (r * 7 + c) % 7 == c
  {
  }

  /** `grid` holds the first `|grid|` cells of the month. */
  ghost predicate LaidOut(grid: seq<PickerCell>, theme: Theme, y: int, m: int, today: Date, selected: Date)
    requires 1 <= m <= 12
  {
    |grid| <= GridCells && forall k :: 0 <= k < |grid| ==> grid[k] == PickerCells(theme, y, m, today, selected)[k]
  }

  ghost predicate AllEmpty(grid: seq<PickerCell>) {
    forall k :: 0 <= k < |grid| ==> grid[k] == EmptyCell
  }

  /** Appending the next cell of the month keeps the grid a prefix of the month's cells. */
  lemma LaidOutStep(grid: seq<PickerCell>, theme: Theme, y: int, m: int, today: Date, selected: Date, cell: PickerCell)
    requires 1 <= m <= 12 && LaidOut(grid, theme, y, m, today, selected) && |grid| < GridCells
    requires cell == PickerCellFor(theme, y, m, GridDays(y, m)[|grid|], |grid| % 7, today, selected)
    ensures LaidOut(grid + [cell], theme, y, m, today, selected)
    ensures cell == EmptyCell ==> (AllEmpty(grid) ==> AllEmpty(grid + [cell]))
  {
    GridShape(y, m);
    var i := |grid|;
    var cells := PickerCells(theme, y, m, today, selected);
    assert cells[i] == cell;
    var g := grid + [cell];
    assert g[i] == cell;
    assert forall k :: 0 <= k < i ==> g[k] == grid[k] == cells[k];
  }

  /** A grid of empty frames stopped at a day is exactly the leading frames. */
  lemma FailedAtFirstDay(grid: seq<PickerCell>, theme: Theme, y: int, m: int, today: Date, selected: Date)
    requires 1 <= m <= 12 && LaidOut(grid, theme, y, m, today, selected) && AllEmpty(grid)
    requires |grid| < GridCells && GridDays(y, m)[|grid|] != 0
    ensures grid == seq(FirstWeekday(y, m), _ => EmptyCell)
  {
    GridShape(y, m);
    forall k | 0 <= k < |grid|
      ensures GridDays(y, m)[k] == 0
    {
      assert PickerCells(theme, y, m, today, selected)[k] == EmptyCell;
    }
    FirstDayCell(y, m, |grid|);
  }

  /** A full grid is the month's cells, and it is not all empty frames. */
  lemma LaidOutAll(grid: seq<PickerCell>, theme: Theme, y: int, m: int, today: Date, selected: Date)
    requires 1 <= m <= 12 && LaidOut(grid, theme, y, m, today, selected) && |grid| == GridCells
    ensures grid == PickerCells(theme, y, m, today, selected)
    ensures !AllEmpty(grid)
  {
    LeadingBlanks(y, m);
    GridShape(y, m);
    assert grid[FirstWeekday(y, m)] != EmptyCell;
  }

  class DatePickerDialog {
    const theme: Theme
    const today: Date
    const selected: Date
    var year: int
    var month: int
    var cells: seq<PickerCell>

    predicate Valid()
      reads this
    {
      1 <= month <= 12
    }

    /** `__init__`: select `initial`, or today when there is none, and show its month. */
    constructor (theme: Theme, today: Date, initial: Option<Date>)
      requires today.Valid() && (initial.Some? ==> initial.value.Valid())
      ensures Valid() && this.theme == theme && this.today == today
      ensures selected == if initial.Some? then initial.value else today
      ensures year == selected.year && month == selected.month
      ensures cells == PickerCells(theme, year, month, today, selected)
    {
      this.theme := theme;
      this.today := today;
      var sel := if initial.Some? then initial.value else today;
      selected := sel;
      year := sel.year;
      month := sel.month;
      cells := [];
      new;
      var ok := Render();
    }

    /**
      `_render`: clear the grid and lay out the cells row by row.
      `_date(year, month, n)` raises for a year outside 1..9999, at the first
      non-blank cell, so only the leading empty frames are then on the grid.
     */
    method Render() returns (ok: bool)
      requires Valid()
      modifies this
      ensures Valid() && year == old(year) && month == old(month)
      ensures ok <==> MinYear <= year <= MaxYear
      ensures ok ==> cells == PickerCells(theme, year, month, today, selected)
      ensures !ok ==> cells == seq(FirstWeekday(year, month), _ => EmptyCell)
    {
      var y, m := year, month;
      var grid: seq<PickerCell> := [];
      var days := PadTo42(MonthDays(y, m));
      GridShape(y, m);
      for r := 0 to 6
        invariant year == y && month == m
        invariant |grid| == r * 7
        invariant LaidOut(grid, theme, y, m, today, selected)
        invariant !(MinYear <= y <= MaxYear) ==> AllEmpty(grid)
      {
        for c := 0 to 7
          invariant year == y && month == m
          invariant |grid| == r * 7 + c
          invariant LaidOut(grid, theme, y, m, today, selected)
          invariant !(MinYear <= y <= MaxYear) ==> AllEmpty(grid)
        {
          var n := days[r * 7 + c];
          ColumnOf(r, c);
          if n == 0 {
            LaidOutStep(grid, theme, y, m, today, selected, EmptyCell);
            grid := grid + [EmptyCell];
            continue;
          }
          if !(MinYear <= y <= MaxYear) {
            FailedAtFirstDay(grid, theme, y, m, today, selected);
            cells := grid;
            return false;
          }
          var cell := DayButtonAt(Date(y, m, n), c);
          LaidOutStep(grid, theme, y, m, today, selected, cell);
          grid := grid + [cell];
        }
      }
      LaidOutAll(grid, theme, y, m, today, selected);
      cells := grid;
      return true;
    }

    /** One day button of `_render`: its colours, its font weight and today's outline. */
    method DayButtonAt(d: Date, col: int) returns (cell: PickerCell)
      requires d.day >= 1
      ensures cell == ButtonFor(theme, d, col, today, selected)
    {
      var isToday := d == today;
      var isSel := d == selected;
      var bg := theme.cardBg;
      var fg := if col >= 5 then theme.weekendFg else theme.textFg;
      if isSel {
        bg := theme.accent;
        fg := SelectedFg;
      }
      cell := DayButton(d, DecimalText(d.day), bg, fg, isToday || isSel, isToday && !isSel);
    }

    /** `_prev_month`: step back one month, wrapping at January, and render. */
    method PrevMonth() returns (ok: bool)
      requires Valid()
      modifies this
      ensures Valid()
      ensures MonthNav.YearMonth(year, month) == MonthNav.PrevMonth(MonthNav.YearMonth(old(year), old(month)))
      ensures ok <==> MinYear <= year <= MaxYear
      ensures ok ==> cells == PickerCells(theme, year, month, today, selected)
      ensures !ok ==> cells == seq(FirstWeekday(year, month), _ => EmptyCell)
    {
      if month == 1 {
        month := 12;
        year := year - 1;
      } else {
        month := month - 1;
      }
      ok := Render();
    }

    /** `_next_month`: step forward one month, wrapping at December, and render. */
    method NextMonth() returns (ok: bool)
      requires Valid()
      modifies this
      ensures Valid()
      ensures MonthNav.YearMonth(year, month) == MonthNav.NextMonth(MonthNav.YearMonth(old(year), old(month)))
      ensures ok <==> MinYear <= year <= MaxYear
      ensures ok ==> cells == PickerCells(theme, year, month, today, selected)
      ensures !ok ==> cells == seq(FirstWeekday(year, month), _ => EmptyCell)
    {
      if month == 12 {
        month := 1;
        year := year + 1;
      } else {
        month := month + 1;
      }
      ok := Render();
    }
  }

  // ---- what the picker grid shows ----

  /** Empty frames are exactly the padding zeros; only the other cells build dates. */
  lemma ButtonsFollowGrid(theme: Theme, y: int, m: int, today: Date, selected: Date, i: int)
    requires 1 <= m <= 12 && MinYear <= y <= MaxYear && 0 <= i < GridCells
    ensures PickerCells(theme, y, m, today, selected)[i].EmptyCell? <==> GridDays(y, m)[i] == 0
    ensures PickerCells(theme, y, m, today, selected)[i].DayButton? ==>
      var d := PickerCells(theme, y, m, today, selected)[i].date;
      d == Date(y, m, GridDays(y, m)[i]) && d.Valid() && i % 7 == Weekday(d)
  {
    GridLayout(y, m);
    if GridDays(y, m)[i] != 0 {
      ColumnIsWeekday(y, m, i);
    }
  }

  /**
    When the selected day is in the shown month, exactly one button has the
    accent background, and it is that day's; otherwise no button has it.
   */
  lemma OneSelectedButton(theme: Theme, y: int, m: int, today: Date, selected: Date)
    requires 1 <= m <= 12 && theme.accent != theme.cardBg
    ensures var cells := PickerCells(theme, y, m, today, selected);
      forall i :: 0 <= i < GridCells && cells[i].DayButton? ==>
        (cells[i].bg == theme.accent <==> cells[i].date == selected)
    ensures var cells := PickerCells(theme, y, m, today, selected);
      selected.year == y && selected.month == m && 1 <= selected.day <= DaysInMonth(y, m) ==>
        exists i :: 0 <= i < GridCells && cells[i].DayButton? && cells[i].date == selected
  {
    GridLayout(y, m);
    if selected.year == y && selected.month == m && 1 <= selected.day <= DaysInMonth(y, m) {
      EachDayOnce(y, m, selected.day);
      var i := FirstWeekday(y, m) + selected.day - 1;
      assert PickerCells(theme, y, m, today, selected)[i].date == selected;
    }
  }

  /**
    On a day that is not selected, a button has the colour `day_label_style`
    gives an ordinary day of its column: the weekend colour on Saturday and
    Sunday.
   */
  lemma UnselectedColours(theme: Theme, y: int, m: int, today: Date, selected: Date, i: int)
    requires 1 <= m <= 12 && MinYear <= y <= MaxYear && 0 <= i < GridCells
    requires PickerCells(theme, y, m, today, selected)[i].DayButton?
    requires PickerCells(theme, y, m, today, selected)[i].date != selected
    ensures var c := PickerCells(theme, y, m, today, selected)[i];
      c.fg == (if Weekday(c.date) >= 5 then theme.weekendFg else theme.textFg)
  {
    ButtonsFollowGrid(theme, y, m, today, selected, i);
  }
}
