# Calendar and schedule core of `todo`, in Dafny

`todo` is a desktop calendar written with tkinter. It reads a JSON schedule
file of events, each with a name, a note and either a `date` or a
`start`/`end` pair of date texts. It normalises those events and sorts them
by `(start, end, name)`. It indexes them by every day they cover. It then
draws a month as a six-by-seven grid of day labels: today gets its own style,
days with events get a bullet and a tooltip, and the tooltip lists each
event's span. A second window, the date-picker dialog, draws the same month
grid as buttons that mark the weekend, today and the selected day. Two small
helpers convert colours between `#RRGGBB` text and RGB triples, and two more
pick the zebra stripe of a list row and the colour and font of a day label.

This project models that core and proves what it promises:

- **Date text.** `parse_dt` is modelled with CPython's `strptime` semantics
  for the three accepted formats, first match wins. The tooltip's `fmt` reads
  back through `parse_dt` to the same instant, cut to the minute.
- **Loading entries.** The normalisation in `load_events` keeps every entry.
  It swaps an inverted span, stops at the first entry whose date does not
  parse, and yields a sorted permutation.
- **Day index.** `build_day_map` maps exactly the days some event covers, and
  each day's list holds exactly the events that cover it, in sorted order.
  Walking past 9999-12-31 is an overflow error.
- **Month grid.** The 42-cell grid of `itermonthdays` holds every day of the
  month exactly once, in the column of its weekday.
- **Cells.** Both windows' cells follow that grid. Month navigation is a
  bijection on year–month pairs.
- **Colours.** Hex colour text round-trips.

Modules, one per file:

- `Wrappers`: Option and Result.
- `Dates`: the proleptic Gregorian calendar, ordinals and weekdays.
- `Text`: whitespace, stripping and decimal digits.
- `Strptime`: the matcher behind `datetime.strptime`.
- `DateTimeText`: `parse_dt` and `fmt`.
- `Events`: the `Event` record, `overlaps_day` and the stable sort.
- `Load`: `load_events`.
- `DayIndex`: `build_day_map`.
- `MonthNav`: month arithmetic.
- `MonthGrid`: `itermonthdays` and its padding.
- `CalendarView`: the main window's grid and navigation.
- `DatePicker`: the picker dialog.
- `Colors`: the hex helpers.
- `Styles`: the theme, `zebra_tag` and `day_label_style`.

Where a window updates its own fields (`self.year`, `self.month`, the widgets
of the grid), the model is a class. Its methods change the shown month and
rebuild the cell list with loops over rows and columns. Those methods are
proved equal to the functions that specify the grid.

## Model

| member | source | states |
|---|---|---|
| Events.OverlapsDayOrdinal | main.py:21-25 | an event covers a valid day exactly when the day's ordinal lies between the ordinals of its start day and its end day, both inclusive |
| Events.OverlapsDay | main.py:21-25 | an event covers some day only when its start day is no later than its end day, so an inverted event covers nothing |
| Events.KeyLessTotal | main.py:95 | the `(start, end, name)` key order is total and antisymmetric |
| Events.KeyLessTransitive | main.py:95 | the key order is transitive |
| Events.StrLessTotal | main.py:95 | Python's string comparison, used for the name component, is a total order |
| Events.Insert | main.py:95 | one step of the stable sort adds the element and keeps the multiset |
| Events.SortEvents | main.py:95 | `list.sort` by key returns a permutation of its input |
| Events.InsertSorted | main.py:95 | inserting into a sorted list keeps it sorted |
| Events.SortEventsSorted | main.py:95 | the sorted list is in key order |
| Events.WithKeyInsert | main.py:95 | inserting an element puts it just ahead of the elements with an equal key, which keep their order |
| Events.SortEventsStable | main.py:95 | the sort is stable: the events with one key keep their relative order |
| Events.SortEventsOfSorted | main.py:110-112 | sorting a list already in key order leaves it unchanged |
| Text.Strip | main.py:39 | the stripped text is no longer than the input and neither starts nor ends with whitespace |
| Text.StripSpec | main.py:39 | `str.strip` removes exactly the leading and trailing whitespace and returns the inner slice, which neither starts nor ends with whitespace |
| Text.StripIdempotent | main.py:76-77 | stripping twice is the same as stripping once |
| Text.DecimalRoundTrip | main.py:294 | `f"{day}"` writes a number in decimal digits that read back to the same number |
| Strptime.Compile | main.py:42 | a format compiles to at most one directive per character, and a format without `%` always compiles |
| Strptime.MatchFrom | main.py:42 | a match never ends before the position it started from |
| Strptime.MatchWithin | main.py:42 | a match that starts within the text also ends within it |
| Strptime.StrptimeCompiled | main.py:42 | a result of a compiled format is a valid date and time |
| Strptime.UnconvertedStopsShort | main.py:42 | "unconverted data remains" means the first match stopped short of the end of the text |
| Strptime.Parse | main.py:42 | `datetime.strptime` succeeds only with a valid date and time |
| Strptime.FirstAltWins | main.py:42 | the regular-expression match commits to a directive's first alternative when the rest of the pattern matches after it, as backtracking does |
| DateTimeText.CompiledFormats | main.py:31-35 | the three formats compile to date, date plus hour-minute, and date plus hour-minute-second directives |
| DateTimeText.ParseDateTime | main.py:38-45 | a parsed instant is a valid date and time |
| DateTimeText.FirstParse | main.py:40-45 | trying the formats from position `k` yields a valid instant, or the error naming the stripped text |
| DateTimeText.ParseDt | main.py:38-45 | the text is stripped; the result is the first of the three formats that parses it, and every earlier format fails; the error is raised exactly when all three fail; a parsed instant is valid |
| DateTimeText.FirstParseSpec | main.py:40-45 | trying formats from position `k` returns the first one that succeeds, or fails exactly when all remaining formats fail |
| DateTimeText.EmptyTextRejected | main.py:39 | a missing or empty value fails to parse, and the message carries the empty text |
| DateTimeText.Fmt | main.py:319-322 | the tooltip text has 10 characters at exactly midnight and 16 otherwise |
| DateTimeText.ParseDateText | main.py:32 | a `YYYY-MM-DD` date text parses as that day at midnight |
| DateTimeText.ParseMinuteText | main.py:33 | a `YYYY-MM-DD HH:MM` text parses as that instant with zero seconds |
| DateTimeText.ParseSecondText | main.py:34 | a `YYYY-MM-DD HH:MM:SS` text parses as exactly that instant |
| DateTimeText.FmtRoundTrip | main.py:319-322 | reading back the tooltip text of any valid instant gives the same instant cut to the minute |
| DateTimeText.DateTextRoundTrip | main.py:320-321 | a well-formed `YYYY-MM-DD` text parses to midnight, and `fmt` writes it back unchanged |
| Load.NameOf | main.py:76 | the name is the stripped field when that is non-empty, otherwise the default name; either way it is non-empty and already stripped |
| Load.WrittenSpan | main.py:80-86 | the instants an entry writes, before any swap, are valid dates and times |
| Load.NormaliseRecord | main.py:76-92 | an entry becomes an event exactly when its date texts parse; the error is the first failing text's; the event is valid and starts no later than it ends |
| Load.NormaliseEntry | main.py:76-92 | the loop body over one entry computes exactly `NormaliseRecord` of that entry |
| Load.DateFieldRule | main.py:80-82 | a non-empty `date` field decides the span alone: start and end are both its parsed instant, and it fails exactly when that text fails |
| Load.EndDefaultsToStart | main.py:84-86 | without `date` and `end`, the event starts and ends at the parsed `start` |
| Load.MissingStartFails | main.py:84 | an entry with neither `date` nor `start` fails on the empty text |
| Load.StartErrorFirst | main.py:84-86 | when `start` does not parse, that error is raised whatever `end` holds |
| Load.SwapKeepsBounds | main.py:89-90 | the swap keeps the two written instants and puts them in order |
| Load.OrderedSpanKept | main.py:89-90 | a span already in order is kept as written |
| Load.NameRule | main.py:76 | a loaded event's name is the stripped name, or the default when that is blank |
| Load.NoteRule | main.py:77 | a loaded event's note is the stripped `note` field; it is empty when the field is missing |
| Load.CollectOk | main.py:75-92 | the loop yields all entries, in order, exactly when every entry converts |
| Load.CollectFirstError | main.py:75-92 | a failed load reports the error of the first entry that fails, and every entry before it converts |
| Load.NormaliseAll | main.py:75-92 | a successful run holds one event per entry, each valid and starting no later than it ends |
| Load.NormaliseAllOk | main.py:75-92 | the events before sorting are the entries' events, one per entry, in entry order, exactly when every entry converts |
| Load.NormaliseAllFirstError | main.py:75-92 | a failed load fails with the first failing entry's error |
| Load.LoadSpec | main.py:75-96 | the load fails exactly when an entry fails, with that error; otherwise it is a sorted permutation of the entries' events, one per entry |
| Load.LoadEvents | main.py:70-96 | the loop computes the load specification; on success there is one event per entry, sorted by key, each valid with start no later than end |
| Dates.NextDay | main.py:108 | `cur + timedelta(days=1)` is the next valid day, and overflows exactly at 9999-12-31 |
| Dates.NextDayOrdinal | main.py:108 | the next day's ordinal is one more |
| Dates.OrdinalMonotone | main.py:25 | comparing dates is comparing their ordinals |
| Dates.NoDayBetween | main.py:106-108 | stepping one day from a date before `b` never jumps past `b` |
| Dates.InstantOrderTotal | main.py:89 | the `datetime` order used by `end < start` is total and irreflexive |
| Dates.InstantOrderRefinesDays | main.py:23-24 | an instant no later than another has a day no later than the other's |
| Dates.WeekdayWithinMonth | main.py:270 | weekdays advance by one per day within a month |
| DayIndex.Bucket | main.py:99-113 | the events one day collects are at most all the events |
| DayIndex.BucketNonEmpty | main.py:99-108 | a day has a list exactly when some event covers it |
| DayIndex.BucketCount | main.py:102-107 | a day's list holds each covering event as many times as it occurs, and no other event |
| DayIndex.BucketInOrder | main.py:102-107 | a day's list before sorting is a subsequence of the events, in event order |
| DayIndex.DayMembership | main.py:102-107 | an event is in a day's list exactly when it covers that day |
| DayIndex.AddEvent | main.py:103-108 | walking one event from its start day to its end day appends it to exactly the days it covers, leaves other days unchanged, and fails exactly when the walk passes 9999-12-31 |
| DayIndex.IndexEvents | main.py:101-108 | after the outer loop, the keys are exactly the days some event covers, and each list is the covering events in event order; it overflows exactly when some event's walk does |
| DayIndex.SortBuckets | main.py:110-112 | every day's list is replaced by its sort and the keys stay the same |
| DayIndex.BuildDayMap | main.py:99-113 | the map is the day index of the events (keys exactly the covered days, each list the covering events), every list is non-empty and sorted, and it fails exactly on overflow |
| MonthNav.NextMonth | main.py:251-256 | moving forward gives a valid year–month one month later |
| MonthNav.PrevMonth | main.py:243-248 | moving back gives a valid year–month one month earlier |
| MonthNav.PrevUndoesNext | main.py:243-256 | going back after going forward returns to the same month |
| MonthNav.NextUndoesPrev | main.py:243-256 | going forward after going back returns to the same month |
| MonthNav.YearCarry | main.py:244-254 | the year changes exactly when crossing December–January |
| MonthNav.TwelveMonthsIsAYear | main.py:251-256 | twelve steps forward land on the same month of the next year |
| MonthGrid.CalendarYear | main.py:270 | the year the first weekday is looked up in is in 1..9999 and is the year itself when in range |
| MonthGrid.CalendarYearKeepsWeekday | main.py:270 | moving the year to `2000 + year % 400` keeps every weekday |
| MonthGrid.FirstWeekday | main.py:270 | the weekday of the first of the month is in 0..6 |
| MonthGrid.MonthDays | main.py:270 | `itermonthdays` yields whole weeks, between four and six of them, and the blanks after the last day fill less than a week |
| MonthGrid.Padded | main.py:272-273 | the padded list has 42 entries when it was shorter, and is unchanged otherwise |
| MonthGrid.PadTo42 | main.py:272-273 | the padding loop computes `Padded` |
| MonthGrid.PaddedKeeps | main.py:272-273 | padding keeps the list, appends only zeros, and reaches 42 |
| MonthGrid.GridLayout | main.py:269-273 | the grid has 42 cells; cell `i` holds day `i - first weekday + 1` inside the month's run and zero outside it |
| MonthGrid.EachDayOnce | main.py:275-279 | each day of the month is in exactly one cell |
| MonthGrid.ColumnIsWeekday | main.py:275-279 | a day's column is its weekday, Monday first |
| MonthGrid.LeadingBlanks | main.py:270 | the cells before the first weekday are blank, and the first non-blank cell is day 1 |
| MonthGrid.FirstDayCell | main.py:275-290 | the first non-zero cell met in row order is the first weekday's |
| CalendarView.LabelFor | main.py:290-313 | a day's label shows its number with a bullet when it has events; its style is today's for today, the event style for another day with events, plain otherwise; the tooltip is bound exactly when the day has events |
| CalendarView.CellFor | main.py:286-306 | a padding zero is a blank label, and any other entry is that day's label |
| CalendarView.MonthCells | main.py:275-306 | the grid has 42 cells; a cell is blank exactly outside the run of the month's days that starts at the first's weekday, and a label in cell `i` is for day `i - first weekday + 1` |
| CalendarView.LayOutMonth | main.py:269-313 | the nested row and column loops produce exactly the 42 specified cells when the year is in 1..9999; otherwise they stop at the first day, after the leading blanks |
| CalendarView.LabelAt | main.py:290-313 | the per-cell body computes `LabelFor` |
| CalendarView.CalendarApp.constructor | main.py:150-166 | the window opens on today's month with the given day index, and its cells are that month's cells |
| CalendarView.CalendarApp.RenderCalendar | main.py:263-313 | rendering keeps the month and the index and replaces the cells by the month's cells, or by the leading blanks when the year is out of range |
| CalendarView.CalendarApp.PrevMonth | main.py:243-249 | the month moves back one and the index is kept; rendering succeeds exactly when the new year is in 1..9999, and then the cells are that month's cells, otherwise its leading blanks |
| CalendarView.CalendarApp.NextMonth | main.py:251-257 | the month moves forward one and the index is kept; rendering succeeds exactly when the new year is in 1..9999, and then the cells are that month's cells, otherwise its leading blanks |
| CalendarView.CellsFollowGrid | main.py:275-306 | a cell is blank exactly when its grid entry is zero; otherwise it is the label of that valid day of the shown month, in its weekday's column |
| CalendarView.OneLabelPerDay | main.py:275-306 | each day of the month has exactly one label in the grid |
| CalendarView.MarkedDays | main.py:291-313 | with the day index of the events, a day carries the bullet and tooltip exactly when some event covers it |
| DatePicker.ButtonFor | ui_beauty.py:499-530 | the selected day gets the accent background and white text; any other day gets the card background and its column's weekend or normal colour; the text is bold exactly for today or the selected day; the outline is drawn exactly for today when it is not selected |
| DatePicker.PickerCellFor | ui_beauty.py:493-499 | a padding zero is an empty frame, and any other entry is that day's button |
| DatePicker.PickerCells | ui_beauty.py:490-499 | the grid has 42 cells; a cell is an empty frame exactly outside the run of the month's days that starts at the first's weekday, and a button in cell `i` is for day `i - first weekday + 1` |
| DatePicker.DatePickerDialog.constructor | ui_beauty.py:409-412 | the selected day is the initial date or today, the month shown is the selected day's, and the grid is rendered |
| DatePicker.DatePickerDialog.Render | ui_beauty.py:476-530 | rendering keeps the month and sets the cells to the month's buttons, or to the leading blanks when the year is outside 1..9999 |
| DatePicker.DatePickerDialog.DayButtonAt | ui_beauty.py:499-530 | the per-cell body computes `ButtonFor` |
| DatePicker.DatePickerDialog.PrevMonth | ui_beauty.py:456-462 | the month moves back one; rendering succeeds exactly when the new year is in 1..9999, and then the cells are that month's buttons, otherwise its leading empty frames |
| DatePicker.DatePickerDialog.NextMonth | ui_beauty.py:464-470 | the month moves forward one; rendering succeeds exactly when the new year is in 1..9999, and then the cells are that month's buttons, otherwise its leading empty frames |
| DatePicker.ButtonsFollowGrid | ui_beauty.py:490-499 | a cell is empty exactly when its grid entry is zero; otherwise it is the button of that valid day, in its weekday's column |
| DatePicker.OneSelectedButton | ui_beauty.py:508-510 | a button has the accent background exactly when it is the selected day, and the selected day has a button whenever it falls in the shown month |
| DatePicker.UnselectedColours | ui_beauty.py:505 | an unselected day's text is the weekend colour exactly on Saturday and Sunday |
| Colors.StripHashes | ui_beauty.py:202 | the result is the input with its leading run of `#` removed: a suffix of the input, not starting with `#`, after only `#` characters |
| Colors.IntStrip | ui_beauty.py:203 | the text `int` reads neither starts nor ends with the whitespace it skips, and text without such whitespace is kept whole |
| Colors.IntStripSpec | ui_beauty.py:203 | `int` drops exactly its leading and trailing whitespace: what remains is the inner slice of the text, and everything dropped is whitespace `int` skips |
| Colors.IntBase16 | ui_beauty.py:203 | after the whitespace `int` skips, `int(x, 16)` succeeds exactly on hex digits, or on `+` or `-` followed by hex digits; the value is the digits' value, negated after `-`, so it lies in -15..255; anything rejected is a `ValueError` naming the text |
| Colors.SeparatorNotSkipped | ui_beauty.py:203 | `int` skips a space but not the separator U+001C that `str.strip` would remove |
| Colors.HexToRgb | ui_beauty.py:201-203 | every decoded component is in -15..255, and a text of at most four characters after the `#`s is rejected |
| Colors.Fields | ui_beauty.py:203 | the three two-character fields decode to components in -15..255, and text of at most four characters is rejected |
| Colors.RgbToHex | ui_beauty.py:206-207 | the text starts with `#` |
| Colors.HexDigits | ui_beauty.py:207 | upper-case hex writing has value `n` |
| Colors.RgbToHexShape | ui_beauty.py:206-207 | components in 0..255 give `#` and six upper-case hex digits |
| Colors.SixDigitsDecode | ui_beauty.py:201-203 | six hex digits after any `#`s decode to three components in 0..255 |
| Colors.HexRoundTrip | ui_beauty.py:201-207 | decoding the text of any RGB triple in 0..255 gives the triple back |
| Colors.FieldsRewrite | ui_beauty.py:201-207 | re-encoding a decoded colour gives the same digits, upper-cased |
| Colors.HashIgnored | ui_beauty.py:202 | a leading `#` does not change the decoded colour |
| Colors.ShorthandRejected | ui_beauty.py:201-203 | a three-digit colour such as `#FFF` raises on its empty third field |
| Colors.SignedFieldReads | ui_beauty.py:203 | a sign inside a two-character field is accepted as `int` does, so `-1FFFF` reads as (-1, 255, 255) |
| Colors.WideComponent | ui_beauty.py:207 | a component above 255 widens the text beyond seven characters |
| Styles.ZebraTag | ui_beauty.py:357-358 | the tag is `even` exactly for even rows and `odd` otherwise |
| Styles.DayLabelStyle | ui_beauty.py:361-368 | today gets the today colour in bold size 11; other days get size 10, with the weekend colour from column 5 on and the text colour before it |

## Left out

- The tkinter widgets, window geometry, fonts installed on the system,
  `center_window`, the tooltip window, key bindings and mouse positions.
  Only what the grid shows is modelled: text, style, colours, boldness,
  outline and whether a tooltip is bound.
- Reading and writing the schedule file: `ensure_sample_file`, JSON decoding,
  `reload`, and the clock behind `date.today()`. Today's date is a
  parameter, and the decoded entries are maps from field name to text.
- Non-string JSON values. `str(...)` of a number, `null` or a boolean, and
  the truthiness of a non-string `date` or `end`, are not modelled; every
  field is taken as text.
- Digits other than ASCII `0`–`9`. Python's `\d` and `int` also accept other
  Unicode decimal digits.
- `DateTimeText.Fmt`: `%Y` is written as four zero-padded digits, which CPython
  does on most platforms. Some C libraries write years below 1000 without
  padding.
- The rest of `_format_tooltip`: the heading, numbering and note layout
  around `fmt`. Only `fmt` is modelled.
- `_mix`, and with it the picker's `activebackground` and the zebra rows'
  colours: it is floating-point arithmetic.
- The palettes themselves (the dark `THEME` and the light one), `apply_theme`
  and the font-family choice. The palette is a `Theme` value passed in, and no
  property depends on its colours.
- `Colors.IntBase16` models `int(x, 16)` only for the slices of at most two
  characters that `_hex_to_rgb` passes. Underscores and the `0x` prefix
  cannot occur in two characters, except the bare `0x`, which is rejected as
  `int` rejects it.
- When the year is outside 1..9999, `date(...)` raises in the middle of
  rendering. The model returns the cells made so far, the leading blanks,
  with `ok` false. What tkinter does with the exception is not modelled.
- The wording of the message of the `ValueError` that `parse_dt` raises. The
  error carries the stripped text it names; the fixed Chinese hint around it
  is display text.
- The picker's `_choose` and `_cancel`, its `result`, its title and the
  `pick_date` wrapper. They close the window and return a value, which is
  window lifecycle.
- The highlight engine, event ids and persistence in the rest of the
  repository. They are not part of this model.
