# Date picker of the predictions page

This project models the date picker of a football-predictions front end in Dafny. The picker has three parts:

- **`validateDate`**: the check that a `date` query parameter is a well-formed `yyyy-mm-dd` string naming a real calendar day.
- **The calendar component**: the month it opens on, the grid of day buttons it builds one week-row at a time, the back and forward arrows, the day buttons and the Today button.
- **The default-date helper**: it takes the `date` parameter when the validator accepts it and today's date otherwise.

Dates are timezone-free proleptic Gregorian dates. Arithmetic uses a serial day number (days since 0000-01-01), and the day of the week has Sunday = 0. The component's state is a class:

- `currentMonth` is the displayed month, reduced to its year and month, the only parts the grid reads.
- `selectedDate` is the `yyyy-MM-dd` string the parent holds.

The clock and the router are outside the model. Today's date is a parameter. A click returns, as an `Effects` value, the string it publishes in the `date` parameter and whether the picker closes.

Files:

| file | module | content |
|---|---|---|
| wrappers.dfy | Wrappers | `Option` |
| decimal.dfy | Decimal | digit strings: `Number` on a field, zero padding of the formatter |
| calendar_dates.dfy | CalendarDates | leap years, month lengths, day numbers, weekdays, next/previous day and month |
| validator.dfy | Validator | `validateDate`, in UTC and on a host with a UTC offset |
| date_format.dfy | DateFormat | `formatDate(d, "yyyy-MM-dd")` and its round trip with the validator |
| grid.dfy | Grid | the grid the `Cells` loop builds, as specification functions, with its properties |
| calendar.dfy | CalendarView | the component class, the grid loop, the click handlers, the default date |

## Model

| member | source | states |
|---|---|---|
| Validator.ValidateDate | app/utils/validator.ts:1-15 | accepts exactly the strings of shape `dddd-dd-dd` whose year, month and day form a real date, read in the time zone the string was parsed in; total on every string |
| Validator.HasIsoShape | app/utils/validator.ts:3-4 | the pattern `^\d{4}-\d{2}-\d{2}$`: exactly ten characters, dashes at positions 4 and 7 and ASCII digits everywhere else |
| Validator.Fields | app/utils/validator.ts:11 | the three numbers split out of a well-shaped string lie in 0..9999, 0..99 and 0..99 |
| Validator.FieldDigits | app/utils/validator.ts:11 | each field's number is its digits read most significant first |
| Validator.ConstructDate | app/utils/validator.ts:7-8 | as the V8 engine (Node, Chromium) parses a date-only string: the constructed date is invalid exactly when the month is outside 01..12 or the day outside 01..31; otherwise it is a real date, and it equals the fields whenever its day is the written one |
| Validator.ParseIsoDate | app/utils/validator.ts:1-15 | gives a date exactly when the validator accepts the string, a real date of the years 0..9999 |
| Validator.LeapDayAccepted | app/utils/validator.ts:12-14 | a well-shaped `yyyy-02-29` is accepted exactly when `yyyy` is a leap year |
| Validator.ShapeExamples | app/utils/validator.ts:3-4 | short fields, slashes and trailing spaces are rejected |
| Validator.MonthExamples | app/utils/validator.ts:7-8 | months 13 and 00 are rejected |
| Validator.DayExamples | app/utils/validator.ts:12-14 | 30 February, 31 April and day 00 are rejected |
| Validator.LeapExamples | app/utils/validator.ts:12-14 | 29 February is accepted in 2024 and 2000 |
| Validator.NonLeapExamples | app/utils/validator.ts:12-14 | 29 February is rejected in 2023 and 1900 |
| Validator.LocalDay | app/utils/validator.ts:7-14 | the local calendar day at UTC midnight of `d` is `offset / 1440` (rounded down) days from `d` |
| Validator.ValidateDateAt | app/utils/validator.ts:1-15 | the validator as written (built as UTC midnight, read back in local time) accepts nothing the corrected validator rejects; the converse for hosts at or east of UTC is `ValidateDateAtOffset` |
| Validator.ValidateDateAtOffset | app/utils/validator.ts:7-14 | with the fields read in local time, a host at or east of UTC accepts exactly what `ValidateDate` accepts, and a host behind UTC accepts nothing |
| Validator.NegativeOffsetRejects | app/utils/validator.ts:7-14 | five hours behind UTC, the real date 2024-03-05 is rejected |
| Decimal.Digits | app/components/Calendar.tsx:104 | the shortest decimal spelling of `n` reads back as `n` |
| Decimal.PadDecimal | app/components/Calendar.tsx:104 | zero padding to a width keeps the value, and a value below 10^width takes exactly `width` digits |
| Decimal.SameValueSameDigits | app/components/Calendar.tsx:104 | two digit strings of the same length and value are equal |
| DateFormat.EraYear | app/components/Calendar.tsx:104 | the printed year is the year itself from year 1 on and `1 - y` before that |
| DateFormat.FormatIso | app/components/Calendar.tsx:104 | the formatted string has at least ten characters, with dashes before the day and month fields |
| DateFormat.FormatParseRoundTrip | app/components/Calendar.tsx:104 | formatting a date of the years 1..9999 gives a string the validator accepts and that parses back to the same date |
| DateFormat.ParseFormatRoundTrip | app/components/Calendar.tsx:104 | every accepted string from year 1 on is the formatting of the date it names |
| DateFormat.FormatOutsideYearRange | app/components/Calendar.tsx:104 | outside the years 1..9999 the formatted string never parses back to the date |
| CalendarDates.DaysInMonth | app/utils/validator.ts:12-14 | every month has 28 to 31 days |
| CalendarDates.FirstOf | app/components/Calendar.tsx:81 | the first of a month is a real date of that month with day 1 |
| CalendarDates.LastOf | app/components/Calendar.tsx:82 | the last day of a month is a real date of that month |
| CalendarDates.YearLength | app/utils/validator.ts:7 | the closed-form day count grows by 366 across a leap year and by 365 across any other year |
| CalendarDates.DaysBeforeYearIsSum | app/utils/validator.ts:7 | the closed-form day count equals the sum of the year lengths, for years before and after year 0 |
| CalendarDates.DayOfWeek | app/components/Calendar.tsx:83-84 | the weekday is in 0..6 |
| CalendarDates.UnixEpochWeekday | app/components/Calendar.tsx:83-84 | 1 January 1970 is a Thursday |
| CalendarDates.NextDay | app/components/Calendar.tsx:134 | adding one day gives a real date |
| CalendarDates.NextDayNumber | app/components/Calendar.tsx:134 | adding one day advances the day number by one |
| CalendarDates.PrevDayNumber | app/utils/validator.ts:7-14 | the day before `d` has the previous day number, and the day after it is `d` |
| CalendarDates.NextMonth | app/components/Calendar.tsx:56 | the next month is a month with month index one more, so December wraps to January of the next year |
| CalendarDates.PrevMonth | app/components/Calendar.tsx:47 | the previous month has month index one less, so January wraps to December of the year before |
| CalendarDates.MonthIndexInjective | app/components/Calendar.tsx:47-56 | a displayed month is determined by its month index |
| CalendarDates.LastThenFirst | app/components/Calendar.tsx:82 | the day after a month's last day is the first of the next month |
| CalendarDates.FirstOfMonotone | app/components/Calendar.tsx:81 | later months start on later days |
| CalendarDates.DayNumberMonthOrder | app/components/Calendar.tsx:90 | a day of an earlier month has a smaller day number |
| CalendarDates.DayNumberInjective | app/components/Calendar.tsx:94-95 | two real dates with the same day number are the same date |
| CalendarDates.InMonthIff | app/components/Calendar.tsx:93 | a day is in a month exactly when it lies between the month's first and last day |
| CalendarDates.SameMonthDistance | app/components/Calendar.tsx:82 | within a month, day numbers differ as the days of the month do |
| CalendarDates.WeekdayDistance | app/components/Calendar.tsx:83-84 | weekdays advance with the day number modulo 7 |
| Grid.GridStart | app/components/Calendar.tsx:83 | the grid starts on a Sunday, on or at most six days before the first of the month |
| Grid.GridEnd | app/components/Calendar.tsx:84 | the grid ends on a Saturday, on or at most six days after the last of the month |
| Grid.GridLength | app/components/Calendar.tsx:90 | the grid holds whole weeks: 28 to 42 cells, a multiple of 7, so 4 to 6 rows |
| Grid.GridDays | app/components/Calendar.tsx:88-134 | the grid's days run from its start to its end, consecutive, each a real date |
| Grid.CellFor | app/components/Calendar.tsx:93-95 | the cell carries its day; it is in the current month exactly when its month index is the displayed one, today exactly when it is the same calendar day as today, selected exactly when it is the selected date |
| Grid.GridCells | app/components/Calendar.tsx:80-147 | one cell per grid day: as many cells as the grid is long, the first on the Sunday that starts the grid, each a real date one day after the one before |
| Grid.DaysFrom | app/components/Calendar.tsx:134 | `n` days from `d` are `n` real dates whose day numbers climb by one |
| Grid.Advance | app/components/Calendar.tsx:134 | adding `k` days gives a real date |
| Grid.AdvanceNumber | app/components/Calendar.tsx:134 | adding `k` days advances the day number by `k` |
| Grid.AdvanceAdd | app/components/Calendar.tsx:134 | adding `a` days and then `b` days is adding `a + b` days |
| Grid.Week | app/components/Calendar.tsx:91-135 | a row of the loop has one cell per iteration |
| Grid.Rows | app/components/Calendar.tsx:90-145 | the loop collects one row per iteration |
| Grid.WeekAt | app/components/Calendar.tsx:91-135 | column `c` of a row is the cell of the row's first day plus `c` |
| Grid.RowsAt | app/components/Calendar.tsx:90-145 | row `r` starts `7 * r` days after the first day |
| Grid.CellAt | app/components/Calendar.tsx:92-95 | grid cell `k` is the cell of grid day `k` |
| Grid.RowCell | app/components/Calendar.tsx:90-145 | cell `c` of row `r` of the loop is grid cell `7 * r + c` |
| Grid.RowsAreGrid | app/components/Calendar.tsx:80-147 | the rows the loop collects are the grid's cells, seven to a row, with as many rows as whole weeks |
| Grid.GridWeekdays | app/components/Calendar.tsx:83-84 | every column is one weekday: Sunday first, Saturday last |
| Grid.GridNext | app/components/Calendar.tsx:134 | each grid day is the day after the one before it |
| Grid.GridPosition | app/components/Calendar.tsx:88-134 | a date sits in the grid only at index `DayNumber(d) - DayNumber(start)`, so no date appears twice |
| Grid.GridCoversMonth | app/components/Calendar.tsx:80-147 | every day of the displayed month appears in the grid exactly once |
| Grid.InMonthBlock | app/components/Calendar.tsx:93 | the in-month cells are one block, starting at the first's weekday, as long as the month |
| Grid.GridAfterPrevMonth | app/components/Calendar.tsx:83 | no cell lies before the month preceding the displayed one |
| Grid.GridBeforeNextMonth | app/components/Calendar.tsx:84 | no cell lies after the month following the displayed one |
| Grid.RowsShift | app/components/Calendar.tsx:136-144 | pushing a row moves it from the rows still to come to the rows collected, and their concatenation is unchanged |
| Grid.GridMonthNumbers | app/components/Calendar.tsx:101 | every cell lies in the displayed month or a neighbouring one, so a cell's month number differs from the displayed one exactly when the cell is outside the displayed month |
| Grid.TodayFlag | app/components/Calendar.tsx:94 | at most one cell is today, and one is exactly when today falls within the grid |
| Grid.SelectedFlag | app/components/Calendar.tsx:95 | at most one cell is selected, and one is exactly when the selected day falls within the grid |
| Grid.March2024 | app/components/Calendar.tsx:80-147 | March 2024 shows Sunday 25 February to Saturday 6 April, 42 cells |
| CalendarView.DateParamOrToday | app/components/Fixtures.tsx:24-26 | a valid `date` parameter is kept; otherwise today formatted, which the validator accepts and which names today (the same rule as app/predictions/page.tsx:17-20) |
| CalendarView.InitialMonth | app/components/Calendar.tsx:37-42 | the calendar opens on the month of a valid `date` parameter, otherwise on today's month |
| CalendarView.InitialSelectionShown | app/components/Calendar.tsx:40-42 | the date the list starts with is in the first grid shown |
| CalendarView.ShownAfterClickIff | app/components/Calendar.tsx:168-170 | after a click on a day, the day is in the grid of the month left in `currentMonth` exactly when its month number differs from that of the previous `currentMonth` or its year is that month's year |
| CalendarView.ShownAfterClick | app/components/Calendar.tsx:101-103 | the month left in `currentMonth` after a click on a day has that day's month number; its year is the day's, unless `currentMonth` is kept; a day with the same month number keeps it, whatever its year; a real month stays real |
| CalendarView.GridClickShowsDayMonth | app/components/Calendar.tsx:101-103 | for a day of the displayed grid, the month-number comparison is exact: after the click the day's own month is left in `currentMonth` |
| CalendarView.TodayOneYearAway | app/components/Calendar.tsx:168-170 | the Today button on 15 October 2026, with October 2025 in `currentMonth`, leaves October 2025 in `currentMonth`, whose grid lacks today |
| CalendarView.Calendar.SelectedDay | app/components/Calendar.tsx:95 | the selection compared with the cells is a date exactly when the selected string passes the validator |
| CalendarView.Calendar.constructor | app/components/Calendar.tsx:40-42 | the initial month and the selection string given by the parent |
| CalendarView.Calendar.Cells | app/components/Calendar.tsx:80-147 | the loop returns whole rows of seven cells, the grid's cells in order, as many rows as the month has grid weeks |
| CalendarView.RowsUntil | app/components/Calendar.tsx:86-145 | the outer loop, run from the grid's first day until the day passes the end of the `n`-th week, collects exactly the `n` rows of the specification |
| CalendarView.WeekRow | app/components/Calendar.tsx:91-135 | the inner loop yields the seven cells from the row's first day and moves the day on by seven |
| CalendarView.Calendar.PrevMonthClick | app/components/Calendar.tsx:47 | month index one less, selection unchanged |
| CalendarView.Calendar.NextMonthClick | app/components/Calendar.tsx:56 | month index one more, selection unchanged |
| CalendarView.Calendar.DayClick | app/components/Calendar.tsx:100-109 | a clicked grid day's month is left in `currentMonth`; the day is selected, published as `yyyy-MM-dd`, and the picker closes |
| CalendarView.Calendar.TodayClick | app/components/Calendar.tsx:166-175 | today is selected, published, and the picker closes; `currentMonth` afterwards has today's month number, and it is kept unchanged, whatever its year, when it already has that month number |

## Left out

- Time zones and daylight saving time: dates are calendar days as seen in UTC. The validator alone is also modelled with a host offset (`ValidateDateAt`); see Findings.
- The way date-fns turns the `selectedDate` string into a date inside `isSameDay`: the model selects the day the validator names and no cell for any other string.
- `currentMonth` holds only the year and month of the library date. The day and the time of day never reach the grid, since it starts from `startOfMonth`.
- Rendering: CSS classes, the `key` attributes, the month title, the "Selected:" caption and the weekday header row (`Days`).
- Closing the picker (the X button, app/components/Calendar.tsx:152, a day click and the Today button): the parent renders the calendar only while it is open (app/components/Fixtures.tsx:51-58), so closing discards `currentMonth`, and reopening runs the constructor again from the current `date` parameter. The model keeps one `Calendar` object across closes, so the `currentMonth` a click leaves is never rendered; the next opening shows the month of the published date.
- Routing: the URL built from the other search parameters. A click returns the published date and the close flag as `Effects`; `router.push` is not modelled.
- The clock: `new Date()` is the `today` parameter.
- The fixtures list, its filters, data fetching and the other components: they are not part of this model.
- The grid loop's guard compares day numbers rather than instants. This gives the same answer, since each row's day is a midnight and the end is the last moment of a Saturday. Each cell holds only what decides the button's look and its click.
- CalendarView.Calendar.DayClick: requires the clicked day to be a grid day of the displayed month, which is how the grid creates its buttons.
- DateFormat.FormatParseRoundTrip: holds for the years 1..9999 only, since other years print with five digits or as era years (`FormatOutsideYearRange`).

## Findings

| source | as written | input that shows it | evidently intended | confidence | as-written member | corrected member |
|---|---|---|---|---|---|---|
| app/utils/validator.ts:7-14 | `new Date("yyyy-mm-dd")` is UTC midnight, but `getFullYear`, `getMonth` and `getDate` read the host's local time | `"2024-03-05"` on a host five hours behind UTC: the local clock shows 4 March, so the string is rejected; every string is rejected on such a host | accept every real date in any time zone | high, not executed | Validator.NegativeOffsetRejects | Validator.ValidateDate |

The corrected validator is the one the rest of the model uses. `Validator.ValidateDateAtOffset` proves that it coincides with the source's validator on hosts at or east of UTC.
