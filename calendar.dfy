/** The date-picker component: its displayed month and the selected date it
    writes back, the grid-building loop, and the handlers of the arrow
    buttons, the day buttons and the Today button. The clock and the
    router are outside: "today" is a parameter and the route change and the
    closing of the picker are returned as effects. */
module CalendarView {
  import opened Wrappers
  import opened CalendarDates
  import opened Validator
  import opened DateFormat
  import opened Grid

  /** The `date` query parameter when the validator accepts it, otherwise
      today's date formatted as `yyyy-MM-dd`: the default selected date of
      the page and of the fixtures list. */
  function DateParamOrToday(param: Option<string>, today: Date): (s: string)
    requires IsValidDate(today)
    ensures param.Some? && ValidateDate(param.value) ==> s == param.value
    ensures 1 <= today.year <= 9999 ==> ValidateDate(s)
    ensures 1 <= today.year <= 9999 && !(param.Some? && ValidateDate(param.value)) ==>
      ParseIsoDate(s) == Some(today)
  {
    if param.Some? && ValidateDate(param.value) then param.value
    else
      assert 1 <= today.year <= 9999 ==> ParseIsoDate(FormatIso(today)) == Some(today) by {
        if 1 <= today.year <= 9999 { FormatParseRoundTrip(today); }
      }
      FormatIso(today)
  }

  /** The month the calendar opens on: that of the `date` query parameter
      when the validator accepts it, otherwise today's. */
  function InitialMonth(param: Option<string>, today: Date): (ym: YearMonth)
    requires IsValidDate(today)
    ensures ValidMonth(ym)
    ensures param.Some? && ValidateDate(param.value) ==> ym == MonthOf(Fields(param.value))
    ensures !(param.Some? && ValidateDate(param.value)) ==> ym == MonthOf(today)
  {
    if param.Some? && ValidateDate(param.value) then MonthOf(Fields(param.value))
    else MonthOf(today)
  }

  /** The calendar opens on the month of the date the list starts with, so
      that date is a cell of the first grid shown. */
  lemma {:induction false} InitialSelectionShown(param: Option<string>, today: Date)
    requires IsValidDate(today) && 1 <= today.year <= 9999
    ensures ParseIsoDate(DateParamOrToday(param, today)).Some?
    ensures var d := ParseIsoDate(DateParamOrToday(param, today)).value;
      MonthOf(d) == InitialMonth(param, today) && d in GridDays(InitialMonth(param, today))
  {
    var d := ParseIsoDate(DateParamOrToday(param, today)).value;
    GridCoversMonth(InitialMonth(param, today), d);
  }

  /** The month a day button or the Today button leaves in `currentMonth`
      when clicked on day `d`: `d`'s month when its month number differs from
      that of `displayed`, `displayed` otherwise. The years are not compared,
      so a day with the same month number in another year keeps `displayed`. */
  function ShownAfterClick(displayed: YearMonth, d: Date): (shown: YearMonth)
    ensures ValidMonth(displayed) && IsValidDate(d) ==> ValidMonth(shown)
    ensures shown.month == d.month
    ensures shown.year == d.year || shown == displayed
    ensures d.month == displayed.month ==> shown == displayed
  {
    if d.month != displayed.month then MonthOf(d) else displayed
  }

  /** After a click on `d` its day is in the grid of the month left in
      `currentMonth` exactly when its month number differs from that of
      `displayed` or its year is the year of `displayed`: a day twelve months
      or more away that shares the month number stays off that grid. */
  lemma {:induction false} ShownAfterClickIff(displayed: YearMonth, d: Date)
    requires ValidMonth(displayed) && IsValidDate(d)
    ensures ValidMonth(ShownAfterClick(displayed, d))
    ensures d in GridDays(ShownAfterClick(displayed, d)) <==>
      d.month != displayed.month || d.year == displayed.year
  {
    var shown := ShownAfterClick(displayed, d);
    if d.month != displayed.month || d.year == displayed.year {
      assert shown == MonthOf(d);
      GridCoversMonth(shown, d);
    } else if d in GridDays(shown) {
      var i :| 0 <= i < |GridDays(shown)| && GridDays(shown)[i] == d;
      GridMonthNumbers(shown, i);
      assert false;
    }
  }

  /** For a day of the displayed grid the month-number comparison is exact:
      after the click the day's own month is left in `currentMonth`. */
  lemma {:induction false} GridClickShowsDayMonth(displayed: YearMonth, d: Date)
    requires ValidMonth(displayed) && d in GridDays(displayed)
    ensures ValidMonth(MonthOf(d))
    ensures ShownAfterClick(displayed, d) == MonthOf(d)
  {
    var i :| 0 <= i < |GridDays(displayed)| && GridDays(displayed)[i] == d;
    GridMonthNumbers(displayed, i);
  }

  /** The Today button pressed on 15 October 2026 while `currentMonth` is
      October 2025 leaves October 2025 in `currentMonth`, whose grid does not
      hold today. */
  lemma TodayOneYearAway()
    ensures ShownAfterClick(YearMonth(2025, 10), Date(2026, 10, 15)) == YearMonth(2025, 10)
    ensures Date(2026, 10, 15) !in GridDays(YearMonth(2025, 10))
  {
    ShownAfterClickIff(YearMonth(2025, 10), Date(2026, 10, 15));
  }

  /** What a click asks of the outside world: the `yyyy-MM-dd` string put in
      the `date` query parameter, and whether the picker closes. */
  datatype Effects = Effects(publishedDate: string, closePicker: bool)

  class Calendar {
    /** The displayed month (the library date normalised to its month). */
    var currentMonth: YearMonth
    /** The selected date as the fixtures list holds it, `yyyy-MM-dd`. */
    var selectedDate: string

    ghost predicate Valid()
      reads this
    {
      ValidMonth(currentMonth)
    }

    /** The selected day as the grid compares it with each cell; a string
        that does not name a date selects no cell. */
    function SelectedDay(): (d: Option<Date>)
      reads this
      ensures d.Some? <==> ValidateDate(selectedDate)
    {
      ParseIsoDate(selectedDate)
    }

    constructor (dateParam: Option<string>, today: Date, selected: string)
      requires IsValidDate(today)
      ensures Valid()
      ensures currentMonth == InitialMonth(dateParam, today)
      ensures selectedDate == selected
    {
      currentMonth := InitialMonth(dateParam, today);
      selectedDate := selected;
    }

    /** The grid-building loop: from the Sunday on or before the first of
        the displayed month, one row of seven days at a time, while the day
        has not passed the Saturday on or after the month's last day. */
    method Cells(today: Date) returns (rows: seq<seq<Cell>>)
      requires Valid() && IsValidDate(today)
      ensures |rows| * 7 == GridLength(currentMonth)
      ensures forall r :: 0 <= r < |rows| ==> |rows[r]| == 7
      ensures forall r, c :: 0 <= r < |rows| && 0 <= c < 7 ==>
        rows[r][c] == GridCells(currentMonth, today, SelectedDay())[7 * r + c]
    {
      var ym := currentMonth;
      var startDate := GridStart(ym);
      var endDate := GridEnd(ym);
      var selected := SelectedDay();
      ghost var n := GridLength(ym) / 7;
      assert DayNumber(endDate) == DayNumber(startDate) + 7 * n - 1;
      rows := RowsUntil(ym, startDate, endDate, today, selected, n);
      RowsAreGrid(ym, today, selected);
    }

    /** The back arrow: one month earlier, the selection untouched. */
    method PrevMonthClick()
      requires Valid()
      modifies this
      ensures Valid()
      ensures MonthIndex(currentMonth) == MonthIndex(old(currentMonth)) - 1
      ensures currentMonth == PrevMonth(old(currentMonth))
      ensures selectedDate == old(selectedDate)
    {
      currentMonth := PrevMonth(currentMonth);
    }

    /** The forward arrow: one month later, the selection untouched. */
    method NextMonthClick()
      requires Valid()
      modifies this
      ensures Valid()
      ensures MonthIndex(currentMonth) == MonthIndex(old(currentMonth)) + 1
      ensures currentMonth == NextMonth(old(currentMonth))
      ensures selectedDate == old(selectedDate)
    {
      currentMonth := NextMonth(currentMonth);
    }

    /** A day button: show the day's month when its month number differs
        from the displayed one, select the day, publish it and close. For a
        day of the grid the month comparison, which ignores the year, is
        exact, so afterwards the clicked day's own month is displayed. */
    method DayClick(day: Date) returns (effects: Effects)
      requires Valid() && day in GridDays(currentMonth)
      modifies this
      ensures Valid()
      ensures currentMonth == ShownAfterClick(old(currentMonth), day)
      ensures currentMonth == MonthOf(day)
      ensures MonthOf(day) == old(currentMonth) ==> currentMonth == old(currentMonth)
      ensures selectedDate == FormatIso(day)
      ensures effects == Effects(FormatIso(day), true)
      ensures 1 <= day.year <= 9999 ==> SelectedDay() == Some(day)
    {
      GridClickShowsDayMonth(currentMonth, day);
      if day.month != currentMonth.month {
        currentMonth := MonthOf(day);
      }
      selectedDate := FormatIso(day);
      effects := Effects(FormatIso(day), true);
      if 1 <= day.year <= 9999 {
        FormatParseRoundTrip(day);
      }
    }

    /** The Today button: select today, show today's month when its month
        number differs from the displayed one (the year is not compared),
        publish and close. */
    method TodayClick(today: Date) returns (effects: Effects)
      requires Valid() && IsValidDate(today)
      modifies this
      ensures Valid()
      ensures currentMonth == ShownAfterClick(old(currentMonth), today)
      ensures currentMonth.month == today.month
      ensures today.month == old(currentMonth).month ==> currentMonth == old(currentMonth)
      ensures selectedDate == FormatIso(today)
      ensures effects == Effects(FormatIso(today), true)
      ensures 1 <= today.year <= 9999 ==> SelectedDay() == Some(today)
    {
      selectedDate := FormatIso(today);
      if today.month != currentMonth.month {
        currentMonth := MonthOf(today);
      }
      effects := Effects(FormatIso(today), true);
      if 1 <= today.year <= 9999 {
        FormatParseRoundTrip(today);
      }
    }
  }

  /** The outer loop of the grid: rows of seven days from `startDate` while
      the day has not passed `endDate`, which closes the `n`-th week. */
  method RowsUntil(ym: YearMonth, startDate: Date, endDate: Date, today: Date, selected: Option<Date>, ghost n: nat)
      returns (rows: seq<seq<Cell>>)
    requires ValidMonth(ym) && IsValidDate(startDate) && IsValidDate(endDate)
    requires DayNumber(endDate) == DayNumber(startDate) + 7 * n - 1
    ensures rows == Rows(ym, today, selected, startDate, n)
  {
    rows := [];
    var day := startDate;
    ghost var left := n;
    while DayNumber(day) <= DayNumber(endDate)
      invariant 0 <= left && |rows| + left == n
      invariant IsValidDate(day) && DayNumber(day) == DayNumber(startDate) + 7 * |rows|
      invariant rows + Rows(ym, today, selected, day, left) == Rows(ym, today, selected, startDate, n)
      decreases left
    {
      RowsShift(ym, today, selected, rows, day, left, Rows(ym, today, selected, startDate, n));
      AdvanceNumber(day, 7);
      var week;
      week, day := WeekRow(ym, day, today, selected);
      rows := rows + [week];
      left := left - 1;
    }
  }

  /** One row of the grid of month `ym`: the cells of the seven consecutive
      days from `day`, and the day after the row. */
  method WeekRow(ym: YearMonth, day: Date, today: Date, selected: Option<Date>)
      returns (week: seq<Cell>, next: Date)
    requires ValidMonth(ym) && IsValidDate(day)
    ensures week == Week(ym, today, selected, day, 7)
    ensures next == Advance(day, 7)
  {
    var monthStart := FirstOf(ym);
    week := [];
    next := day;
    for i := 0 to 7
      invariant next == Advance(day, i)
      invariant week == Week(ym, today, selected, day, i)
    {
      var cell := Cell(next, MonthOf(next) == MonthOf(monthStart), next == today, selected == Some(next));
      week := week + [cell];
      next := NextDay(next);
    }
  }
}
