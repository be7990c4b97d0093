/** The calendar's month grid: every day from the Sunday on or before the
    first of the displayed month to the Saturday on or after its last day,
    each with its in-month, today and selected flags. The functions here
    specify what the grid-building loop of the calendar computes. */
module Grid {
  import opened Wrappers
  import opened CalendarDates

  /** One day button of the grid. */
  datatype Cell = Cell(date: Date, inCurrentMonth: bool, isToday: bool, isSelected: bool)

  /** The start of the week (Sunday) that holds the first of the month. */
  function GridStart(ym: YearMonth): (r: Date)
    requires ValidMonth(ym)
    ensures IsValidDate(r) && DayOfWeek(r) == 0
    ensures DayNumber(FirstOf(ym)) - 6 <= DayNumber(r) <= DayNumber(FirstOf(ym))
  {
    var first := FirstOf(ym);
    var w := DayOfWeek(first);
    if w == 0 then first
    else
      var prev := PrevMonth(ym);
      var r := Date(prev.year, prev.month, DaysInMonth(prev.year, prev.month) - w + 1);
      assert DayNumber(r) == DayNumber(first) - w by {
        LastThenFirst(prev);
        MonthIndexInjective(NextMonth(prev), ym);
        SameMonthDistance(LastOf(prev), r);
      }
      WeekdayDistance(first, r);
      r
  }

  /** The end of the week (Saturday) that holds the last day of the month. */
  function GridEnd(ym: YearMonth): (r: Date)
    requires ValidMonth(ym)
    ensures IsValidDate(r) && DayOfWeek(r) == 6
    ensures DayNumber(LastOf(ym)) <= DayNumber(r) <= DayNumber(LastOf(ym)) + 6
  {
    var last := LastOf(ym);
    var w := DayOfWeek(last);
    if w == 6 then last
    else
      var next := NextMonth(ym);
      var r := Date(next.year, next.month, 6 - w);
      assert DayNumber(r) == DayNumber(last) + 6 - w by {
        LastThenFirst(ym);
        SameMonthDistance(r, FirstOf(next));
      }
      WeekdayDistance(last, r);
      r
  }

  /** The number of cells: whole weeks only, four to six of them. */
  function GridLength(ym: YearMonth): (n: nat)
    requires ValidMonth(ym)
    ensures n % 7 == 0 && 28 <= n <= 42
  {
    var start, end := GridStart(ym), GridEnd(ym);
    assert DayNumber(LastOf(ym)) - DayNumber(FirstOf(ym)) == DaysInMonth(ym.year, ym.month) - 1 by {
      SameMonthDistance(LastOf(ym), FirstOf(ym));
    }
    WeekdayDistance(start, end);
    var n := DayNumber(end) - DayNumber(start) + 1;
    WholeWeeks(n);
    n
  }

  lemma SmallMod7(k: int)
    requires 0 <= k < 7
    ensures k % 7 == k
  {
  }

  lemma WholeWeeks(n: int)
    requires (n - 1) % 7 == 6 && 28 <= n <= 43
    ensures n % 7 == 0 && n <= 42
  {
  }

  /** `n` consecutive days from `d` on. */
  function DaysFrom(d: Date, n: nat): (r: seq<Date>)
    requires IsValidDate(d)
    ensures |r| == n
    ensures forall i :: 0 <= i < n ==> IsValidDate(r[i]) && DayNumber(r[i]) == DayNumber(d) + i
    ensures n > 0 ==> r[0] == d
    decreases n
  {
    if n == 0 then [] else NextDayNumber(d); [d] + DaysFrom(NextDay(d), n - 1)
  }

  /** The days of the grid, in row order. */
  function GridDays(ym: YearMonth): (r: seq<Date>)
    requires ValidMonth(ym)
    ensures |r| == GridLength(ym)
    ensures r[0] == GridStart(ym) && r[|r| - 1] == GridEnd(ym)
    ensures forall i :: 0 <= i < |r| ==> IsValidDate(r[i]) && DayNumber(r[i]) == DayNumber(GridStart(ym)) + i
  {
    var r := DaysFrom(GridStart(ym), GridLength(ym));
    GridSpan(ym);
    DayNumberInjective(r[|r| - 1], GridEnd(ym));
    r
  }

  /** The grid runs from its first Sunday to its last Saturday. */
  lemma GridSpan(ym: YearMonth)
    requires ValidMonth(ym)
    ensures GridLength(ym) == DayNumber(GridEnd(ym)) - DayNumber(GridStart(ym)) + 1
  {
  }

  /** The cell for day `d` when month `ym` is displayed: in the current month
      when its year and month are those displayed, today and selected when it
      is that calendar day. */
  function CellFor(ym: YearMonth, today: Date, selected: Option<Date>, d: Date): (c: Cell)
    ensures c.date == d
    ensures ValidMonth(ym) && 1 <= d.month <= 12 ==>
      (c.inCurrentMonth <==> MonthIndex(MonthOf(d)) == MonthIndex(ym))
    ensures IsValidDate(d) && IsValidDate(today) ==> (c.isToday <==> DayNumber(d) == DayNumber(today))
    ensures c.isSelected <==> selected == Some(d)
  {
    assert ValidMonth(ym) && 1 <= d.month <= 12 && MonthIndex(MonthOf(d)) == MonthIndex(ym) ==> MonthOf(d) == ym by {
      if ValidMonth(ym) && 1 <= d.month <= 12 && MonthIndex(MonthOf(d)) == MonthIndex(ym) { MonthIndexInjective(MonthOf(d), ym); }
    }
    assert IsValidDate(d) && IsValidDate(today) && DayNumber(d) == DayNumber(today) ==> d == today by {
      if IsValidDate(d) && IsValidDate(today) && DayNumber(d) == DayNumber(today) { DayNumberInjective(d, today); }
    }
    Cell(d, MonthOf(d) == ym, d == today, selected == Some(d))
  }

  /** The grid's cells, in row order (seven to a row). */
  function GridCells(ym: YearMonth, today: Date, selected: Option<Date>): (cells: seq<Cell>)
    requires ValidMonth(ym)
    ensures |cells| == GridLength(ym)
    ensures cells[0].date == GridStart(ym)
    ensures forall i :: 0 <= i < |cells| ==>
      IsValidDate(cells[i].date) && DayNumber(cells[i].date) == DayNumber(GridStart(ym)) + i
  {
    var days := GridDays(ym);
    seq(|days|, i requires 0 <= i < |days| => CellFor(ym, today, selected, days[i]))
  }

  /** The day `k` days after `d` (adding one day `k` times). */
  function Advance(d: Date, k: nat): (r: Date)
    requires IsValidDate(d)
    ensures IsValidDate(r)
    decreases k, d
  {
    if k == 0 then d else NextDay(Advance(d, k - 1))
  }

  /** Advancing `k` days adds `k` to the serial number. */
  lemma {:induction false} AdvanceNumber(d: Date, k: nat)
    requires IsValidDate(d)
    ensures DayNumber(Advance(d, k)) == DayNumber(d) + k
  {
    if k > 0 {
      AdvanceNumber(d, k - 1);
      NextDayNumber(Advance(d, k - 1));
    }
  }

  /** Advancing `a` days and then `b` days is advancing `c = a + b` days. */
  lemma {:induction false} AdvanceAdd(d: Date, a: nat, b: nat, c: nat)
    requires IsValidDate(d) && c == a + b
    ensures Advance(Advance(d, a), b) == Advance(d, c)
    decreases b
  {
    if b > 0 {
      AdvanceAdd(d, a, b - 1, c - 1);
    }
  }

  /** The cells of the `k` days from `d` on, as the row loop pushes them. */
  function Week(ym: YearMonth, today: Date, selected: Option<Date>, d: Date, k: nat): (w: seq<Cell>)
    requires IsValidDate(d)
    ensures |w| == k
    decreases k, d
  {
    if k == 0 then []
    else Week(ym, today, selected, d, k - 1) + [CellFor(ym, today, selected, Advance(d, k - 1))]
  }

  /** `n` rows of seven cells from `d` on, as the grid loop collects them. */
  function Rows(ym: YearMonth, today: Date, selected: Option<Date>, d: Date, n: nat): (rows: seq<seq<Cell>>)
    requires IsValidDate(d)
    ensures |rows| == n
    decreases n, d
  {
    if n == 0 then []
    else [Week(ym, today, selected, d, 7)] + Rows(ym, today, selected, Advance(d, 7), n - 1)
  }

  lemma {:induction false} WeekAt(ym: YearMonth, today: Date, selected: Option<Date>, d: Date, k: nat, c: int)
    requires IsValidDate(d) && 0 <= c < k
    ensures Week(ym, today, selected, d, k)[c] == CellFor(ym, today, selected, Advance(d, c))
  {
    if c < k - 1 {
      WeekAt(ym, today, selected, d, k - 1, c);
    }
  }

  /** The rows from `d` are its week followed by the rows from the day a
      week later, whose number is seven more. */
  lemma RowsUnfold(ym: YearMonth, today: Date, selected: Option<Date>, d: Date, n: nat)
    requires IsValidDate(d) && n > 0
    ensures Rows(ym, today, selected, d, n) ==
      [Week(ym, today, selected, d, 7)] + Rows(ym, today, selected, Advance(d, 7), n - 1)
    ensures DayNumber(Advance(d, 7)) == DayNumber(d) + 7
  {
    AdvanceNumber(d, 7);
  }

  /** One step of the row loop: moving the week of `d` from the rows still
      to come to the rows collected keeps their concatenation. */
  lemma RowsShift(ym: YearMonth, today: Date, selected: Option<Date>, done: seq<seq<Cell>>,
                  d: Date, n: nat, total: seq<seq<Cell>>)
    requires IsValidDate(d) && n > 0
    requires done + Rows(ym, today, selected, d, n) == total
    ensures (done + [Week(ym, today, selected, d, 7)]) + Rows(ym, today, selected, Advance(d, 7), n - 1) == total
  {
    RowsUnfold(ym, today, selected, d, n);
    var week, rest := Week(ym, today, selected, d, 7), Rows(ym, today, selected, Advance(d, 7), n - 1);
    assert (done + [week]) + rest == done + ([week] + rest);
  }

  /** Row `r` of the rows from `d` is row `r - 1` of the rows from a week later. */
  lemma RowsStep(ym: YearMonth, today: Date, selected: Option<Date>, d: Date, n: nat, r: int)
    requires IsValidDate(d) && 0 < r < n
    ensures Rows(ym, today, selected, d, n)[r] == Rows(ym, today, selected, Advance(d, 7), n - 1)[r - 1]
  {
    assert Rows(ym, today, selected, d, n) ==
      [Week(ym, today, selected, d, 7)] + Rows(ym, today, selected, Advance(d, 7), n - 1);
  }

  /** Row `r` of the rows from `d` on is the week from day `k = 7 * r`. */
  lemma {:induction false} RowsAt(ym: YearMonth, today: Date, selected: Option<Date>, d: Date, n: nat, r: int, k: nat)
    requires IsValidDate(d) && 0 <= r < n && k == 7 * r
    ensures Rows(ym, today, selected, d, n)[r] == Week(ym, today, selected, Advance(d, k), 7)
    decreases r
  {
    if r == 0 {
      assert Rows(ym, today, selected, d, n)[0] == Week(ym, today, selected, d, 7);
    } else {
      RowsStep(ym, today, selected, d, n, r);
      RowsAt(ym, today, selected, Advance(d, 7), n - 1, r - 1, k - 7);
      AdvanceAdd(d, 7, k - 7, k);
    }
  }

  lemma CellAt(ym: YearMonth, today: Date, selected: Option<Date>, k: int)
    requires ValidMonth(ym) && 0 <= k < GridLength(ym)
    ensures |GridCells(ym, today, selected)| == GridLength(ym)
    ensures GridCells(ym, today, selected)[k] == CellFor(ym, today, selected, GridDays(ym)[k])
  {
  }

  /** Day `c` of the week that starts `k` days into the grid is grid day `k + c`. */
  lemma {:induction false} WeekDayInGrid(ym: YearMonth, k: nat, c: nat, j: int)
    requires ValidMonth(ym) && j == k + c && j < GridLength(ym)
    ensures Advance(Advance(GridStart(ym), k), c) == GridDays(ym)[j]
  {
    var first := Advance(GridStart(ym), k);
    AdvanceNumber(GridStart(ym), k);
    AdvanceNumber(first, c);
    DayNumberInjective(Advance(first, c), GridDays(ym)[j]);
  }

  /** Cell `c` of row `r` of the rows the grid loop collects is grid cell
      `7 * r + c`. */
  lemma {:induction false} RowCell(ym: YearMonth, today: Date, selected: Option<Date>, r: int, c: int)
    requires ValidMonth(ym) && 0 <= r < GridLength(ym) / 7 && 0 <= c < 7
    ensures |Rows(ym, today, selected, GridStart(ym), GridLength(ym) / 7)[r]| == 7
    ensures Rows(ym, today, selected, GridStart(ym), GridLength(ym) / 7)[r][c]
      == GridCells(ym, today, selected)[7 * r + c]
  {
    var start, n := GridStart(ym), GridLength(ym) / 7;
    var k := 7 * r;
    var j := k + c;
    var first := Advance(start, k);
    RowsAt(ym, today, selected, start, n, r, k);
    var row := Rows(ym, today, selected, start, n)[r];
    assert row == Week(ym, today, selected, first, 7);
    WeekAt(ym, today, selected, first, 7, c);
    var day := Advance(first, c);
    assert row[c] == CellFor(ym, today, selected, day);
    WeekDayInGrid(ym, k, c, j);
    assert day == GridDays(ym)[j];
    CellAt(ym, today, selected, j);
    assert row[c] == GridCells(ym, today, selected)[j];
  }

  /** The rows the grid loop collects, from the grid's first day until its
      last, are the grid's cells seven to a row. */
  lemma {:induction false} RowsAreGrid(ym: YearMonth, today: Date, selected: Option<Date>)
    requires ValidMonth(ym)
    ensures var rows := Rows(ym, today, selected, GridStart(ym), GridLength(ym) / 7);
      && |rows| * 7 == GridLength(ym)
      && (forall r :: 0 <= r < |rows| ==> |rows[r]| == 7)
      && (forall r, c :: 0 <= r < |rows| && 0 <= c < 7 ==>
            rows[r][c] == GridCells(ym, today, selected)[7 * r + c])
  {
    var rows := Rows(ym, today, selected, GridStart(ym), GridLength(ym) / 7);
    forall r | 0 <= r < |rows|
      ensures |rows[r]| == 7
    {
      RowCell(ym, today, selected, r, 0);
    }
    forall r, c | 0 <= r < |rows| && 0 <= c < 7
      ensures rows[r][c] == GridCells(ym, today, selected)[7 * r + c]
    {
      RowCell(ym, today, selected, r, c);
    }
  }

  /** Column `i % 7` of every row is the same weekday, Sunday first. */
  lemma {:induction false} GridWeekdays(ym: YearMonth, i: int)
    requires ValidMonth(ym) && 0 <= i < GridLength(ym)
    ensures DayOfWeek(GridDays(ym)[i]) == i % 7
  {
    var start, d := GridStart(ym), GridDays(ym)[i];
    assert DayNumber(d) - DayNumber(start) == i;
    WeekdayDistance(start, d);
  }

  /** Consecutive cells hold consecutive days. */
  lemma {:induction false} GridNext(ym: YearMonth, k: int)
    requires ValidMonth(ym) && 0 <= k && k + 1 < GridLength(ym)
    ensures GridDays(ym)[k + 1] == NextDay(GridDays(ym)[k])
  {
    var days := GridDays(ym);
    NextDayNumber(days[k]);
    DayNumberInjective(days[k + 1], NextDay(days[k]));
  }

  /** A real day lies in the grid's range exactly at index
      `DayNumber(d) - DayNumber(GridStart(ym))`, and nowhere else: no day
      appears twice. */
  lemma {:induction false} GridPosition(ym: YearMonth, d: Date)
    requires ValidMonth(ym) && IsValidDate(d)
    ensures forall i :: 0 <= i < GridLength(ym) ==>
      (GridDays(ym)[i] == d <==> i == DayNumber(d) - DayNumber(GridStart(ym)))
  {
    var days := GridDays(ym);
    forall i | 0 <= i < |days|
      ensures days[i] == d <==> i == DayNumber(d) - DayNumber(GridStart(ym))
    {
      if i == DayNumber(d) - DayNumber(GridStart(ym)) {
        DayNumberInjective(days[i], d);
      }
    }
  }

  /** Every day of the displayed month appears in the grid, exactly once. */
  lemma {:induction false} GridCoversMonth(ym: YearMonth, d: Date)
    requires ValidMonth(ym) && IsValidDate(d) && MonthOf(d) == ym
    ensures d in GridDays(ym)
    ensures forall i, j :: 0 <= i < j < GridLength(ym) ==> !(GridDays(ym)[i] == d && GridDays(ym)[j] == d)
  {
    InMonthIff(d, ym);
    GridPosition(ym, d);
    var k := DayNumber(d) - DayNumber(GridStart(ym));
    assert GridDays(ym)[k] == d;
  }

  /** The in-month cells form one block: they start at the weekday of the
      first of the month and there are as many as the month has days. */
  lemma {:induction false} InMonthBlock(ym: YearMonth, i: int)
    requires ValidMonth(ym) && 0 <= i < GridLength(ym)
    ensures var lead := DayOfWeek(FirstOf(ym));
      MonthOf(GridDays(ym)[i]) == ym <==> lead <= i < lead + DaysInMonth(ym.year, ym.month)
  {
    var d := GridDays(ym)[i];
    InMonthIff(d, ym);
    var first, last := DayNumber(FirstOf(ym)), DayNumber(LastOf(ym));
    var start := DayNumber(GridStart(ym));
    var lead := DayOfWeek(FirstOf(ym));
    assert first - start == lead by {
      WeekdayDistance(GridStart(ym), FirstOf(ym));
      SmallMod7(first - start);
    }
    assert last - first == DaysInMonth(ym.year, ym.month) - 1 by {
      SameMonthDistance(LastOf(ym), FirstOf(ym));
    }
    assert DayNumber(d) == start + i;
  }

  /** No cell lies before the month preceding the displayed one. */
  lemma {:induction false} GridAfterPrevMonth(ym: YearMonth, i: int)
    requires ValidMonth(ym) && 0 <= i < GridLength(ym)
    ensures MonthIndex(ym) - 1 <= MonthIndex(MonthOf(GridDays(ym)[i]))
  {
    var d := GridDays(ym)[i];
    var prev := PrevMonth(ym);
    if MonthIndex(MonthOf(d)) < MonthIndex(prev) {
      LastThenFirst(prev);
      MonthIndexInjective(NextMonth(prev), ym);
      DayNumberMonthOrder(d, FirstOf(prev));
      assert false;
    }
  }

  /** No cell lies after the month following the displayed one. */
  lemma {:induction false} GridBeforeNextMonth(ym: YearMonth, i: int)
    requires ValidMonth(ym) && 0 <= i < GridLength(ym)
    ensures MonthIndex(MonthOf(GridDays(ym)[i])) <= MonthIndex(ym) + 1
  {
    var d := GridDays(ym)[i];
    var next := NextMonth(ym);
    if MonthIndex(next) < MonthIndex(MonthOf(d)) {
      LastThenFirst(ym);
      DayNumberMonthOrder(LastOf(next), d);
      assert false;
    }
  }

  /** Every cell lies in the displayed month or one of the two months next
      to it, so a cell's month number (ignoring the year) differs from the
      displayed one exactly when the cell is outside the displayed month. */
  lemma {:induction false} GridMonthNumbers(ym: YearMonth, i: int)
    requires ValidMonth(ym) && 0 <= i < GridLength(ym)
    ensures MonthIndex(ym) - 1 <= MonthIndex(MonthOf(GridDays(ym)[i])) <= MonthIndex(ym) + 1
    ensures GridDays(ym)[i].month == ym.month <==> MonthOf(GridDays(ym)[i]) == ym
  {
    var m := MonthOf(GridDays(ym)[i]);
    GridAfterPrevMonth(ym, i);
    GridBeforeNextMonth(ym, i);
    if m.month == ym.month && m != ym {
      if MonthIndex(m) == MonthIndex(ym) {
        MonthIndexInjective(m, ym);
      }
    }
  }

  /** The today flag: at most one cell carries it, and one does exactly when
      today lies between the first and the last cell. */
  lemma {:induction false} TodayFlag(ym: YearMonth, today: Date, selected: Option<Date>)
    requires ValidMonth(ym) && IsValidDate(today)
    ensures var cells := GridCells(ym, today, selected);
      (exists i :: 0 <= i < |cells| && cells[i].isToday) <==>
        DayNumber(GridStart(ym)) <= DayNumber(today) <= DayNumber(GridEnd(ym))
    ensures var cells := GridCells(ym, today, selected);
      forall i, j :: 0 <= i < |cells| && 0 <= j < |cells| && cells[i].isToday && cells[j].isToday ==> i == j
  {
    var cells := GridCells(ym, today, selected);
    GridPosition(ym, today);
    var k := DayNumber(today) - DayNumber(GridStart(ym));
    if 0 <= k < |cells| {
      assert cells[k].isToday;
    }
  }

  /** The selected flag: at most one cell carries it, and one does exactly
      when the selected day lies between the first and the last cell. */
  lemma {:induction false} SelectedFlag(ym: YearMonth, today: Date, selected: Date)
    requires ValidMonth(ym) && IsValidDate(selected)
    ensures var cells := GridCells(ym, today, Some(selected));
      (exists i :: 0 <= i < |cells| && cells[i].isSelected) <==>
        DayNumber(GridStart(ym)) <= DayNumber(selected) <= DayNumber(GridEnd(ym))
    ensures var cells := GridCells(ym, today, Some(selected));
      forall i, j :: 0 <= i < |cells| && 0 <= j < |cells| && cells[i].isSelected && cells[j].isSelected ==> i == j
  {
    var cells := GridCells(ym, today, Some(selected));
    GridPosition(ym, selected);
    var k := DayNumber(selected) - DayNumber(GridStart(ym));
    if 0 <= k < |cells| {
      assert cells[k].isSelected;
    }
  }

  /** March 2024: from Sunday, February 25 to Saturday, April 6, 42 cells. */
  lemma March2024()
    ensures GridStart(YearMonth(2024, 3)) == Date(2024, 2, 25)
    ensures GridEnd(YearMonth(2024, 3)) == Date(2024, 4, 6)
    ensures GridLength(YearMonth(2024, 3)) == 42
  {
    assert DayOfWeek(Date(2024, 3, 1)) == 5;
    assert DayOfWeek(Date(2024, 3, 31)) == 0;
  }
}
