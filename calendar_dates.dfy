/** Timezone-free proleptic Gregorian calendar arithmetic: the part of the
    date library the calendar relies on (days in a month, day of the week,
    the day after, the month before and after). */
module CalendarDates {

  /** A calendar day. `month` is 1-based (January = 1); the library's
      `getMonth` is the 0-based `month - 1`. */
  datatype Date = Date(year: int, month: int, day: int)

  /** A displayed month. Only the year and month of a displayed date matter
      to the grid, because it is normalised to the first of its month. */
  datatype YearMonth = YearMonth(year: int, month: int)

  predicate IsLeapYear(y: int) {
    y % 4 == 0 && (y % 100 != 0 || y % 400 == 0)
  }

  predicate ValidMonth(ym: YearMonth) {
    1 <= ym.month <= 12
  }

  function DaysInMonth(y: int, m: int): (n: int)
    requires 1 <= m <= 12
    ensures 28 <= n <= 31
  {
    if m == 2 then (if IsLeapYear(y) then 29 else 28)
    else if m == 4 || m == 6 || m == 9 || m == 11 then 30
    else 31
  }

  /** A real calendar date: a month 1..12 and a day within that month. */
  predicate IsValidDate(d: Date) {
    1 <= d.month <= 12 && 1 <= d.day <= DaysInMonth(d.year, d.month)
  }

  function MonthOf(d: Date): YearMonth {
    YearMonth(d.year, d.month)
  }

  /** Months counted from January of year 0. */
  function MonthIndex(ym: YearMonth): int {
    12 * ym.year + ym.month - 1
  }

  function FirstOf(ym: YearMonth): (d: Date)
    requires ValidMonth(ym)
    ensures IsValidDate(d) && MonthOf(d) == ym && d.day == 1
  {
    Date(ym.year, ym.month, 1)
  }

  function LastOf(ym: YearMonth): (d: Date)
    requires ValidMonth(ym)
    ensures IsValidDate(d) && MonthOf(d) == ym
  {
    Date(ym.year, ym.month, DaysInMonth(ym.year, ym.month))
  }

  predicate NextDayStaysInMonth(d: Date)
    requires 1 <= d.month <= 12
  {
    d.day < DaysInMonth(d.year, d.month)
  }

  /** The number of days in year `y`. */
  function YearDays(y: int): int {
    if IsLeapYear(y) then 366 else 365
  }

  /** Days from 0000-01-01 to January 1 of year `y` (negative before year 0):
      365 a year plus one for every multiple of 4, less one for every multiple
      of 100, plus one for every multiple of 400 in between. */
  function DaysBeforeYear(y: int): int {
    365 * y + (y + 3) / 4 - (y + 99) / 100 + (y + 399) / 400
  }

  /** The same count as a sum of year lengths, year by year from year 0. */
  function SumOfYearDays(y: int): int
    decreases if y < 0 then -y else y
  {
    if y == 0 then 0
    else if y > 0 then SumOfYearDays(y - 1) + YearDays(y - 1)
    else SumOfYearDays(y + 1) - YearDays(y)
  }

  /** Days from January 1 of year `y` to the first of month `m`. */
  function DaysBeforeMonth(y: int, m: int): int
    requires 1 <= m <= 12
  {
    if m == 1 then 0 else DaysBeforeMonth(y, m - 1) + DaysInMonth(y, m - 1)
  }

  lemma DaysBeforeDecember(y: int)
    ensures DaysBeforeMonth(y, 12) == if IsLeapYear(y) then 335 else 334
  {
    assert DaysBeforeMonth(y, 2) == 31;
    assert DaysBeforeMonth(y, 3) == if IsLeapYear(y) then 60 else 59;
    assert DaysBeforeMonth(y, 4) == if IsLeapYear(y) then 91 else 90;
    assert DaysBeforeMonth(y, 5) == if IsLeapYear(y) then 121 else 120;
    assert DaysBeforeMonth(y, 6) == if IsLeapYear(y) then 152 else 151;
    assert DaysBeforeMonth(y, 7) == if IsLeapYear(y) then 182 else 181;
    assert DaysBeforeMonth(y, 8) == if IsLeapYear(y) then 213 else 212;
    assert DaysBeforeMonth(y, 9) == if IsLeapYear(y) then 244 else 243;
    assert DaysBeforeMonth(y, 10) == if IsLeapYear(y) then 274 else 273;
    assert DaysBeforeMonth(y, 11) == if IsLeapYear(y) then 305 else 304;
  }

  /** The day's serial number: days since 0000-01-01. */
  function DayNumber(d: Date): int
    requires IsValidDate(d)
  {
    DaysBeforeYear(d.year) + DaysBeforeMonth(d.year, d.month) + d.day - 1
  }

  /** Day of the week with Sunday = 0 (0000-01-01 was a Saturday). */
  function DayOfWeek(d: Date): (w: int)
    requires IsValidDate(d)
    ensures 0 <= w < 7
  {
    (DayNumber(d) + 6) % 7
  }

  /** Among the `k` consecutive integers `y .. y + k - 1` exactly one is a
      multiple of `k`, so the count of multiples below `y` grows by one
      exactly at multiples of `k`. */
  lemma MultiplesStep(y: int, k: int)
    requires k == 4 || k == 100 || k == 400
    ensures (y + k) / k - (y + k - 1) / k == if y % k == 0 then 1 else 0
  {
    var a, b := y / k, y % k;
    assert y == k * a + b && 0 <= b < k;
    assert (y + k) / k == a + 1 by {
      assert y + k == k * (a + 1) + b;
    }
    if b == 0 {
      assert y + k - 1 == k * a + (k - 1);
    } else {
      assert y + k - 1 == k * (a + 1) + (b - 1);
    }
  }

  lemma FourHundredsAreHundreds(y: int)
    ensures y % 400 == 0 ==> y % 100 == 0
  {
    if y % 400 == 0 {
      var m := 4 * (y / 400);
      assert y == 100 * m;
    }
  }

  lemma HundredsAreFours(y: int)
    ensures y % 100 == 0 ==> y % 4 == 0
  {
    if y % 100 == 0 {
      var m := 25 * (y / 100);
      assert y == 4 * m;
    }
  }

  /** Each year adds its own length to the count. */
  lemma YearLength(y: int)
    ensures DaysBeforeYear(y + 1) - DaysBeforeYear(y) == YearDays(y)
  {
    var c4 := (y + 4) / 4 - (y + 3) / 4;
    var c100 := (y + 100) / 100 - (y + 99) / 100;
    var c400 := (y + 400) / 400 - (y + 399) / 400;
    assert DaysBeforeYear(y + 1) - DaysBeforeYear(y) == 365 + c4 - c100 + c400;
    MultiplesStep(y, 4);
    MultiplesStep(y, 100);
    MultiplesStep(y, 400);
    FourHundredsAreHundreds(y);
    HundredsAreFours(y);
  }

  /** The closed form agrees with adding up the years one by one. */
  lemma {:induction false} DaysBeforeYearIsSum(y: int)
    ensures DaysBeforeYear(y) == SumOfYearDays(y)
    decreases if y < 0 then -y else y
  {
    if y > 0 {
      DaysBeforeYearIsSum(y - 1);
      YearLength(y - 1);
    } else if y < 0 {
      DaysBeforeYearIsSum(y + 1);
      YearLength(y);
    }
  }

  /** The day after `d` (adding one day). */
  function NextDay(d: Date): (r: Date)
    requires IsValidDate(d)
    ensures IsValidDate(r)
  {
    if NextDayStaysInMonth(d) then Date(d.year, d.month, d.day + 1)
    else if d.month < 12 then Date(d.year, d.month + 1, 1)
    else Date(d.year + 1, 1, 1)
  }

  /** The day after `d` has the next serial number. */
  lemma NextDayNumber(d: Date)
    requires IsValidDate(d)
    ensures DayNumber(NextDay(d)) == DayNumber(d) + 1
  {
    if !NextDayStaysInMonth(d) && d.month == 12 {
      YearLength(d.year);
      DaysBeforeDecember(d.year);
    }
  }

  /** Adding one month to a displayed month, wrapping December into January. */
  function NextMonth(ym: YearMonth): (r: YearMonth)
    requires ValidMonth(ym)
    ensures ValidMonth(r) && MonthIndex(r) == MonthIndex(ym) + 1
  {
    if ym.month == 12 then YearMonth(ym.year + 1, 1) else YearMonth(ym.year, ym.month + 1)
  }

  /** Subtracting one month, wrapping January into December. */
  function PrevMonth(ym: YearMonth): (r: YearMonth)
    requires ValidMonth(ym)
    ensures ValidMonth(r) && MonthIndex(r) == MonthIndex(ym) - 1
  {
    if ym.month == 1 then YearMonth(ym.year - 1, 12) else YearMonth(ym.year, ym.month - 1)
  }

  /** A displayed month is determined by its month index. */
  lemma MonthIndexInjective(a: YearMonth, b: YearMonth)
    requires ValidMonth(a) && ValidMonth(b) && MonthIndex(a) == MonthIndex(b)
    ensures a == b
  {
  }

  /** The day after the last day of a month is the first day of the next month. */
  lemma {:induction false} LastThenFirst(ym: YearMonth)
    requires ValidMonth(ym)
    ensures NextDay(LastOf(ym)) == FirstOf(NextMonth(ym))
    ensures DayNumber(FirstOf(NextMonth(ym))) == DayNumber(LastOf(ym)) + 1
  {
    NextDayNumber(LastOf(ym));
  }

  /** The day before `d` (subtracting one day). */
  function PrevDay(d: Date): (r: Date)
    requires IsValidDate(d)
    ensures IsValidDate(r)
  {
    if d.day > 1 then Date(d.year, d.month, d.day - 1) else LastOf(PrevMonth(MonthOf(d)))
  }

  /** The day before `d` has the previous serial number, and the day after it
      is `d` again. */
  lemma {:induction false} PrevDayNumber(d: Date)
    requires IsValidDate(d)
    ensures NextDay(PrevDay(d)) == d
    ensures DayNumber(PrevDay(d)) == DayNumber(d) - 1
  {
    if d.day == 1 {
      var ym := MonthOf(d);
      LastThenFirst(PrevMonth(ym));
      MonthIndexInjective(NextMonth(PrevMonth(ym)), ym);
    }
    NextDayNumber(PrevDay(d));
  }

  lemma {:induction false} FirstOfMonotone(a: YearMonth, b: YearMonth)
    requires ValidMonth(a) && ValidMonth(b) && MonthIndex(a) <= MonthIndex(b)
    ensures DayNumber(FirstOf(a)) <= DayNumber(FirstOf(b))
    decreases MonthIndex(b) - MonthIndex(a)
  {
    if MonthIndex(a) < MonthIndex(b) {
      LastThenFirst(a);
      FirstOfMonotone(NextMonth(a), b);
    } else {
      MonthIndexInjective(a, b);
    }
  }

  /** Serial numbers follow the calendar order of months: every day of an
      earlier month comes before every day of a later one. */
  lemma {:induction false} DayNumberMonthOrder(a: Date, b: Date)
    requires IsValidDate(a) && IsValidDate(b)
    requires MonthIndex(MonthOf(a)) < MonthIndex(MonthOf(b))
    ensures DayNumber(a) < DayNumber(b)
  {
    var ma := MonthOf(a);
    LastThenFirst(ma);
    FirstOfMonotone(NextMonth(ma), MonthOf(b));
  }

  /** Different real dates have different serial numbers. */
  lemma {:induction false} DayNumberInjective(a: Date, b: Date)
    requires IsValidDate(a) && IsValidDate(b) && DayNumber(a) == DayNumber(b)
    ensures a == b
  {
    if MonthIndex(MonthOf(a)) < MonthIndex(MonthOf(b)) {
      DayNumberMonthOrder(a, b);
    } else if MonthIndex(MonthOf(b)) < MonthIndex(MonthOf(a)) {
      DayNumberMonthOrder(b, a);
    } else {
      MonthIndexInjective(MonthOf(a), MonthOf(b));
    }
  }

  /** A real date lies in a month exactly when its serial number lies between
      those of the month's first and last days. */
  lemma {:induction false} InMonthIff(d: Date, ym: YearMonth)
    requires IsValidDate(d) && ValidMonth(ym)
    ensures MonthOf(d) == ym <==> DayNumber(FirstOf(ym)) <= DayNumber(d) <= DayNumber(LastOf(ym))
  {
    if MonthIndex(MonthOf(d)) < MonthIndex(ym) {
      DayNumberMonthOrder(d, FirstOf(ym));
    } else if MonthIndex(ym) < MonthIndex(MonthOf(d)) {
      DayNumberMonthOrder(LastOf(ym), d);
    } else {
      MonthIndexInjective(MonthOf(d), ym);
    }
  }

  /** Within one month, serial numbers differ by the difference of the days. */
  lemma SameMonthDistance(a: Date, b: Date)
    requires IsValidDate(a) && IsValidDate(b) && MonthOf(a) == MonthOf(b)
    ensures DayNumber(a) - DayNumber(b) == a.day - b.day
  {
  }

  /** Moving `k` days on moves the day of the week `k` places on, modulo 7. */
  lemma WeekdayDistance(a: Date, b: Date)
    requires IsValidDate(a) && IsValidDate(b)
    ensures DayOfWeek(b) == (DayOfWeek(a) + (DayNumber(b) - DayNumber(a))) % 7
  {
    var x, y := DayNumber(a) + 6, DayNumber(b) + 6;
    ShiftMod7(x, y - x);
  }

  lemma ShiftMod7(x: int, k: int)
    ensures (x + k) % 7 == (x % 7 + k) % 7
  {
    var q := x / 7;
    assert x == 7 * q + x % 7;
    assert x + k == 7 * q + (x % 7 + k);
  }

  /** 1970-01-01 was a Thursday. */
  lemma UnixEpochWeekday()
    ensures DayOfWeek(Date(1970, 1, 1)) == 4
  {
  }
}
