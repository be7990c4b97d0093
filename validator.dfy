/** `validateDate`: is a string a well-formed `yyyy-mm-dd` naming a real
    calendar date. The library date constructor is replaced by calendar
    arithmetic on a timezone-free date (the behaviour of the source when the
    host runs in UTC). */
module Validator {
  import opened Wrappers
  import opened Decimal
  import opened CalendarDates

  /** The exact shape `dddd-dd-dd`, checked character by character: ten
      characters, ASCII digits everywhere except dashes at positions 4 and 7. */
  predicate HasIsoShape(s: string)
    ensures HasIsoShape(s) <==>
      |s| == 10 && forall i :: 0 <= i < |s| ==> (if i == 4 || i == 7 then s[i] == '-' else IsDigit(s[i]))
  {
    |s| == 10 && s[4] == '-' && s[7] == '-' &&
    AllDigits(s[0..4]) && AllDigits(s[5..7]) && AllDigits(s[8..10])
  }

  /** The year, month and day that splitting a string of that shape at its
      dashes and converting each part to a number yields. */
  function Fields(s: string): (f: Date)
    requires HasIsoShape(s)
    ensures 0 <= f.year <= 9999 && 0 <= f.month <= 99 && 0 <= f.day <= 99
  {
    Date(DecimalValue(s[0..4]), DecimalValue(s[5..7]), DecimalValue(s[8..10]))
  }

  /** The fields spelled out digit by digit. */
  lemma FieldDigits(s: string)
    requires HasIsoShape(s)
    ensures Fields(s) == Date(
      1000 * Digit(s[0]) + 100 * Digit(s[1]) + 10 * Digit(s[2]) + Digit(s[3]),
      10 * Digit(s[5]) + Digit(s[6]),
      10 * Digit(s[8]) + Digit(s[9]))
  {
    var y := s[0..4];
    assert DecimalValue(y[..1]) == Digit(s[0]) by { assert y[..1][..0] == []; }
    assert DecimalValue(y[..2]) == 10 * Digit(s[0]) + Digit(s[1]) by { assert y[..2][..1] == y[..1]; }
    assert DecimalValue(y[..3]) == 100 * Digit(s[0]) + 10 * Digit(s[1]) + Digit(s[2]) by {
      assert y[..3][..2] == y[..2];
    }
    assert DecimalValue(y) == 1000 * Digit(s[0]) + 100 * Digit(s[1]) + 10 * Digit(s[2]) + Digit(s[3]);
    var m := s[5..7];
    assert DecimalValue(m) == 10 * Digit(s[5]) + Digit(s[6]) by { assert m[..1][..0] == []; }
    var d := s[8..10];
    assert DecimalValue(d) == 10 * Digit(s[8]) + Digit(s[9]) by { assert d[..1][..0] == []; }
  }

  /** Constructing a date from the string's fields as the V8 engine (Node,
      Chromium) parses a date-only string: a month outside 01..12 or a day
      outside 01..31 gives an invalid date (None); a day past the end of its
      month rolls over into the next month. Engines that reject such a day
      outright give the validator the same verdict. */
  function ConstructDate(f: Date): (r: Option<Date>)
    ensures r.Some? ==> IsValidDate(r.value)
    ensures r.Some? <==> 1 <= f.month <= 12 && 1 <= f.day <= 31
    ensures r.Some? && r.value.day == f.day ==> r.value == f
  {
    if !(1 <= f.month <= 12 && 1 <= f.day <= 31) then None
    else if f.day <= DaysInMonth(f.year, f.month) then Some(f)
    else
      var next := NextMonth(YearMonth(f.year, f.month));
      Some(Date(next.year, next.month, f.day - DaysInMonth(f.year, f.month)))
  }

  /** The validator: the shape check, then the check that the constructed
      date reproduces the year, the (0-based) month and the day. It accepts
      exactly the correctly shaped strings whose fields form a real date. */
  function ValidateDate(s: string): (ok: bool)
    ensures ok <==> HasIsoShape(s) && IsValidDate(Fields(s))
  {
    if !HasIsoShape(s) then false
    else
      var f := Fields(s);
      match ConstructDate(f)
      case None => false
      case Some(d) => d.year == f.year && d.month - 1 == f.month - 1 && d.day == f.day
  }

  /** The calendar day a host's clock shows at UTC midnight of `d` when it
      runs `offset` minutes ahead of UTC (behind it west of Greenwich). */
  function LocalDay(d: Date, offset: int): (r: Date)
    requires IsValidDate(d) && -1440 < offset < 1440
    ensures IsValidDate(r)
    ensures DayNumber(r) == DayNumber(d) + offset / 1440
  {
    if offset >= 0 then d
    else
      PrevDayNumber(d);
      PrevDay(d)
  }

  /** The validator as the source writes it: the string, which has no time
      of day, is constructed as UTC midnight, but the year, month and day are
      read back in the host's local time. */
  function ValidateDateAt(s: string, offset: int): (ok: bool)
    requires -1440 < offset < 1440
    ensures ok ==> ValidateDate(s)
  {
    if !HasIsoShape(s) then false
    else
      var f := Fields(s);
      match ConstructDate(f)
      case None => false
      case Some(d) =>
        var local := LocalDay(d, offset);
        local.year == f.year && local.month - 1 == f.month - 1 && local.day == f.day
  }

  /** On a host at or east of UTC the source's validator is `ValidateDate`; on
      a host behind UTC it rejects every string, because the local clock
      shows the day before the one written. */
  lemma {:induction false} ValidateDateAtOffset(s: string, offset: int)
    requires -1440 < offset < 1440
    ensures ValidateDateAt(s, offset) <==> offset >= 0 && ValidateDate(s)
  {
    if HasIsoShape(s) {
      var f := Fields(s);
      var r := ConstructDate(f);
      if r.Some? {
        var d := r.value;
        var local := LocalDay(d, offset);
        if offset >= 0 {
          DayNumberInjective(local, d);
        } else if IsValidDate(f) {
          assert d == f;
          assert DayNumber(local) != DayNumber(f);
        }
      }
    }
  }

  /** Five hours behind UTC, the validator rejects 5 March 2024. */
  lemma NegativeOffsetRejects()
    ensures ValidateDate("2024-03-05")
    ensures !ValidateDateAt("2024-03-05", -300)
  {
    FieldDigits("2024-03-05");
    ValidateDateAtOffset("2024-03-05", -300);
  }

  /** The calendar date a string names, when the validator accepts it. */
  function ParseIsoDate(s: string): (r: Option<Date>)
    ensures r.Some? <==> ValidateDate(s)
    ensures r.Some? ==> IsValidDate(r.value) && 0 <= r.value.year <= 9999
  {
    if ValidateDate(s) then Some(Fields(s)) else None
  }

  /** With the shape right, the month 02 day 29 is accepted exactly in leap years. */
  lemma LeapDayAccepted(s: string)
    requires HasIsoShape(s) && Fields(s).month == 2 && Fields(s).day == 29
    ensures ValidateDate(s) <==> IsLeapYear(Fields(s).year)
  {
  }

  lemma ShapeExamples()
    ensures !ValidateDate("23-1-1") && !ValidateDate("2023-1-01")
    ensures !ValidateDate("2023/01/01") && !ValidateDate("2023-01-01 ")
  {
  }

  lemma MonthExamples()
    ensures !ValidateDate("2023-13-01") && !ValidateDate("2023-00-10")
  {
    FieldDigits("2023-13-01");
    assert Fields("2023-13-01") == Date(2023, 13, 1);
    FieldDigits("2023-00-10");
    assert Fields("2023-00-10") == Date(2023, 0, 10);
  }

  lemma DayExamples()
    ensures !ValidateDate("2023-02-30") && !ValidateDate("2024-04-31") && !ValidateDate("2023-01-00")
  {
    FieldDigits("2023-02-30");
    assert Fields("2023-02-30") == Date(2023, 2, 30);
    FieldDigits("2024-04-31");
    assert Fields("2024-04-31") == Date(2024, 4, 31);
    FieldDigits("2023-01-00");
    assert Fields("2023-01-00") == Date(2023, 1, 0);
  }

  lemma LeapExamples()
    ensures ValidateDate("2024-02-29") && ValidateDate("2000-02-29")
  {
    FieldDigits("2024-02-29");
    assert Fields("2024-02-29") == Date(2024, 2, 29);
    FieldDigits("2000-02-29");
    assert Fields("2000-02-29") == Date(2000, 2, 29);
  }

  lemma NonLeapExamples()
    ensures !ValidateDate("2023-02-29") && !ValidateDate("1900-02-29")
  {
    FieldDigits("2023-02-29");
    assert Fields("2023-02-29") == Date(2023, 2, 29);
    FieldDigits("1900-02-29");
    assert Fields("1900-02-29") == Date(1900, 2, 29);
  }
}
