/** `formatDate(day, "yyyy-MM-dd")`: the string the calendar stores as the
    selected date and publishes in the `date` query parameter. */
module DateFormat {
  import opened Wrappers
  import opened Decimal
  import opened CalendarDates
  import opened Validator

  /** The year the `yyyy` token prints: the year of the era, so year 0 is
      printed as 1 and year -1 as 2 (the years before year 1 count backwards). */
  function EraYear(y: int): (e: nat)
    ensures e >= 1
    ensures y >= 1 ==> e == y
    ensures y <= 0 ==> e == 1 - y
  {
    if y > 0 then y else 1 - y
  }

  /** Year padded to at least four digits, month and day to two, joined by dashes. */
  function FormatIso(d: Date): (s: string)
    requires IsValidDate(d)
    ensures |s| >= 10 && s[|s| - 3] == '-' && s[|s| - 6] == '-'
  {
    PadDecimal(EraYear(d.year), 4) + "-" + PadDecimal(d.month, 2) + "-" + PadDecimal(d.day, 2)
  }

  /** Formatting a date of the years 1..9999 gives a string the validator
      accepts, and parsing it gives back the same year, month and day. */
  lemma {:induction false} FormatParseRoundTrip(d: Date)
    requires IsValidDate(d) && 1 <= d.year <= 9999
    ensures ValidateDate(FormatIso(d))
    ensures ParseIsoDate(FormatIso(d)) == Some(d)
  {
    var y, m, dd := PadDecimal(d.year, 4), PadDecimal(d.month, 2), PadDecimal(d.day, 2);
    assert Pow10(4) == 10000 && Pow10(2) == 100;
    var s := FormatIso(d);
    assert s == y + "-" + m + "-" + dd;
    assert s[0..4] == y && s[5..7] == m && s[8..10] == dd;
    assert HasIsoShape(s);
    assert Fields(s) == d;
  }

  /** Every accepted string of a year from 1 on is the formatting of the date
      it names: accepted strings and formatted dates correspond one to one. */
  lemma {:induction false} ParseFormatRoundTrip(s: string)
    requires ValidateDate(s) && Fields(s).year >= 1
    ensures FormatIso(Fields(s)) == s
  {
    var f := Fields(s);
    var t := FormatIso(f);
    FormatParseRoundTrip(f);
    assert |t| == 10;
    assert Fields(t) == f;
    SameValueSameDigits(t[0..4], s[0..4]);
    SameValueSameDigits(t[5..7], s[5..7]);
    SameValueSameDigits(t[8..10], s[8..10]);
    assert t == t[0..4] + [t[4]] + t[5..7] + [t[7]] + t[8..10];
    assert s == s[0..4] + [s[4]] + s[5..7] + [s[7]] + s[8..10];
  }

  /** Outside the years 1..9999 formatting does not round-trip: from year
      10000 on the year takes five digits and the string is rejected, and a
      year before 1 is printed as its era year, which parses as another year. */
  lemma {:induction false} FormatOutsideYearRange(d: Date)
    requires IsValidDate(d) && !(1 <= d.year <= 9999)
    ensures ParseIsoDate(FormatIso(d)) != Some(d)
  {
    var e := EraYear(d.year);
    var y := PadDecimal(e, 4);
    var s := FormatIso(d);
    assert Pow10(4) == 10000;
    if e >= 10000 {
      WideValue(y, 4);
      assert |s| > 10;
    } else if ValidateDate(s) {
      assert s == y + "-" + PadDecimal(d.month, 2) + "-" + PadDecimal(d.day, 2);
      assert s[0..4] == y;
      assert Fields(s).year == e != d.year;
    }
  }
}
