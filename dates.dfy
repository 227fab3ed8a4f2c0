/** The submission date and its rendering with `strftime('%d/%m/%Y')`. */
module Dates {

  import opened Wrappers
  import opened Text

  datatype Date = Date(year: int, month: int, day: int)

  predicate IsLeapYear(y: int) {
    y % 4 == 0 && (y % 100 != 0 || y % 400 == 0)
  }

  function DaysInMonth(y: int, m: int): int
    requires 1 <= m <= 12
  {
    if m == 2 then (if IsLeapYear(y) then 29 else 28)
    else if m == 4 || m == 6 || m == 9 || m == 11 then 30
    else 31
  }

  /** The dates Python's `datetime.date` can hold: proleptic Gregorian, years 1 to 9999. */
  predicate ValidDate(d: Date) {
    && 1 <= d.year <= 9999
    && 1 <= d.month <= 12
    && 1 <= d.day <= DaysInMonth(d.year, d.month)
  }

  type CalendarDate = d: Date | ValidDate(d) witness Date(2000, 1, 1)

  /** `d.strftime('%d/%m/%Y')`: two-digit day, two-digit month, four-digit year. */
  function FormatDate(d: CalendarDate): (r: string)
    ensures |r| == 10 && r[2] == '/' && r[5] == '/'
    ensures AllDigits(r[..2]) && AllDigits(r[3..5]) && AllDigits(r[6..])
  {
    var r := Padded(d.day, 2) + "/" + Padded(d.month, 2) + "/" + Padded(d.year, 4);
    assert r[..2] == Padded(d.day, 2) && r[3..5] == Padded(d.month, 2) && r[6..] == Padded(d.year, 4);
    r
  }

  /** Reads a DD/MM/YYYY string back into a date; `None` if it is not one. */
  function ParseDate(s: string): (r: Option<Date>)
    ensures r.Some? ==> ValidDate(r.value)
  {
    if |s| == 10 && s[2] == '/' && s[5] == '/' && AllDigits(s[..2]) && AllDigits(s[3..5]) && AllDigits(s[6..]) then
      var d := Date(ValueOf(s[6..]), ValueOf(s[3..5]), ValueOf(s[..2]));
      if ValidDate(d) then Some(d) else None
    else None
  }

  /** The rendered date loses nothing: reading it back gives the same day, month and year. */
  lemma FormatDateRoundTrip(d: CalendarDate)
    ensures ParseDate(FormatDate(d)) == Some(d)
  {
    var r := FormatDate(d);
    assert r[..2] == Padded(d.day, 2) && r[3..5] == Padded(d.month, 2) && r[6..] == Padded(d.year, 4);
  }

  /** Different dates are rendered differently. */
  lemma FormatDateInjective(d: CalendarDate, e: CalendarDate)
    requires FormatDate(d) == FormatDate(e)
    ensures d == e
  {
    FormatDateRoundTrip(d);
    FormatDateRoundTrip(e);
  }
}
