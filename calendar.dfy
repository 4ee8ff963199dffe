/** Calendar dates as carried by a Python datetime, and the '%m/%d/%Y' text the form sends. */
module Calendar {
  import opened Outcomes
  import opened Numerals

  /** datetime.MINYEAR and datetime.MAXYEAR. */
  const MinYear := 1
  const MaxYear := 9999

  predicate IsLeapYear(year: int) {
    year % 4 == 0 && (year % 100 != 0 || year % 400 == 0)
  }

  function DaysInMonth(year: int, month: int): (n: int)
    requires 1 <= month <= 12
    ensures 28 <= n <= 31
  {
    if month == 2 then (if IsLeapYear(year) then 29 else 28)
    else if month == 4 || month == 6 || month == 9 || month == 11 then 30
    else 31
  }

  /** The date part of a datetime (proleptic Gregorian, as Python's datetime). */
  datatype Date = Date(year: int, month: int, day: int) {
    predicate Valid() {
      && MinYear <= year <= MaxYear
      && 1 <= month <= 12
      && 1 <= day <= DaysInMonth(year, month)
    }
  }

  /** Every datetime object holds a valid date. */
  type CalendarDate = d: Date | d.Valid() witness Date(2018, 6, 2)

  /** Where the three fields sit in 'MM/DD/YYYY'. */
  lemma SlashedFields(month: string, day: string, year: string)
    requires |month| == 2 && |day| == 2 && |year| == 4
    ensures var s := month + "/" + day + "/" + year;
      && |s| == 10 && s[2] == '/' && s[5] == '/'
      && s[..2] == month && s[3..5] == day && s[6..] == year
  {
  }

  /** date.strftime('%m/%d/%Y'): zero-padded month and day, four-digit year. */
  function UsDateText(d: CalendarDate): (s: string)
    ensures |s| == 10 && s[2] == '/' && s[5] == '/'
    ensures AllDigits(s[..2]) && AllDigits(s[3..5]) && AllDigits(s[6..])
  {
    var month, day, year := ZeroPadded(d.month, 2), ZeroPadded(d.day, 2), ZeroPadded(d.year, 4);
    SlashedFields(month, day, year);
    month + "/" + day + "/" + year
  }

  /** Reads 'MM/DD/YYYY' back into a date; anything else, or an impossible date, is None. */
  function UsDateValue(s: string): Option<Date>
  {
    if |s| == 10 && s[2] == '/' && s[5] == '/'
       && AllDigits(s[..2]) && AllDigits(s[3..5]) && AllDigits(s[6..])
    then
      var d := Date(DigitsValue(s[6..]), DigitsValue(s[..2]), DigitsValue(s[3..5]));
      if d.Valid() then Some(d) else None
    else None
  }

  /** The form's date text decodes back to the queried month, day and year. */
  lemma UsDateRoundTrip(d: CalendarDate)
    ensures UsDateValue(UsDateText(d)) == Some(d)
  {
    SlashedFields(ZeroPadded(d.month, 2), ZeroPadded(d.day, 2), ZeroPadded(d.year, 4));
  }
}
