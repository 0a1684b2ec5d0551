/** `getDayCount` (assets/js/main.js:91-95), as written, beside the calendar rule its
    `monthDays` table was meant to complete. */
module Calendar {

  /** `monthDays[month]`, where an index outside 0..11 reads `undefined`, which is falsy
      like the 0 in February's slot. */
  function MonthDays(month: int): (d: int)
    ensures d == 0 || d == 30 || d == 31
    ensures d == 0 <==> month == 1 || month < 0 || month >= 12
  {
    if 0 <= month < 12 then [31, 0, 31, 30, 31, 30, 31, 31, 30, 31, 30, 31][month] else 0
  }

  /** JavaScript `!x` on a number, converted back to a number by the `%` that follows. */
  function Not(x: int): (b: int)
  {
    if x == 0 then 1 else 0
  }

  /** JavaScript `a % b` for a positive `b`: the remainder takes the sign of `a`. */
  function JsRem(a: int, b: int): (r: int)
    requires b > 0
  {
    if a >= 0 then a % b else -((-a) % b)
  }

  /** The expression of `getDayCount`, parsed the way JavaScript parses it:
      `(monthDays[month] || ((!year % 4) && (year % 100)) || (!year % 400)) ? 29 : 28`. */
  function DayCount(month: int, year: int): (d: int)
    ensures d == 28 || d == 29
  {
    if MonthDays(month) != 0
       || (JsRem(Not(year), 4) != 0 && JsRem(year, 100) != 0)
       || JsRem(Not(year), 400) != 0
    then 29 else 28
  }

  /** What the expression computes: 28 for February (and any index without a table entry)
      of every non-zero year, 29 for everything else; never 30 or 31. */
  lemma DayCountAsWritten(month: int, year: int)
    ensures DayCount(month, year) == (if MonthDays(month) == 0 && year != 0 then 28 else 29)
    ensures 0 <= month < 12 && year != 0 ==> DayCount(month, year) == (if month == 1 then 28 else 29)
  {
  }

  lemma DayCountsOfYear(year: int)
    ensures forall month :: DayCount(month, year) == (if MonthDays(month) == 0 && year != 0 then 28 else 29)
  {
    forall month {
      DayCountAsWritten(month, year);
    }
  }

  /** The Gregorian leap-year rule the expression was evidently meant to test. */
  predicate IsLeapYear(year: int)
  {
    year % 4 == 0 && (year % 100 != 0 || year % 400 == 0)
  }

  /** The intended day count: the table entry, with February filled in by the leap-year rule. */
  function DaysInMonth(month: int, year: int): (d: int)
    requires 0 <= month < 12
    ensures 28 <= d <= 31
    ensures month == 1 ==> (d == 29 <==> IsLeapYear(year))
    ensures month != 1 ==> d == MonthDays(month)
  {
    if month == 1 then (if IsLeapYear(year) then 29 else 28) else MonthDays(month)
  }

  /** The two functions agree, for any non-zero year, exactly on February of a common year. */
  lemma DayCountDisagreesWithCalendar(month: int, year: int)
    requires 0 <= month < 12 && year != 0
    ensures DayCount(month, year) == DaysInMonth(month, year) <==> month == 1 && !IsLeapYear(year)
  {
    DayCountAsWritten(month, year);
  }

  /** Inputs that show the difference: January 1881, and February 2000 and 2004. */
  lemma DayCountCounterexamples()
    ensures DayCount(0, 1881) == 29 && DaysInMonth(0, 1881) == 31
    ensures DayCount(1, 2000) == 28 && DaysInMonth(1, 2000) == 29
    ensures DayCount(1, 2004) == 28 && DaysInMonth(1, 2004) == 29
    ensures DayCount(1, 1900) == 28 && DaysInMonth(1, 1900) == 28
  {
  }
}
