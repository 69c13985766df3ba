/** Month arithmetic on statement dates (`get_nper`). */
module Periods {

  /** A date as `strptime(.., "%Y/%m/%d")` yields it. Only the year and the
      month take part in period counting. */
  datatype Date = Date(year: int, month: int, day: int)

  /** Gregorian leap years, as `datetime` counts them. */
  predicate LeapYear(y: int) {
    y % 4 == 0 && (y % 100 != 0 || y % 400 == 0)
  }

  function DaysInMonth(y: int, m: int): (n: int)
    requires 1 <= m <= 12
    ensures 28 <= n <= 31
  {
    if m == 2 then (if LeapYear(y) then 29 else 28)
    else if m == 4 || m == 6 || m == 9 || m == 11 then 30
    else 31
  }

  /** The dates `strptime` accepts: year from 1, a month of the year and a
      day of that month. */
  predicate ValidDate(d: Date) {
    1 <= d.year && 1 <= d.month <= 12 && 1 <= d.day <= DaysInMonth(d.year, d.month)
  }

  /** Months since the start of year 0: a date's position on a month line. */
  function MonthIndex(d: Date): int {
    12 * d.year + (d.month - 1)
  }

  /** The first day of the month after `d`'s, rolling December over into
      January of the next year. */
  function NextMonth(d: Date): (e: Date)
    requires ValidDate(d)
    ensures ValidDate(e)
    ensures MonthIndex(e) == MonthIndex(d) + 1
  {
    if d.month == 12 then Date(d.year + 1, 1, 1) else Date(d.year, d.month + 1, 1)
  }

  /** Number of billing periods paid by the statement date `bal`: the months
      from `open` to `bal`, less one (the installment of the statement month
      is not yet counted). */
  function GetNper(open: Date, bal: Date): (n: int)
    ensures n == MonthIndex(bal) - MonthIndex(open) - 1
  {
    12 * (bal.year - open.year) + (bal.month - open.month) - 1
  }

  /** Moving the statement one month later, across a year boundary or not,
      adds exactly one paid period. */
  lemma NperAdvancesByOne(open: Date, bal: Date)
    requires ValidDate(bal)
    ensures GetNper(open, NextMonth(bal)) == GetNper(open, bal) + 1
  {
  }

  /** Counting the month steps one by one from the opening date reaches the
      statement date after `GetNper + 1` steps. */
  function MonthsUntil(open: Date, bal: Date): (k: nat)
    requires ValidDate(open)
    requires MonthIndex(open) <= MonthIndex(bal)
    decreases MonthIndex(bal) - MonthIndex(open)
  {
    if MonthIndex(open) == MonthIndex(bal) then 0 else 1 + MonthsUntil(NextMonth(open), bal)
  }

  lemma {:induction false} NperCountsMonthSteps(open: Date, bal: Date)
    requires ValidDate(open)
    requires MonthIndex(open) <= MonthIndex(bal)
    ensures GetNper(open, bal) == MonthsUntil(open, bal) - 1
    decreases MonthIndex(bal) - MonthIndex(open)
  {
    if MonthIndex(open) != MonthIndex(bal) {
      NperCountsMonthSteps(NextMonth(open), bal);
    }
  }

  /** Opened 2019/01/01, statement 2021/01/01: 23 periods paid. */
  lemma NperExample()
    ensures GetNper(Date(2019, 1, 1), Date(2021, 1, 1)) == 23
  {
  }
}
