/** The proleptic Gregorian calendar as Python's `datetime` sees it: dates, leap
    years, the day after a date, and the position of a date within its year. */
module Calendar {

  /** The range of years that `datetime` accepts. */
  const MinYear: int := 1
  const MaxYear: int := 9999

  /** A calendar date at midnight (the sampler never sets a time of day). */
  datatype Date = Date(year: int, month: int, day: int)

  predicate IsLeapYear(y: int)
  {
    y % 4 == 0 && (y % 100 != 0 || y % 400 == 0)
  }

  function DaysInYear(y: int): int
  {
    if IsLeapYear(y) then 366 else 365
  }

  function DaysInMonth(y: int, m: int): int
    requires 1 <= m <= 12
  {
    if m == 2 then (if IsLeapYear(y) then 29 else 28)
    else if m == 4 || m == 6 || m == 9 || m == 11 then 30
    else 31
  }

  predicate ValidDate(d: Date)
  {
    1 <= d.month <= 12 && 1 <= d.day <= DaysInMonth(d.year, d.month)
  }

  /** Python's `<` on two dates: lexicographic on (year, month, day). */
  predicate Precedes(a: Date, b: Date)
  {
    a.year < b.year ||
    (a.year == b.year && (a.month < b.month || (a.month == b.month && a.day < b.day)))
  }

  /** Python's `<=` on two dates. */
  predicate NotAfter(a: Date, b: Date)
  {
    Precedes(a, b) || a == b
  }

  /** The number of days of year y that fall in the months before month m. */
  function DaysBeforeMonth(y: int, m: int): int
    requires 1 <= m <= 13
  {
    if m == 1 then 0 else DaysBeforeMonth(y, m - 1) + DaysInMonth(y, m - 1)
  }

  /** Each month adds at least 28 days, so the prefix sums grow with the month. */
  lemma {:induction false} DaysBeforeMonthGrows(y: int, m: int, n: int)
    requires 1 <= m <= n <= 13
    ensures DaysBeforeMonth(y, m) + 28 * (n - m) <= DaysBeforeMonth(y, n)
    decreases n - m
  {
    if m < n {
      DaysBeforeMonthGrows(y, m + 1, n);
    }
  }

  /** The twelve months of a year add up to its length: 365 days, 366 in a leap year. */
  lemma {:induction false} MonthsFillYear(y: int)
    ensures DaysBeforeMonth(y, 13) == DaysInYear(y)
  {
    var leap := if IsLeapYear(y) then 1 else 0;
    assert DaysBeforeMonth(y, 2) == 31;
    assert DaysBeforeMonth(y, 3) == 59 + leap;
    assert DaysBeforeMonth(y, 4) == 90 + leap;
    assert DaysBeforeMonth(y, 5) == 120 + leap;
    assert DaysBeforeMonth(y, 6) == 151 + leap;
    assert DaysBeforeMonth(y, 7) == 181 + leap;
    assert DaysBeforeMonth(y, 8) == 212 + leap;
    assert DaysBeforeMonth(y, 9) == 243 + leap;
    assert DaysBeforeMonth(y, 10) == 273 + leap;
    assert DaysBeforeMonth(y, 11) == 304 + leap;
    assert DaysBeforeMonth(y, 12) == 334 + leap;
  }

  /** The zero-based position of a date within its year (1 January is 0). */
  function DayOfYear(d: Date): (k: int)
    requires ValidDate(d)
    ensures 0 <= k < DaysInYear(d.year)
  {
    MonthsFillYear(d.year);
    DaysBeforeMonthGrows(d.year, 1, d.month);
    DaysBeforeMonthGrows(d.year, d.month + 1, 13);
    DaysBeforeMonth(d.year, d.month) + d.day - 1
  }

  /** 31 December is the last day of every year. */
  lemma LastDayOfYear(y: int)
    ensures ValidDate(Date(y, 12, 31))
    ensures DayOfYear(Date(y, 12, 31)) == DaysInYear(y) - 1
  {
    MonthsFillYear(y);
  }

  /** `date + timedelta(days=1)`: the next calendar day. */
  function NextDay(d: Date): (e: Date)
    requires ValidDate(d)
    ensures ValidDate(e) && Precedes(d, e)
    ensures e.year == d.year ==> DayOfYear(e) == DayOfYear(d) + 1
    ensures e.year != d.year <==> d.month == 12 && d.day == 31
    ensures e.year != d.year ==> e == Date(d.year + 1, 1, 1)
  {
    if d.day < DaysInMonth(d.year, d.month) then Date(d.year, d.month, d.day + 1)
    else if d.month < 12 then Date(d.year, d.month + 1, 1)
    else Date(d.year + 1, 1, 1)
  }

  /** Advancing by one day skips nothing: no valid date lies strictly between a
      date and the day after it. */
  lemma NextDayLeavesNoGap(d: Date, x: Date)
    requires ValidDate(d) && ValidDate(x)
    ensures !(Precedes(d, x) && Precedes(x, NextDay(d)))
  {
  }

  /** Within one year, calendar order and position in the year agree. */
  lemma {:induction false} DayOfYearOrder(a: Date, b: Date)
    requires ValidDate(a) && ValidDate(b) && a.year == b.year
    ensures Precedes(a, b) <==> DayOfYear(a) < DayOfYear(b)
    ensures DayOfYear(a) == DayOfYear(b) <==> a == b
  {
    if a.month < b.month {
      DaysBeforeMonthGrows(a.year, a.month + 1, b.month);
    } else if b.month < a.month {
      DaysBeforeMonthGrows(a.year, b.month + 1, a.month);
    }
  }
}
