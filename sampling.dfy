/** The daily sunset sampler: one record for every calendar day of a year, each
    holding the sunset instant in UTC and in local time and the UTC sunset as a
    decimal hour. The astronomical computation is a parameter. */
module Sampling {
  import opened Base
  import opened Calendar

  /** A sunset instant as a `datetime` reports it: its own calendar date (which
      may differ from the sampled date) and its clock fields. */
  datatype Instant = Instant(date: Date, hour: int, minute: int, second: int, microsecond: int)

  /** The ranges `datetime` keeps its clock fields in. */
  predicate ValidClock(t: Instant)
  {
    0 <= t.hour < 24 && 0 <= t.minute < 60 && 0 <= t.second < 60 && 0 <= t.microsecond < 1000000
  }

  type SunsetInstant = t: Instant | ValidClock(t) witness Instant(Date(1, 1, 1), 0, 0, 0, 0)

  /** One row of the sampler's table. The local sunset instant is carried as an
      opaque value of type L: the analysis never looks inside it. */
  datatype DailySunset<L> = DailySunset(date: Date, sunsetLocal: L, sunsetUtc: SunsetInstant, sunsetHours: real)

  /** `hour + minute / 60 + second / 3600`; the date and the microseconds are ignored. */
  function DecimalHour(t: SunsetInstant): (h: real)
    ensures 0.0 <= h < 24.0
    ensures h.Floor == t.hour
  {
    t.hour as real + t.minute as real / 60.0 + t.second as real / 3600.0
  }

  /** The decimal hour depends on the clock fields alone: neither the instant's
      own date nor its microseconds change it. */
  lemma DecimalHourIgnoresDateAndMicroseconds(t: SunsetInstant, u: SunsetInstant)
    requires t.hour == u.hour && t.minute == u.minute && t.second == u.second
    ensures DecimalHour(t) == DecimalHour(u)
  {
  }

  /** The record the sampler makes for date d. */
  ghost predicate IsDayRecord<L>(d: Date, utcSunset: Date -> SunsetInstant, localSunset: Date -> L, row: DailySunset<L>)
  {
    row.date == d &&
    row.sunsetUtc == utcSunset(d) &&
    row.sunsetLocal == localSunset(d) &&
    row.sunsetHours == DecimalHour(utcSunset(d))
  }

  /** What a successful sampling of `year` is: one record per day of the year,
      the k-th for the k-th day, from 1 January to 31 December, each date the day
      after the previous one. */
  ghost predicate IsYearSample<L>(year: int, utcSunset: Date -> SunsetInstant, localSunset: Date -> L, rows: seq<DailySunset<L>>)
  {
    |rows| == DaysInYear(year) &&
    rows[0].date == Date(year, 1, 1) &&
    rows[|rows| - 1].date == Date(year, 12, 31) &&
    (forall k :: 0 <= k < |rows| ==>
      ValidDate(rows[k].date) && rows[k].date.year == year && DayOfYear(rows[k].date) == k &&
      IsDayRecord(rows[k].date, utcSunset, localSunset, rows[k]) &&
      0.0 <= rows[k].sunsetHours < 24.0) &&
    (forall k :: 0 <= k < |rows| - 1 ==> rows[k + 1].date == NextDay(rows[k].date))
  }

  /** The sampling loop `get_sunset_hours`: walk from 1 January to 31 December
      one day at a time, asking the ephemeris for the sunset in UTC and in local
      time. Years outside `datetime`'s range are rejected; for year 9999 the step
      past 31 December overflows. */
  method SunsetHours<L>(year: int, utcSunset: Date -> SunsetInstant, localSunset: Date -> L)
    returns (r: Result<seq<DailySunset<L>>>)
    ensures r.Ok? <==> MinYear <= year < MaxYear
    ensures (year < MinYear || MaxYear < year) ==> r == Err(YearOutOfRange)
    ensures year == MaxYear ==> r == Err(DateOverflow)
    ensures r.Ok? ==> IsYearSample(year, utcSunset, localSunset, r.value)
  {
    if year < MinYear || MaxYear < year {
      return Err(YearOutOfRange);
    }
    var startDate := Date(year, 1, 1);
    var endDate := Date(year, 12, 31);
    LastDayOfYear(year);
    var rows: seq<DailySunset<L>> := [];
    var current := startDate;
    while NotAfter(current, endDate)
      invariant |rows| <= DaysInYear(year)
      invariant current.year <= MaxYear
      invariant |rows| < DaysInYear(year) ==>
        ValidDate(current) && current.year == year && DayOfYear(current) == |rows|
      invariant |rows| == DaysInYear(year) ==> current == Date(year + 1, 1, 1)
      invariant forall k :: 0 <= k < |rows| ==>
        ValidDate(rows[k].date) && rows[k].date.year == year && DayOfYear(rows[k].date) == k &&
        IsDayRecord(rows[k].date, utcSunset, localSunset, rows[k])
      invariant |rows| == 0 ==> current == startDate
      invariant 0 < |rows| ==> rows[0].date == startDate
      invariant 0 < |rows| ==> current == NextDay(rows[|rows| - 1].date)
      invariant forall k :: 0 <= k < |rows| - 1 ==> rows[k + 1].date == NextDay(rows[k].date)
      decreases DaysInYear(year) - |rows|
    {
      var sUtc := utcSunset(current);
      var sLocal := localSunset(current);
      var decimalHour := DecimalHour(sUtc);
      rows := rows + [DailySunset(current, sLocal, sUtc, decimalHour)];
      var next := NextDay(current);
      if MaxYear < next.year {
        return Err(DateOverflow);
      }
      current := next;
    }
    var last := rows[|rows| - 1].date;
    DayOfYearOrder(last, endDate);
    return Ok(rows);
  }

  /** The sampled dates are strictly increasing: no date repeats and none is
      out of order. */
  lemma SampleIsStrictlyIncreasing<L>(year: int, utcSunset: Date -> SunsetInstant, localSunset: Date -> L, rows: seq<DailySunset<L>>)
    requires IsYearSample(year, utcSunset, localSunset, rows)
    ensures forall i, j :: 0 <= i < j < |rows| ==> Precedes(rows[i].date, rows[j].date)
  {
    forall i, j | 0 <= i < j < |rows|
      ensures Precedes(rows[i].date, rows[j].date)
    {
      DayOfYearOrder(rows[i].date, rows[j].date);
    }
  }

  /** The sample covers every day of the year: each valid date of `year` is the
      date of exactly the record at its position in the year. */
  lemma SampleCoversEveryDay<L>(year: int, utcSunset: Date -> SunsetInstant, localSunset: Date -> L, rows: seq<DailySunset<L>>, d: Date)
    requires IsYearSample(year, utcSunset, localSunset, rows)
    requires ValidDate(d) && d.year == year
    ensures rows[DayOfYear(d)].date == d
    ensures forall k :: 0 <= k < |rows| && rows[k].date == d ==> k == DayOfYear(d)
  {
    DayOfYearOrder(rows[DayOfYear(d)].date, d);
  }
}
