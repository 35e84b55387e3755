/** The analysis of one year as `plot_sunset_analysis` computes it, apart from
    drawing and printing: the turning points of the derivative series, the
    days of fastest lengthening and shortening, and the earliest and latest
    sunsets; and the whole pipeline from sampling to these statistics. */
module Analysis {
  import opened Base
  import opened Calendar
  import opened Sampling
  import opened FiniteDifference
  import opened TurningPoints
  import opened Extrema

  /** Indices into the daily series: the earliest and latest sunset, the
      largest and smallest rate of change, and the two turning points. */
  datatype YearStatistics = YearStatistics(
    earliest: nat, latest: nat,
    maxIncrease: nat, maxDecrease: nat,
    summer: Option<nat>, winter: Option<nat>)

  /** Everything one run produces: the daily table, its derivative series and
      the statistics over both. */
  datatype YearAnalysis<L> = YearAnalysis(days: seq<DailySunset<L>>, derivatives: seq<real>, stats: YearStatistics)

  /** i is the first index at which the series takes its extreme value. */
  predicate IsFirstExtreme(s: seq<real>, e: Extreme, i: nat)
  {
    0 < |s| && i < |s| && s[i] == Peak(s, e) && forall j :: 0 <= j < i ==> s[j] != Peak(s, e)
  }

  /** What the statistics mean: first-occurrence extremes of the sunset hours
      and of the derivatives, and the two seasons' turning points. */
  predicate IsSummary(hours: seq<real>, d: seq<real>, st: YearStatistics)
  {
    IsFirstExtreme(hours, Smallest, st.earliest) &&
    IsFirstExtreme(hours, Largest, st.latest) &&
    IsFirstExtreme(d, Largest, st.maxIncrease) &&
    IsFirstExtreme(d, Smallest, st.maxDecrease) &&
    st.summer == TurningPointOf(d, Summer) &&
    st.winter == TurningPointOf(d, Winter)
  }

  /** main.py:175-212 and 249-250: the turning points, then `np.argmax` /
      `np.argmin` of the derivatives and of the sunset hours; an empty series
      makes numpy raise. */
  method Summarize(hours: seq<real>, d: seq<real>) returns (r: Result<YearStatistics>)
    ensures r.Err? <==> |hours| == 0 || |d| == 0
    ensures r.Err? ==> r.error == EmptySequence
    ensures r.Ok? ==> IsSummary(hours, d, r.value)
    ensures r.Ok? ==> (r.value.summer.Some? ==> 1 <= r.value.summer.value < |d|)
    ensures r.Ok? ==> (r.value.winter.Some? ==> 1 <= r.value.winter.value < |d|)
  {
    var summer := TurningPoint(d, Summer);
    var winter := TurningPoint(d, Winter);
    var maxIncrease := ArgExtreme(d, Largest);
    var maxDecrease := ArgExtreme(d, Smallest);
    if maxIncrease.None? || maxDecrease.None? {
      return Err(EmptySequence);
    }
    var earliest := ArgExtreme(hours, Smallest);
    var latest := ArgExtreme(hours, Largest);
    if earliest.None? || latest.None? {
      return Err(EmptySequence);
    }
    return Ok(YearStatistics(earliest.value, latest.value, maxIncrease.value, maxDecrease.value, summer, winter));
  }

  /** The `sunset_hours` column of the daily table. */
  function HoursColumn<L>(days: seq<DailySunset<L>>): (h: seq<real>)
    ensures |h| == |days|
    ensures forall i :: 0 <= i < |days| ==> h[i] == days[i].sunsetHours
  {
    seq(|days|, i requires 0 <= i < |days| => days[i].sunsetHours)
  }

  /** One run of the pipeline: sample the year, differentiate the sunset hours,
      summarize. It succeeds for every year `datetime` can step through; every
      index it reports points into the daily table, and turning points never
      at its first day. */
  method Analyse<L>(year: int, utcSunset: Date -> SunsetInstant, localSunset: Date -> L)
    returns (r: Result<YearAnalysis<L>>)
    ensures r.Ok? <==> MinYear <= year < MaxYear
    ensures (year < MinYear || MaxYear < year) ==> r == Err(YearOutOfRange)
    ensures year == MaxYear ==> r == Err(DateOverflow)
    ensures r.Ok? ==>
      var a := r.value;
      IsYearSample(year, utcSunset, localSunset, a.days) &&
      |a.derivatives| == |a.days| &&
      (forall i :: 0 <= i < |a.days| ==> a.derivatives[i] == Slope(HoursColumn(a.days), i)) &&
      IsSummary(HoursColumn(a.days), a.derivatives, a.stats) &&
      (a.stats.summer.Some? ==> 1 <= a.stats.summer.value < |a.days|) &&
      (a.stats.winter.Some? ==> 1 <= a.stats.winter.value < |a.days|)
  {
    var sampled := SunsetHours(year, utcSunset, localSunset);
    if sampled.Err? {
      return Err(sampled.error);
    }
    var days := sampled.value;
    var hours := HoursColumn(days);
    // A year has at least 365 days, so neither stage can raise.
    var derived := Derivative(hours);
    assert derived.Ok?;
    var stats := Summarize(hours, derived.value);
    assert stats.Ok?;
    return Ok(YearAnalysis(days, derived.value, stats.value));
  }
}
