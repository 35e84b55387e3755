# Sunset analysis, modelled in Dafny

This project models the analysis core of `main.py`, a script that samples the
sunset time of one location for every day of a year and finds the two
solstices. The script is modelled as a pipeline in four stages.

- **Sampler** (`get_sunset_hours`), module `Sampling`. It walks from 1 January
  to 31 December one calendar day at a time. For each day it asks the ephemeris
  for the sunset instant in UTC and in local time. It records the UTC sunset as
  a decimal hour, `hour + minute/60 + second/3600`.
- **Derivative engine** (`get_derivative`), module `FiniteDifference`. It turns
  the decimal hours into a rate of change in minutes per day. The first day uses
  a forward difference, the last day a backward difference, and every other day
  a central difference.
- **Turning-point detector** (the scans inside `plot_sunset_analysis`), module
  `TurningPoints`. The primary rule takes the first sign change of the
  derivative. The fallback rule takes the slowing day closest to zero under a
  threshold of 0.5. One scan takes a `Season` (summer or winter) and serves
  both solstices, with the signs flipped.
- **Statistics** (the `np.argmax`/`np.argmin` selections), modules `Extrema`
  and `Analysis`. These are the earliest and latest sunset, and the days of
  fastest lengthening and shortening. Ties go to the first occurrence.

The calendar in module `Calendar` is Python's proleptic Gregorian calendar.
Leap years follow the 4/100/400 rule. A date is advanced with `NextDay`, and the
years `datetime` accepts run from 1 to 9999. `Analysis.Analyse` chains the
stages in the order the script's functions feed each other.

The astronomical computation is a parameter. It comes as two total functions
from a date to a sunset instant: one in UTC, whose clock fields are kept in
`datetime`'s ranges by a subset type, and one in local time, which the model
treats as an opaque value. Numbers are exact `real`s.

Where the code and the system's design documentation disagree, the model follows the code:

- `get_derivative([])` returns `[]`, because the loop never runs. Only a
  one-element list fails, with an index error at `sunset_hours[i+1]`
  (main.py:99). The description says every input shorter than 2 fails.
- In the seven-day example `[10.0, 10.1, 10.3, 10.3, 10.2, 10.0, 9.8]`, the
  central difference at index 5 is `(9.8 - 10.2) / 2 * 60 = -12`, not `-15`.
  `FiniteDifference.SevenDayExample` proves the whole series
  `[6, 9, 6, -3, -9, -12, -12]`.
- For year 9999, `get_sunset_hours` raises `OverflowError`. The failure comes
  after 31 December has been appended, when `current_date += timedelta(days=1)`
  leaves `datetime`'s range (main.py:68). A year outside 1..9999 raises
  `ValueError` at `datetime(year, 1, 1)` (main.py:43). The model returns
  `Err(DateOverflow)` and `Err(YearOutOfRange)` for these cases.

## Model

| member | source | states |
|---|---|---|
| `Calendar.DayOfYear` | main.py:43-44 | The position of a valid date in its year lies in [0, 365) or [0, 366) in a leap year. |
| `Calendar.MonthsFillYear` | main.py:43-44 | The twelve Gregorian months add up to 365 days, or 366 in a leap year (divisible by 4 and not by 100 unless by 400). |
| `Calendar.LastDayOfYear` | main.py:44 | 31 December is a valid date and the last day of its year. |
| `Calendar.NextDay` | main.py:68 | `date + timedelta(days=1)` gives a valid, strictly later date. Within a year it is one position further. It crosses into the next year exactly from 31 December, landing on 1 January. |
| `Calendar.NextDayLeavesNoGap` | main.py:68 | No valid date lies strictly between a date and the day after it. |
| `Calendar.DayOfYearOrder` | main.py:53 | Within one year, `datetime`'s date order agrees with the position in the year, and equal positions mean equal dates. |
| `Sampling.DecimalHour` | main.py:64-65 | For hour 0-23, minute 0-59 and second 0-59, the decimal hour lies in [0, 24) and its integer part is the hour. |
| `Sampling.DecimalHourIgnoresDateAndMicroseconds` | main.py:64-65 | The decimal hour depends on hour, minute and second only. The instant's own UTC date and its microseconds are ignored, with no date-line correction. |
| `Sampling.SunsetHours` | main.py:43-68 | Succeeds exactly for years 1..9998. A year outside 1..9999 is rejected, and year 9999 overflows. On success there is one record per day, so 365 or 366 of them. Record k holds the k-th day of the year, from 1 January to 31 December, each date the day after the previous one. Each record holds both ephemeris answers and the decimal hour of the UTC one. |
| `Sampling.SampleIsStrictlyIncreasing` | main.py:51-68 | The dates of a successful sample are strictly increasing. |
| `Sampling.SampleCoversEveryDay` | main.py:51-68 | Every valid date of the year appears, at its position in the year and nowhere else. |
| `FiniteDifference.Derivative` | main.py:94-109 | Fails with an index error exactly on a one-element input. `[]` gives `[]`. Otherwise the output has the input's length, and index i is the forward difference at 0, the backward difference at n-1 and the central difference elsewhere, each times 60. |
| `FiniteDifference.TwoSamplesShareOneSlope` | main.py:97-102 | With two samples, the first and last day both get `(v[1]-v[0])*60`. |
| `FiniteDifference.ConstantHasZeroSlope` | main.py:96-107 | If all sunset hours are equal, every derivative is 0. |
| `FiniteDifference.IncreasingHasPositiveSlope` | main.py:96-107 | If sunset hours increase day over day, every derivative is positive. |
| `FiniteDifference.DecreasingHasNegativeSlope` | main.py:96-107 | If sunset hours decrease day over day, every derivative is negative. |
| `FiniteDifference.SevenDayExample` | main.py:97-105 | The seven-day example has derivatives `[6, 9, 6, -3, -9, -12, -12]`. |
| `TurningPoints.FirstCrossingFrom` | main.py:177-181 | Finds the first sign change at or after a day, if any, and finds none exactly when no later day is a sign change. Summer is `d[i-1] > 0 and d[i] <= 0`; winter is `d[i-1] < 0 and d[i] >= 0`. |
| `TurningPoints.PrimaryScan` | main.py:177-181 | The `for ... break` scan returns the first i ≥ 1 with a sign change. No smaller i has one. It returns None exactly when no day has one. The winter scan at lines 194-198 is the same with the other season. |
| `TurningPoints.FirstCrossingIsUnique` | main.py:178-181 | Any first sign change is the one the reference scan returns. |
| `TurningPoints.Slowdowns` | main.py:185-186 | The first comprehension holds exactly the days i ≥ 1 with `d[i-1] > 0 and d[i] < d[i-1]`, or in winter `d[i-1] < 0 and d[i] > d[i-1]`, in increasing order. |
| `TurningPoints.NearZeroOnly` | main.py:189 | The second comprehension keeps exactly the listed days under the threshold, `d[i] < 0.5` in summer and `d[i] > -0.5` in winter, in the same order. |
| `TurningPoints.ClosestToZero` | main.py:191 | `min(..., key=abs)` picks a position whose absolute value is least. Every earlier position has a strictly larger absolute value, so the first minimum wins. |
| `TurningPoints.CandidateList` | main.py:185-189 | The list the fallback minimises over is increasing and holds exactly the days meeting all three fallback conditions. |
| `TurningPoints.ClosestAmongIncreasing` | main.py:191 | In an increasing list of days, the first minimum is also the smallest day with least absolute value. |
| `TurningPoints.ClosestCandidate` | main.py:185-191 | The closest-to-zero day of the candidate list meets all three fallback conditions. No candidate is closer to zero, and every earlier candidate is strictly farther. An empty list means no day is a candidate. |
| `TurningPoints.Fallback` | main.py:184-191 | The fallback finds nothing exactly when no day meets the conditions. Otherwise its day meets them and has the least absolute value of d[i] among all such days. Every earlier such day has a strictly larger absolute value of d[i]. The winter fallback at lines 201-208 is the same with the other season. |
| `TurningPoints.TurningPointOf` | main.py:177-191 | A reported turning index lies in [1, n-1]. |
| `TurningPoints.TurningPoint` | main.py:177-208 | The imperative detector (primary scan, then fallback only if the scan found None) computes `TurningPointOf` for either season. |
| `TurningPoints.PrimaryRuleWins` | main.py:177-184 | If any sign change exists, the first one is reported and the fallback plays no part. |
| `TurningPoints.FallbackOnlyWithoutCrossing` | main.py:184 | Without a sign change, the fallback's choice is reported. |
| `TurningPoints.FallbackBounds` | main.py:178-191 | A fallback choice made without a sign change satisfies 0 < d[i] < 0.5 in summer and -0.5 < d[i] < 0 in winter. |
| `TurningPoints.AbsentExactlyWithoutEvidence` | main.py:177-191 | No turning point is reported exactly when there is no sign change and no fallback candidate. |
| `TurningPoints.SummerExample` | main.py:177-181 | For `[6, 9, 6, -3, -9, -12, -12]` the first summer sign change, and the summer turning point, is index 3. |
| `TurningPoints.LateCrossingExample` | main.py:177-184 | For `[5, 3, 1, 0.3, 0.2, -0.1, -2]` the summer turning point is the sign change at index 5. |
| `TurningPoints.ApproachOnlyHasNoCrossing` | main.py:178-179 | `[4, 2, 0.9, 0.4, 0.6, 1, 2]` has no summer and no winter sign change. |
| `TurningPoints.ApproachOnlySummerFallback` | main.py:184-191 | For that series the summer fallback picks index 3 (value 0.4). |
| `TurningPoints.ApproachOnlyWinterFallback` | main.py:201-208 | For that series the winter fallback finds nothing. |
| `TurningPoints.ApproachOnlyExample` | main.py:177-208 | For that series the summer turning point is index 3 and the winter one is absent. |
| `Extrema.PeakIsExtreme` | main.py:255-256 | `max`/`min` of a non-empty series is one of its values, and no value is larger (or smaller). |
| `Extrema.ExtremePos` | main.py:211-212 | numpy's scan settles on a position no value beats. Every earlier value is strictly beaten by it. |
| `Extrema.ArgExtreme` | main.py:211-212 | `np.argmax`/`np.argmin` is defined exactly on non-empty series. Its index is the first one whose value equals the series' maximum (minimum). |
| `Analysis.HoursColumn` | main.py:129 | The `sunset_hours` column has one entry per record, the record's decimal hour. |
| `Analysis.Summarize` | main.py:175-250 | Fails exactly when the hours or the derivatives are empty. Otherwise: earliest/latest are the first indices of the minimum/maximum sunset hour (lines 249-250); max increase/decrease are the first indices of the largest/smallest derivative (lines 211-212); the summer and winter turning points are the detector's, each in [1, n-1]. |
| `Analysis.Analyse` | main.py:112-122 | The pipeline succeeds exactly for years 1..9998 and passes the sampler's errors on. On success it has the full year sample and a derivative series aligned index for index with it. The statistics mean what `Summarize` states, and every turning index points into the daily table, never at its first day. |

Only one summer and one winter turning point can be reported, because each is
an `Option<nat>`.

## Left out

- The astral `sun(...)` computation, `LocationInfo` and the pytz time-zone lookup (main.py:38, 41, 55-56) are foreign library calls. They are function parameters here, assumed to always return a sunset. Their failure for polar locations is not modelled.
- The pandas DataFrame (main.py:70-77) is modelled as a sequence of records. The constant `year` and `city` columns are dropped, and the local sunset instant is an opaque value.
- All matplotlib plotting, axis formatting, annotation and DST markers (main.py:128-173, 214-244) are user interface, not analysis.
- The printed statistics report and its `strftime` formatting (main.py:247-264) are text output. Only the indices and the `max`/`min` values it prints are modelled.
- Summarize: does not model that plotting series of different lengths (main.py:136, 167) or reading `dates.iloc[idx]` past the table fails; in the pipeline the hours, the derivatives and the dates always have the same length.
- IEEE floating-point rounding is not modelled: values are exact reals, so the model makes no claim of bit-exact agreement with Python floats. The comparisons and the linear arithmetic are modelled exactly.
