# Solar-time core: a verified model

This project models the time arithmetic behind the solar-time web service in
`app.py`. Four pieces are covered.

- **Solar midnight** is the midpoint between sunset and the next day's sunrise
  (`get_solar_events`). The ephemeris supplies sunrise, noon, sunset and the
  next sunrise; here they are parameters.
- **Current period** (`get_current_period`) is a chain of strict comparisons.
  It yields night, morning, afternoon or evening.
- **Period progress** (`calculate_period_progress`) looks up the period's
  start and end in two fixed tables. It reports the total and elapsed seconds
  and the elapsed share as a percentage.
- **Season tracking** (`get_season_info`) builds four fixed boundaries in the
  year of `now`: Mar 20, Jun 21, Sep 22 and Dec 21, each at 00:00 UTC. A loop
  keeps the last boundary that `now` has reached. After Winter it wraps to
  Mar 20 of the next year. Whole days come from `timedelta.days`.

Modules:

- `Calendar` (`calendar.dfy`) is the part of Python's `datetime` that the core
  uses. A `DateTime` holds the seven UTC fields Python stores. `Micros` places
  it on the timeline using the proleptic Gregorian calendar. `Before` is
  Python's field-by-field comparison of two date-times with the same tzinfo.
  `ReplaceYear` is `replace(year=...)` and `DaysBetween` is `(a - b).days`.
- `SolarDay` (`solar_day.dfy`) covers midnight, the classifier and period
  progress. Instants are integer microseconds; seconds and percentages are
  exact reals.
- `Seasons` (`seasons.dfy`) holds the season tracker. `GetSeasonInfo` keeps
  the source's loop and is proved equal to the reference function `Track`.
  `Track` selects the season by checking Winter first and working backwards.
- `Results` (`results.dfy`) holds the `Option` and `Result` types. An `Err`
  stands for an exception the source raises.

The model follows the code in five behaviours a reader might not expect:

- **Before Mar 20.** One might expect such an instant to belong to the
  previous year's Winter. In the code no boundary is reached, `season_start`
  stays `None`, and the subtraction on line 118 raises. The model returns
  `Err(NoSeasonSelected)` (`Seasons.TrackFailsExactly`).
- **Midnight rounding.** One might expect midnight to be the exact halfway
  instant. The code halves a `timedelta`, which rounds to whole microseconds
  with ties to even. So midnight is at most half a microsecond off the midpoint. With a
  one-microsecond gap, midnight equals sunset
  (`SolarDay.OneMicrosecondGap`).
- **Degenerate periods.** One might expect a distinct error on coincident or
  inverted boundaries. The code fails only when a period has
  length zero (a float `ZeroDivisionError`), and that is the model's
  `Err(ZeroDivision)`. Inverted boundaries produce negative lengths without
  an error.
- **Progress at a period's end.** One might expect progress to reach 100 at
  the end of every period. At the end instant of morning, afternoon or
  evening, the classifier has already moved on to the next period. Only night reaches exactly 100, at
  sunrise plus one day (`SolarDay.NightAfterMidnight`).
- **The year 9999.** Building next year's Mar 20 in Winter of year 9999
  raises `ValueError`. The model returns `Err(NextYearOutOfRange)`.

## Model

| member | source | states |
|---|---|---|
| `SolarDay.HalveDuration` | app.py:27 | halving a duration gives the nearest whole microsecond to half of it, ties going to the even neighbour |
| `SolarDay.SolarMidnight` | app.py:24-27 | midnight lies between sunset and the next sunrise, and its distances to the two differ by at most one microsecond (none when the gap is even) |
| `SolarDay.GetSolarEvents` | app.py:24-34 | sunrise, noon and sunset pass through unchanged; midnight lies between sunset and the next sunrise, equidistant to within one microsecond |
| `SolarDay.SolarEventsOrdered` | app.py:25-33 | a sunrise < noon < sunset day whose next sunrise is at least 2 µs after sunset gives sunrise < noon < sunset < midnight < next sunrise |
| `SolarDay.OneMicrosecondGap` | app.py:27 | a next sunrise 1 µs after sunset puts midnight on sunset, so the events are not ordered |
| `SolarDay.CurrentPeriod` | app.py:36-49 | for ordered events: morning iff now ∈ [sunrise, noon), afternoon iff now ∈ [noon, sunset), evening iff now ∈ [sunset, midnight), night iff now < sunrise or now ≥ midnight |
| `SolarDay.BoundariesStartPeriods` | app.py:40-49 | for ordered events, an instant equal to sunrise, noon, sunset or midnight falls in the period that starts there |
| `SolarDay.PeriodStart` | app.py:57-62 | for ordered events, each period's start instant is classified as that period |
| `SolarDay.PeriodEnd` | app.py:64-69 | for ordered events, morning, afternoon and evening end after they start, at an instant classified as another period; night ends after it starts when midnight is before sunrise + 1 day |
| `SolarDay.PeriodsAreContiguous` | app.py:57-69 | each period's end in the end table is the next period's start in the start table; night ends one day after sunrise |
| `SolarDay.CalculatePeriodProgress` | app.py:51-82 | fails exactly when the classified period's start equals its end; otherwise reports that period, its length and elapsed time in seconds, and progress × length = 100 × elapsed |
| `SolarDay.Measure` | app.py:71-81 | fails exactly on a zero-length period; otherwise seconds and percentage measured from the period's start |
| `SolarDay.ToSeconds` | app.py:74-75 | seconds are microseconds scaled by 10^6; zero only for a zero duration |
| `SolarDay.Percent` | app.py:81 | the percentage times the length is 100 times the elapsed time, whatever the unit |
| `SolarDay.PercentRange` | app.py:81 | for a positive length: below 0 iff elapsed < 0, 0 iff elapsed = 0, below 100 iff elapsed < length, 100 iff elapsed = length |
| `SolarDay.PercentIncreasing` | app.py:81 | for a positive length the percentage strictly grows with the elapsed time |
| `SolarDay.DaytimeProgressBounds` | app.py:55-81 | for ordered events, in morning, afternoon and evening: positive length, 0 ≤ elapsed < length, 0 ≤ progress < 100, and progress is 0 exactly at the period's start |
| `SolarDay.NightBeforeSunrise` | app.py:40-81 | for ordered events whose midnight is before sunrise + 1 day: before sunrise, night is measured from today's midnight, so elapsed time and progress are negative |
| `SolarDay.NightWindowFromEphemeris` | app.py:24-34 | a sunrise < noon < sunset day whose next sunrise is at least 2 µs after sunset and at most one day after today's sunrise gives ordered events whose midnight is before sunrise + 1 day |
| `SolarDay.NightAfterMidnight` | app.py:46-81 | for ordered events whose midnight is before sunrise + 1 day: from midnight on, elapsed ≥ 0; progress > 100 iff now > sunrise + 1 day, and = 100 iff now = sunrise + 1 day |
| `SolarDay.ProgressIncreasing` | app.py:55-81 | for ordered events, two instants in the same period: the later one has strictly greater progress (for night, when midnight is before sunrise + 1 day) |
| `SolarDay.MidsummerAfternoon` | app.py:27-81 | sunrise 05:00, noon 12:00, sunset 20:00 on 2024-06-21 and sunrise 05:00 next day give midnight 00:30 on the 22nd; at 16:00 the result is afternoon, 28800 s, 14400 s, 50 |
| `Calendar.Before` | app.py:108 | no date-time comes before itself |
| `Calendar.BeforeIsStrictTotal` | app.py:108 | field order is asymmetric, and of two distinct date-times one comes first |
| `Calendar.BeforeIsEarlier` | app.py:108 | Python's field-by-field comparison of two date-times agrees with their order on the timeline |
| `Calendar.EarlierDay` | app.py:108 | a date-time on an earlier calendar date is earlier on the timeline |
| `Calendar.DateWithinYear` | app.py:88 | a valid date-time lies between January 1 of its year and January 1 of the next |
| `Calendar.YearLength` | app.py:112 | consecutive year starts are 365 days apart, or 366 in a leap year |
| `Calendar.DaysBeforeYearCounts` | app.py:119 | the closed-form day count before a year equals the year lengths added up |
| `Calendar.DaysBeforeYearMonotone` | app.py:119 | later years start at least 365 days per year later |
| `Calendar.ReplaceYear` | app.py:112 | `replace(year=y)` succeeds iff y ∈ [1, 9999] and the day exists in that month; then only the year changes |
| `Calendar.DaysBetween` | app.py:118-119 | `.days` is the whole days of the difference, rounded toward minus infinity |
| `Calendar.DaysSinceMidnight` | app.py:118-119 | whole days counted from a midnight are calendar days |
| `Seasons.Boundary` | app.py:91-94 | each boundary is a valid date-time at 00:00 |
| `Seasons.NextBoundary` | app.py:109-116 | the boundary after a season is valid at 00:00 whenever its year is in range, lies in the same year except after Winter (the next year), and comes after the season's own boundary |
| `Seasons.DayPercent` | app.py:126 | the percentage times the season length is 100 times the elapsed days, and zero days give 0 |
| `Seasons.Info` | app.py:118-126 | when now lies between two 00:00 boundaries, days_since_start and total_season_days are calendar-day differences, 0 ≤ days_since_start < total_season_days, and progress ∈ [0, 100) |
| `Seasons.WholeDaysWithin` | app.py:118-126 | between two midnights, `.days` counts calendar days, the elapsed days fall short of the span's days, and their percentage lies in [0, 100) |
| `Seasons.InfoFor` | app.py:109-126 | the result for a selected season fails exactly for Winter of year 9999 (`NextYearOutOfRange`); otherwise it names that season and its fixed length in days |
| `Seasons.SeasonLength` | app.py:109-119 | whole days from a season's boundary to the next are 93, 93, 90, and 89 or 90 for Winter, depending on whether the next year is a leap year |
| `Seasons.BoundariesAscend` | app.py:91-101 | Spring < Summer < Autumn < Winter of one year < Spring of the next |
| `Seasons.Selected` | app.py:103-116 | no season is selected exactly when now is before Mar 20 of its year; a selected season's boundary has been reached |
| `Seasons.Track` | app.py:84-127 | the reference tracker fails with `NoSeasonSelected` exactly when no season is selected, with `NextYearOutOfRange` exactly when Winter of year 9999 is selected, and otherwise reports the selected season |
| `Seasons.LatestReached` | app.py:107-116 | the index found is the last of the first n boundaries that now has reached, or -1 when none is reached |
| `Seasons.TrackOfLatest` | app.py:103-116 | scanning the boundaries in order and keeping the last reached selects the same season as checking from Winter backwards |
| `Seasons.GetSeasonInfo` | app.py:84-127 | the loop over the season list returns exactly the reference tracker's result, errors included |
| `Seasons.TrackFailsExactly` | app.py:103-118 | the result is `NoSeasonSelected` iff now is before Mar 20 of its year, and `NextYearOutOfRange` iff now is in Winter of year 9999 |
| `Seasons.SelectedInFieldOrder` | app.py:107-116 | in field order, the selected boundary is reached, the following one is not, and no later season's boundary is reached |
| `Seasons.SelectedIsLatest` | app.py:107-116 | the selected boundary is the latest boundary of the year that now has reached, and now precedes the following boundary |
| `Seasons.InfoForFacts` | app.py:118-126 | once a season is selected, the result names it, starts at its boundary, and counts whole days to now and to the next boundary |
| `Seasons.TrackSelectsLatest` | app.py:103-119 | a successful result satisfies season_start ≤ now < next boundary, and season_start is the latest boundary ≤ now |
| `Seasons.TrackDayCounts` | app.py:118-126 | the season length is its fixed day count, 0 ≤ days_since_start < total_season_days, and progress ∈ [0, 100) |
| `Seasons.SelectedAtBoundary` | app.py:107-116 | a boundary instant selects its own season |
| `Seasons.TrackAtBoundary` | app.py:107-126 | at a boundary instant, that boundary's season is selected with 0 days elapsed and progress 0 |

## Left out

- Flask routing, templates and JSON output (`index`, `get_sun_data`, `isoformat`, app.py:145-170). These are transport and serialisation.
- The `isoformat()` call on the season start (app.py:123). `SeasonInfo.seasonStart` stays a `DateTime`; turning it into text is serialisation.
- The ephemeris calls (`LocationInfo`, `sun`, `azimuth`, `elevation`, app.py:14-22, 26, 133-137). They are floating-point astronomy in a library this model cannot see. Sunrise, noon, sunset and the next sunrise are parameters of `SolarDay.GetSolarEvents`. A day on which the sun does not rise or set never reaches the core.
- `calculate_sun_position` (app.py:129-143). It wraps the ephemeris. Its only logic is the float test `alt > 0`.
- Reads of the current clock (`datetime.now`, app.py:11-12, 37-38, 52-53, 85-86, 151). `now` is an explicit argument throughout.
- The unused `lat` and `lon` parameters of `get_season_info`.
- Float rounding. `total_seconds()`, `elapsed_seconds` and both percentages are exact reals here. A float division that loses precision is not modelled. Division by zero is modelled, as `Err(ZeroDivision)`.
- The datetime range in period arithmetic. `SolarDay` instants are unbounded integers. The `OverflowError` Python raises when `sunrise + timedelta(days=1)` (app.py:68) or `date + timedelta(days=1)` (app.py:25) passes 9999-12-31 is not modelled.
- Time zones other than UTC. `now` and all boundaries are UTC date-times, as the service builds them. Comparing date-times with different tzinfo objects is not modelled.
