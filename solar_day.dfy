/**
  The daily cycle: solar midnight derived from sunset and the next sunrise,
  the four-way period classifier, and progress through the current period.
  Instants are microseconds on the UTC timeline; sunrise, noon, sunset and
  the next day's sunrise come from the ephemeris and are parameters here.
 */
module SolarDay {
  import opened Results
  import Calendar

  /** A point on the UTC timeline, in microseconds. */
  type Instant = int

  const Day: int := Calendar.DayMicros
  const SecondMicros: int := Calendar.SecondMicros

  datatype SolarEvents = SolarEvents(sunrise: Instant, noon: Instant, sunset: Instant, midnight: Instant)

  /** The four reference instants in the order the day's phases expect. */
  predicate Ordered(e: SolarEvents) {
    e.sunrise < e.noon < e.sunset < e.midnight
  }

  /** `timedelta / 2` on a duration of `d` microseconds: the nearest whole
      microsecond to d/2, ties going to the even neighbour. */
  function HalveDuration(d: int): (h: int)
    ensures d == 2 * h || (h % 2 == 0 && (d == 2 * h + 1 || d == 2 * h - 1))
  {
    var q, r := d / 2, d % 2;
    if r == 1 && q % 2 == 1 then q + 1 else q
  }

  /** Solar midnight: `sunset + (nextSunrise - sunset) / 2`. */
  function SolarMidnight(sunset: Instant, nextSunrise: Instant): (m: Instant)
    ensures sunset <= nextSunrise ==> sunset <= m <= nextSunrise
    ensures nextSunrise <= sunset ==> nextSunrise <= m <= sunset
    ensures -1 <= (nextSunrise - m) - (m - sunset) <= 1
    ensures (nextSunrise - sunset) % 2 == 0 ==> m - sunset == nextSunrise - m
  {
    sunset + HalveDuration(nextSunrise - sunset)
  }

  /** The day's four reference instants from the ephemeris' answers for today
      and tomorrow. */
  function GetSolarEvents(sunrise: Instant, noon: Instant, sunset: Instant, nextSunrise: Instant): (e: SolarEvents)
    ensures e.sunrise == sunrise && e.noon == noon && e.sunset == sunset
    ensures sunset <= nextSunrise ==> sunset <= e.midnight <= nextSunrise
    ensures -1 <= (nextSunrise - e.midnight) - (e.midnight - sunset) <= 1
  {
    SolarEvents(sunrise, noon, sunset, SolarMidnight(sunset, nextSunrise))
  }

  /** A gap of at least two microseconds after sunset yields ordered events
      with midnight strictly before the next sunrise. */
  lemma SolarEventsOrdered(sunrise: Instant, noon: Instant, sunset: Instant, nextSunrise: Instant)
    requires sunrise < noon < sunset && sunset + 2 <= nextSunrise
    ensures Ordered(GetSolarEvents(sunrise, noon, sunset, nextSunrise))
    ensures GetSolarEvents(sunrise, noon, sunset, nextSunrise).midnight < nextSunrise
  {
    var m := SolarMidnight(sunset, nextSunrise);
    assert -1 <= (nextSunrise - m) - (m - sunset) <= 1;
  }

  /** With a one-microsecond gap the halving rounds to zero: midnight
      coincides with sunset and the events are not ordered. */
  lemma OneMicrosecondGap(sunrise: Instant, noon: Instant, sunset: Instant)
    ensures GetSolarEvents(sunrise, noon, sunset, sunset + 1).midnight == sunset
    ensures !Ordered(GetSolarEvents(sunrise, noon, sunset, sunset + 1))
  {
  }

  datatype Period = Night | Morning | Afternoon | Evening

  /** The period `now` falls in: each boundary instant belongs to the period
      it starts, and night covers both the hours before sunrise and those
      from midnight on. */
  function CurrentPeriod(e: SolarEvents, now: Instant): (p: Period)
    ensures Ordered(e) ==>
      && (p == Morning <==> e.sunrise <= now < e.noon)
      && (p == Afternoon <==> e.noon <= now < e.sunset)
      && (p == Evening <==> e.sunset <= now < e.midnight)
      && (p == Night <==> now < e.sunrise || e.midnight <= now)
  {
    if now < e.sunrise then Night
    else if now < e.noon then Morning
    else if now < e.sunset then Afternoon
    else if now < e.midnight then Evening
    else Night
  }

  /** Ties go to the later period: each reference instant starts a period. */
  lemma BoundariesStartPeriods(e: SolarEvents)
    requires Ordered(e)
    ensures CurrentPeriod(e, e.sunrise) == Morning
    ensures CurrentPeriod(e, e.noon) == Afternoon
    ensures CurrentPeriod(e, e.sunset) == Evening
    ensures CurrentPeriod(e, e.midnight) == Night
  {
  }

  /** The start table of the progress calculation. */
  function PeriodStart(e: SolarEvents, p: Period): (start: Instant)
    ensures Ordered(e) ==> CurrentPeriod(e, start) == p
  {
    match p
    case Morning => e.sunrise
    case Afternoon => e.noon
    case Evening => e.sunset
    case Night => e.midnight
  }

  /** The end table: night always ends one day after today's sunrise. */
  function PeriodEnd(e: SolarEvents, p: Period): (end: Instant)
    ensures Ordered(e) && p != Night ==> PeriodStart(e, p) < end && CurrentPeriod(e, end) != p
    ensures p == Night && NightWindowPositive(e) ==> PeriodStart(e, p) < end
  {
    match p
    case Morning => e.noon
    case Afternoon => e.sunset
    case Evening => e.midnight
    case Night => e.sunrise + Day
  }

  /** Each period ends where the next one in the cycle starts. */
  lemma PeriodsAreContiguous(e: SolarEvents)
    ensures PeriodEnd(e, Morning) == PeriodStart(e, Afternoon)
    ensures PeriodEnd(e, Afternoon) == PeriodStart(e, Evening)
    ensures PeriodEnd(e, Evening) == PeriodStart(e, Night)
    ensures PeriodEnd(e, Night) == PeriodStart(e, Morning) + Day
  {
  }

  datatype PeriodProgress = PeriodProgress(period: Period, totalSeconds: real,
                                           elapsedSeconds: real, progress: real)

  /** Dividing the float `elapsed_seconds` by a zero `total_seconds`. */
  datatype ProgressError = ZeroDivision

  /** `timedelta.total_seconds()`, exactly. */
  function ToSeconds(micros: int): (s: real)
    ensures s * SecondMicros as real == micros as real
    ensures s == 0.0 <==> micros == 0
  {
    micros as real / SecondMicros as real
  }

  /** Progress through the current period, as a percentage of its length. */
  function CalculatePeriodProgress(e: SolarEvents, now: Instant): (r: Result<PeriodProgress, ProgressError>)
    ensures r.Ok? <==> PeriodEnd(e, CurrentPeriod(e, now)) != PeriodStart(e, CurrentPeriod(e, now))
    ensures r.Ok? ==> r.value.period == CurrentPeriod(e, now)
    ensures r.Ok? ==> Measures(r.value, PeriodStart(e, CurrentPeriod(e, now)), PeriodEnd(e, CurrentPeriod(e, now)), now)
  {
    var period := CurrentPeriod(e, now);
    Measure(period, PeriodStart(e, period), PeriodEnd(e, period), now)
  }

  /** `p` gives the length of `[start, end]` and the time elapsed since
      `start` in seconds, and the elapsed time as a percentage of the length. */
  predicate Measures(p: PeriodProgress, start: Instant, end: Instant, now: Instant) {
    && p.totalSeconds * SecondMicros as real == (end - start) as real
    && p.elapsedSeconds * SecondMicros as real == (now - start) as real
    && p.progress * (end - start) as real == 100.0 * (now - start) as real
  }

  /** The measuring step of `calculate_period_progress` for a period running
      from `start` to `end`: its length and the elapsed time in seconds, and
      their ratio as a percentage. */
  function Measure(period: Period, start: Instant, end: Instant, now: Instant): (r: Result<PeriodProgress, ProgressError>)
    ensures r.Ok? <==> end != start
    ensures r.Ok? ==> r.value.period == period && Measures(r.value, start, end, now)
  {
    if end - start == 0 then Err(ZeroDivision)
    else Ok(PeriodProgress(period, ToSeconds(end - start), ToSeconds(now - start),
                           Percent(now - start, end - start)))
  }

  /** `(elapsed_seconds / total_seconds) * 100` for durations in microseconds. */
  function Percent(elapsed: int, total: int): (p: real)
    requires total != 0
    ensures p * total as real == 100.0 * elapsed as real
  {
    var p := (ToSeconds(elapsed) / ToSeconds(total)) * 100.0;
    ScaledRatio(elapsed, total, p);
    p
  }

  /** The seconds scaling cancels out of the percentage. */
  lemma ScaledRatio(elapsed: int, total: int, progress: real)
    requires total != 0
    requires progress == (ToSeconds(elapsed) / ToSeconds(total)) * 100.0
    ensures progress * total as real == 100.0 * elapsed as real
  {
    var c := SecondMicros as real;
    var xs, ts := ToSeconds(elapsed), ToSeconds(total);
    assert ts != 0.0;
    assert (xs / ts) * ts == xs;
    calc {
      progress * total as real;
      (xs / ts) * 100.0 * (ts * c);
      ((xs / ts) * ts) * 100.0 * c;
      xs * c * 100.0;
      100.0 * elapsed as real;
    }
  }

  /** Sign facts about a percentage of a positive length. */
  lemma PercentRange(elapsed: int, total: int)
    requires 0 < total
    ensures Percent(elapsed, total) < 0.0 <==> elapsed < 0
    ensures Percent(elapsed, total) == 0.0 <==> elapsed == 0
    ensures Percent(elapsed, total) < 100.0 <==> elapsed < total
    ensures Percent(elapsed, total) == 100.0 <==> elapsed == total
  {
    var p, t := Percent(elapsed, total), total as real;
    assert p * t == 100.0 * elapsed as real;
    assert (p - 100.0) * t == 100.0 * (elapsed - total) as real;
    SignOfScaled(p, t);
    SignOfScaled(p - 100.0, t);
  }

  lemma SignOfScaled(a: real, t: real)
    requires 0.0 < t
    ensures a * t < 0.0 <==> a < 0.0
    ensures a * t == 0.0 <==> a == 0.0
  {
    if a < 0.0 { assert a * t < 0.0; }
    if a > 0.0 { assert a * t > 0.0; }
  }

  /** For a fixed positive length the percentage grows with the elapsed time. */
  lemma PercentIncreasing(a: int, b: int, total: int)
    requires 0 < total && a < b
    ensures Percent(a, total) < Percent(b, total)
  {
    var pa, pb, t := Percent(a, total), Percent(b, total), total as real;
    assert (pb - pa) * t == 100.0 * (b - a) as real;
    SignOfScaled(pb - pa, t);
  }

  /** Night's window `[midnight, sunrise + 1 day]` is not empty. */
  predicate NightWindowPositive(e: SolarEvents) {
    e.midnight < e.sunrise + Day
  }

  /** When the next sunrise comes at most one day after today's, the
      ephemeris' answers give a non-empty night window. */
  lemma NightWindowFromEphemeris(sunrise: Instant, noon: Instant, sunset: Instant, nextSunrise: Instant)
    requires sunrise < noon < sunset && sunset + 2 <= nextSunrise <= sunrise + Day
    ensures Ordered(GetSolarEvents(sunrise, noon, sunset, nextSunrise))
    ensures NightWindowPositive(GetSolarEvents(sunrise, noon, sunset, nextSunrise))
  {
    SolarEventsOrdered(sunrise, noon, sunset, nextSunrise);
  }

  /** In the morning, afternoon and evening of ordered events the period has
      a positive length, `now` lies in `[start, end)`, progress lies in
      `[0, 100)` and is zero exactly at the period's start. */
  lemma DaytimeProgressBounds(e: SolarEvents, now: Instant)
    requires Ordered(e) && CurrentPeriod(e, now) != Night
    ensures var r := CalculatePeriodProgress(e, now);
      && r.Ok?
      && 0.0 < r.value.totalSeconds
      && 0.0 <= r.value.elapsedSeconds < r.value.totalSeconds
      && 0.0 <= r.value.progress < 100.0
      && (r.value.progress == 0.0 <==> now == PeriodStart(e, r.value.period))
  {
    var p := CurrentPeriod(e, now);
    var start, end := PeriodStart(e, p), PeriodEnd(e, p);
    assert start <= now < end;
    PercentRange(now - start, end - start);
    SecondsOrder(now - start, end - start);
  }

  lemma SecondsOrder(a: int, b: int)
    ensures ToSeconds(a) < ToSeconds(b) <==> a < b
    ensures ToSeconds(a) < 0.0 <==> a < 0
  {
    SignOfScaled(ToSeconds(b) - ToSeconds(a), SecondMicros as real);
    SignOfScaled(ToSeconds(a), SecondMicros as real);
  }

  /** Before sunrise the night's progress is measured from today's midnight,
      which is still ahead: elapsed time and progress are negative. */
  lemma NightBeforeSunrise(e: SolarEvents, now: Instant)
    requires Ordered(e) && NightWindowPositive(e) && now < e.sunrise
    ensures var r := CalculatePeriodProgress(e, now);
      && r.Ok? && r.value.period == Night
      && r.value.elapsedSeconds < 0.0
      && r.value.progress < 0.0
  {
    PercentRange(now - e.midnight, e.sunrise + Day - e.midnight);
    SecondsOrder(now - e.midnight, 0);
  }

  /** From midnight on, elapsed time is non-negative and progress passes 100
      exactly when `now` is later than one day after today's sunrise. */
  lemma NightAfterMidnight(e: SolarEvents, now: Instant)
    requires Ordered(e) && NightWindowPositive(e) && e.midnight <= now
    ensures var r := CalculatePeriodProgress(e, now);
      && r.Ok? && r.value.period == Night
      && 0.0 <= r.value.elapsedSeconds
      && (r.value.progress > 100.0 <==> now > e.sunrise + Day)
      && (r.value.progress == 100.0 <==> now == e.sunrise + Day)
  {
    PercentRange(now - e.midnight, e.sunrise + Day - e.midnight);
    SecondsOrder(now - e.midnight, 0);
  }

  /** Within one period, progress is strictly increasing in `now`. */
  lemma ProgressIncreasing(e: SolarEvents, a: Instant, b: Instant)
    requires Ordered(e) && (CurrentPeriod(e, a) == Night ==> NightWindowPositive(e))
    requires CurrentPeriod(e, a) == CurrentPeriod(e, b) && a < b
    ensures var ra, rb := CalculatePeriodProgress(e, a), CalculatePeriodProgress(e, b);
      ra.Ok? && rb.Ok? && ra.value.progress < rb.value.progress
  {
    var p := CurrentPeriod(e, a);
    var start, end := PeriodStart(e, p), PeriodEnd(e, p);
    assert start < end;
    PercentIncreasing(a - start, b - start, end - start);
  }

  /** Sunrise 05:00, noon 12:00, sunset 20:00 on 2024-06-21 and sunrise 05:00
      the next day: midnight is 00:30 on the 22nd, and at 16:00 the afternoon
      is half over. */
  lemma MidsummerAfternoon()
    ensures var e := GetSolarEvents(
              Calendar.Micros(Calendar.DateTime(2024, 6, 21, 5, 0, 0, 0)),
              Calendar.Micros(Calendar.DateTime(2024, 6, 21, 12, 0, 0, 0)),
              Calendar.Micros(Calendar.DateTime(2024, 6, 21, 20, 0, 0, 0)),
              Calendar.Micros(Calendar.DateTime(2024, 6, 22, 5, 0, 0, 0)));
      && e.midnight == Calendar.Micros(Calendar.DateTime(2024, 6, 22, 0, 30, 0, 0))
      && CalculatePeriodProgress(e, Calendar.Micros(Calendar.DateTime(2024, 6, 21, 16, 0, 0, 0)))
         == Ok(PeriodProgress(Afternoon, 28800.0, 14400.0, 50.0))
  {
    var t0 := Calendar.DayNumber(Calendar.DateTime(2024, 6, 21, 0, 0, 0, 0)) * Day;
    var h := 3_600_000_000;
    var e := GetSolarEvents(t0 + 5 * h, t0 + 12 * h, t0 + 20 * h, t0 + 29 * h);
    assert e.midnight == t0 + 24 * h + h / 2;
    assert CurrentPeriod(e, t0 + 16 * h) == Afternoon;
    assert Percent(4 * h, 8 * h) == 50.0 by {
      assert Percent(4 * h, 8 * h) * (8 * h) as real == 100.0 * (4 * h) as real;
    }
    assert CalculatePeriodProgress(e, t0 + 16 * h)
        == Ok(PeriodProgress(Afternoon, ToSeconds(8 * h), ToSeconds(4 * h), Percent(4 * h, 8 * h)));
  }
}
