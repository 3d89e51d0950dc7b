/**
  The season tracker: four fixed boundaries in the year of `now`
  (Mar 20, Jun 21, Sep 22, Dec 21, each at 00:00 UTC); the latest one that
  `now` has reached selects the season, and progress is counted in whole days.
 */
module Seasons {
  import opened Results
  import opened Calendar

  datatype Season = Spring | Summer | Autumn | Winter

  datatype SeasonInfo = SeasonInfo(currentSeason: Season, seasonStart: DateTime,
                                   daysSinceStart: int, totalSeasonDays: int,
                                   seasonProgress: real)

  datatype SeasonError =
    | NoSeasonSelected   // `now` precedes Mar 20: subtracting None raises TypeError
    | NextYearOutOfRange // Winter of the last representable year: `replace` raises ValueError

  /** The boundary that starts season `s` in year `y`. */
  function Boundary(s: Season, y: int): (b: DateTime)
    ensures MinYear <= y <= MaxYear ==> b.Valid() && TimeOfDay(b) == 0
  {
    match s
    case Spring => MidnightOf(y, 3, 20)
    case Summer => MidnightOf(y, 6, 21)
    case Autumn => MidnightOf(y, 9, 22)
    case Winter => MidnightOf(y, 12, 21)
  }

  /** The season list, in chronological order. */
  function SeasonList(y: int): seq<(Season, DateTime)> {
    [(Spring, Boundary(Spring, y)), (Summer, Boundary(Summer, y)),
     (Autumn, Boundary(Autumn, y)), (Winter, Boundary(Winter, y))]
  }

  /** Position of season `s` in the season list. */
  function SeasonIndex(s: Season): (i: int)
    ensures 0 <= i < 4
    ensures forall y :: SeasonList(y)[i] == (s, Boundary(s, y))
  {
    match s
    case Spring => 0
    case Summer => 1
    case Autumn => 2
    case Winter => 3
  }

  /** The boundary after season `s` of year `y`: Winter wraps to next Spring. */
  function NextBoundary(s: Season, y: int): (b: DateTime)
    ensures MinYear <= y <= MaxYear && (s == Winter ==> y < MaxYear) ==> b.Valid() && TimeOfDay(b) == 0
    ensures b.year == (if s == Winter then y + 1 else y)
    ensures Before(Boundary(s, y), b)
  {
    match s
    case Spring => Boundary(Summer, y)
    case Summer => Boundary(Autumn, y)
    case Autumn => Boundary(Winter, y)
    case Winter => Boundary(Spring, y + 1)
  }

  /** Season lengths in days; Winter has one more day when February of the
      following year has 29. */
  function SeasonDays(s: Season, y: int): int {
    match s
    case Spring => 93
    case Summer => 93
    case Autumn => 90
    case Winter => if IsLeapYear(y + 1) then 90 else 89
  }

  /** Whole days from a boundary to the next one are the season's length. */
  lemma SeasonLength(s: Season, y: int)
    requires MinYear <= y <= MaxYear && (s == Winter ==> y < MaxYear)
    ensures NextBoundary(s, y).Valid() && Boundary(s, y).Valid()
    ensures DaysBetween(NextBoundary(s, y), Boundary(s, y)) == SeasonDays(s, y)
  {
    DaysSinceMidnight(NextBoundary(s, y), Boundary(s, y));
    YearLength(y);
  }

  /** The closing step of `get_season_info`: whole days since the start, the
      season's length in days, and their ratio as a percentage. */
  function Info(s: Season, start: DateTime, next: DateTime, now: DateTime): (info: SeasonInfo)
    requires start.Valid() && next.Valid() && now.Valid()
    requires DaysBetween(next, start) != 0
    ensures WithinSeason(start, next, now) ==>
      && info.daysSinceStart == DayNumber(now) - DayNumber(start)
      && info.totalSeasonDays == DayNumber(next) - DayNumber(start)
      && 0 <= info.daysSinceStart < info.totalSeasonDays
      && 0.0 <= info.seasonProgress < 100.0
  {
    var daysSinceStart := DaysBetween(now, start);
    var totalSeasonDays := DaysBetween(next, start);
    var info := SeasonInfo(s, start, daysSinceStart, totalSeasonDays,
                           DayPercent(daysSinceStart, totalSeasonDays));
    if WithinSeason(start, next, now) then
      WholeDaysWithin(start, next, now);
      info
    else
      info
  }

  /** `now` lies in the half-open span from the 00:00 instant `start` to the
      00:00 instant `next`. */
  predicate WithinSeason(start: DateTime, next: DateTime, now: DateTime)
    requires start.Valid() && next.Valid() && now.Valid()
  {
    TimeOfDay(start) == 0 && TimeOfDay(next) == 0 && Micros(start) <= Micros(now) < Micros(next)
  }

  /** Within a span between two midnights, whole days elapsed count calendar
      days, fall short of the span's days, and give a percentage in
      `[0, 100)`. */
  lemma WholeDaysWithin(start: DateTime, next: DateTime, now: DateTime)
    requires start.Valid() && next.Valid() && now.Valid()
    requires WithinSeason(start, next, now)
    ensures DaysBetween(now, start) == DayNumber(now) - DayNumber(start)
    ensures DaysBetween(next, start) == DayNumber(next) - DayNumber(start)
    ensures 0 <= DaysBetween(now, start) < DaysBetween(next, start)
    ensures 0.0 <= DayPercent(DaysBetween(now, start), DaysBetween(next, start)) < 100.0
  {
    DaysSinceMidnight(now, start);
    DaysSinceMidnight(next, start);
    var d, t := DaysBetween(now, start), DaysBetween(next, start);
    assert d * DayMicros <= Micros(now) - Micros(start);
    assert Micros(next) - Micros(start) == t * DayMicros;
    FractionBelowOne(d, t);
  }

  /** `(days_since_start / total_season_days) * 100` on whole day counts. */
  function DayPercent(days: int, total: int): (p: real)
    requires total != 0
    ensures p * total as real == 100.0 * days as real
    ensures days == 0 ==> p == 0.0
  {
    var q := days as real / total as real;
    assert q * total as real == days as real;
    q * 100.0
  }

  /** The result for season `s` of the year of `now`, once it is selected. */
  function InfoFor(s: Season, now: DateTime): (r: Result<SeasonInfo, SeasonError>)
    requires now.Valid()
    ensures r.Err? <==> s == Winter && now.year == MaxYear
    ensures r.Err? ==> r.error == NextYearOutOfRange
    ensures r.Ok? ==> r.value.currentSeason == s && r.value.totalSeasonDays == SeasonDays(s, now.year)
  {
    if s == Winter && now.year == MaxYear then Err(NextYearOutOfRange)
    else
      SeasonLength(s, now.year);
      Ok(Info(s, Boundary(s, now.year), NextBoundary(s, now.year), now))
  }

  /** Reference definition of the selection: the latest of the year's
      boundaries that `now` has reached, examined from Winter backwards. */
  function Selected(now: DateTime): (sel: Option<Season>)
    ensures sel.None? <==> Before(now, Boundary(Spring, now.year))
    ensures sel.Some? ==> !Before(now, Boundary(sel.value, now.year))
  {
    var y := now.year;
    if !Before(now, Boundary(Winter, y)) then Some(Winter)
    else if !Before(now, Boundary(Autumn, y)) then Some(Autumn)
    else if !Before(now, Boundary(Summer, y)) then Some(Summer)
    else if !Before(now, Boundary(Spring, y)) then Some(Spring)
    else None
  }

  /** Reference definition of the whole tracker. */
  function Track(now: DateTime): (r: Result<SeasonInfo, SeasonError>)
    requires now.Valid()
    ensures r == Err(NoSeasonSelected) <==> Selected(now).None?
    ensures r == Err(NextYearOutOfRange) <==> Selected(now) == Some(Winter) && now.year == MaxYear
    ensures r.Ok? ==> Selected(now) == Some(r.value.currentSeason)
  {
    match Selected(now)
    case None => Err(NoSeasonSelected)
    case Some(s) => InfoFor(s, now)
  }

  /** Has `now` reached the boundary at position `j` of its year's list? */
  predicate Reached(now: DateTime, j: int)
    requires 0 <= j < 4
  {
    !Before(now, SeasonList(now.year)[j].1)
  }

  /** Position of the last boundary among the first `n` that `now` has
      reached, or -1 when it has reached none of them. */
  function LatestReached(now: DateTime, n: int): (k: int)
    requires 0 <= n <= 4
    ensures -1 <= k < n
    ensures k >= 0 ==> Reached(now, k)
    ensures forall j :: k < j < n ==> !Reached(now, j)
  {
    if n == 0 then -1
    else if Reached(now, n - 1) then n - 1
    else LatestReached(now, n - 1)
  }

  /** What Track yields for the latest boundary `now` has reached, named
      by its season (None when `now` has reached no boundary). */
  lemma TrackOfLatest(now: DateTime, latest: Option<Season>)
    requires now.Valid()
    requires latest.None? <==> LatestReached(now, 4) == -1
    requires latest.Some? ==> SeasonIndex(latest.value) == LatestReached(now, 4)
    ensures Selected(now) == latest
  {
    var k := LatestReached(now, 4);
    assert !Reached(now, 3) || k == 3;
    assert !Reached(now, 2) || k >= 2;
    assert !Reached(now, 1) || k >= 1;
    assert !Reached(now, 0) || k >= 0;
  }

  /** `get_season_info`: scan the season list, keeping the last boundary
      that `now` has reached, then count days from it. */
  method GetSeasonInfo(now: DateTime) returns (r: Result<SeasonInfo, SeasonError>)
    requires now.Valid()
    ensures r == Track(now)
  {
    var year := now.year;
    var seasons := SeasonList(year);

    var currentSeason: Option<Season> := None;
    var seasonStart: Option<DateTime> := None;
    var nextSeason: Option<DateTime> := None;

    for i := 0 to |seasons|
      invariant currentSeason.None? <==> LatestReached(now, i) == -1
      invariant currentSeason.None? ==> seasonStart.None? && nextSeason.None?
      invariant currentSeason.Some? ==>
        && SeasonIndex(currentSeason.value) == LatestReached(now, i)
        && seasonStart == Some(Boundary(currentSeason.value, year))
        && nextSeason == Some(NextBoundary(currentSeason.value, year))
        && (currentSeason.value == Winter ==> year < MaxYear)
    {
      var (season, date) := seasons[i];
      if !Before(now, date) {
        if i == |seasons| - 1 {
          var wrapped := ReplaceYear(seasons[0].1, year + 1);
          if wrapped.Err? {
            TrackOfLatest(now, Some(Winter));
            return Err(NextYearOutOfRange);
          }
          currentSeason := Some(season);
          seasonStart := Some(date);
          nextSeason := Some(wrapped.value);
        } else {
          currentSeason := Some(season);
          seasonStart := Some(date);
          nextSeason := Some(seasons[i + 1].1);
        }
      }
    }

    TrackOfLatest(now, currentSeason);
    if seasonStart.None? || nextSeason.None? || currentSeason.None? {
      return Err(NoSeasonSelected);
    }
    SeasonLength(currentSeason.value, year);
    r := Ok(Info(currentSeason.value, seasonStart.value, nextSeason.value, now));
  }

  /** Spring, Summer, Autumn and Winter of one year start in that order, and
      the next year's Spring comes after Winter. */
  lemma BoundariesAscend(y: int)
    requires MinYear <= y < MaxYear
    ensures Micros(Boundary(Spring, y)) < Micros(Boundary(Summer, y))
            < Micros(Boundary(Autumn, y)) < Micros(Boundary(Winter, y))
            < Micros(Boundary(Spring, y + 1))
  {
    EarlierDay(Boundary(Spring, y), Boundary(Summer, y));
    EarlierDay(Boundary(Summer, y), Boundary(Autumn, y));
    EarlierDay(Boundary(Autumn, y), Boundary(Winter, y));
    EarlierDay(Boundary(Winter, y), Boundary(Spring, y + 1));
  }

  /** Position in the year's chronological order, as a timeline fact. */
  lemma EarlierSeasonEarlier(s1: Season, s2: Season, y: int)
    requires MinYear <= y <= MaxYear && SeasonIndex(s1) < SeasonIndex(s2)
    ensures Micros(Boundary(s1, y)) < Micros(Boundary(s2, y))
  {
    EarlierDay(Boundary(s1, y), Boundary(s2, y));
  }

  /** The tracker fails in exactly two ways: before Mar 20 no season is
      selected, and in Winter of the last representable year the next
      Spring cannot be built. */
  lemma TrackFailsExactly(now: DateTime)
    requires now.Valid()
    ensures var y := now.year;
      Track(now) == Err(NoSeasonSelected) <==> Micros(now) < Micros(Boundary(Spring, y))
    ensures var y := now.year;
      (Track(now) == Err(NextYearOutOfRange))
        <==> (y == MaxYear && Micros(Boundary(Winter, y)) <= Micros(now))
  {
    var y := now.year;
    forall s: Season
      ensures Before(now, Boundary(s, y)) <==> Micros(now) < Micros(Boundary(s, y))
    {
      BeforeIsEarlier(now, Boundary(s, y));
    }
    EarlierSeasonEarlier(Spring, Summer, y);
    EarlierSeasonEarlier(Spring, Autumn, y);
    EarlierSeasonEarlier(Spring, Winter, y);
  }

  /** In field order: the selected boundary is reached, every later one is not. */
  lemma SelectedInFieldOrder(now: DateTime)
    requires Selected(now).Some?
    ensures var y, sel := now.year, Selected(now).value;
      && !Before(now, Boundary(sel, y))
      && Before(now, NextBoundary(sel, y))
      && forall s :: !Before(now, Boundary(s, y)) ==> SeasonIndex(s) <= SeasonIndex(sel)
  {
  }

  /** The selected season's boundary is the latest boundary of the year
      that `now` has reached, and `now` lies before the following boundary. */
  lemma SelectedIsLatest(now: DateTime)
    requires now.Valid() && Selected(now).Some?
    ensures var y, sel := now.year, Selected(now).value;
      && Micros(Boundary(sel, y)) <= Micros(now)
      && (sel != Winter || y < MaxYear ==> Micros(now) < Micros(NextBoundary(sel, y)))
      && forall s :: Micros(Boundary(s, y)) <= Micros(now) ==> Micros(Boundary(s, y)) <= Micros(Boundary(sel, y))
  {
    var y, sel := now.year, Selected(now).value;
    SelectedInFieldOrder(now);
    BeforeIsEarlier(now, Boundary(sel, y));
    forall s: Season | Micros(Boundary(s, y)) <= Micros(now)
      ensures Micros(Boundary(s, y)) <= Micros(Boundary(sel, y))
    {
      BeforeIsEarlier(now, Boundary(s, y));
      if s != sel {
        EarlierSeasonEarlier(s, sel, y);
      }
    }
    if sel != Winter || y < MaxYear {
      BeforeIsEarlier(now, NextBoundary(sel, y));
    }
  }

  /** What the tracker reports once a season is selected. */
  lemma InfoForFacts(s: Season, now: DateTime)
    requires now.Valid() && (s == Winter ==> now.year < MaxYear)
    ensures var y, r := now.year, InfoFor(s, now);
      && r.Ok?
      && r.value.currentSeason == s
      && r.value.seasonStart == Boundary(s, y)
      && r.value.totalSeasonDays == SeasonDays(s, y)
      && r.value.daysSinceStart == DaysBetween(now, Boundary(s, y))
      && r.value.seasonProgress == DayPercent(r.value.daysSinceStart, r.value.totalSeasonDays)
  {
    SeasonLength(s, now.year);
  }

  /** A successful result starts at the latest boundary of the year that
      `now` has reached, and `now` lies before the following boundary. */
  lemma TrackSelectsLatest(now: DateTime)
    requires now.Valid() && Track(now).Ok?
    ensures var y, info := now.year, Track(now).value;
      && info.seasonStart == Boundary(info.currentSeason, y)
      && (info.currentSeason == Winter ==> y < MaxYear)
      && NextBoundary(info.currentSeason, y).Valid()
      && Micros(info.seasonStart) <= Micros(now) < Micros(NextBoundary(info.currentSeason, y))
      && forall s :: Micros(Boundary(s, y)) <= Micros(now) ==> Micros(Boundary(s, y)) <= Micros(info.seasonStart)
  {
    var sel := Selected(now).value;
    InfoForFacts(sel, now);
    SelectedIsLatest(now);
  }

  /** Whole days elapsed and season length: the length is the season's
      fixed day count, the elapsed days count calendar days since the start
      and fall short of the length, and progress lies in `[0, 100)`. */
  lemma TrackDayCounts(now: DateTime)
    requires now.Valid() && Track(now).Ok?
    ensures var info := Track(now).value;
      && info.totalSeasonDays == SeasonDays(info.currentSeason, now.year)
      && info.daysSinceStart == DayNumber(now) - DayNumber(info.seasonStart)
      && 0 <= info.daysSinceStart < info.totalSeasonDays
      && 0.0 <= info.seasonProgress < 100.0
  {
    var y, sel := now.year, Selected(now).value;
    InfoForFacts(sel, now);
    SelectedIsLatest(now);
    var info := Track(now).value;
    var start, next := Boundary(sel, y), NextBoundary(sel, y);
    SeasonLength(sel, y);
    DaysSinceMidnight(now, start);
    DaysSinceMidnight(next, start);
    assert info.daysSinceStart * DayMicros <= Micros(now) - Micros(start);
    assert Micros(next) - Micros(start) == info.totalSeasonDays * DayMicros;
    FractionBelowOne(info.daysSinceStart, info.totalSeasonDays);
  }

  /** Fewer days than the season has give a percentage in `[0, 100)`. */
  lemma FractionBelowOne(a: int, b: int)
    requires 0 <= a < b
    ensures 0.0 <= DayPercent(a, b) < 100.0
  {
    var p := DayPercent(a, b);
    assert (100.0 - p) * b as real == 100.0 * (b - a) as real;
  }

  /** On a boundary instant itself the tracker selects that boundary's
      season with no days elapsed. */
  lemma TrackAtBoundary(s: Season, y: int)
    requires MinYear <= y <= MaxYear && (s == Winter ==> y < MaxYear)
    ensures Track(Boundary(s, y)).Ok?
    ensures Track(Boundary(s, y)).value.currentSeason == s
    ensures Track(Boundary(s, y)).value.daysSinceStart == 0
    ensures Track(Boundary(s, y)).value.seasonProgress == 0.0
  {
    var now := Boundary(s, y);
    SelectedAtBoundary(s, y);
    InfoForFacts(s, now);
    assert Track(now) == InfoFor(s, now);
    var info := InfoFor(s, now).value;
    assert info.daysSinceStart == 0 by {
      DaysSinceMidnight(now, now);
    }
    assert info.seasonProgress == DayPercent(0, info.totalSeasonDays);
  }

  /** A boundary instant selects its own season. */
  lemma SelectedAtBoundary(s: Season, y: int)
    ensures Selected(Boundary(s, y)) == Some(s)
  {
    var now := Boundary(s, y);
    match s {
      case Spring => assert Selected(now) == Some(Spring);
      case Summer => assert Selected(now) == Some(Summer);
      case Autumn => assert Selected(now) == Some(Autumn);
      case Winter => assert Selected(now) == Some(Winter);
    }
  }
}
