/**
 * nextRunAfter: a search over minutes that jumps whole months, days and hours. It is proved equal
 * to the scan that tries every minute, wherever the dates it passes through exist.
 */
module CronSearch {
  import opened Wrappers
  import opened Calendar
  import opened CronField

  /** Four years of 366 days, in milliseconds. */
  const WINDOW := 4 * 366 * 24 * 60 * 60 * 1000

  /** Day of month and day of week must both match (crontab implementations often take either). */
  predicate Matches(t: int, p: ParsedCron) {
    Minute(t) in p.minute && Hour(t) in p.hour && Date(t) in p.dayOfMonth
    && Month(t) + 1 in p.month && WeekDay(t) in p.dayOfWeek
  }

  predicate OnMinute(t: int) {
    t % MS_PER_MINUTE == 0
  }

  /** The first whole minute after an instant. */
  function FirstMinute(from: int): (t: int)
    ensures OnMinute(t) && from < t <= from + MS_PER_MINUTE
  {
    (from / MS_PER_MINUTE + 1) * MS_PER_MINUTE
  }

  // ----- the reference: try every minute -----

  function Scan(p: ParsedCron, t: int, limit: int): Option<int>
    decreases limit - t
  {
    if t >= limit then None
    else if Matches(t, p) then Some(t)
    else Scan(p, t + MS_PER_MINUTE, limit)
  }

  /** The scan returns the least matching minute of [t, limit), and None only if there is none. */
  lemma {:induction false} ScanIsLeast(p: ParsedCron, t: int, limit: int)
    requires OnMinute(t)
    ensures var r := Scan(p, t, limit);
      && (r.Some? ==> OnMinute(r.value) && t <= r.value < limit && Matches(r.value, p))
      && (forall u :: OnMinute(u) && t <= u < limit && Matches(u, p) ==> r.Some? && r.value <= u)
    decreases limit - t
  {
    hide Matches;
    if t >= limit || Matches(t, p) {
    } else {
      ScanIsLeast(p, t + MS_PER_MINUTE, limit);
      forall u | OnMinute(u) && t <= u < limit && Matches(u, p)
        ensures t + MS_PER_MINUTE <= u
      {
      }
    }
  }

  lemma MinuteByMinute(a: int, b: int)
    requires OnMinute(a) && OnMinute(b) && a < b
    ensures OnMinute(a + MS_PER_MINUTE) && a + MS_PER_MINUTE <= b
  {
  }

  predicate Barren(p: ParsedCron, a: int, b: int) {
    forall u :: OnMinute(u) && a <= u < b ==> !Matches(u, p)
  }

  /** Skipping minutes that do not match does not change what the scan finds. */
  lemma {:induction false} ScanSkips(p: ParsedCron, a: int, b: int, limit: int)
    requires OnMinute(a) && OnMinute(b) && a <= b && Barren(p, a, b)
    ensures Scan(p, a, limit) == Scan(p, b, limit)
    decreases b - a
  {
    hide Matches, OnMinute;
    if a == b {
    } else {
      MinuteByMinute(a, b);
      assert !Matches(a, p);
      ScanSkips(p, a + MS_PER_MINUTE, b, limit);
    }
  }

  // ----- the jumps -----

  function StartOfNextMonth(t: int): int {
    MakeDate(MakeDay(Year(t), Month(t) + 1, 1), 0)
  }

  function StartOfNextDay(t: int): int {
    MakeDate(Day(t) + 1, 0)
  }

  function StartOfNextHour(t: int): int {
    (t / MS_PER_HOUR + 1) * MS_PER_HOUR
  }

  lemma HoursOfDay(t: int)
    ensures Day(t) * 24 + Hour(t) == t / MS_PER_HOUR
  {
  }

  lemma MinutesOfHour(t: int)
    ensures (t / MS_PER_HOUR) * 60 + Minute(t) == t / MS_PER_MINUTE
  {
  }

  lemma SecondsOfMinute(t: int)
    ensures (t / MS_PER_MINUTE) * 60 + Second(t) == t / 1000
    ensures (t / 1000) * 1000 + Milli(t) == t
  {
  }

  lemma WholeMinute(t: int)
    ensures OnMinute(t) <==> t == (t / MS_PER_MINUTE) * MS_PER_MINUTE
    ensures OnMinute(t) ==> Second(t) == 0 && Milli(t) == 0
  {
  }

  lemma MinuteMultiple(n: int)
    ensures OnMinute(n * MS_PER_MINUTE)
  {
  }

  lemma TimeSplits(t: int)
    ensures t == MakeDate(Day(t), MakeTime(Hour(t), Minute(t), Second(t), Milli(t)))
    ensures Day(t) * 24 + Hour(t) == t / MS_PER_HOUR
    ensures (t / MS_PER_HOUR) * 60 + Minute(t) == t / MS_PER_MINUTE
    ensures OnMinute(t) ==> Second(t) == 0 && Milli(t) == 0
  {
    hide Day, Hour, Minute, Second, Milli, OnMinute;
    HoursOfDay(t);
    MinutesOfHour(t);
    SecondsOfMinute(t);
    WholeMinute(t);
  }

  lemma SameHour(t: int, u: int)
    requires t <= u < StartOfNextHour(t)
    ensures Hour(u) == Hour(t) && u / MS_PER_HOUR == t / MS_PER_HOUR
  {
  }

  lemma SameDay(t: int, u: int)
    requires t <= u < StartOfNextDay(t)
    ensures Day(u) == Day(t)
  {
  }

  /** Every minute of a month has that year and month. */
  lemma SameMonth(t: int, u: int)
    requires t <= u < StartOfNextMonth(t)
    ensures Year(u) == Year(t) && Month(u) == Month(t)
  {
    hide MonthFromDay, DateFromDay, YearFromDay, DaysBeforeMonth, DayFromYear;
    var y, m := Year(t), Month(t);
    DayWithinMonth(t);
    MonthEnd(y, m);
    assert m / 12 == 0 && m % 12 == m;
    var date := Day(u) - MakeDay(y, m, 1) + 1;
    assert MakeDay(y, m, date) == Day(u);
    DateSplits(y, m, date);
  }

  /** The first of the next month comes right after the last day of this one, across year ends too. */
  lemma MonthEnd(y: int, m: int)
    requires 0 <= m < 12
    ensures MakeDay(y, m + 1, 1) == MakeDay(y, m, 1) + DaysInMonth(m, IsLeap(y))
    ensures MakeDay(y, m, 1) == DayFromYear(y) + DaysBeforeMonth(m, IsLeap(y))
  {
    hide DayFromYear, IsLeap, DaysBeforeMonth;
    MonthNumbers(m);
    if m == 11 {
      YearLength(y);
      WholeYear(y);
      JanuaryIsFirst(IsLeap(y + 1));
    }
  }

  lemma MonthNumbers(m: int)
    requires 0 <= m < 12
    ensures m / 12 == 0 && m % 12 == m
    ensures (m + 1) / 12 == (if m == 11 then 1 else 0) && (m + 1) % 12 == (if m == 11 then 0 else m + 1)
  {
  }

  lemma JanuaryIsFirst(leap: bool)
    ensures DaysBeforeMonth(0, leap) == 0
  {
  }

  lemma DayWithinMonth(t: int)
    ensures MakeDay(Year(t), Month(t), 1) <= Day(t) < MakeDay(Year(t), Month(t) + 1, 1)
  {
    hide MonthFromDay, DateFromDay, YearFromDay, DaysBeforeMonth, DayFromYear;
    DaySplits(Day(t));
    MonthEnd(Year(t), Month(t));
    assert Month(t) / 12 == 0 && Month(t) % 12 == Month(t);
  }

  lemma Midnight(t: int, d: int)
    requires Day(t) < d
    ensures t < MakeDate(d, 0) && OnMinute(MakeDate(d, 0))
  {
    assert MakeDate(d, 0) == (d * 1440) * MS_PER_MINUTE;
  }

  lemma MonthJumpSkips(p: ParsedCron, t: int)
    requires OnMinute(t) && Month(t) + 1 !in p.month
    ensures t < StartOfNextMonth(t) && OnMinute(StartOfNextMonth(t))
    ensures Barren(p, t, StartOfNextMonth(t))
  {
    hide MakeDay, MakeDate, MonthFromDay, DateFromDay, YearFromDay, OnMinute, Minute, Hour, WeekDay, Day, Year;
    DayWithinMonth(t);
    Midnight(t, MakeDay(Year(t), Month(t) + 1, 1));
    forall u | OnMinute(u) && t <= u < StartOfNextMonth(t)
      ensures !Matches(u, p)
    {
      SameMonth(t, u);
    }
  }

  lemma DayJumpSkips(p: ParsedCron, t: int)
    requires OnMinute(t) && (Date(t) !in p.dayOfMonth || WeekDay(t) !in p.dayOfWeek)
    ensures t < StartOfNextDay(t) && OnMinute(StartOfNextDay(t))
    ensures Barren(p, t, StartOfNextDay(t))
  {
    hide DateFromDay, MonthFromDay, MakeDate, OnMinute, Minute, Hour, Day;
    Midnight(t, Day(t) + 1);
    forall u | OnMinute(u) && t <= u < StartOfNextDay(t)
      ensures !Matches(u, p)
    {
      SameDay(t, u);
    }
  }

  lemma HourJumpSkips(p: ParsedCron, t: int)
    requires OnMinute(t) && Hour(t) !in p.hour
    ensures t < StartOfNextHour(t) && OnMinute(StartOfNextHour(t))
    ensures Barren(p, t, StartOfNextHour(t))
  {
    hide Date, Month, WeekDay, OnMinute, Minute, Hour;
    MinuteMultiple((t / MS_PER_HOUR + 1) * 60);
    forall u | OnMinute(u) && t <= u < StartOfNextHour(t)
      ensures !Matches(u, p)
    {
      SameHour(t, u);
    }
  }

  // ----- where the search can work at all -----

  /** 1 May -271821: the first day of a month whose first day is a valid Date. */
  const FIRST_FULL_MONTH := -99_999_989 * MS_PER_DAY

  /**
   * The instants from which the search is the scan. Too close to the last Date the window's end
   * is an Invalid Date; and in the first, partial month going back to its first day gives one.
   */
  predicate Reaches(p: ParsedCron, from: TimeValue) {
    from.Ms? && from.ms + WINDOW <= MAX_TIME && (FirstMinute(from.ms) >= FIRST_FULL_MONTH || 4 in p.month)
  }

  /** What nextRunAfter returns for a parsed schedule. */
  function NextRun(p: ParsedCron, from: TimeValue): Option<int> {
    if Reaches(p, from) then Scan(p, FirstMinute(from.ms), from.ms + WINDOW) else None
  }

  lemma FirstMonth(t: int)
    requires -MAX_TIME <= t
    ensures t < FIRST_FULL_MONTH ==> Month(t) == 3 && MakeDay(Year(t), Month(t), 1) * MS_PER_DAY < -MAX_TIME
    ensures t >= FIRST_FULL_MONTH ==> MakeDay(Year(t), Month(t), 1) * MS_PER_DAY >= FIRST_FULL_MONTH
  {
    FirstDays();
    hide MakeDay, MonthFromDay, DateFromDay, YearFromDay;
    FirstMonthAround(t);
  }

  /** The Date range of ECMA-262 begins on 20 April -271821. */
  lemma FirstDays()
    ensures MakeDay(-271821, 3, 1) == -100_000_019 && MakeDay(-271821, 4, 1) == -99_999_989
    ensures YearFromDay(-100_000_000) == -271821 && MonthFromDay(-100_000_000) == 3
    ensures YearFromDay(-99_999_989) == -271821 && MonthFromDay(-99_999_989) == 4
  {
    hide MonthFromDay, DateFromDay, YearFromDay;
    assert MakeDay(-271821, 3, 20) == -100_000_000;
    DateSplits(-271821, 3, 20);
    DateSplits(-271821, 4, 1);
  }

  lemma FirstMonthAround(t: int)
    requires -MAX_TIME <= t
    requires Year(-MAX_TIME) == -271821 && Month(-MAX_TIME) == 3
    requires MakeDay(-271821, 3, 1) == -100_000_019 && MakeDay(-271821, 4, 1) == -99_999_989
    requires Year(FIRST_FULL_MONTH) == -271821 && Month(FIRST_FULL_MONTH) == 4
    ensures t < FIRST_FULL_MONTH ==> Month(t) == 3 && MakeDay(Year(t), Month(t), 1) * MS_PER_DAY < -MAX_TIME
    ensures t >= FIRST_FULL_MONTH ==> MakeDay(Year(t), Month(t), 1) * MS_PER_DAY >= FIRST_FULL_MONTH
  {
    hide MakeDay, MonthFromDay, DateFromDay, YearFromDay;
    if t < FIRST_FULL_MONTH {
      SameMonth(-MAX_TIME, t);
    } else {
      DayWithinMonth(t);
      var first := MakeDate(MakeDay(Year(t), Month(t), 1), 0);
      if first < FIRST_FULL_MONTH {
        SameMonthBackwards(t, FIRST_FULL_MONTH);
      }
    }
  }

  lemma SameMonthBackwards(t: int, u: int)
    requires MakeDate(MakeDay(Year(t), Month(t), 1), 0) <= u <= t
    ensures Year(u) == Year(t) && Month(u) == Month(t)
  {
    hide MonthFromDay, DateFromDay, YearFromDay, DaysBeforeMonth, DayFromYear;
    var y, m := Year(t), Month(t);
    DayWithinMonth(t);
    MonthEnd(y, m);
    assert m / 12 == 0 && m % 12 == m;
    var date := Day(u) - MakeDay(y, m, 1) + 1;
    assert MakeDay(y, m, date) == Day(u);
    DateSplits(y, m, date);
  }

  /**
   * The promise of nextRunAfter, for every schedule and every instant the search reaches from:
   * the least matching whole minute strictly inside the window, and null only if there is none.
   */
  lemma NextRunIsLeast(p: ParsedCron, from: TimeValue)
    ensures var r := NextRun(p, from);
      && (!Reaches(p, from) ==> r == None)
      && (r.Some? ==> OnMinute(r.value) && from.ms < r.value < from.ms + WINDOW && Matches(r.value, p))
      && (forall u :: Reaches(p, from) && OnMinute(u) && from.ms < u < from.ms + WINDOW && Matches(u, p) ==>
          r.Some? && r.value <= u)
  {
    hide Matches, Scan;
    if Reaches(p, from) {
      ScanIsLeast(p, FirstMinute(from.ms), from.ms + WINDOW);
      forall u | OnMinute(u) && from.ms < u
        ensures FirstMinute(from.ms) <= u
      {
      }
    }
  }

  /**
   * The end of the Date range loses minutes: asked in the last four years of it, every schedule
   * gives null, though it matches the very last minute.
   */
  lemma LastYearsLost(p: ParsedCron, from: TimeValue)
    requires from.Ms? && MAX_TIME - WINDOW < from.ms < MAX_TIME && Matches(MAX_TIME, p)
    ensures NextRun(p, from) == None && OnMinute(MAX_TIME) && from.ms < MAX_TIME < from.ms + WINDOW
  {
  }

  /** So does its beginning: "0 0 1 5 *" asked at the first Date gives null, with 1 May eleven days ahead. */
  lemma FirstMayLost(p: ParsedCron)
    requires p == ParsedCron({0}, {0}, {1}, {5}, {0, 1, 2, 3, 4, 5, 6})
    ensures var from := Ms(-MAX_TIME);
      && NextRun(p, from) == None && OnMinute(FIRST_FULL_MONTH)
      && from.ms < FIRST_FULL_MONTH < from.ms + WINDOW && Matches(FIRST_FULL_MONTH, p)
  {
    hide MakeDay, MonthFromDay, DateFromDay, YearFromDay;
    FirstDays();
    DateSplits(-271821, 4, 1);
    assert Day(FIRST_FULL_MONTH) == -99_999_989;
  }

  // ----- what each group of setters does -----

  lemma MonthSetters(t: int)
    requires -MAX_TIME <= t <= MAX_TIME
    ensures var first := MakeDate(MakeDay(Year(t), Month(t), 1), 0);
      var a := WithHours(WithDate(Ms(t), 1), 0, 0, 0, 0);
      && a == TimeClip(first)
      && (first >= -MAX_TIME ==> (
            && a == Ms(first) && Month(first) == Month(t)
            && WithMonth(a, Month(first) + 1) == TimeClip(StartOfNextMonth(t))))
  {
    hide MakeDay, MonthFromDay, DateFromDay, YearFromDay;
    DayWithinMonth(t);
    var first := MakeDay(Year(t), Month(t), 1);
    var a := WithDate(Ms(t), 1);
    assert -MAX_TIME == -100_000_000 * MS_PER_DAY;
    if first >= -100_000_000 {
      assert a == Ms(MakeDate(first, TimeWithinDay(t)));
      assert Day(a.ms) == first;
      assert Day(MakeDate(first, 0)) == first && TimeWithinDay(MakeDate(first, 0)) == 0;
      FirstOfMonth(t);
    }
  }

  lemma FirstOfMonth(t: int)
    ensures var first := MakeDay(Year(t), Month(t), 1);
      YearFromDay(first) == Year(t) && MonthFromDay(first) == Month(t) && DateFromDay(first) == 1
  {
    hide MakeDay, MonthFromDay, DateFromDay, YearFromDay, DaysBeforeMonth;
    DaySplits(Day(t));
    DateSplits(Year(t), Month(t), 1);
  }

  lemma DaySetters(t: int)
    requires -MAX_TIME <= t <= MAX_TIME
    ensures var a := WithHours(Ms(t), 0, 0, 0, 0);
      && a == Ms(MakeDate(Day(t), 0)) && Date(a.ms) == Date(t)
      && WithDate(a, Date(t) + 1) == TimeClip(StartOfNextDay(t))
  {
    hide MonthFromDay, DateFromDay, YearFromDay, DaysBeforeMonth, DayFromYear;
    var midnight := MakeDate(Day(t), 0);
    assert Day(midnight) == Day(t) && TimeWithinDay(midnight) == 0;
    DaySplits(Day(t));
    assert Month(t) / 12 == 0 && Month(t) % 12 == Month(t);
  }

  lemma HourSetters(t: int)
    requires -MAX_TIME <= t <= MAX_TIME
    ensures var a := WithMinutes(Ms(t), 0, 0, 0); var hour := (t / MS_PER_HOUR) * MS_PER_HOUR;
      && a == Ms(hour) && Hour(hour) == Hour(t) && Minute(hour) == Second(hour) == Milli(hour) == 0
      && WithHours(a, Hour(t) + 1, 0, 0, 0) == TimeClip(StartOfNextHour(t))
  {
    hide Day, Hour, Minute, Second, Milli, OnMinute;
    TimeSplits(t);
    StartOfHour(t);
  }

  lemma StartOfHour(t: int)
    ensures var hour := (t / MS_PER_HOUR) * MS_PER_HOUR;
      && hour == MakeDate(Day(t), MakeTime(Hour(t), 0, 0, 0)) && Day(hour) == Day(t) && Hour(hour) == Hour(t)
      && Minute(hour) == Second(hour) == Milli(hour) == 0
      && (-MAX_TIME <= t ==> -MAX_TIME <= hour) && hour <= t
  {
    hide Day, Hour, Minute, Second, Milli;
    var n := t / MS_PER_HOUR;
    HoursOfDay(t);
    HoursAre(n);
    HourOfDay(t);
    assert -MAX_TIME == -2_400_000_000 * MS_PER_HOUR;
  }

  lemma HourOfDay(t: int)
    ensures 0 <= Hour(t) < 24
  {
  }

  lemma HoursAre(n: int)
    ensures var t := n * MS_PER_HOUR;
      Day(t) == n / 24 && Hour(t) == n % 24 && Minute(t) == Second(t) == Milli(t) == 0
  {
    var t := n * MS_PER_HOUR;
    assert t / MS_PER_HOUR == n;
    assert t / MS_PER_DAY == n / 24;
    assert t / MS_PER_MINUTE == 60 * n;
    assert t / 1000 == 3600 * n;
  }

  lemma MinuteSetter(t: int)
    requires -MAX_TIME <= t <= MAX_TIME && OnMinute(t)
    ensures WithMinutes(Ms(t), Minute(t) + 1, Second(t), Milli(t)) == TimeClip(t + MS_PER_MINUTE)
    ensures OnMinute(t + MS_PER_MINUTE)
  {
    hide Day, Hour, Minute, Second, Milli, OnMinute;
    TimeSplits(t);
    WholeMinute(t);
    MinuteMultiple(t / MS_PER_MINUTE + 1);
  }

  lemma FirstMinuteSetters(from: int)
    requires -MAX_TIME <= from <= MAX_TIME
    ensures var a := WithSeconds(Ms(from), 0, 0); var minute := FirstMinute(from) - MS_PER_MINUTE;
      && a == Ms(minute) && OnMinute(minute) && -MAX_TIME <= minute <= MAX_TIME
  {
    hide Day, Hour, Minute, Second, Milli, OnMinute;
    TimeSplits(from);
    SecondsOfMinute(from);
    MinuteMultiple(from / MS_PER_MINUTE);
  }

  // ----- the search -----

  predicate Before(a: TimeValue, b: TimeValue) {
    a.Ms? && b.Ms? && a.ms < b.ms
  }

  /** What the search still has to return when the candidate is c. */
  function Remaining(p: ParsedCron, c: TimeValue, limit: TimeValue): Option<int> {
    if c.NaN? || limit.NaN? then None
    else if c.ms < FIRST_FULL_MONTH && 4 !in p.month then None
    else Scan(p, c.ms, limit.ms)
  }

  predicate Candidate(c: TimeValue) {
    Clipped(c) && (c.Ms? ==> OnMinute(c.ms))
  }

  lemma JumpKeeps(p: ParsedCron, c: int, next: int, limit: int)
    requires Candidate(Ms(c)) && OnMinute(next) && c < next && Barren(p, c, next) && limit <= MAX_TIME
    requires c < FIRST_FULL_MONTH ==> 4 in p.month
    ensures Remaining(p, Ms(c), Ms(limit)) == Remaining(p, TimeClip(next), Ms(limit))
    ensures Candidate(TimeClip(next))
  {
    hide Matches;
    ScanSkips(p, c, next, limit);
  }

  method NextRunAfter(expr: string, from: TimeValue) returns (r: Parsed<Option<int>>)
    requires Clipped(from)
    ensures var m := CronMeaning(expr);
      r == if m.Bad? then Bad(m.error) else Ok(NextRun(m.value, from))
  {
    var parsed := ParseCron(expr);
    if parsed.Bad? {
      return Bad(parsed.error);
    }
    var next := Search(parsed.value, from);
    r := Ok(next);
  }

  method Search(p: ParsedCron, from: TimeValue) returns (r: Option<int>)
    requires Clipped(from)
    ensures r == NextRun(p, from)
  {
    hide Matches, Scan, Month, WithSeconds, WithMinutes;
    var candidate := new UtcDate(from);
    candidate.SetUTCSeconds(0, 0);
    NaNStays();
    if from.Ms? {
      FirstMinuteSetters(from.ms);
      MinuteSetter(candidate.time.ms);
    }
    candidate.SetUTCMinutes(candidate.UTCMinutes() + 1);
    var maxDate := if from.NaN? then NaN else TimeClip(from.ms + WINDOW);
    while Before(candidate.time, maxDate)
      invariant Candidate(candidate.time)
      invariant NextRun(p, from) == Remaining(p, candidate.time, maxDate)
      decreases if candidate.time.Ms? && maxDate.Ms? then maxDate.ms - candidate.time.ms else -1
    {
      if Matches(candidate.time.ms, p) {
        FirstMonth(candidate.time.ms);
        ScanStops(p, candidate.time.ms, maxDate.ms);
        return Some(candidate.time.ms);
      }
      Advance(candidate, p, maxDate.ms);
    }
    r := None;
    if candidate.time.Ms? && maxDate.Ms? {
      ScanEnds(p, candidate.time.ms, maxDate.ms);
    }
  }

  /** The candidate moved on from c, and nothing the search could still return was lost. */
  predicate Advanced(p: ParsedCron, c: int, next: TimeValue, limit: int) {
    Candidate(next) && (next.Ms? ==> c < next.ms)
    && Remaining(p, Ms(c), Ms(limit)) == Remaining(p, next, Ms(limit))
  }

  /** The rest of the loop's body: one jump, chosen by the first field that does not match. */
  method Advance(candidate: UtcDate, p: ParsedCron, ghost limit: int)
    requires candidate.time.Ms? && Candidate(candidate.time) && !Matches(candidate.time.ms, p) && limit <= MAX_TIME
    modifies candidate
    ensures Advanced(p, old(candidate.time.ms), candidate.time, limit)
  {
    hide Matches, Advanced, OnMinute, Month, Date, WeekDay, Hour, Minute, Second, Milli;
    hide WithMinutes, StartOfNextMonth, StartOfNextDay, StartOfNextHour;
    ghost var c := candidate.time.ms;
    if candidate.UTCMonth() + 1 !in p.month {
      MonthAdvances(p, c, limit);
      JumpMonth(candidate);
    } else if candidate.UTCDate() !in p.dayOfMonth || WeekDay(candidate.time.ms) !in p.dayOfWeek {
      DayAdvances(p, c, limit);
      JumpDay(candidate);
    } else if candidate.UTCHours() !in p.hour {
      HourAdvances(p, c, limit);
      JumpHour(candidate);
    } else {
      MinuteAdvances(p, c, limit);
      MinuteSetter(c);
      candidate.SetUTCMinutes(candidate.UTCMinutes() + 1);
    }
  }

  lemma MonthAdvances(p: ParsedCron, c: int, limit: int)
    requires Candidate(Ms(c)) && Month(c) + 1 !in p.month && limit <= MAX_TIME
    ensures Advanced(p, c, MonthJumped(c), limit)
  {
    hide Matches, Scan, Month, Year, MakeDay, StartOfNextMonth, Barren;
    FirstMonth(c);
    MonthJumpSkips(p, c);
    if c >= FIRST_FULL_MONTH {
      JumpKeeps(p, c, StartOfNextMonth(c), limit);
    }
  }

  lemma DayAdvances(p: ParsedCron, c: int, limit: int)
    requires Candidate(Ms(c)) && Month(c) + 1 in p.month && limit <= MAX_TIME
    requires Date(c) !in p.dayOfMonth || WeekDay(c) !in p.dayOfWeek
    ensures Advanced(p, c, TimeClip(StartOfNextDay(c)), limit)
  {
    hide Matches, Scan, Month, Date, WeekDay, StartOfNextDay, Barren;
    FirstMonth(c);
    DayJumpSkips(p, c);
    JumpKeeps(p, c, StartOfNextDay(c), limit);
  }

  lemma HourAdvances(p: ParsedCron, c: int, limit: int)
    requires Candidate(Ms(c)) && Month(c) + 1 in p.month && Hour(c) !in p.hour && limit <= MAX_TIME
    ensures Advanced(p, c, TimeClip(StartOfNextHour(c)), limit)
  {
    hide Matches, Scan, Month, Hour, StartOfNextHour, Barren;
    FirstMonth(c);
    HourJumpSkips(p, c);
    JumpKeeps(p, c, StartOfNextHour(c), limit);
  }

  lemma MinuteAdvances(p: ParsedCron, c: int, limit: int)
    requires Candidate(Ms(c)) && Month(c) + 1 in p.month && !Matches(c, p) && limit <= MAX_TIME
    ensures Advanced(p, c, TimeClip(c + MS_PER_MINUTE), limit)
  {
    hide Matches, Scan, Month, Barren, Minute, Second, Milli, WithMinutes, OnMinute, Remaining, Year, MakeDay;
    FirstMonth(c);
    MinuteSkips(p, c);
    MinuteSetter(c);
    JumpKeeps(p, c, c + MS_PER_MINUTE, limit);
  }

  function MonthJumped(c: int): TimeValue {
    if MakeDate(MakeDay(Year(c), Month(c), 1), 0) < -MAX_TIME then NaN else TimeClip(StartOfNextMonth(c))
  }

  method JumpMonth(candidate: UtcDate)
    requires candidate.time.Ms? && Clipped(candidate.time)
    modifies candidate
    ensures candidate.time == MonthJumped(old(candidate.time.ms))
  {
    hide Month, Year, MakeDay, WithHours, WithDate, WithMonth, StartOfNextMonth;
    MonthSetters(candidate.time.ms);
    candidate.SetUTCDate(1);
    candidate.SetUTCHoursMinutesSecondsMs(0, 0, 0, 0);
    candidate.SetUTCMonth(candidate.UTCMonth() + 1);
    NaNStays();
  }

  lemma NaNStays()
    ensures forall m :: WithMonth(NaN, m) == NaN
    ensures WithSeconds(NaN, 0, 0) == NaN
  {
  }

  method JumpDay(candidate: UtcDate)
    requires candidate.time.Ms? && Clipped(candidate.time)
    modifies candidate
    ensures candidate.time == TimeClip(StartOfNextDay(old(candidate.time.ms)))
  {
    hide Date, WithHours, WithDate, StartOfNextDay;
    DaySetters(candidate.time.ms);
    candidate.SetUTCHoursMinutesSecondsMs(0, 0, 0, 0);
    candidate.SetUTCDate(candidate.UTCDate() + 1);
  }

  method JumpHour(candidate: UtcDate)
    requires candidate.time.Ms? && Clipped(candidate.time)
    modifies candidate
    ensures candidate.time == TimeClip(StartOfNextHour(old(candidate.time.ms)))
  {
    hide Hour, Minute, Second, Milli, WithHours, WithMinutes, StartOfNextHour;
    HourSetters(candidate.time.ms);
    candidate.SetUTCMinutesSecondsMs(0, 0, 0);
    candidate.SetUTCHours(candidate.UTCHours() + 1);
  }

  lemma ScanStops(p: ParsedCron, t: int, limit: int)
    requires t < limit && Matches(t, p)
    ensures Scan(p, t, limit) == Some(t)
    ensures Month(t) + 1 in p.month
  {
  }

  lemma ScanEnds(p: ParsedCron, t: int, limit: int)
    requires t >= limit
    ensures Scan(p, t, limit) == None
  {
  }

  lemma MinuteSkips(p: ParsedCron, t: int)
    requires OnMinute(t) && !Matches(t, p)
    ensures Barren(p, t, t + MS_PER_MINUTE)
  {
    hide Matches;
  }
}
