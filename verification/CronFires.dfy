/** Which schedules fire inside the four-year window, for every start. */
module CronFires {
  import opened Wrappers
  import opened Calendar
  import opened CronField
  import opened CronSearch

  /** A minute of the day at which the schedule fires. */
  predicate Slot(p: ParsedCron, s: int) {
    0 <= s < 1440 && s / 60 in p.hour && s % 60 in p.minute
  }

  function At(day: int, slot: int): int {
    day * MS_PER_DAY + slot * MS_PER_MINUTE
  }

  lemma AtFields(day: int, slot: int)
    requires 0 <= slot < 1440
    ensures var t := At(day, slot);
      OnMinute(t) && Day(t) == day && Hour(t) == slot / 60 && Minute(t) == slot % 60
  {
    hide Day, Hour, Minute, OnMinute;
    var n := day * 1440 + slot;
    assert At(day, slot) == n * MS_PER_MINUTE;
    MinutesAre(n);
    SlotOf(day, slot);
  }

  lemma MinutesAre(n: int)
    ensures var t := n * MS_PER_MINUTE;
      OnMinute(t) && Day(t) == n / 1440 && Hour(t) == (n / 60) % 24 && Minute(t) == n % 60
  {
    var t := n * MS_PER_MINUTE;
    assert t / MS_PER_MINUTE == n;
    assert t / MS_PER_HOUR == n / 60;
    assert t / MS_PER_DAY == n / 1440;
  }

  lemma SlotOf(day: int, slot: int)
    requires 0 <= slot < 1440
    ensures var n := day * 1440 + slot;
      n / 1440 == day && (n / 60) % 24 == slot / 60 && n % 60 == slot % 60
  {
    var n := day * 1440 + slot;
    assert n / 60 == day * 24 + slot / 60;
  }

  lemma MinutesOfDay(t: int)
    requires OnMinute(t)
    ensures exists s :: 0 <= s < 1440 && t == At(Day(t), s) && Hour(t) == s / 60 && Minute(t) == s % 60
  {
    TimeSplits(t);
    var s := Hour(t) * 60 + Minute(t);
    assert t == At(Day(t), s);
    AtFields(Day(t), s);
  }

  /** Some minute of a day matches iff the day's date and weekday do. */
  lemma DayMatches(p: ParsedCron, day: int, s: int)
    requires Slot(p, s) && MonthFromDay(day) + 1 in p.month && DateFromDay(day) in p.dayOfMonth
    requires WeekDayOfDay(day) in p.dayOfWeek
    ensures Matches(At(day, s), p) && OnMinute(At(day, s))
  {
    hide MonthFromDay, DateFromDay;
    AtFields(day, s);
  }

  lemma SomeSlot(p: ParsedCron) returns (s: int)
    requires Valid(p)
    ensures Slot(p, s)
  {
    var h := EnumerateField(p.hour, Range(0, 23));
    var m := EnumerateField(p.minute, Range(0, 59));
    ValuesContains(h, 0);
    ValuesContains(m, 0);
    s := h[0] * 60 + m[0];
    assert s / 60 == h[0] && s % 60 == m[0];
  }

  predicate AnyDay(p: ParsedCron) {
    forall w :: 0 <= w <= 6 ==> w in p.dayOfWeek
  }

  predicate AnyDate(p: ParsedCron) {
    forall d :: 1 <= d <= 31 ==> d in p.dayOfMonth
  }

  /** The month and date exist in every year. */
  predicate EveryYear(p: ParsedCron, m: int, date: int) {
    0 <= m < 12 && m + 1 in p.month && date in p.dayOfMonth && 1 <= date <= DaysInMonth(m, false)
  }

  lemma NextYearInWindow(from: int, day: int, s: int)
    requires 0 <= s < 1440 && YearFromDay(day) == Year(from) + 1
    ensures from < At(day, s) < from + WINDOW
  {
    hide YearFromDay;
    var y := Year(from);
    YearLength(y);
    YearLength(y + 1);
    assert DayFromYear(y) <= Day(from) < DayFromYear(y + 1) <= day < DayFromYear(y + 2) by {
      assert DayFromYear(y + 1) <= day < DayFromYear(y + 1 + 1);
    }
  }

  lemma FiresAt(p: ParsedCron, from: TimeValue, u: int)
    requires Reaches(p, from) && OnMinute(u) && from.ms < u < from.ms + WINDOW && Matches(u, p)
    ensures NextRun(p, from).Some?
  {
    hide *;
    NextRunIsLeast(p, from);
  }

  /**
   * With any weekday allowed and some allowed date that every year has, nextRunAfter is non-null
   * from exactly the instants the search reaches from.
   */
  lemma DatedScheduleFires(p: ParsedCron, from: TimeValue, m: int, date: int)
    requires Valid(p) && AnyDay(p) && EveryYear(p, m, date)
    ensures NextRun(p, from).Some? <==> Reaches(p, from)
  {
    hide Matches, Scan, MonthFromDay, DateFromDay, YearFromDay, MakeDay, DaysBeforeMonth;
    if Reaches(p, from) {
      var s := SomeSlot(p);
      var y := Year(from.ms) + 1;
      MonthLength(m, IsLeap(y));
      var day := MakeDay(y, m, date);
      DateSplits(y, m, date);
      DayMatches(p, day, s);
      NextYearInWindow(from.ms, day, s);
      FiresAt(p, from, At(day, s));
    }
  }

  lemma WeekdayWithin(first: int, w: int)
    requires 0 <= w < 7
    ensures WeekDayOfDay(first + (w - WeekDayOfDay(first)) % 7) == w
  {
  }

  /** With any date allowed, some day of the first week of an allowed month has the weekday. */
  lemma WeekdayScheduleFires(p: ParsedCron, from: TimeValue)
    requires Valid(p) && AnyDate(p)
    ensures NextRun(p, from).Some? <==> Reaches(p, from)
  {
    hide Matches, Scan, MonthFromDay, DateFromDay, YearFromDay, DaysBeforeMonth, DayFromYear;
    if Reaches(p, from) {
      var s := SomeSlot(p);
      var months := EnumerateField(p.month, Range(1, 12));
      ValuesContains(months, 0);
      var days := EnumerateField(p.dayOfWeek, Range(0, 6));
      ValuesContains(days, 0);
      var y, m := Year(from.ms) + 1, months[0] - 1;
      var date := 1 + (days[0] - WeekDayOfDay(MakeDay(y, m, 1))) % 7;
      var day := MakeDay(y, m, date);
      WeekdayWithin(MakeDay(y, m, 1), days[0]);
      MonthLength(m, IsLeap(y));
      DateSplits(y, m, date);
      DayMatches(p, day, s);
      NextYearInWindow(from.ms, day, s);
      FiresAt(p, from, At(day, s));
    }
  }

  // ----- schedules that need a 29 February -----

  /** Any weekday, only February, and no date before the 29th. */
  predicate LeapDayOnly(p: ParsedCron) {
    AnyDay(p) && p.month == {2} && 29 in p.dayOfMonth && forall d :: d in p.dayOfMonth ==> d >= 29
  }

  function LeapDay(y: int): int {
    MakeDay(y, 1, 29)
  }

  ghost predicate FirstSlot(p: ParsedCron, s: int) {
    Slot(p, s) && forall x :: Slot(p, x) ==> s <= x
  }

  ghost predicate LastSlot(p: ParsedCron, s: int) {
    Slot(p, s) && forall x :: Slot(p, x) ==> x <= s
  }

  /** A year divisible by 100 but not by 400: the leap year the calendar skips. */
  predicate Skipped(c: int) {
    c % 100 == 0 && c % 400 != 0
  }

  /**
   * The start is past the last slot of the leap day before a skipped century, and the window ends
   * at or before the first slot of the leap day after it.
   */
  predicate DeadZone(c: int, first: int, last: int, from: int) {
    Skipped(c) && At(LeapDay(c - 4), last) <= from && from + WINDOW <= At(LeapDay(c + 4), first)
  }

  lemma LeapDayIs(y: int)
    requires IsLeap(y)
    ensures LeapDay(y) == DayFromYear(y) + 59
    ensures YearFromDay(LeapDay(y)) == y && MonthFromDay(LeapDay(y)) == 1 && DateFromDay(LeapDay(y)) == 29
  {
    hide MonthFromDay, DateFromDay, YearFromDay;
    DateSplits(y, 1, 29);
  }

  lemma LeapDayFields(p: ParsedCron, y: int, s: int)
    requires IsLeap(y) && LeapDayOnly(p) && Slot(p, s)
    ensures Matches(At(LeapDay(y), s), p) && OnMinute(At(LeapDay(y), s))
  {
    hide MonthFromDay, DateFromDay, YearFromDay, LeapDay;
    LeapDayIs(y);
    DayMatches(p, LeapDay(y), s);
  }

  lemma OnlyLeapDays(p: ParsedCron, u: int)
    requires LeapDayOnly(p) && Valid(p) && Matches(u, p) && OnMinute(u)
    ensures IsLeap(Year(u)) && exists s :: Slot(p, s) && u == At(LeapDay(Year(u)), s)
  {
    hide MonthFromDay, DateFromDay, YearFromDay;
    var y, m, date := Year(u), Month(u), Date(u);
    DaySplits(Day(u));
    assert m == 1 && date >= 29;
    MonthLength(m, IsLeap(y));
    LeapDayIs(y);
    DaySplits(LeapDay(y));
    MinutesOfDay(u);
  }

  lemma NoLeapWithin(a: int, x: int)
    requires a % 4 == 0 && a < x < a + 4
    ensures !IsLeap(x)
  {
  }

  /** Multiples of four are leap years, but for skipped centuries, whose neighbours are. */
  lemma EveryFourth(a: int)
    requires a % 4 == 0
    ensures IsLeap(a) || (Skipped(a) && IsLeap(a - 4) && IsLeap(a + 4))
  {
  }

  lemma FourthBefore(y: int)
    ensures (y - y % 4) % 4 == 0 && (y - y % 4 - 4) % 4 == 0 && y - 4 < y - y % 4 <= y
  {
  }

  function LeapAtOrBefore(y: int): (l: int)
    ensures IsLeap(l) && y - 8 < l <= y
    ensures forall x :: l < x <= y ==> !IsLeap(x)
  {
    FourthBefore(y);
    var a := y - y % 4;
    EveryFourth(a);
    assert forall x :: a < x <= y ==> !IsLeap(x) by {
      hide IsLeap;
      forall x | a < x <= y ensures !IsLeap(x) { NoLeapWithin(a, x); }
    }
    assert forall x :: a - 4 < x < a ==> !IsLeap(x) by {
      hide IsLeap;
      forall x | a - 4 < x < a ensures !IsLeap(x) { NoLeapWithin(a - 4, x); }
    }
    if IsLeap(a) then a else a - 4
  }

  function NextLeap(l: int): (n: int)
    requires IsLeap(l)
    ensures IsLeap(n) && l < n
    ensures n == l + 4 || (n == l + 8 && Skipped(l + 4))
  {
    assert (l + 4) % 4 == 0;
    EveryFourth(l + 4);
    if IsLeap(l + 4) then l + 4 else l + 8
  }

  lemma LeapDaysApart(a: int, b: int)
    requires IsLeap(a) && IsLeap(b) && a <= b
    ensures a < b ==> LeapDay(a) < LeapDay(b)
    ensures b == a + 4 ==> LeapDay(b) == LeapDay(a) + 1461
  {
    hide LeapDay, DayFromYear, Skipped, IsLeap;
    LeapDayIs(a);
    LeapDayIs(b);
    YearsIncrease(a, b);
    if b == a + 4 {
      YearLength(a);
      YearLength(a + 1);
      YearLength(a + 2);
      YearLength(a + 3);
      LeapIsFourth(a);
      NoLeapWithin(a, a + 1);
      NoLeapWithin(a, a + 2);
      NoLeapWithin(a, a + 3);
    }
  }

  lemma LeapIsFourth(a: int)
    requires IsLeap(a)
    ensures a % 4 == 0
  {
  }

  /** Outside every dead zone a leap-day schedule fires. */
  lemma LeapDayFires(p: ParsedCron, from: TimeValue, first: int, last: int)
    requires Valid(p) && LeapDayOnly(p) && FirstSlot(p, first) && LastSlot(p, last)
    requires Reaches(p, from) && forall c :: !DeadZone(c, first, last, from.ms)
    ensures NextRun(p, from).Some?
  {
    hide Matches, Scan, LeapDay, MakeDay, YearFromDay, NextRun, Reaches, Valid;
    ReachesIsTime(p, from);
    var f := from.ms;
    // the last leap day whose slots are all behind, and the one after it
    var l := LastPassed(f, last);
    var n := NextLeap(l);
    LeapDaysApart(l, n);
    assert first <= last by { assert Slot(p, first); }
    var s := if At(LeapDay(n), first) > f then first else last;
    assert f < At(LeapDay(n), s) < f + WINDOW by {
      if n == l + 8 {
        assert !DeadZone(l + 4, first, last, f);
      }
    }
    LeapDayFields(p, n, s);
    FiresAt(p, from, At(LeapDay(n), s));
  }

  lemma LastPassed(f: int, last: int) returns (l: int)
    requires 0 <= last < 1440
    ensures IsLeap(l) && At(LeapDay(l), last) <= f < At(LeapDay(NextLeap(l)), last)
  {
    hide YearFromDay, LeapDay;
    var y := Year(f);
    var l0 := LeapAtOrBefore(y);
    LeapDayIs(l0);
    if At(LeapDay(l0), last) <= f {
      l := l0;
      var n := NextLeap(l);
      LeapDayIs(n);
      assert n > y;
      YearsIncrease(y + 1, n);
    } else {
      l := LeapAtOrBefore(l0 - 1);
      LeapDayIs(l);
      LeapIsNext(l, l0);
      YearsIncrease(l + 1, l0);
      YearsIncrease(l0, y);
      YearLength(l);
    }
  }

  lemma LeapIsNext(l: int, n: int)
    requires IsLeap(l) && IsLeap(n) && l < n && forall x :: l < x < n ==> !IsLeap(x)
    ensures NextLeap(l) == n
  {
    assert NextLeap(l) >= n;
    if IsLeap(l + 4) {
      assert n == l + 4;
    } else {
      assert n == l + 8;
    }
  }

  /** Inside a dead zone it does not: the leap days before are over, the next is out of reach. */
  lemma DeadZoneIsDead(p: ParsedCron, from: TimeValue, first: int, last: int, c: int)
    requires Valid(p) && LeapDayOnly(p) && FirstSlot(p, first) && LastSlot(p, last)
    requires from.Ms? && DeadZone(c, first, last, from.ms) && Reaches(p, from)
    ensures NextRun(p, from).None?
  {
    hide Matches, Scan, LeapDay, MakeDay, YearFromDay, NextRun, Reaches, Valid;
    hide DeadZone, LeapDayOnly, FirstSlot, LastSlot;
    NextRunIsLeast(p, from);
    if NextRun(p, from).Some? {
      var u := NextRun(p, from).value;
      OnlyLeapDays(p, u);
      BeyondReach(p, from.ms, u, first, last, c);
    }
  }

  lemma BeyondReach(p: ParsedCron, from: int, u: int, first: int, last: int, c: int)
    requires FirstSlot(p, first) && LastSlot(p, last) && DeadZone(c, first, last, from)
    requires IsLeap(Year(u)) && exists s :: Slot(p, s) && u == At(LeapDay(Year(u)), s)
    ensures !(from < u < from + WINDOW)
  {
    hide LeapDay, YearFromDay, IsLeap, Skipped;
    var y := Year(u);
    var s :| Slot(p, s) && u == At(LeapDay(y), s);
    assert first <= s <= last;
    NoLeapBetween(c, y);
    if y <= c - 4 {
      LeapDaysApart(y, c - 4);
    } else {
      LeapDaysApart(c + 4, y);
    }
  }

  lemma NoLeapBetween(c: int, y: int)
    requires Skipped(c) && IsLeap(y)
    ensures IsLeap(c - 4) && IsLeap(c + 4)
    ensures y <= c - 4 || c + 4 <= y
  {
    assert c == 4 * (25 * (c / 100));
    EveryFourth(c);
    LeapIsFourth(y);
  }

  lemma {:induction false} FirstSlotFrom(p: ParsedCron, lo: int, some: int) returns (first: int)
    requires Slot(p, some) && lo <= some && forall x :: Slot(p, x) ==> lo <= x
    ensures FirstSlot(p, first)
    decreases some - lo
  {
    if Slot(p, lo) {
      first := lo;
    } else {
      first := FirstSlotFrom(p, lo + 1, some);
    }
  }

  lemma {:induction false} LastSlotFrom(p: ParsedCron, hi: int, some: int) returns (last: int)
    requires Slot(p, some) && some <= hi && forall x :: Slot(p, x) ==> x <= hi
    ensures LastSlot(p, last)
    decreases hi - some
  {
    if Slot(p, hi) {
      last := hi;
    } else {
      last := LastSlotFrom(p, hi - 1, some);
    }
  }

  /** The slots that the leap-day results speak of always exist. */
  lemma SlotsExist(p: ParsedCron) returns (first: int, last: int)
    requires Valid(p)
    ensures FirstSlot(p, first) && LastSlot(p, last)
  {
    var s := SomeSlot(p);
    first := FirstSlotFrom(p, 0, s);
    last := LastSlotFrom(p, 1439, s);
  }

  /**
   * A leap-day schedule is null exactly where the search does not reach, or in the dead zone of a
   * century that is not a leap year: between leap days eight years apart.
   */
  lemma LeapDayScheduleFires(p: ParsedCron, from: TimeValue, first: int, last: int)
    requires Valid(p) && LeapDayOnly(p) && FirstSlot(p, first) && LastSlot(p, last)
    ensures NextRun(p, from).Some? <==> Reaches(p, from) && forall c :: !DeadZone(c, first, last, from.ms)
  {
    hide Matches, Scan, LeapDay, YearFromDay, NextRun, Reaches, DeadZone, Valid, FirstSlot, LastSlot;
    NextRunIsLeast(p, from);
    if Reaches(p, from) {
      ReachesIsTime(p, from);
      if c :| DeadZone(c, first, last, from.ms) {
        DeadZoneIsDead(p, from, first, last, c);
      } else {
        LeapDayFires(p, from, first, last);
      }
    }
  }

  lemma ReachesIsTime(p: ParsedCron, from: TimeValue)
    requires Reaches(p, from)
    ensures from.Ms?
  {
  }

  /** Dates that exist in no year never fire. */
  lemma ImpossibleDatesNeverFire(p: ParsedCron, from: TimeValue)
    requires forall m, d :: 0 <= m < 12 && m + 1 in p.month && d in p.dayOfMonth ==> d > DaysInMonth(m, true)
    ensures NextRun(p, from).None?
  {
    hide Scan, MonthFromDay, DateFromDay, YearFromDay, NextRun, Reaches, DaysBeforeMonth;
    NextRunIsLeast(p, from);
    var r := NextRun(p, from);
    if r.Some? {
      DaySplits(Day(r.value));
      MonthLength(Month(r.value), IsLeap(Year(r.value)));
      MonthLength(Month(r.value), true);
      assert false;
    }
  }

  /** With any weekday allowed these three kinds are all there are. */
  lemma KindsOfSchedule(p: ParsedCron)
    requires Valid(p) && AnyDay(p)
    ensures (exists m, d :: EveryYear(p, m, d)) || LeapDayOnly(p)
        || forall m, d :: 0 <= m < 12 && m + 1 in p.month && d in p.dayOfMonth ==> d > DaysInMonth(m, true)
  {
    hide DaysBeforeMonth;
    if forall m, d :: !EveryYear(p, m, d) {
      forall m, d | 0 <= m < 12 && m + 1 in p.month && d in p.dayOfMonth
        ensures d > DaysInMonth(m, true) || (m == 1 && d == 29)
      {
        assert !EveryYear(p, m, d);
        MonthLength(m, true);
        MonthLength(m, false);
      }
      if m, d :| 0 <= m < 12 && m + 1 in p.month && d in p.dayOfMonth && d <= DaysInMonth(m, true) {
        assert m == 1 && d == 29;
        forall x | x in p.month
          ensures x == 2
        {
          assert !EveryYear(p, x - 1, 29);
          MonthLength(x - 1, false);
        }
        assert p.month == {2};
        forall x | x in p.dayOfMonth
          ensures x >= 29
        {
          assert !EveryYear(p, 1, x);
          MonthLength(1, false);
        }
      }
    }
  }

  /**
   * The family is not empty: "0 0 29 2 *" asked on 1 March 2096 gives null, though it would fire
   * on 29 February 2104.
   */
  lemma LeapDayLost(p: ParsedCron, from: TimeValue)
    requires p == ParsedCron({0}, {0}, {29}, {2}, {0, 1, 2, 3, 4, 5, 6})
    requires from == Ms(At(MakeDay(2096, 2, 1), 0))
    ensures Reaches(p, from) && NextRun(p, from) == None
    ensures from.ms < At(LeapDay(2104), 0) && Matches(At(LeapDay(2104), 0), p)
  {
    hide Matches, Scan, YearFromDay, NextRun;
    assert Slot(p, 0) && forall x :: Slot(p, x) ==> x == 0;
    assert LeapDay(2096) == 46080 && LeapDay(2104) == 49001 && MakeDay(2096, 2, 1) == 46081;
    assert Reaches(p, from);
    assert DeadZone(2100, 0, 0, from.ms);
    DeadZoneIsDead(p, from, 0, 0, 2100);
    LeapDayFields(p, 2104, 0);
  }

  // ----- on which days of the week -----

  /** Day d falls w days after a Sunday, counted from Saturday 1 January 2000. */
  predicate FallsOn(d: int, w: int) {
    (d - MakeDay(2000, 0, 1)) % 7 == (w + 1) % 7
  }

  lemma FallsOnIsWeekday(d: int, w: int)
    requires 0 <= w <= 6
    ensures FallsOn(d, w) <==> WeekDayOfDay(d) == w
  {
    hide MakeDay;
    Epochs();
    SevenDays(d + 4, w);
  }

  lemma SevenDays(x: int, w: int)
    requires 0 <= w <= 6
    ensures (x - 10961) % 7 == (w + 1) % 7 <==> x % 7 == w
  {
    var q := x / 7;
    assert x - 10961 == 7 * (q - 1566) + x % 7 + 1;
    assert (7 * (q - 1566) + (x % 7 + 1)) % 7 == (x % 7 + 1) % 7;
  }

  /** A schedule for given weekdays fires on none other. */
  lemma FiresOnWeekday(p: ParsedCron, from: TimeValue) returns (w: int)
    requires Valid(p) && NextRun(p, from).Some?
    ensures w in p.dayOfWeek && FallsOn(Day(NextRun(p, from).value), w)
  {
    hide Scan, Reaches, NextRun, FallsOn;
    NextRunIsLeast(p, from);
    var r := NextRun(p, from).value;
    w := WeekDay(r);
    FallsOnIsWeekday(Day(r), w);
  }

  predicate AnyMonth(p: ParsedCron) {
    forall m :: 1 <= m <= 12 ==> m in p.month
  }

  /** A weekly schedule fires at the first minute after the start that is a slot of a day of that weekday. */
  lemma WeeklyScheduleFires(p: ParsedCron, w: int, from: TimeValue)
    requires Valid(p) && p.dayOfWeek == {w} && AnyDate(p) && AnyMonth(p) && Reaches(p, from)
    ensures NextRun(p, from).Some?
    ensures var r := NextRun(p, from).value;
      && from.ms < r && FallsOn(Day(r), w) && (exists s :: Slot(p, s) && r == At(Day(r), s))
      && forall day, s :: FallsOn(day, w) && Slot(p, s) && from.ms < At(day, s) ==> r <= At(day, s)
  {
    hide Scan, Reaches, NextRun, FallsOn, Matches, Slot, OnMinute, MonthFromDay, DateFromDay;
    ReachesIsTime(p, from);
    WeekdayScheduleFires(p, from);
    NextRunIsLeast(p, from);
    var r := NextRun(p, from).value;
    OnWeekday(p, w, r);
    forall day, s | FallsOn(day, w) && Slot(p, s) && from.ms < At(day, s)
      ensures r <= At(day, s)
    {
      WeekdayMatches(p, w, day, s);
    }
  }

  lemma OnWeekday(p: ParsedCron, w: int, u: int)
    requires Valid(p) && p.dayOfWeek == {w} && OnMinute(u) && Matches(u, p)
    ensures FallsOn(Day(u), w) && exists s :: Slot(p, s) && u == At(Day(u), s)
  {
    hide FallsOn, OnMinute;
    MinutesOfDay(u);
    FallsOnIsWeekday(Day(u), w);
  }

  lemma WeekdayMatches(p: ParsedCron, w: int, day: int, s: int)
    requires Valid(p) && p.dayOfWeek == {w} && AnyDate(p) && AnyMonth(p) && FallsOn(day, w) && Slot(p, s)
    ensures OnMinute(At(day, s)) && Matches(At(day, s), p)
  {
    hide FallsOn, OnMinute, Matches, MonthFromDay, DateFromDay, Slot, YearFromDay, DaysBeforeMonth, DayFromYear;
    assert w in p.dayOfWeek;
    FallsOnIsWeekday(day, w);
    DaySplits(day);
    MonthLengths(MonthFromDay(day), IsLeap(YearFromDay(day)));
    DayMatches(p, day, s);
  }
}
