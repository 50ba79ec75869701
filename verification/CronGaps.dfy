/**
 * From which starts any schedule gives null, in terms of the days that fit it; and how far apart
 * these lie when it restricts the date and the weekday both, to one month, one date, one weekday.
 */
module CronGaps {
  import opened Wrappers
  import opened Calendar
  import opened CronField
  import opened CronFires
  import opened CronSearch

  // ----- any schedule -----

  /** The date and the weekday of a day are allowed. */
  predicate Fits(p: ParsedCron, day: int) {
    MonthFromDay(day) + 1 in p.month && DateFromDay(day) in p.dayOfMonth && WeekDayOfDay(day) in p.dayOfWeek
  }

  lemma MatchesOnFitting(p: ParsedCron, u: int)
    requires OnMinute(u) && Matches(u, p)
    ensures Fits(p, Day(u)) && exists s :: Slot(p, s) && u == At(Day(u), s)
  {
    hide MonthFromDay, DateFromDay, OnMinute;
    MinutesOfDay(u);
  }

  lemma SlotsInOrder(p: ParsedCron, first: int, last: int)
    requires FirstSlot(p, first) && LastSlot(p, last)
    ensures 0 <= first <= last < 1440 && Slot(p, first) && Slot(p, last)
  {
  }

  /**
   * For every schedule and every start the search reaches from: null iff each day that fits is over
   * at the start, or begins only after the window.
   */
  lemma NullIffNoDayFits(p: ParsedCron, first: int, last: int, from: TimeValue)
    requires FirstSlot(p, first) && LastSlot(p, last) && Reaches(p, from)
    ensures NextRun(p, from).None? <==>
      forall day :: Fits(p, day) ==> At(day, last) <= from.ms || from.ms + WINDOW <= At(day, first)
  {
    hide Matches, Scan, NextRun, Reaches, MonthFromDay, DateFromDay, FirstSlot, LastSlot, OnMinute;
    ReachesIsTime(p, from);
    SlotsInOrder(p, first, last);
    var f := from.ms;
    if day :| Fits(p, day) && f < At(day, last) && At(day, first) < f + WINDOW {
      var s := if At(day, first) > f then first else last;
      DayMatches(p, day, s);
      FiresAt(p, from, At(day, s));
    } else {
      NextRunIsLeast(p, from);
      if NextRun(p, from).Some? {
        var u := NextRun(p, from).value;
        MatchesOnFitting(p, u);
        var s :| Slot(p, s) && u == At(Day(u), s);
        SlotWithin(p, first, last, s);
      }
    }
  }

  lemma SlotWithin(p: ParsedCron, first: int, last: int, s: int)
    requires FirstSlot(p, first) && LastSlot(p, last) && Slot(p, s)
    ensures first <= s <= last
  {
  }

  /** Between two days that fit, with none between: null iff the window ends before the later one begins. */
  lemma NullIffNextIsFar(p: ParsedCron, a: int, b: int, first: int, last: int, from: TimeValue)
    requires Fits(p, b) && forall day :: a < day < b ==> !Fits(p, day)
    requires FirstSlot(p, first) && LastSlot(p, last) && Reaches(p, from)
    requires At(a, last) <= from.ms < At(b, last)
    ensures NextRun(p, from).None? <==> from.ms + WINDOW <= At(b, first)
  {
    hide Fits, NextRun, Reaches, FirstSlot, LastSlot;
    NullIffNoDayFits(p, first, last, from);
    SlotsInOrder(p, first, last);
    forall day | Fits(p, day)
      ensures day <= a || b <= day
    {
    }
  }

  // ----- one month, date and weekday -----

  predicate OneDay(p: ParsedCron, m: int, date: int, w: int) {
    0 <= m < 12 && p.month == {m + 1} && p.dayOfMonth == {date} && p.dayOfWeek == {w}
  }

  /** The date exists in a year and has the weekday. */
  predicate Hit(m: int, date: int, w: int, y: int)
    requires 0 <= m < 12
  {
    1 <= date <= DaysInMonth(m, IsLeap(y)) && WeekDayOfDay(MakeDay(y, m, date)) == w
  }

  /** Two years with a hit, and none between. */
  predicate Consecutive(m: int, date: int, w: int, a: int, b: int)
    requires 0 <= m < 12
  {
    a < b && Hit(m, date, w, a) && Hit(m, date, w, b) && forall y :: a < y < b ==> !Hit(m, date, w, y)
  }

  /** The days that fit are the hits. */
  lemma FitsIffHit(p: ParsedCron, m: int, date: int, w: int, day: int)
    requires OneDay(p, m, date, w)
    ensures Fits(p, day) <==> Hit(m, date, w, YearFromDay(day)) && day == MakeDay(YearFromDay(day), m, date)
  {
    hide MonthFromDay, DateFromDay, YearFromDay, MakeDay, DaysBeforeMonth;
    DaySplits(day);
    if Hit(m, date, w, YearFromDay(day)) && day == MakeDay(YearFromDay(day), m, date) {
      DateSplits(YearFromDay(day), m, date);
    }
  }

  lemma ConsecutiveDays(p: ParsedCron, m: int, date: int, w: int, a: int, b: int)
    requires OneDay(p, m, date, w) && Consecutive(m, date, w, a, b)
    ensures Fits(p, MakeDay(b, m, date))
    ensures forall day :: MakeDay(a, m, date) < day < MakeDay(b, m, date) ==> !Fits(p, day)
  {
    hide Fits, MakeDay, YearFromDay, Hit, DayFromYear;
    InItsYear(m, date, w, b);
    YearUnique(MakeDay(b, m, date), b);
    FitsIffHit(p, m, date, w, MakeDay(b, m, date));
    forall day | Fits(p, day)
      ensures day <= MakeDay(a, m, date) || MakeDay(b, m, date) <= day
    {
      FitsIffHit(p, m, date, w, day);
      var y := YearFromDay(day);
      if y < a {
        LaterYearLaterDay(m, date, w, y, a);
      } else if b < y {
        LaterYearLaterDay(m, date, w, b, y);
      }
    }
  }

  lemma LaterYearLaterDay(m: int, date: int, w: int, a: int, b: int)
    requires 0 <= m < 12 && Hit(m, date, w, a) && Hit(m, date, w, b) && a < b
    ensures MakeDay(a, m, date) < MakeDay(b, m, date)
  {
    hide Hit, MakeDay, DayFromYear;
    InItsYear(m, date, w, a);
    InItsYear(m, date, w, b);
    YearsIncrease(a + 1, b);
  }

  lemma InItsYear(m: int, date: int, w: int, y: int)
    requires 0 <= m < 12 && Hit(m, date, w, y)
    ensures DayFromYear(y) <= MakeDay(y, m, date) < DayFromYear(y + 1)
  {
    hide MonthFromDay, DateFromDay, MakeDay, DaysBeforeMonth, DayFromYear;
    DateSplits(y, m, date);
  }

  // ----- how far apart the hits are -----

  /** The year whose leap day lies between the date in year y and the date in year y + 1. */
  function Anchor(m: int, y: int): int {
    if m <= 1 then y else y + 1
  }

  lemma YearLater(m: int, date: int, y: int)
    requires 0 <= m < 12
    ensures MakeDay(y + 1, m, date) == MakeDay(y, m, date) + 365 + if IsLeap(Anchor(m, y)) then 1 else 0
  {
    hide DayFromYear, IsLeap;
    YearLength(y);
    assert m / 12 == 0 && m % 12 == m;
  }

  lemma {:induction false} YearsLater(m: int, date: int, y: int, k: nat)
    requires 0 <= m < 12
    ensures MakeDay(y + k, m, date) >= MakeDay(y, m, date) + 365 * k
  {
    hide MakeDay, IsLeap;
    if k == 0 {
    } else {
      YearsLater(m, date, y, k - 1);
      YearLater(m, date, y + k - 1);
    }
  }

  /** Where the first multiple of four is, and which of the three in twelve years is skipped (3 for none). */
  function Offset(c: int): (r: int)
    ensures 0 <= r < 4
  {
    (-c) % 4
  }

  function SkipAt(c: int): (s: int)
    ensures 0 <= s <= 3
  {
    var a := c + Offset(c);
    if Skipped(a) then 0 else if Skipped(a + 4) then 1 else if Skipped(a + 8) then 2 else 3
  }

  predicate InPattern(r: int, s: int, i: int) {
    (i == r && s != 0) || (i == r + 4 && s != 1) || (i == r + 8 && s != 2)
  }

  lemma LeapPattern(c: int, i: int)
    requires 0 <= i < 12
    ensures IsLeap(c + i) <==> InPattern(Offset(c), SkipAt(c), i)
  {
    hide IsLeap, Skipped;
    var a := c + Offset(c);
    Fourths(c, i);
    if i % 4 == Offset(c) {
      OneSkip(a);
      assert i == Offset(c) || i == Offset(c) + 4 || i == Offset(c) + 8;
    }
  }

  lemma Fourths(c: int, i: int)
    ensures (c + Offset(c)) % 4 == 0
    ensures i % 4 != Offset(c) ==> !IsLeap(c + i)
  {
    assert i % 4 == Offset(c) || (c + i) % 4 != 0;
  }

  lemma OneSkip(a: int)
    requires a % 4 == 0
    ensures !(Skipped(a) && Skipped(a + 4)) && !(Skipped(a) && Skipped(a + 8)) && !(Skipped(a + 4) && Skipped(a + 8))
    ensures IsLeap(a) == !Skipped(a) && IsLeap(a + 4) == !Skipped(a + 4) && IsLeap(a + 8) == !Skipped(a + 8)
  {
    Multiples(a);
    Multiples(a + 4);
    Multiples(a + 8);
  }

  /** k years later the date has moved on by this many weekdays: one a year, and one more for each leap day. */
  function Moved(r: int, s: int, k: int): int {
    k + (if k > r && s != 0 then 1 else 0) + (if k > r + 4 && s != 1 then 1 else 0)
    + if k > r + 8 && s != 2 then 1 else 0
  }

  function Shift(r: int, s: int, k: int): int {
    var x := Moved(r, s, k);
    if x < 7 then x else if x < 14 then x - 7 else x - 14
  }

  lemma WeekdayStep(day: int, later: int, x: int, leap: bool)
    requires WeekDayOfDay(later) == (WeekDayOfDay(day) + x) % 7
    ensures WeekDayOfDay(later + 365 + if leap then 1 else 0) == (WeekDayOfDay(day) + x + if leap then 2 else 1) % 7
  {
  }

  lemma MovedStep(r: int, s: int, k: int)
    ensures Moved(r, s, k + 1) == Moved(r, s, k) + if InPattern(r, s, k) then 2 else 1
  {
  }

  lemma {:induction false} WeekdayLater(m: int, date: int, y: int, k: nat)
    requires 0 <= m < 12 && k <= 12
    ensures var c := Anchor(m, y);
      WeekDayOfDay(MakeDay(y + k, m, date)) == (WeekDayOfDay(MakeDay(y, m, date)) + Moved(Offset(c), SkipAt(c), k)) % 7
  {
    hide MakeDay, SkipAt, Offset, IsLeap, InPattern;
    if k == 0 {
    } else {
      hide WeekDayOfDay, Moved;
      WeekdayLater(m, date, y, k - 1);
      YearLater(m, date, y + k - 1);
      LeapPattern(Anchor(m, y), k - 1);
      assert Anchor(m, y + k - 1) == Anchor(m, y) + k - 1;
      var r, s := Offset(Anchor(m, y)), SkipAt(Anchor(m, y));
      MovedStep(r, s, k - 1);
      WeekdayStep(MakeDay(y, m, date), MakeDay(y + k - 1, m, date), Moved(r, s, k - 1), InPattern(r, s, k - 1));
    }
  }

  const GAPS := {5, 6, 7, 11, 12}

  /** The first return to the weekday. */
  lemma FirstReturn(r: int, s: int) returns (k: nat)
    requires 0 <= r < 4 && 0 <= s <= 3
    ensures k in GAPS && Shift(r, s, k) == 0 && forall j :: 0 < j < k ==> Shift(r, s, j) != 0
  {
    if Shift(r, s, 5) == 0 {
      k := 5;
    } else if Shift(r, s, 6) == 0 {
      k := 6;
    } else if Shift(r, s, 7) == 0 {
      k := 7;
    } else if Shift(r, s, 11) == 0 {
      k := 11;
    } else {
      k := 12;
    }
  }

  /** A move is passed over only by a leap day, and two leap days are never seven moves apart. */
  lemma Covered(r: int, s: int, t: int) returns (k: nat)
    requires 0 <= r < 4 && 0 <= s <= 3 && 0 <= t < 7
    ensures k < 12 && Shift(r, s, k) == t
  {
    assert Shift(r, s, t) == t || Shift(r, s, t - 1) == t || Shift(r, s, t - 2) == t
        || Shift(r, s, t + 7) == t || Shift(r, s, t + 6) == t || Shift(r, s, t + 5) == t || Shift(r, s, t + 4) == t;
    k :| k < 12 && Shift(r, s, k) == t;
  }

  lemma HitAgain(m: int, date: int, w: int, a: int, k: nat)
    requires 0 <= m < 12 && 1 <= date <= DaysInMonth(m, false) && 0 <= w < 7 && k <= 12
    ensures var c, now := Anchor(m, a), WeekDayOfDay(MakeDay(a, m, date));
      Hit(m, date, w, a + k) <==> Shift(Offset(c), SkipAt(c), k) == (w - now) % 7
  {
    hide MakeDay, SkipAt, Offset, IsLeap, Moved, WeekDayOfDay;
    MonthLength(m, IsLeap(a + k));
    WeekdayLater(m, date, a, k);
    var x := Moved(Offset(Anchor(m, a)), SkipAt(Anchor(m, a)), k);
    MovedRange(Offset(Anchor(m, a)), SkipAt(Anchor(m, a)), k);
    WeekdayRange(MakeDay(a, m, date));
    MovedWeekday(WeekDayOfDay(MakeDay(a, m, date)), x, w);
  }

  lemma MovedRange(r: int, s: int, k: int)
    requires 0 <= k <= 12
    ensures 0 <= Moved(r, s, k) < 21
  {
  }

  lemma WeekdayRange(day: int)
    ensures 0 <= WeekDayOfDay(day) < 7
  {
  }

  lemma MovedWeekday(now: int, x: int, w: int)
    requires 0 <= now < 7 && 0 <= x < 21 && 0 <= w < 7
    ensures (now + x) % 7 == w <==> (if x < 7 then x else if x < 14 then x - 7 else x - 14) == (w - now) % 7
  {
  }

  lemma HitIsToday(m: int, date: int, w: int, a: int)
    requires 0 <= m < 12 && Hit(m, date, w, a)
    ensures 0 <= w < 7 && (w - WeekDayOfDay(MakeDay(a, m, date))) % 7 == 0
  {
    hide MakeDay;
  }

  /** A date that every year has falls on a weekday again after five, six, seven, eleven or twelve years. */
  lemma NextOrdinaryHit(m: int, date: int, w: int, a: int) returns (b: int)
    requires 0 <= m < 12 && 1 <= date <= DaysInMonth(m, false) && Hit(m, date, w, a)
    ensures Consecutive(m, date, w, a, b) && b - a in GAPS
  {
    hide MakeDay, SkipAt, IsLeap, DaysInMonth, Shift, Offset, WeekDayOfDay, Hit;
    var r, s := Offset(Anchor(m, a)), SkipAt(Anchor(m, a));
    var k := FirstReturn(r, s);
    b := a + k;
    HitIsToday(m, date, w, a);
    forall y | a <= y <= b
      ensures Hit(m, date, w, y) <==> Shift(r, s, y - a) == 0
    {
      HitAgain(m, date, w, a, y - a);
    }
  }

  /** Every twelve years hold a hit. */
  lemma OrdinaryHitNear(m: int, date: int, w: int, y: int) returns (h: int)
    requires 0 <= m < 12 && 1 <= date <= DaysInMonth(m, false) && 0 <= w < 7
    ensures y <= h < y + 12 && Hit(m, date, w, h)
  {
    hide MakeDay, SkipAt, IsLeap, DaysInMonth, Shift, Offset, WeekDayOfDay, Hit;
    var r, s, t := Offset(Anchor(m, y)), SkipAt(Anchor(m, y)), (w - WeekDayOfDay(MakeDay(y, m, date))) % 7;
    var k := Covered(r, s, t);
    HitAgain(m, date, w, y, k);
    h := y + k;
  }

  // ----- the 29th of February -----

  const LEAP_GAPS := {12, 28, 40}

  /** Which of the ten multiples of four after a is skipped (11 for none). */
  function SkippedFourth(a: int, i: int): (s: int)
    requires 1 <= i <= 11
    ensures i <= s <= 11 && (s <= 10 ==> Skipped(a + 4 * s))
    ensures forall j :: i <= j < s ==> !Skipped(a + 4 * j)
    decreases 11 - i
  {
    if i == 11 || Skipped(a + 4 * i) then i else SkippedFourth(a, i + 1)
  }

  lemma MultipleOfFour(a: int, i: int)
    requires a % 4 == 0
    ensures (a + 4 * i) % 4 == 0
  {
  }

  lemma FourthIsLeap(a: int, i: int)
    requires a % 4 == 0 && 0 <= i <= 10 && IsLeap(a)
    ensures IsLeap(a + 4 * i) <==> i != SkippedFourth(a, 1)
  {
    hide IsLeap, Skipped;
    var s := SkippedFourth(a, 1);
    assert (a + 4 * i) % 4 == 0;
    LeapIffNotSkipped(a + 4 * i);
    LeapIffNotSkipped(a);
    if s < i {
      CenturiesApart(a + 4 * s, a + 4 * i);
    }
  }

  lemma LeapIffNotSkipped(y: int)
    requires y % 4 == 0
    ensures IsLeap(y) <==> !Skipped(y)
  {
    Multiples(y);
  }

  lemma CenturiesApart(x: int, y: int)
    requires x < y < x + 100 && Skipped(x)
    ensures !Skipped(y)
  {
  }

  lemma FourYears(y: int)
    requires y % 4 == 0
    ensures DayFromYear(y + 4) == DayFromYear(y) + 1460 + if IsLeap(y) then 1 else 0
  {
    hide DayFromYear, IsLeap;
    YearLength(y);
    YearLength(y + 1);
    YearLength(y + 2);
    YearLength(y + 3);
    NoLeapWithin(y, y + 1);
    NoLeapWithin(y, y + 2);
    NoLeapWithin(y, y + 3);
  }

  lemma {:induction false} FourthYearDay(a: int, i: int)
    requires a % 4 == 0 && 0 <= i <= 10 && IsLeap(a)
    ensures DayFromYear(a + 4 * i) == DayFromYear(a) + 1461 * i - if i > SkippedFourth(a, 1) then 1 else 0
  {
    hide DayFromYear, IsLeap, SkippedFourth, Skipped;
    if i == 0 {
    } else {
      var y := a + 4 * (i - 1);
      FourthYearDay(a, i - 1);
      MultipleOfFour(a, i - 1);
      FourYears(y);
      FourthIsLeap(a, i - 1);
    }
  }

  /** In i times four years the leap day moves on by five weekdays each, and one less past a skipped century. */
  function LeapShift(s: int, i: int): int {
    (5 * i - if i > s then 1 else 0) % 7
  }

  lemma LeapHitAgain(w: int, a: int, i: int)
    requires IsLeap(a) && 0 <= i <= 10 && 0 <= w < 7
    ensures var s := SkippedFourth(a, 1);
      Hit(1, 29, w, a + 4 * i) <==> i != s && LeapShift(s, i) == (w - WeekDayOfDay(LeapDay(a))) % 7
  {
    hide DayFromYear, IsLeap, SkippedFourth, LeapDay;
    LeapIsFourth(a);
    FourthIsLeap(a, i);
    FourthYearDay(a, i);
    LeapDayIs(a);
    if IsLeap(a + 4 * i) {
      LeapDayIs(a + 4 * i);
      LeapWeekday(LeapDay(a), LeapDay(a + 4 * i), i, if i > SkippedFourth(a, 1) then 1 else 0, w);
      LeapDayIsMade(a + 4 * i);
    }
  }

  lemma LeapDayIsMade(y: int)
    ensures MakeDay(y, 1, 29) == LeapDay(y)
  {
  }

  lemma LeapWeekday(day: int, later: int, i: int, less: int, w: int)
    requires later == day + 1461 * i - less && 0 <= w < 7
    ensures WeekDayOfDay(later) == w <==> (5 * i - less) % 7 == (w - WeekDayOfDay(day)) % 7
  {
    hide WeekDayOfDay;
    WeekdayAfter(day, 5 * i - less, 208 * i);
    WeekdayRange(day);
    WeekdayMoves(WeekDayOfDay(day), (5 * i - less) % 7, w);
  }

  lemma WeekdayAfter(day: int, x: int, weeks: int)
    ensures WeekDayOfDay(day + x + 7 * weeks) == (WeekDayOfDay(day) + x % 7) % 7
  {
    var d := 4 + day;
    assert d + x + 7 * weeks == d % 7 + x % 7 + 7 * (d / 7 + x / 7 + weeks);
    WholeWeeks(d % 7 + x % 7, d / 7 + x / 7 + weeks);
  }

  lemma WholeWeeks(x: int, weeks: int)
    ensures (x + 7 * weeks) % 7 == x % 7
  {
  }

  lemma WeekdayMoves(now: int, x: int, w: int)
    requires 0 <= now < 7 && 0 <= x < 7 && 0 <= w < 7
    ensures (now + x) % 7 == w <==> x == (w - now) % 7
  {
  }

  lemma NoHitBetweenFourths(w: int, y: int)
    requires y % 4 != 0
    ensures !Hit(1, 29, w, y)
  {
  }

  /** A 29 February falls on a weekday again after 28 years, or 12 or 40 across a skipped century. */
  lemma NextLeapHit(w: int, a: int) returns (b: int)
    requires Hit(1, 29, w, a)
    ensures Consecutive(1, 29, w, a, b) && b - a in LEAP_GAPS
  {
    hide SkippedFourth, WeekDayOfDay, LeapDay, MakeDay;
    HitIsLeap(w, a);
    hide Hit, IsLeap;
    var s := SkippedFourth(a, 1);
    var k := if s <= 2 then 3 else if s <= 7 then 10 else 7;
    b := a + 4 * k;
    LeapHitAgain(w, a, k);
    forall y | a < y < b
      ensures !Hit(1, 29, w, y)
    {
      if y % 4 == 0 {
        var i := FourthIndex(a, y);
        LeapHitAgain(w, a, i);
        FiveTimes(s, i, k);
      } else {
        NoHitBetweenFourths(w, y);
      }
    }
  }

  lemma FourthIndex(a: int, y: int) returns (i: int)
    requires a % 4 == 0 && y % 4 == 0
    ensures y == a + 4 * i
  {
    i := (y - a) / 4;
  }

  lemma FiveTimes(s: int, i: int, k: int)
    requires 1 <= s <= 11 && 0 < i < k && k == if s <= 2 then 3 else if s <= 7 then 10 else 7
    ensures i == s || LeapShift(s, i) != 0
  {
  }

  lemma HitIsLeap(w: int, a: int)
    requires Hit(1, 29, w, a)
    ensures IsLeap(a) && a % 4 == 0 && 0 <= w < 7 && (w - WeekDayOfDay(LeapDay(a))) % 7 == 0
  {
  }

  /** From a leap year on, every weekday has its leap day within forty years. */
  lemma LeapHitNear(w: int, a: int) returns (h: int)
    requires IsLeap(a) && 0 <= w < 7
    ensures a <= h <= a + 40 && Hit(1, 29, w, h)
  {
    hide SkippedFourth, WeekDayOfDay, LeapDay, Hit, IsLeap, LeapShift;
    var s, t := SkippedFourth(a, 1), (w - WeekDayOfDay(LeapDay(a))) % 7;
    var i := LeapCovered(s, t);
    LeapHitAgain(w, a, i);
    h := a + 4 * i;
  }

  lemma LeapCovered(s: int, t: int) returns (i: int)
    requires 1 <= s <= 11 && 0 <= t < 7
    ensures 0 <= i <= 10 && i != s && LeapShift(s, i) == t
  {
    // modulo seven, five times three is one
    i := (3 * t) % 7;
    if i >= s {
      i := i + 3;
    }
  }

  // ----- every date -----

  predicate Real(m: int, date: int)
    requires 0 <= m < 12
  {
    1 <= date <= DaysInMonth(m, true)
  }

  predicate Gap(m: int, date: int, years: int)
    requires 0 <= m < 12
  {
    if date <= DaysInMonth(m, false) then years in GAPS else years in LEAP_GAPS
  }

  lemma OnlyLeapDayIsRare(m: int, date: int)
    requires 0 <= m < 12 && Real(m, date) && date > DaysInMonth(m, false)
    ensures m == 1 && date == 29
  {
    MonthLength(m, true);
    MonthLength(m, false);
  }

  lemma NextHit(m: int, date: int, w: int, a: int) returns (b: int)
    requires 0 <= m < 12 && Real(m, date) && Hit(m, date, w, a)
    ensures Consecutive(m, date, w, a, b) && Gap(m, date, b - a)
  {
    hide Hit, DaysInMonth;
    if date <= DaysInMonth(m, false) {
      b := NextOrdinaryHit(m, date, w, a);
    } else {
      OnlyLeapDayIsRare(m, date);
      b := NextLeapHit(w, a);
    }
  }

  lemma HitNear(m: int, date: int, w: int, y: int) returns (h: int)
    requires 0 <= m < 12 && Real(m, date) && 0 <= w < 7
    ensures y < h <= y + 48 && Hit(m, date, w, h)
  {
    hide Hit, DaysInMonth;
    if date <= DaysInMonth(m, false) {
      h := OrdinaryHitNear(m, date, w, y + 1);
    } else {
      OnlyLeapDayIsRare(m, date);
      h := LeapHitNear(w, LeapAtOrBefore(y + 8));
    }
  }

  // ----- every start lies between two hits -----

  lemma {:induction false} Climb(m: int, date: int, w: int, last: int, a: int, f: int) returns (l: int, n: int)
    requires 0 <= m < 12 && Real(m, date) && 0 <= w < 7 && 0 <= last < 1440
    requires Hit(m, date, w, a) && At(MakeDay(a, m, date), last) <= f
    ensures Consecutive(m, date, w, l, n) && Gap(m, date, n - l)
    ensures At(MakeDay(l, m, date), last) <= f < At(MakeDay(n, m, date), last)
    decreases Year(f) - a
  {
    hide MakeDay, DaysInMonth, YearFromDay, DayFromYear, Hit;
    var b := NextHit(m, date, w, a);
    LaterYearLaterDay(m, date, w, a, b);
    if f < At(MakeDay(b, m, date), last) {
      l, n := a, b;
    } else {
      NotAfter(m, date, w, last, b, f);
      l, n := Climb(m, date, w, last, b, f);
    }
  }

  lemma NotAfter(m: int, date: int, w: int, last: int, b: int, f: int)
    requires 0 <= m < 12 && 0 <= last < 1440 && Hit(m, date, w, b) && At(MakeDay(b, m, date), last) <= f
    ensures b <= Year(f)
  {
    hide MakeDay, YearFromDay, Hit, DayFromYear;
    InItsYear(m, date, w, b);
    if Year(f) < b {
      YearsIncrease(Year(f) + 1, b);
    }
  }

  lemma Behind(m: int, date: int, w: int, last: int, h: int, f: int)
    requires 0 <= m < 12 && 0 <= last < 1440 && Hit(m, date, w, h) && h < Year(f)
    ensures At(MakeDay(h, m, date), last) <= f
  {
    hide MakeDay, YearFromDay, Hit, DayFromYear;
    InItsYear(m, date, w, h);
    YearsIncrease(h + 1, Year(f));
  }

  /**
   * Every start lies between two hits, and the result is null iff the next one begins only after
   * the window. Hits are five years apart or more, so after each of them some starts give null.
   */
  lemma OneDayScheduleFires(p: ParsedCron, m: int, date: int, w: int, first: int, last: int, from: TimeValue)
    returns (a: int, b: int)
    requires Valid(p) && OneDay(p, m, date, w) && Real(m, date)
    requires FirstSlot(p, first) && LastSlot(p, last) && from.Ms?
    ensures Consecutive(m, date, w, a, b) && Gap(m, date, b - a)
    ensures At(MakeDay(a, m, date), last) <= from.ms < At(MakeDay(b, m, date), last)
    ensures Reaches(p, from) ==>
      (NextRun(p, from).None? <==> from.ms + WINDOW <= At(MakeDay(b, m, date), first))
    ensures At(MakeDay(a, m, date), last) + WINDOW < At(MakeDay(b, m, date), first)
  {
    hide Matches, MakeDay, YearFromDay, NextRun, Reaches, Hit, FirstSlot, LastSlot, DaysInMonth;
    SlotsInOrder(p, first, last);
    WeekdayAllowed(p, m, date, w);
    var h := HitNear(m, date, w, Year(from.ms) - 49);
    Behind(m, date, w, last, h, from.ms);
    a, b := Climb(m, date, w, last, h, from.ms);
    YearsLater(m, date, a, b - a);
    if Reaches(p, from) {
      ConsecutiveDays(p, m, date, w, a, b);
      NullIffNextIsFar(p, MakeDay(a, m, date), MakeDay(b, m, date), first, last, from);
    }
  }

  lemma WeekdayAllowed(p: ParsedCron, m: int, date: int, w: int)
    requires Valid(p) && OneDay(p, m, date, w)
    ensures 0 <= w < 7
  {
    assert w in p.dayOfWeek;
  }
}
