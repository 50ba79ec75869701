/**
 * UTC time values and the Date setters the cron search uses, as section 21.4.1 of ECMA-262
 * defines them: a time value is a whole number of milliseconds since 1970-01-01, or NaN.
 * Dafny's `/` and `%` by a positive constant are the floor and modulo of that section.
 */
module Calendar {
  const MS_PER_MINUTE := 60_000
  const MS_PER_HOUR := 3_600_000
  const MS_PER_DAY := 86_400_000
  const MAX_TIME := 8_640_000_000_000_000

  datatype TimeValue = NaN | Ms(ms: int)

  function TimeClip(t: int): TimeValue {
    if -MAX_TIME <= t <= MAX_TIME then Ms(t) else NaN
  }

  predicate Clipped(t: TimeValue) {
    t.NaN? || -MAX_TIME <= t.ms <= MAX_TIME
  }

  // ----- days, years, months -----

  predicate IsLeap(y: int) {
    y % 4 == 0 && (y % 100 != 0 || y % 400 == 0)
  }

  function DaysInYear(y: int): int {
    if IsLeap(y) then 366 else 365
  }

  /** Day number of 1 January of year y. */
  function DayFromYear(y: int): int {
    365 * (y - 1970) + (y - 1969) / 4 - (y - 1901) / 100 + (y - 1601) / 400
  }

  /** Days of the year before month m (0 = January; 12 gives the length of the year). */
  function DaysBeforeMonth(m: int, leap: bool): int
    requires 0 <= m <= 12
  {
    var extra := if leap && m >= 2 then 1 else 0;
    extra + (if m == 0 then 0 else if m == 1 then 31 else if m == 2 then 59 else if m == 3 then 90
             else if m == 4 then 120 else if m == 5 then 151 else if m == 6 then 181 else if m == 7 then 212
             else if m == 8 then 243 else if m == 9 then 273 else if m == 10 then 304
             else if m == 11 then 334 else 365)
  }

  function DaysInMonth(m: int, leap: bool): int
    requires 0 <= m < 12
  {
    DaysBeforeMonth(m + 1, leap) - DaysBeforeMonth(m, leap)
  }

  lemma FourthYears(y: int)
    ensures (y - 1968) / 4 == (y - 1969) / 4 + if y % 4 == 0 then 1 else 0
  {
  }

  lemma Centuries(y: int)
    ensures (y - 1900) / 100 == (y - 1901) / 100 + if y % 100 == 0 then 1 else 0
  {
  }

  lemma FourthCenturies(y: int)
    ensures (y - 1600) / 400 == (y - 1601) / 400 + if y % 400 == 0 then 1 else 0
  {
  }

  lemma HundredTimes(k: int)
    ensures (100 * k) % 100 == 0
  {
  }

  lemma FourTimes(k: int)
    ensures (4 * k) % 4 == 0
  {
  }

  lemma Multiples(y: int)
    ensures y % 400 == 0 ==> y % 100 == 0
    ensures y % 100 == 0 ==> y % 4 == 0
  {
    HundredTimes(4 * (y / 400));
    FourTimes(25 * (y / 100));
  }

  lemma YearLength(y: int)
    ensures DayFromYear(y + 1) == DayFromYear(y) + DaysInYear(y)
  {
    FourthYears(y);
    Centuries(y);
    FourthCenturies(y);
    Multiples(y);
    YearLengthFrom(y, (y - 1969) / 4, (y - 1901) / 100, (y - 1601) / 400);
  }

  lemma YearLengthFrom(y: int, a: int, b: int, c: int)
    requires DayFromYear(y) == 365 * (y - 1970) + a - b + c
    requires DayFromYear(y + 1) == 365 * (y - 1969) + (a + if y % 4 == 0 then 1 else 0)
        - (b + if y % 100 == 0 then 1 else 0) + (c + if y % 400 == 0 then 1 else 0)
    requires (y % 400 == 0 ==> y % 100 == 0) && (y % 100 == 0 ==> y % 4 == 0)
    ensures DayFromYear(y + 1) == DayFromYear(y) + DaysInYear(y)
  {
    hide DayFromYear;
  }

  lemma {:induction false} YearsIncrease(a: int, b: int)
    requires a <= b
    ensures DayFromYear(a) + 365 * (b - a) <= DayFromYear(b) <= DayFromYear(a) + 366 * (b - a)
    decreases b - a
  {
    if a == b {
    } else {
      YearsIncrease(a, b - 1);
      YearLength(b - 1);
    }
  }

  /** The year that holds day number d: the largest y whose 1 January is not after d. */
  function YearFromDay(d: int): (y: int)
    ensures DayFromYear(y) <= d < DayFromYear(y + 1)
  {
    YearNear(d, 1970)
  }

  function YearNear(d: int, guess: int): (y: int)
    ensures DayFromYear(y) <= d < DayFromYear(y + 1)
    decreases if d < DayFromYear(guess) then DayFromYear(guess) - d + 400 else d - DayFromYear(guess)
  {
    YearLength(guess);
    YearLength(guess - 1);
    if d < DayFromYear(guess) then YearNear(d, guess - 1)
    else if d >= DayFromYear(guess + 1) then YearNear(d, guess + 1)
    else guess
  }

  lemma YearUnique(d: int, y: int)
    requires DayFromYear(y) <= d < DayFromYear(y + 1)
    ensures YearFromDay(d) == y
  {
    var x := YearFromDay(d);
    if x < y {
      YearsIncrease(x + 1, y);
    } else if y < x {
      YearsIncrease(y + 1, x);
    }
  }

  function MonthOfYearDay(n: int, leap: bool): (m: int)
    ensures 0 <= m < 12
    ensures 0 <= n < DaysBeforeMonth(12, leap) ==> DaysBeforeMonth(m, leap) <= n < DaysBeforeMonth(m + 1, leap)
  {
    if n < DaysBeforeMonth(1, leap) then 0 else if n < DaysBeforeMonth(2, leap) then 1
    else if n < DaysBeforeMonth(3, leap) then 2 else if n < DaysBeforeMonth(4, leap) then 3
    else if n < DaysBeforeMonth(5, leap) then 4 else if n < DaysBeforeMonth(6, leap) then 5
    else if n < DaysBeforeMonth(7, leap) then 6 else if n < DaysBeforeMonth(8, leap) then 7
    else if n < DaysBeforeMonth(9, leap) then 8 else if n < DaysBeforeMonth(10, leap) then 9
    else if n < DaysBeforeMonth(11, leap) then 10 else 11
  }

  function MonthFromDay(d: int): (m: int)
    ensures 0 <= m < 12
  {
    var y := YearFromDay(d);
    MonthOfYearDay(d - DayFromYear(y), IsLeap(y))
  }

  function DateFromDay(d: int): int {
    var y := YearFromDay(d);
    d - DayFromYear(y) - DaysBeforeMonth(MonthFromDay(d), IsLeap(y)) + 1
  }

  function WeekDayOfDay(d: int): int {
    (d + 4) % 7
  }

  /** The day number of a year, month and date, any of which may run over. */
  function MakeDay(year: int, month: int, date: int): int {
    var y := year + month / 12;
    DayFromYear(y) + DaysBeforeMonth(month % 12, IsLeap(y)) + date - 1
  }

  /** Thirty days hath September, April, June and November. */
  lemma MonthLengths(m: int, leap: bool)
    requires 0 <= m < 12
    ensures DaysInMonth(m, leap) ==
      if m == 1 then (if leap then 29 else 28) else if m in {3, 5, 8, 10} then 30 else 31
  {
  }

  lemma Epochs()
    ensures MakeDay(1970, 0, 1) == 0 && MakeDay(2000, 0, 1) == 10957
  {
    assert DayFromYear(1970) == 0 && DayFromYear(2000) == 10957;
    hide DayFromYear, IsLeap;
    JanuaryFirst(1970);
    JanuaryFirst(2000);
  }

  lemma JanuaryFirst(y: int)
    ensures MakeDay(y, 0, 1) == DayFromYear(y)
  {
    hide DayFromYear, IsLeap;
    var m := 0;
    assert m / 12 == 0 && m % 12 == 0;
  }

  /** Day 0 was a Thursday, 1 January 1970; weekdays follow each other from there, Sunday being 0. */
  lemma WeekdaysFollow(d: int)
    ensures 0 <= WeekDayOfDay(d) < 7 && WeekDayOfDay(0) == 4
    ensures WeekDayOfDay(d + 1) == if WeekDayOfDay(d) == 6 then 0 else WeekDayOfDay(d) + 1
  {
    assert d + 4 == 7 * ((d + 4) / 7) + WeekDayOfDay(d);
  }

  lemma MonthLength(m: int, leap: bool)
    requires 0 <= m < 12
    ensures 28 <= DaysInMonth(m, leap) <= 31
    ensures DaysInMonth(m, false) <= DaysInMonth(m, leap)
    ensures m != 1 ==> DaysInMonth(m, leap) == DaysInMonth(m, false) >= 30
    ensures m == 1 ==> DaysInMonth(m, leap) == if leap then 29 else 28
  {
  }

  /** Splitting a day number and putting it together again gives the day back. */
  lemma DaySplits(d: int)
    ensures MakeDay(YearFromDay(d), MonthFromDay(d), DateFromDay(d)) == d
    ensures 1 <= DateFromDay(d) <= DaysInMonth(MonthFromDay(d), IsLeap(YearFromDay(d))) <= 31
  {
    hide YearFromDay, DayFromYear, MonthOfYearDay, IsLeap, DaysBeforeMonth;
    var y := YearFromDay(d);
    var leap := IsLeap(y);
    YearLength(y);
    var m := MonthOfYearDay(d - DayFromYear(y), leap);
    WholeYear(y);
    MonthLength(m, leap);
    assert m / 12 == 0 && m % 12 == m;
  }

  lemma WholeYear(y: int)
    ensures DaysBeforeMonth(12, IsLeap(y)) == DaysInYear(y)
  {
  }

  /** Every real calendar date is split into itself: the two directions make a bijection. */
  lemma DateSplits(y: int, m: int, date: int)
    requires 0 <= m < 12 && 1 <= date <= DaysInMonth(m, IsLeap(y))
    ensures YearFromDay(MakeDay(y, m, date)) == y
    ensures MonthFromDay(MakeDay(y, m, date)) == m
    ensures DateFromDay(MakeDay(y, m, date)) == date
  {
    var d := MakeDay(y, m, date);
    var leap := IsLeap(y);
    assert m / 12 == 0 && m % 12 == m;
    var n := d - DayFromYear(y);
    assert n == DaysBeforeMonth(m, leap) + date - 1;
    MonthsIncrease(m, leap);
    YearLength(y);
    assert DaysBeforeMonth(12, leap) == DaysInYear(y);
    YearUnique(d, y);
    MonthUnique(n, leap, m);
  }

  lemma MonthsIncrease(m: int, leap: bool)
    requires 0 <= m < 12
    ensures 0 <= DaysBeforeMonth(m, leap) < DaysBeforeMonth(m + 1, leap) <= DaysBeforeMonth(12, leap)
  {
  }

  lemma MonthUnique(n: int, leap: bool, m: int)
    requires 0 <= m < 12 && DaysBeforeMonth(m, leap) <= n < DaysBeforeMonth(m + 1, leap)
    ensures MonthOfYearDay(n, leap) == m
  {
  }

  // ----- fields of a time -----

  function Day(t: int): int { t / MS_PER_DAY }
  function TimeWithinDay(t: int): int { t % MS_PER_DAY }
  function Hour(t: int): int { (t / MS_PER_HOUR) % 24 }
  function Minute(t: int): int { (t / MS_PER_MINUTE) % 60 }
  function Second(t: int): int { (t / 1000) % 60 }
  function Milli(t: int): int { t % 1000 }
  function Year(t: int): int { YearFromDay(Day(t)) }
  function Month(t: int): int { MonthFromDay(Day(t)) }
  function Date(t: int): int { DateFromDay(Day(t)) }
  function WeekDay(t: int): int { WeekDayOfDay(Day(t)) }

  function MakeTime(hour: int, min: int, sec: int, ms: int): int {
    hour * MS_PER_HOUR + min * MS_PER_MINUTE + sec * 1000 + ms
  }

  function MakeDate(day: int, time: int): int {
    day * MS_PER_DAY + time
  }

  // ----- the setters, as functions of the time value (section 21.4.4 of ECMA-262) -----

  function WithSeconds(t: TimeValue, sec: int, ms: int): TimeValue {
    if t.NaN? then NaN else TimeClip(MakeDate(Day(t.ms), MakeTime(Hour(t.ms), Minute(t.ms), sec, ms)))
  }

  function WithMinutes(t: TimeValue, min: int, sec: int, ms: int): TimeValue {
    if t.NaN? then NaN else TimeClip(MakeDate(Day(t.ms), MakeTime(Hour(t.ms), min, sec, ms)))
  }

  function WithHours(t: TimeValue, hour: int, min: int, sec: int, ms: int): TimeValue {
    if t.NaN? then NaN else TimeClip(MakeDate(Day(t.ms), MakeTime(hour, min, sec, ms)))
  }

  function WithDate(t: TimeValue, date: int): TimeValue {
    if t.NaN? then NaN
    else TimeClip(MakeDate(MakeDay(Year(t.ms), Month(t.ms), date), TimeWithinDay(t.ms)))
  }

  function WithMonth(t: TimeValue, month: int): TimeValue {
    if t.NaN? then NaN
    else TimeClip(MakeDate(MakeDay(Year(t.ms), month, Date(t.ms)), TimeWithinDay(t.ms)))
  }

  /** A mutable Date, changed in place by its setters. */
  class UtcDate {
    var time: TimeValue

    constructor (t: TimeValue)
      ensures time == t
    {
      time := t;
    }

    /** The getters. On an Invalid Date they give NaN, and every setter then leaves it invalid. */
    function UTCMinutes(): int reads this { if time.NaN? then 0 else Minute(time.ms) }
    function UTCHours(): int reads this { if time.NaN? then 0 else Hour(time.ms) }
    function UTCDate(): int reads this { if time.NaN? then 0 else Date(time.ms) }
    function UTCMonth(): int reads this { if time.NaN? then 0 else Month(time.ms) }

    method SetUTCSeconds(sec: int, ms: int)
      modifies this
      ensures time == WithSeconds(old(time), sec, ms)
    {
      time := WithSeconds(time, sec, ms);
    }

    /** setUTCMinutes with one argument: seconds and milliseconds stay. */
    method SetUTCMinutes(min: int)
      modifies this
      ensures time == if old(time).NaN? then NaN
                      else WithMinutes(old(time), min, Second(old(time).ms), Milli(old(time).ms))
    {
      if time.Ms? {
        time := WithMinutes(time, min, Second(time.ms), Milli(time.ms));
      }
    }

    method SetUTCMinutesSecondsMs(min: int, sec: int, ms: int)
      modifies this
      ensures time == WithMinutes(old(time), min, sec, ms)
    {
      time := WithMinutes(time, min, sec, ms);
    }

    /** setUTCHours with one argument: minutes, seconds and milliseconds stay. */
    method SetUTCHours(hour: int)
      modifies this
      ensures time == if old(time).NaN? then NaN
                      else WithHours(old(time), hour, Minute(old(time).ms), Second(old(time).ms), Milli(old(time).ms))
    {
      if time.Ms? {
        time := WithHours(time, hour, Minute(time.ms), Second(time.ms), Milli(time.ms));
      }
    }

    method SetUTCHoursMinutesSecondsMs(hour: int, min: int, sec: int, ms: int)
      modifies this
      ensures time == WithHours(old(time), hour, min, sec, ms)
    {
      time := WithHours(time, hour, min, sec, ms);
    }

    method SetUTCDate(date: int)
      modifies this
      ensures time == WithDate(old(time), date)
    {
      time := WithDate(time, date);
    }

    method SetUTCMonth(month: int)
      modifies this
      ensures time == WithMonth(old(time), month)
    {
      time := WithMonth(time, month);
    }
  }
}
