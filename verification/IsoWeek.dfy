/** ISO 8601 week dates (fmt/chrono.h) against the proleptic Gregorian calendar. Days are numbered from
    Monday, 1 January of year 1. */
module IsoWeek {

  /** Days before 1 January of a year, by the Gregorian leap rule. */
  function DaysBefore(year: int): int
  {
    var y := year - 1;
    365 * y + y / 4 - y / 100 + y / 400
  }

  predicate Leap(year: int)
  {
    year % 4 == 0 && (year % 100 != 0 || year % 400 == 0)
  }

  function DaysIn(year: int): (n: int)
  {
    if Leap(year) then 366 else 365
  }

  lemma YearFollows(year: int)
    ensures DaysBefore(year + 1) == DaysBefore(year) + DaysIn(year)
  {
    var y := year - 1;
    Quotient(y, 4);
    Quotient(y, 100);
    Quotient(y, 400);
    Multiples(year);
  }

  lemma Quotient(y: int, d: int)
    requires d == 4 || d == 100 || d == 400
    ensures (y + 1) / d == y / d + (if (y + 1) % d == 0 then 1 else 0)
  {
  }

  lemma Multiples(year: int)
    ensures year % 400 == 0 ==> year % 100 == 0
    ensures year % 100 == 0 ==> year % 4 == 0
  {
  }

  /** The weekday of a day, Sunday being 0 as in `struct tm`. */
  function Weekday(day: int): (w: int)
    ensures 0 <= w <= 6
  {
    (day + 1) % 7
  }

  /** The Thursday of the week, from Monday to Sunday, in which a day lies. */
  function Thursday(day: int): int
  {
    day - day % 7 + 3
  }

  /** A week date: the year of the week's Thursday, and how many Thursdays that year has had. */
  predicate WeekDate(day: int, weekYear: int, week: int)
  {
    var t := Thursday(day);
    DaysBefore(weekYear) <= t < DaysBefore(weekYear + 1) && week == (t - DaysBefore(weekYear)) / 7 + 1
  }

  // The source, whose division truncates.

  function Div(a: int, b: int): int
    requires b > 0
  {
    if a >= 0 then a / b else -((-a) / b)
  }

  function Mod(a: int, b: int): int
    requires b > 0
  {
    a - b * Div(a, b)
  }

  /** The weekday number of 31 December. */
  function YearEnd(y: int): int
  {
    Mod(y + Div(y, 4) - Div(y, 100) + Div(y, 400), 7)
  }

  function IsoYearWeeks(year: int): int
  {
    52 + if YearEnd(year) == 4 || YearEnd(year - 1) == 3 then 1 else 0
  }

  function IsoWeekNum(yday: int, wday: int): int
  {
    Div(yday + 11 - (if wday == 0 then 7 else wday), 7)
  }

  function TmIsoWeekYear(year: int, yday: int, wday: int): int
  {
    var w := IsoWeekNum(yday, wday);
    if w < 1 then year - 1 else if w > IsoYearWeeks(year) then year + 1 else year
  }

  function TmIsoWeekOfYear(year: int, yday: int, wday: int): int
  {
    var w := IsoWeekNum(yday, wday);
    if w < 1 then IsoYearWeeks(year - 1) else if w > IsoYearWeeks(year) then 1 else w
  }

  /** A year of 53 weeks: it begins or ends on a Thursday. */
  predicate Long(year: int)
  {
    DaysBefore(year) % 7 == 3 || (DaysBefore(year + 1) - 1) % 7 == 3
  }

  lemma YearEndIs(y: int)
    requires y >= 0
    ensures YearEnd(y) == DaysBefore(y + 1) % 7
  {
    var n := y + y / 4 - y / 100 + y / 400;
    assert n >= 0 && YearEnd(y) == Mod(n, 7);
    assert DaysBefore(y + 1) == n + 7 * (52 * y);
    SevenTimes(n, 52 * y);
  }

  lemma SevenTimes(n: int, k: int)
    requires n >= 0
    ensures Mod(n, 7) == (n + 7 * k) % 7
  {
  }

  lemma NegativeYearEnd(y: int)
    requires y < 0
    ensures YearEnd(y) <= 0
  {
    var n := y + Div(y, 4) - Div(y, 100) + Div(y, 400);
    assert n <= 0;
  }

  /** From year 0 on the source counts the weeks of a year right; before, it always takes 52. */
  lemma YearWeeks(year: int)
    ensures year >= 0 ==> IsoYearWeeks(year) == (if Long(year) then 53 else 52)
    ensures year < 0 ==> IsoYearWeeks(year) == 52
  {
    hide YearEnd, DaysBefore;
    if year >= 1 {
      YearEndIs(year);
      YearEndIs(year - 1);
    } else if year == 0 {
      YearEndIs(0);
      NegativeYearEnd(-1);
      YearZero();
    } else {
      NegativeYearEnd(year);
      NegativeYearEnd(year - 1);
    }
  }

  /** Year 0 began on a Saturday and ended on a Sunday. */
  lemma YearZero()
    ensures DaysBefore(0) % 7 == 5 && DaysBefore(1) % 7 == 0 && DaysIn(-1) == 365
  {
  }

  /** The week number the source starts from, by where the Thursday falls in the year. */
  lemma WeekFromThursday(year: int, yday: int)
    requires 0 <= yday < DaysIn(year)
    ensures var day := DaysBefore(year) + yday; var t := Thursday(day) - DaysBefore(year);
            -3 <= t <= 368 && IsoWeekNum(yday, Weekday(day)) == (t + 7) / 7 &&
            (DaysBefore(year) + t) % 7 == 3
  {
    hide DaysBefore, Leap;
    var day := DaysBefore(year) + yday;
    var m := day % 7;
    assert Weekday(day) == if m == 6 then 0 else m + 1;
    assert IsoWeekNum(yday, Weekday(day)) == (yday - m + 3 + 7) / 7;
    assert (day - m + 3) % 7 == 3;
  }

  /** Which Thursdays make a week 53, by the weekday of 1 January and the length of the year. */
  lemma LastWeek(start: int, days: int, t: int)
    requires (days == 365 || days == 366) && (start + t) % 7 == 3 && 357 <= t < 371
    ensures 364 <= t < days ==> start % 7 == 3 || (start + days - 1) % 7 == 3
    ensures t >= days && t < days + 3 ==> !(start % 7 == 3 || (start + days - 1) % 7 == 3)
    ensures t < 364 && t + 7 >= days ==> !(start % 7 == 3 || (start + days - 1) % 7 == 3)
  {
    var s := start % 7;
    assert (s + t) % 7 == 3;
  }

  /** The year of the Thursday of a day's week, from the day's own year. */
  function WeekYear(year: int, yday: int): int
  {
    var t := Thursday(DaysBefore(year) + yday);
    if t < DaysBefore(year) then year - 1 else if t >= DaysBefore(year + 1) then year + 1 else year
  }

  function Week(year: int, yday: int): int
  {
    (Thursday(DaysBefore(year) + yday) - DaysBefore(WeekYear(year, yday))) / 7 + 1
  }

  lemma {:induction false} YearsInOrder(a: int, b: int)
    requires a <= b
    ensures DaysBefore(a) <= DaysBefore(b)
    decreases b - a
  {
    hide DaysBefore, Leap;
    if a < b {
      YearsInOrder(a, b - 1);
      YearFollows(b - 1);
    }
  }

  /** A day has one week date, the one by its own year. */
  lemma WeekDateUnique(year: int, yday: int, weekYear: int, week: int)
    requires 0 <= yday < DaysIn(year)
    ensures WeekDate(DaysBefore(year) + yday, weekYear, week) <==>
            weekYear == WeekYear(year, yday) && week == Week(year, yday)
  {
    hide DaysBefore, Leap;
    YearFollows(year - 1);
    YearFollows(year);
    YearFollows(year + 1);
    var y := WeekYear(year, yday);
    if weekYear < y { YearsInOrder(weekYear + 1, y); }
    if y < weekYear { YearsInOrder(y + 1, weekYear); }
  }

  /** The week date of the source is the one of ISO 8601 for every date from year 0 on, and before that for
      every date that is not in a week 53. */
  lemma IsoWeekDate(year: int, yday: int)
    requires 0 <= yday < DaysIn(year)
    ensures var day := DaysBefore(year) + yday; var wday := Weekday(day);
            WeekDate(day, TmIsoWeekYear(year, yday, wday), TmIsoWeekOfYear(year, yday, wday)) <==>
            year >= 0 || Week(year, yday) != 53
  {
    hide DaysBefore, Leap, WeekDate, Thursday, IsoYearWeeks, IsoWeekNum;
    var day := DaysBefore(year) + yday;
    var wday, t := Weekday(day), Thursday(day) - DaysBefore(year);
    WeekDateUnique(year, yday, TmIsoWeekYear(year, yday, wday), TmIsoWeekOfYear(year, yday, wday));
    WeekFromThursday(year, yday);
    YearFollows(year - 1);
    YearFollows(year);
    YearWeeks(year);
    YearWeeks(year - 1);
    if t < 0 {
      LastWeek(DaysBefore(year - 1), DaysIn(year - 1), t + DaysIn(year - 1));
      if year == 0 { YearZero(); }
    } else if t >= 357 {
      LastWeek(DaysBefore(year), DaysIn(year), t);
    }
  }

  /** Wednesday, 30 December of year -2, lies in week 53; the source says week 1 of year -1. */
  lemma NegativeYearMissed()
    ensures Week(-2, 363) == 53
    ensures var wday := Weekday(DaysBefore(-2) + 363);
            TmIsoWeekYear(-2, 363, wday) == -1 && TmIsoWeekOfYear(-2, 363, wday) == 1
  {
    assert DaysBefore(-2) == -1096 && DaysBefore(-1) == -731;
    hide DaysBefore, IsoYearWeeks;
    assert Thursday(-733) == -732 && Weekday(-733) == 3;
    YearWeeks(-2);
    assert WeekYear(-2, 363) == -2;
  }

  lemma KnownYears()
    ensures DaysBefore(2000) == 730119 && DaysBefore(2004) == 731580 && DaysBefore(2005) == 731946
    ensures DaysBefore(2009) == 733407 && DaysBefore(2010) == 733772
  {
  }

  /** Known dates: 1 January 2000 was a Saturday; 1 January 2005 belongs to week 53 of 2004, and 29 December 2008 to
      week 1 of 2009. */
  lemma KnownDates()
    ensures Weekday(DaysBefore(2000)) == 6
    ensures Weekday(DaysBefore(2005)) == 6 && WeekDate(DaysBefore(2005), 2004, 53)
    ensures Weekday(DaysBefore(2009) - 3) == 1 && WeekDate(DaysBefore(2009) - 3, 2009, 1)
  {
    KnownYears();
    hide DaysBefore;
  }
}
