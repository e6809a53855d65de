/**
 * The proleptic Gregorian calendar of Python's `datetime.date`: dates as day
 * ordinals (0001-01-01 is day 1, 9999-12-31 is the last day), the ISO 8601
 * week calendar (`date.fromisocalendar`, `date.isocalendar`) and the
 * overflow-checked `date + timedelta(days=k)`.
 */
module Calendar {
  import opened Wrappers

  const MaxYear: int := 9999

  /** `date.max.toordinal()`, the ordinal of 9999-12-31. */
  const MaxOrdinal: int := 3652059

  predicate IsLeapYear(y: int) {
    y % 4 == 0 && (y % 100 != 0 || y % 400 == 0)
  }

  function DaysInYear(y: int): int {
    if IsLeapYear(y) then 366 else 365
  }

  function DaysInMonth(y: int, m: int): int
    requires 1 <= m <= 12
  {
    if m == 2 then (if IsLeapYear(y) then 29 else 28)
    else if m == 4 || m == 6 || m == 9 || m == 11 then 30
    else 31
  }

  /** Days of year `y` before the first of month `m`. */
  function DaysBeforeMonth(y: int, m: int): int
    requires 1 <= m <= 12
  {
    var common :=
      if m == 1 then 0 else if m == 2 then 31 else if m == 3 then 59
      else if m == 4 then 90 else if m == 5 then 120 else if m == 6 then 151
      else if m == 7 then 181 else if m == 8 then 212 else if m == 9 then 243
      else if m == 10 then 273 else if m == 11 then 304 else 334;
    common + (if m > 2 && IsLeapYear(y) then 1 else 0)
  }

  /** Days before January 1st of year `y`, counted from 0001-01-01 (Python's `_days_before_year`). */
  function DaysBeforeYear(y: int): int
    requires y >= 1
  {
    var z := y - 1;
    z * 365 + z / 4 - z / 100 + z / 400
  }

  lemma DaysBeforeYearStep(y: int)
    requires y >= 1
    ensures DaysBeforeYear(y + 1) == DaysBeforeYear(y) + DaysInYear(y)
  {
    LeapCountsStep(y);
    LeapIncrement(y);
    DaysBeforeYearDiff(y);
  }

  /** Each of the leap-year counts grows by one exactly at a multiple of its period. */
  lemma LeapCountsStep(y: int)
    requires y >= 1
    ensures y / 4 == (y - 1) / 4 + (if y % 4 == 0 then 1 else 0)
    ensures y / 100 == (y - 1) / 100 + (if y % 100 == 0 then 1 else 0)
    ensures y / 400 == (y - 1) / 400 + (if y % 400 == 0 then 1 else 0)
  {
  }

  lemma Periods(y: int)
    ensures y % 400 == 0 ==> y % 100 == 0
    ensures y % 100 == 0 ==> y % 4 == 0
  {
  }

  /** The leap days counted up to year `y` and up to the year before differ by the extra day of year `y`. */
  lemma LeapIncrement(y: int)
    requires y >= 1
    requires y / 4 == (y - 1) / 4 + (if y % 4 == 0 then 1 else 0)
    requires y / 100 == (y - 1) / 100 + (if y % 100 == 0 then 1 else 0)
    requires y / 400 == (y - 1) / 400 + (if y % 400 == 0 then 1 else 0)
    ensures (y / 4 - (y - 1) / 4) - (y / 100 - (y - 1) / 100) + (y / 400 - (y - 1) / 400) == DaysInYear(y) - 365
  {
    Periods(y);
  }

  lemma DaysBeforeYearDiff(y: int)
    requires y >= 1
    ensures DaysBeforeYear(y + 1) - DaysBeforeYear(y)
            == 365 + (y / 4 - (y - 1) / 4) - (y / 100 - (y - 1) / 100) + (y / 400 - (y - 1) / 400)
  {
  }

  /** 9999-12-31 is the last day before year 10000. */
  lemma DaysBeforeYearPastMax(y: int)
    requires y == MaxYear + 1
    ensures DaysBeforeYear(y) == MaxOrdinal
  {
  }

  /** Years up to 9999 end by 9999-12-31; later ones start after it. */
  lemma DaysBeforeYearVsMax(y: int)
    requires y >= 1
    ensures y <= MaxYear + 1 ==> DaysBeforeYear(y) <= MaxOrdinal
    ensures y > MaxYear ==> DaysBeforeYear(y) >= MaxOrdinal
  {
    var top := MaxYear + 1;
    DaysBeforeYearPastMax(top);
    if y <= top {
      DaysBeforeYearGrows(y, top);
    } else {
      DaysBeforeYearGrows(top, y);
    }
  }

  /** Each year has at least 365 days, so January 1st moves forward at least that much per year. */
  lemma {:induction false} DaysBeforeYearGrows(a: int, b: int)
    requires 1 <= a <= b
    ensures DaysBeforeYear(b) >= DaysBeforeYear(a) + 365 * (b - a)
    decreases b - a
  {
    if a < b {
      DaysBeforeYearGrows(a, b - 1);
      assert DaysBeforeYear(b) >= DaysBeforeYear(b - 1) + 365 by {
        DaysBeforeYearStep(b - 1);
      }
    }
  }

  lemma MonthStep(y: int, m: int)
    requires 1 <= m <= 12
    ensures m < 12 ==> DaysBeforeMonth(y, m + 1) == DaysBeforeMonth(y, m) + DaysInMonth(y, m)
    ensures m == 12 ==> DaysBeforeMonth(y, m) + DaysInMonth(y, m) == DaysInYear(y)
  {
  }

  lemma {:induction false} DaysBeforeMonthGrows(y: int, a: int, b: int)
    requires 1 <= a <= b <= 12
    ensures DaysBeforeMonth(y, a) + DaysInMonth(y, a) <= DaysBeforeMonth(y, b) || a == b
    ensures DaysBeforeMonth(y, b) + DaysInMonth(y, b) <= DaysInYear(y)
    decreases b - a
  {
    MonthStep(y, b);
    if a < b {
      DaysBeforeMonthGrows(y, a, b - 1);
      MonthStep(y, b - 1);
    }
  }

  /** A calendar date, as `datetime.date(year, month, day)` holds it. */
  datatype Date = Date(year: int, month: int, day: int)

  /** The dates `datetime.date` accepts. */
  predicate IsValidDate(d: Date) {
    1 <= d.year <= MaxYear && 1 <= d.month <= 12 && 1 <= d.day <= DaysInMonth(d.year, d.month)
  }

  /** `d.toordinal()`. */
  function ToOrdinal(d: Date): (n: int)
    requires IsValidDate(d)
    ensures DaysBeforeYear(d.year) < n <= DaysBeforeYear(d.year + 1)
    ensures 1 <= n <= MaxOrdinal
  {
    DaysBeforeMonthGrows(d.year, d.month, d.month);
    DaysBeforeYearStep(d.year);
    DaysBeforeYearVsMax(d.year + 1);
    DaysBeforeYear(d.year) + DaysBeforeMonth(d.year, d.month) + d.day
  }

  /** The year whose days contain day `n`, searching upwards from year `y`. */
  function YearOf(n: int, y: int): (r: int)
    requires 1 <= y && DaysBeforeYear(y) < n
    ensures r >= y && DaysBeforeYear(r) < n <= DaysBeforeYear(r + 1)
    decreases n - DaysBeforeYear(y)
  {
    DaysBeforeYearStep(y);
    if n <= DaysBeforeYear(y + 1) then y else YearOf(n, y + 1)
  }

  /** The month of year `y` holding its `doy`-th day, searching upwards from month `m`. */
  function MonthOf(y: int, doy: int, m: int): (r: int)
    requires 1 <= m <= 12 && DaysBeforeMonth(y, m) < doy <= DaysInYear(y)
    ensures m <= r <= 12
    ensures DaysBeforeMonth(y, r) < doy <= DaysBeforeMonth(y, r) + DaysInMonth(y, r)
    decreases 12 - m
  {
    MonthStep(y, m);
    if doy <= DaysBeforeMonth(y, m) + DaysInMonth(y, m) then m else MonthOf(y, doy, m + 1)
  }

  /** `date.fromordinal(n)`. */
  function FromOrdinal(n: int): (d: Date)
    requires 1 <= n <= MaxOrdinal
    ensures IsValidDate(d) && ToOrdinal(d) == n
  {
    var y := YearOf(n, 1);
    assert y <= MaxYear by {
      if y > MaxYear {
        DaysBeforeYearVsMax(y);
      }
    }
    var doy := n - DaysBeforeYear(y);
    DaysBeforeYearStep(y);
    var m := MonthOf(y, doy, 1);
    Date(y, m, doy - DaysBeforeMonth(y, m))
  }

  /** Only one year's range of days holds a given day. */
  lemma YearUnique(n: int, a: int, b: int)
    requires 1 <= a && DaysBeforeYear(a) < n <= DaysBeforeYear(a + 1)
    requires 1 <= b && DaysBeforeYear(b) < n <= DaysBeforeYear(b + 1)
    ensures a == b
  {
    if a < b {
      DaysBeforeYearGrows(a + 1, b);
    } else if b < a {
      DaysBeforeYearGrows(b + 1, a);
    }
  }

  /** Only one month's range of days holds a given day of the year. */
  lemma MonthUnique(y: int, doy: int, a: int, b: int)
    requires 1 <= a <= 12 && DaysBeforeMonth(y, a) < doy <= DaysBeforeMonth(y, a) + DaysInMonth(y, a)
    requires 1 <= b <= 12 && DaysBeforeMonth(y, b) < doy <= DaysBeforeMonth(y, b) + DaysInMonth(y, b)
    ensures a == b
  {
    if a < b {
      DaysBeforeMonthGrows(y, a, b);
    } else if b < a {
      DaysBeforeMonthGrows(y, b, a);
    }
  }

  /** Ordinals and valid dates correspond one to one: `date.fromordinal(d.toordinal()) == d`. */
  lemma FromOrdinalToOrdinal(d: Date)
    requires IsValidDate(d)
    ensures FromOrdinal(ToOrdinal(d)) == d
  {
    var n := ToOrdinal(d);
    var e := FromOrdinal(n);
    YearUnique(n, e.year, d.year);
    var doy := n - DaysBeforeYear(d.year);
    MonthUnique(d.year, doy, e.month, d.month);
  }

  /** `date.weekday()`: 0 for Monday up to 6 for Sunday (0001-01-01 was a Monday). */
  function Weekday(n: int): int {
    (n + 6) % 7
  }

  /** `date + timedelta(days=k)`: the day `k` days after `n`, or nothing when Python raises `OverflowError`. */
  function AddDays(n: int, k: int): (r: Option<int>)
    ensures r.Some? <==> 1 <= n + k <= MaxOrdinal
    ensures r.Some? ==> r.value - n == k
  {
    if 1 <= n + k <= MaxOrdinal then Some(n + k) else None
  }

  /** `x` written as a whole number of weeks plus a weekday offset. */
  lemma WeekSplit(x: int, q: int, r: int)
    requires x == 7 * q + r && 0 <= r < 7
    ensures x % 7 == r && x / 7 == q
  {
  }

  /** The Monday of ISO week 1 of the ISO year whose January 1st is day `firstDay`: the one Monday at most three days away from it. */
  function Week1Monday(firstDay: int): (r: int)
    ensures Weekday(r) == 0
  {
    var k := (firstDay + 2) / 7;
    WeekSplit(7 * k + 1 + 6, k + 1, 0);
    7 * k + 1
  }

  lemma Week1MondayNear(firstDay: int)
    ensures firstDay - 3 <= Week1Monday(firstDay) <= firstDay + 3
  {
  }

  /** CPython's `_isoweek1monday`: step back to the Monday of January 1st's week, and forward a week if that Monday is too early. */
  function PythonWeek1Monday(firstDay: int): int {
    var firstWeekday := Weekday(firstDay);
    var monday := firstDay - firstWeekday;
    if firstWeekday > 3 then monday + 7 else monday
  }

  lemma Week1MondayMatchesPython(firstDay: int)
    ensures Week1Monday(firstDay) == PythonWeek1Monday(firstDay)
  {
    var k := (firstDay + 2) / 7;
    var s := (firstDay + 2) % 7;
    if s <= 2 {
      WeekSplit(firstDay + 6, k, s + 4);
    } else {
      WeekSplit(firstDay + 6, k + 1, s - 3);
    }
  }

  /** The number of ISO weeks of a year whose January 1st is day `firstDay`. */
  function WeeksFrom(firstDay: int, leap: bool): int {
    var firstWeekday := Weekday(firstDay);
    if firstWeekday == 3 || (firstWeekday == 2 && leap) then 53 else 52
  }

  lemma Week1MondayStep(a: int, leap: bool)
    ensures Week1Monday(a + (if leap then 366 else 365)) == Week1Monday(a) + 7 * WeeksFrom(a, leap)
  {
    var k := (a + 2) / 7;
    var s := (a + 2) % 7;
    var b := a + (if leap then 366 else 365);
    var t := s + (if leap then 2 else 1);
    if s <= 2 {
      WeekSplit(a + 6, k, s + 4);
    } else {
      WeekSplit(a + 6, k + 1, s - 3);
    }
    if t < 7 {
      WeekSplit(b + 2, k + 52, t);
    } else {
      WeekSplit(b + 2, k + 53, t - 7);
    }
  }

  /** The Monday of ISO week 1 of ISO year `y`: the Monday of the week holding January 4th. */
  function IsoWeek1Monday(y: int): (r: int)
    requires y >= 1
    ensures Weekday(r) == 0
  {
    Week1Monday(DaysBeforeYear(y) + 1)
  }

  /** ISO week 1 starts at most three days before or after January 1st. */
  lemma IsoWeek1MondayNearJan1(y: int)
    requires y >= 1
    ensures DaysBeforeYear(y) + 1 - 3 <= IsoWeek1Monday(y) <= DaysBeforeYear(y) + 1 + 3
  {
    Week1MondayNear(DaysBeforeYear(y) + 1);
  }

  /** 53 for ISO years starting on a Thursday, and leap years starting on a Wednesday; 52 otherwise. */
  function IsoWeeksInYear(y: int): (w: int)
    requires y >= 1
    ensures w == 52 || w == 53
  {
    WeeksFrom(DaysBeforeYear(y) + 1, IsLeapYear(y))
  }

  /** ISO year `y` is exactly `IsoWeeksInYear(y)` weeks long. */
  lemma IsoYearLength(y: int)
    requires y >= 1
    ensures IsoWeek1Monday(y + 1) == IsoWeek1Monday(y) + 7 * IsoWeeksInYear(y)
  {
    DaysBeforeYearStep(y);
    Week1MondayStep(DaysBeforeYear(y) + 1, IsLeapYear(y));
  }

  lemma {:induction false} IsoWeek1MondayGrows(a: int, b: int)
    requires 1 <= a <= b
    ensures IsoWeek1Monday(a) <= IsoWeek1Monday(b)
    decreases b - a
  {
    if a < b {
      IsoWeek1MondayGrows(a, b - 1);
      assert IsoWeek1Monday(b - 1) < IsoWeek1Monday(b) by {
        IsoYearLength(b - 1);
      }
    }
  }

  /** Only one ISO year holds a given day. */
  lemma IsoYearUnique(n: int, a: int, b: int)
    requires 1 <= a && IsoWeek1Monday(a) <= n < IsoWeek1Monday(a + 1)
    requires 1 <= b && IsoWeek1Monday(b) <= n < IsoWeek1Monday(b + 1)
    ensures a == b
  {
    if a < b {
      IsoWeek1MondayGrows(a + 1, b);
    } else if b < a {
      IsoWeek1MondayGrows(b + 1, a);
    }
  }

  /** Why `date.fromisocalendar` refuses its arguments. */
  datatype IsoError =
    | YearOutOfRange  // the ISO year is not in 1..9999
    | InvalidWeek     // the week is not in 1..52, or 53 in a 52-week year
    | InvalidWeekday  // the weekday is not in 1..7
    | DateOutOfRange  // the day lies after 9999-12-31

  /** Day `day` (1 for Monday) of week `week`, counting weeks from the Monday `monday`. */
  function IsoDay(monday: int, week: int, day: int): int {
    monday + (week - 1) * 7 + (day - 1)
  }

  /** The week of a day `n`, counting weeks from the Monday `monday`. */
  function IsoWeekNumber(n: int, monday: int): int {
    (n - monday) / 7 + 1
  }

  /** The week and weekday checks of `fromisocalendar`, for an ISO year of `weeks` weeks starting on `monday`. */
  function WeekAndDay(monday: int, weeks: int, week: int, day: int): (r: Result<int, IsoError>)
    requires weeks == 52 || weeks == 53
    ensures r.Success? <==> 1 <= week <= weeks && 1 <= day <= 7 && IsoDay(monday, week, day) <= MaxOrdinal
    ensures r.Success? ==> r.value == IsoDay(monday, week, day)
    ensures r.Failure? ==> r.error != YearOutOfRange
  {
    if !(0 < week < 53) && !(week == 53 && weeks == 53) then Failure(InvalidWeek)
    else if !(0 < day < 8) then Failure(InvalidWeekday)
    else
      var n := IsoDay(monday, week, day);
      if n > MaxOrdinal then Failure(DateOutOfRange) else Success(n)
  }

  /** `date.fromisocalendar(year, week, day)`, as the day ordinal of the result. */
  function FromIsoCalendar(year: int, week: int, day: int): Result<int, IsoError> {
    if !(1 <= year <= MaxYear) then Failure(YearOutOfRange)
    else WeekAndDay(IsoWeek1Monday(year), IsoWeeksInYear(year), week, day)
  }

  /** `fromisocalendar` succeeds exactly on a valid ISO (year, week, day) up to 9999-12-31, and counts whole weeks from the ISO year's first Monday. */
  lemma FromIsoCalendarSpec(year: int, week: int, day: int)
    ensures FromIsoCalendar(year, week, day).Success? <==>
      1 <= year <= MaxYear && 1 <= week <= IsoWeeksInYear(year) && 1 <= day <= 7 &&
      IsoDay(IsoWeek1Monday(year), week, day) <= MaxOrdinal
    ensures FromIsoCalendar(year, week, day).Success? ==>
      1 <= FromIsoCalendar(year, week, day).value <= MaxOrdinal &&
      FromIsoCalendar(year, week, day).value == IsoDay(IsoWeek1Monday(year), week, day)
  {
    if 1 <= year {
      IsoWeek1MondayGrows(1, year);
    }
  }

  /** A date as ISO 8601 names it, the result of `date.isocalendar()`. */
  datatype IsoDate = IsoDate(year: int, week: int, weekday: int)

  /** Counting from a Monday `m`, day `n` is `Weekday(n)` days into its week. */
  lemma WeekdayShift(n: int, m: int)
    requires Weekday(m) == 0
    ensures (n - m) % 7 == Weekday(n)
    ensures (n - m) / 7 * 7 + Weekday(n) == n - m
  {
    var q := (m + 6) / 7;
    var p := (n + 6) / 7;
    WeekSplit(n - m, p - q, Weekday(n));
  }

  /** The Thursday of the Monday-to-Sunday week holding day `n`. */
  function WeekThursday(n: int): (t: int)
    ensures n - 3 <= t <= n + 3
  {
    n - Weekday(n) + 3
  }

  /** The ISO 8601 (year, week, weekday) of day `n`, as `date.isocalendar()` reports it: the ISO year is the calendar year of the week's Thursday. */
  function IsoCalendar(n: int): IsoDate
    requires 1 <= n <= MaxOrdinal
  {
    var t := WeekThursday(n);
    assert 1 <= t <= MaxOrdinal by {
      assert Weekday(MaxOrdinal) == 4;
    }
    var y := YearOf(t, 1);
    IsoDate(y, IsoWeekNumber(n, IsoWeek1Monday(y)), Weekday(n) + 1)
  }

  /** The week of day `n` belongs to the ISO year in which its Thursday falls. */
  lemma ThursdayRule(n: int, jan1: int, nextJan1: int)
    requires jan1 <= WeekThursday(n) < nextJan1
    ensures Week1Monday(jan1) <= n < Week1Monday(nextJan1)
  {
    var t := WeekThursday(n);
    var p := (n + 6) / 7;
    var k0 := p - (jan1 + 2) / 7 - 1;
    var k1 := p - (nextJan1 + 2) / 7 - 1;
    assert t == 7 * p - 3;
    WeekGap(t - (Week1Monday(jan1) + 3), k0);
    WeekGap(t - (Week1Monday(nextJan1) + 3), k1);
  }

  /** Two days on the same weekday less than a week apart are the same day. */
  lemma WeekGap(x: int, k: int)
    requires x == 7 * k
    ensures x > -7 ==> x >= 0
    ensures x < 0 ==> x <= -7
  {
  }

  /** The ISO year of day `n` is the one whose weeks hold it, and its weekday runs from 1 (Monday) to 7. */
  lemma IsoCalendarSpec(n: int)
    requires 1 <= n <= MaxOrdinal
    ensures var r := IsoCalendar(n);
      && r.year >= 1 && IsoWeek1Monday(r.year) <= n < IsoWeek1Monday(r.year + 1)
      && r.week == IsoWeekNumber(n, IsoWeek1Monday(r.year))
      && 1 <= r.weekday <= 7 && Weekday(n) == r.weekday - 1
  {
    var y := IsoCalendar(n).year;
    IsoYearHolds(n, y);
  }

  /** The weeks of the ISO year `y` hold every day whose Thursday falls in the calendar year `y`. */
  lemma IsoYearHolds(n: int, y: int)
    requires y >= 1 && DaysBeforeYear(y) < WeekThursday(n) <= DaysBeforeYear(y + 1)
    ensures IsoWeek1Monday(y) <= n < IsoWeek1Monday(y + 1)
  {
    var jan1 := DaysBeforeYear(y) + 1;
    var nextJan1 := DaysBeforeYear(y + 1) + 1;
    assert Week1Monday(jan1) <= n < Week1Monday(nextJan1) by {
      ThursdayRule(n, jan1, nextJan1);
    }
  }

  /** `fromisocalendar` inverts `isocalendar`: every date it returns reads back as the same (year, week, day). */
  lemma IsoCalendarOfFromIsoCalendar(year: int, week: int, day: int)
    requires FromIsoCalendar(year, week, day).Success?
    ensures IsoCalendar(FromIsoCalendar(year, week, day).value) == IsoDate(year, week, day)
  {
    FromIsoCalendarSpec(year, week, day);
    var m := IsoWeek1Monday(year);
    var n := IsoDay(m, week, day);
    assert m <= n < IsoWeek1Monday(year + 1) by {
      IsoYearLength(year);
    }
    var r := IsoCalendar(n);
    IsoCalendarSpec(n);
    assert r.year == year by {
      IsoYearUnique(n, r.year, year);
    }
    assert r.week == week && r.weekday == day by {
      IsoDayReadBack(m, week, day);
    }
  }

  /** Day `day` of week `week` counted from a Monday reads back as that week and weekday. */
  lemma IsoDayReadBack(monday: int, week: int, day: int)
    requires Weekday(monday) == 0 && 1 <= day <= 7
    ensures IsoWeekNumber(IsoDay(monday, week, day), monday) == week
    ensures Weekday(IsoDay(monday, week, day)) == day - 1
  {
    var n := IsoDay(monday, week, day);
    WeekSplit(n - monday, week - 1, day - 1);
    WeekdayShift(n, monday);
  }

  lemma IsoWeek1MondayPastMax(y: int)
    requires y == MaxYear + 1
    ensures IsoWeek1Monday(y) == MaxOrdinal + 3
  {
    DaysBeforeYearPastMax(y);
    WeekSplit(MaxOrdinal + 1 + 6, 521723, 5);
  }

  /** ... and `isocalendar` inverts `fromisocalendar`: every day is found again from its ISO (year, week, day). */
  lemma FromIsoCalendarOfIsoCalendar(n: int)
    requires 1 <= n <= MaxOrdinal
    ensures var r := IsoCalendar(n); FromIsoCalendar(r.year, r.week, r.weekday) == Success(n)
  {
    var r := IsoCalendar(n);
    IsoCalendarSpec(n);
    IsoYearLength(r.year);
    IsoYearInRange(r.year, n);
    WeekNumberInYear(n, IsoWeek1Monday(r.year), IsoWeeksInYear(r.year));
    FromIsoCalendarSpec(r.year, r.week, r.weekday);
  }

  /** An ISO year whose weeks start by 9999-12-31 is at most 9999. */
  lemma IsoYearInRange(y: int, n: int)
    requires 1 <= y && IsoWeek1Monday(y) <= n <= MaxOrdinal
    ensures y <= MaxYear
  {
    if y > MaxYear {
      var top := MaxYear + 1;
      IsoWeek1MondayGrows(top, y);
      IsoWeek1MondayPastMax(top);
    }
  }

  /** Counting weeks from a Monday, a day within `weeks` weeks of it gets a week number in 1..weeks and is found again from it. */
  lemma WeekNumberInYear(n: int, monday: int, weeks: int)
    requires Weekday(monday) == 0 && monday <= n < monday + 7 * weeks
    ensures 1 <= IsoWeekNumber(n, monday) <= weeks
    ensures IsoDay(monday, IsoWeekNumber(n, monday), Weekday(n) + 1) == n
  {
    WeekdayShift(n, monday);
  }

  /** `fromisocalendar(year, week, 1)` is a Monday, and the Friday after it still exists. */
  lemma FromIsoCalendarMonday(year: int, week: int)
    requires FromIsoCalendar(year, week, 1).Success?
    ensures Weekday(FromIsoCalendar(year, week, 1).value) == 0
    ensures FromIsoCalendar(year, week, 1).value + 4 <= MaxOrdinal
  {
    FromIsoCalendarSpec(year, week, 1);
    var m := IsoWeek1Monday(year);
    var n := IsoDay(m, week, 1);
    MondayPlusWeeks(m, week - 1, n);
    MondayBeforeLastFriday(n);
  }

  /** Whole weeks after a Monday is a Monday. */
  lemma MondayPlusWeeks(m: int, k: int, n: int)
    requires Weekday(m) == 0 && n == m + 7 * k
    ensures Weekday(n) == 0
  {
    WeekSplit(m + 6, (m + 6) / 7, 0);
    WeekSplit(n + 6, (m + 6) / 7 + k, 0);
  }

  /** 9999-12-31 is a Friday, so a Monday up to it has its whole working week before it. */
  lemma MondayBeforeLastFriday(n: int)
    requires Weekday(n) == 0 && n <= MaxOrdinal
    ensures n + 4 <= MaxOrdinal
  {
    assert n != MaxOrdinal - 3 by { WeekSplit(MaxOrdinal - 3 + 6, 521723, 1); }
    assert n != MaxOrdinal - 2 by { WeekSplit(MaxOrdinal - 2 + 6, 521723, 2); }
    assert n != MaxOrdinal - 1 by { WeekSplit(MaxOrdinal - 1 + 6, 521723, 3); }
    assert n != MaxOrdinal by { WeekSplit(MaxOrdinal + 6, 521723, 4); }
  }
}
