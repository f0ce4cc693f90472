/** Gregorian civil dates the way JavaScript's local `Date` constructor and
    setters treat them: `new Date(y, m, d)` accepts any month and day and carries
    the excess into neighbouring months and years. Dates are also numbered by
    consecutive day numbers, which is what makes "the next day" and "the weekday"
    precise. */
module Calendar {
  import opened Wrappers
  import opened Text
  import Clock

  /** A civil date; `month` is 0-based, as `getMonth()` returns it. */
  datatype Date = Date(year: int, month: int, day: int)

  predicate IsLeapYear(y: int) { y % 4 == 0 && (y % 100 != 0 || y % 400 == 0) }

  function DaysInMonth(y: int, m: int): (n: int)
    requires 0 <= m < 12
    ensures 28 <= n <= 31
    ensures n == 29 <==> m == 1 && IsLeapYear(y)
  {
    if m == 1 then (if IsLeapYear(y) then 29 else 28)
    else if m == 3 || m == 5 || m == 8 || m == 10 then 30
    else 31
  }

  predicate Valid(d: Date) { 0 <= d.month < 12 && 1 <= d.day <= DaysInMonth(d.year, d.month) }

  datatype YearMonth = YearMonth(year: int, month: int)

  function NextMonth(y: int, m: int): (r: YearMonth)
    requires 0 <= m < 12
    ensures 0 <= r.month < 12 && r.year * 12 + r.month == y * 12 + m + 1
  {
    if m == 11 then YearMonth(y + 1, 0) else YearMonth(y, m + 1)
  }

  function PrevMonth(y: int, m: int): (r: YearMonth)
    requires 0 <= m < 12
    ensures 0 <= r.month < 12 && r.year * 12 + r.month == y * 12 + m - 1
  {
    if m == 0 then YearMonth(y - 1, 11) else YearMonth(y, m - 1)
  }

  /** `new Date(y, m, d)`: the month carries into the year (floor division), then
      a day past the end of the month or below 1 carries into the following or
      preceding months. */
  function MakeDate(y: int, m: int, d: int): (r: Date)
    ensures Valid(r)
  {
    if d < 1 then Backward(y + m / 12, m % 12, d) else Forward(y + m / 12, m % 12, d)
  }

  function Forward(y: int, m: int, d: int): (r: Date)
    requires 0 <= m < 12 && 1 <= d
    ensures Valid(r)
    decreases d
  {
    if d <= DaysInMonth(y, m) then Date(y, m, d)
    else
      var n := NextMonth(y, m);
      Forward(n.year, n.month, d - DaysInMonth(y, m))
  }

  function Backward(y: int, m: int, d: int): (r: Date)
    requires 0 <= m < 12 && d < 1
    ensures Valid(r)
    decreases 1 - d
  {
    var p := PrevMonth(y, m);
    var e := d + DaysInMonth(p.year, p.month);
    if 1 <= e then Date(p.year, p.month, e) else Backward(p.year, p.month, e)
  }

  // ---------- day numbers ----------

  /** Leap years among the years 1 .. y-1; for every integer y the step from y to
      y+1 adds exactly one when y is a leap year. */
  function LeapsBefore(y: int): int { (y - 1) / 4 - (y - 1) / 100 + (y - 1) / 400 }

  function DaysBeforeYear(y: int): int { 365 * y + LeapsBefore(y) }

  function DaysInYear(y: int): int { if IsLeapYear(y) then 366 else 365 }

  /** Days of year `y` before month `m`; `m == 12` gives the whole year. */
  function DaysBeforeMonth(y: int, m: int): int
    requires 0 <= m <= 12
  {
    (if m == 0 then 0 else if m == 1 then 31 else if m == 2 then 59 else if m == 3 then 90
     else if m == 4 then 120 else if m == 5 then 151 else if m == 6 then 181
     else if m == 7 then 212 else if m == 8 then 243 else if m == 9 then 273
     else if m == 10 then 304 else if m == 11 then 334 else 365)
    + (if m >= 2 && IsLeapYear(y) then 1 else 0)
  }

  /** Consecutive numbering of days; day 0 is 2 January of year 0 of the proleptic
      Gregorian calendar. Only differences of day numbers matter: `UnixEpoch`
      anchors the weekdays. */
  function DayNumber(d: Date): int
    requires 0 <= d.month < 12
  {
    DaysBeforeYear(d.year) + DaysBeforeMonth(d.year, d.month) + d.day - 1
  }

  /** `getDay()`: 0 for Sunday through 6 for Saturday. */
  function Weekday(d: Date): (w: int)
    requires 0 <= d.month < 12
    ensures 0 <= w < 7
  {
    DayNumber(d) % 7
  }

  /** Day number of 1 January 1970, the day the time value 0 falls on. */
  const UnixEpochDay: int := 719_527

  /** The local time value of 00:00 on `d`. */
  function LocalMidnight(d: Date): int
    requires 0 <= d.month < 12
  {
    (DayNumber(d) - UnixEpochDay) * Clock.MsPerDay
  }

  /** `setHours(h, m, 0, 0)` on a date at `d`: the hours and minutes are added to
      local midnight, so out-of-range values carry over as the `Date` setters do. */
  function AtClock(d: Date, h: int, m: int): int
    requires 0 <= d.month < 12
  {
    LocalMidnight(d) + h * Clock.MsPerHour + m * Clock.MsPerMinute
  }

  // ---------- the helpers of the tracker screen ----------

  /** `new Date(d.getFullYear(), d.getMonth(), 1)`. */
  function StartOfMonth(d: Date): (r: Date)
    requires Valid(d)
    ensures r.year == d.year && r.month == d.month && r.day == 1
  {
    MakeDate(d.year, d.month, 1)
  }

  /** `new Date(d.getFullYear(), d.getMonth() + 1, 0)`: day 0 of the next month. */
  function EndOfMonth(d: Date): (r: Date)
    requires Valid(d)
    ensures r.year == d.year && r.month == d.month && r.day == DaysInMonth(d.year, d.month)
  {
    assert PrevMonth(d.year + (d.month + 1) / 12, (d.month + 1) % 12) == YearMonth(d.year, d.month);
    MakeDate(d.year, d.month + 1, 0)
  }

  /** `new Date(d.getFullYear(), d.getMonth() + delta, 1)`. */
  function AddMonths(d: Date, delta: int): (r: Date)
    requires Valid(d)
    ensures Valid(r) && r.day == 1
    ensures r.year * 12 + r.month == d.year * 12 + d.month + delta
  {
    MakeDate(d.year, d.month + delta, 1)
  }

  /** `setDate(getDate() + k)`: the date `k` days later (earlier for negative `k`). */
  function AddDays(d: Date, k: int): (r: Date)
    requires Valid(d)
    ensures Valid(r)
  {
    MakeDate(d.year, d.month, d.day + k)
  }

  // ---------- lemmas ----------

  lemma Div400Div100(y: int)
    requires y % 400 == 0
    ensures y % 100 == 0
  {
    var q := y / 400;
    assert y == 100 * (4 * q);
  }

  lemma Div100Div4(y: int)
    requires y % 100 == 0
    ensures y % 4 == 0
  {
    var q := y / 100;
    assert y == 4 * (25 * q);
  }

  /** Each year adds its own length to the day count. */
  lemma YearLength(y: int)
    ensures DaysBeforeYear(y + 1) == DaysBeforeYear(y) + DaysInYear(y)
  {
    assert y / 4 - (y - 1) / 4 == if y % 4 == 0 then 1 else 0;
    assert y / 100 - (y - 1) / 100 == if y % 100 == 0 then 1 else 0;
    assert y / 400 - (y - 1) / 400 == if y % 400 == 0 then 1 else 0;
    if y % 400 == 0 {
      Div400Div100(y);
    }
    if y % 100 == 0 {
      Div100Div4(y);
    }
  }

  lemma MonthStep(y: int, m: int)
    requires 0 <= m < 12
    ensures DaysBeforeMonth(y, m + 1) == DaysBeforeMonth(y, m) + DaysInMonth(y, m)
    ensures DaysBeforeMonth(y, 12) == DaysInYear(y)
  {
  }

  /** The first day of the next month comes `DaysInMonth` days after the first of this one. */
  lemma NextMonthStart(y: int, m: int)
    requires 0 <= m < 12
    ensures DayNumber(Date(NextMonth(y, m).year, NextMonth(y, m).month, 1))
            == DayNumber(Date(y, m, 1)) + DaysInMonth(y, m)
  {
    MonthStep(y, m);
    if m == 11 {
      YearLength(y);
    }
  }

  lemma {:induction false} ForwardDayNumber(y: int, m: int, d: int)
    requires 0 <= m < 12 && 1 <= d
    ensures DayNumber(Forward(y, m, d)) == DayNumber(Date(y, m, 1)) + d - 1
    decreases d
  {
    if d > DaysInMonth(y, m) {
      var n := NextMonth(y, m);
      ForwardDayNumber(n.year, n.month, d - DaysInMonth(y, m));
      NextMonthStart(y, m);
    }
  }

  lemma {:induction false} BackwardDayNumber(y: int, m: int, d: int)
    requires 0 <= m < 12 && d < 1
    ensures DayNumber(Backward(y, m, d)) == DayNumber(Date(y, m, 1)) + d - 1
    decreases 1 - d
  {
    var p := PrevMonth(y, m);
    var e := d + DaysInMonth(p.year, p.month);
    NextMonthStart(p.year, p.month);
    assert NextMonth(p.year, p.month) == YearMonth(y, m);
    if e < 1 {
      BackwardDayNumber(p.year, p.month, e);
    }
  }

  /** `new Date(y, m, d)` is day `d - 1` counted from the first of the normalised month. */
  lemma MakeDateDayNumber(y: int, m: int, d: int)
    ensures DayNumber(MakeDate(y, m, d)) == DayNumber(Date(y + m / 12, m % 12, 1)) + d - 1
  {
    var y', m' := y + m / 12, m % 12;
    if d < 1 {
      assert MakeDate(y, m, d) == Backward(y', m', d);
      BackwardDayNumber(y', m', d);
    } else {
      assert MakeDate(y, m, d) == Forward(y', m', d);
      ForwardDayNumber(y', m', d);
    }
  }

  /** With a month already in range, `new Date(y, m, d)` is day `d - 1` counted
      from the first of that month. */
  lemma MakeDateInMonth(y: int, m: int, d: int)
    requires 0 <= m < 12
    ensures DayNumber(MakeDate(y, m, d)) == DayNumber(Date(y, m, 1)) + d - 1
  {
    assert m / 12 == 0 && m % 12 == m;
    MakeDateDayNumber(y, m, d);
  }

  /** A date is `day - 1` days after the first of its month. */
  lemma DayNumberFromFirst(d: Date)
    requires 0 <= d.month < 12
    ensures DayNumber(d) == DayNumber(Date(d.year, d.month, 1)) + d.day - 1
  {
  }

  lemma {:induction false} DaysBeforeYearMonotone(a: int, b: int)
    requires a < b
    ensures DaysBeforeYear(a + 1) <= DaysBeforeYear(b)
    decreases b - a
  {
    if a + 1 < b {
      DaysBeforeYearMonotone(a + 1, b);
      YearLength(a + 1);
    }
  }

  /** A valid date's number falls inside its year. */
  lemma DayNumberInYear(d: Date)
    requires Valid(d)
    ensures DaysBeforeYear(d.year) <= DayNumber(d) < DaysBeforeYear(d.year + 1)
  {
    MonthStep(d.year, d.month);
    YearLength(d.year);
  }

  /** Distinct valid dates have distinct day numbers. */
  lemma DayNumberInjective(a: Date, b: Date)
    requires Valid(a) && Valid(b) && DayNumber(a) == DayNumber(b)
    ensures a == b
  {
    SameYear(a, b);
    SameYearInjective(a, b);
  }

  lemma SameYear(a: Date, b: Date)
    requires Valid(a) && Valid(b) && DayNumber(a) == DayNumber(b)
    ensures a.year == b.year
  {
    DayNumberInYear(a);
    DayNumberInYear(b);
    if a.year < b.year {
      DaysBeforeYearMonotone(a.year, b.year);
    } else if b.year < a.year {
      DaysBeforeYearMonotone(b.year, a.year);
    }
  }

  /** Within one year the month and day follow from the day number. */
  lemma SameYearInjective(a: Date, b: Date)
    requires Valid(a) && Valid(b) && a.year == b.year && DayNumber(a) == DayNumber(b)
    ensures a == b
  {
    MonthStep(a.year, a.month);
    MonthStep(b.year, b.month);
    if a.month < b.month {
      MonthsMonotone(a.year, a.month + 1, b.month);
    } else if b.month < a.month {
      MonthsMonotone(a.year, b.month + 1, a.month);
    }
  }

  lemma MonthsMonotone(y: int, i: int, j: int)
    requires 0 <= i <= j <= 12
    ensures DaysBeforeMonth(y, i) <= DaysBeforeMonth(y, j)
  {
  }

  /** Moving on `k` days moves the day number on by `k`. */
  lemma AddDaysNumber(d: Date, k: int)
    requires Valid(d)
    ensures DayNumber(AddDays(d, k)) == DayNumber(d) + k
  {
    MakeDateInMonth(d.year, d.month, d.day + k);
    DayNumberFromFirst(d);
  }

  /** The next day's midnight is one day after this day's. */
  lemma NextMidnight(d: Date)
    requires Valid(d)
    ensures LocalMidnight(AddDays(d, 1)) == LocalMidnight(d) + Clock.MsPerDay
  {
    AddDaysNumber(d, 1);
  }

  /** The date `k` days after `d` is the valid date numbered `DayNumber(d) + k`. */
  lemma AddDaysUnique(d: Date, k: int, e: Date)
    requires Valid(d) && Valid(e) && DayNumber(e) == DayNumber(d) + k
    ensures AddDays(d, k) == e
  {
    AddDaysNumber(d, k);
    DayNumberInjective(AddDays(d, k), e);
  }

  lemma AddDaysCompose(d: Date, a: int, b: int)
    requires Valid(d)
    ensures AddDays(AddDays(d, a), b) == AddDays(d, a + b)
  {
    AddDaysNumber(d, a);
    AddDaysNumber(d, a + b);
    AddDaysUnique(AddDays(d, a), b, AddDays(d, a + b));
  }

  /** Adding zero days gives the date back. */
  lemma AddDaysZero(d: Date)
    requires Valid(d)
    ensures AddDays(d, 0) == d
  {
    AddDaysUnique(d, 0, d);
  }

  /** 1 January 1970, the day of time value 0, was a Thursday. */
  lemma UnixEpoch()
    ensures DayNumber(Date(1970, 0, 1)) == UnixEpochDay
    ensures LocalMidnight(Date(1970, 0, 1)) == 0
    ensures Weekday(Date(1970, 0, 1)) == 4
  {
  }

  lemma ModStep(n: int)
    ensures (n + 1) % 7 == (n % 7 + 1) % 7
  {
  }

  /** The next day falls on the next weekday. */
  lemma WeekdayStep(d: Date)
    requires Valid(d)
    ensures Weekday(AddDays(d, 1)) == (Weekday(d) + 1) % 7
  {
    AddDaysNumber(d, 1);
    ModStep(DayNumber(d));
  }
}
