/**
 * Calendar arithmetic behind the task list's day windows and the monthly
 * report's month windows.
 *
 * Instants are JavaScript time values: whole milliseconds on one timeline.
 * Local time is taken to coincide with that timeline (no timezone offset and
 * no daylight saving), so `new Date(y, m, d, h, mi, s)` is the ECMAScript
 * `MakeDate(MakeDay(y, m, d), MakeTime(h, mi, s))` of the proleptic
 * Gregorian calendar.
 */
module Calendar {

  /** Milliseconds since 1970-01-01 00:00:00. */
  type Instant = int

  const MsPerSecond: int := 1000
  const MsPerDay: int := 86400000

  /** The Gregorian leap rule. */
  predicate IsLeapYear(y: int)
  {
    y % 4 == 0 && (y % 100 != 0 || y % 400 == 0)
  }

  function DaysInYear(y: int): (n: int)
    ensures n == 365 || n == 366
    ensures n == 366 <==> IsLeapYear(y)
  {
    if IsLeapYear(y) then 366 else 365
  }

  /** Length of month `m` (0 = January .. 11 = December) of year `y`. */
  function DaysInMonth(y: int, m: int): (n: int)
    requires 0 <= m < 12
    ensures 28 <= n <= 31
    ensures m == 1 ==> (n == 29 <==> IsLeapYear(y))
    ensures m != 1 ==> (n == 30 <==> m in {3, 5, 8, 10})
    ensures m == 1 && !IsLeapYear(y) ==> n == 28
    ensures m != 1 && m !in {3, 5, 8, 10} ==> n == 31
  {
    if m == 1 then (if IsLeapYear(y) then 29 else 28)
    else if m == 3 || m == 5 || m == 8 || m == 10 then 30
    else 31
  }

  /** Number of days of year `y` before the first of month `m`. */
  function DaysBeforeMonth(y: int, m: int): (n: int)
    requires 0 <= m < 12
    ensures 28 * m <= n <= 31 * m
    decreases m
  {
    if m == 0 then 0 else DaysBeforeMonth(y, m - 1) + DaysInMonth(y, m - 1)
  }

  /** The twelve months fill the year exactly. */
  lemma MonthsFillYear(y: int)
    ensures DaysBeforeMonth(y, 11) + DaysInMonth(y, 11) == DaysInYear(y)
  {
    assert DaysBeforeMonth(y, 1) == 31;
    assert DaysBeforeMonth(y, 2) == 31 + DaysInMonth(y, 1);
    assert DaysBeforeMonth(y, 6) == DaysBeforeMonth(y, 2) + 122;
    assert DaysBeforeMonth(y, 11) == DaysBeforeMonth(y, 6) + 153;
  }

  /** Day number (days since 1970-01-01) of January 1st of year `y`. */
  function DayFromYear(y: int): int
  {
    365 * (y - 1970) + (y - 1969) / 4 - (y - 1901) / 100 + (y - 1601) / 400
  }

  /** Floor division by `n` steps up by one exactly at multiples of `n`. */
  lemma FloorDivStep(a: int, n: int)
    requires n > 0
    ensures (a + 1) / n == a / n + (if (a + 1) % n == 0 then 1 else 0)
  {
    var q, r := a / n, a % n;
    assert a == n * q + r && 0 <= r < n;
    if r == n - 1 {
      assert a + 1 == n * (q + 1);
      DivMulExact(q + 1, n);
    } else {
      assert a + 1 == n * q + (r + 1) && 0 <= r + 1 < n;
      DivMulPlus(q, r + 1, n);
    }
  }

  lemma DivMulExact(q: int, n: int)
    requires n > 0
    ensures (n * q) / n == q && (n * q) % n == 0
  {
    DivMulPlus(q, 0, n);
  }

  lemma DivMulPlus(q: int, r: int, n: int)
    requires n > 0 && 0 <= r < n
    ensures (n * q + r) / n == q && (n * q + r) % n == r
  {
    var a := n * q + r;
    var q', r' := a / n, a % n;
    assert n * (q' - q) == r - r';
    MulAwayFromZero(n, q' - q);
  }

  lemma MulAwayFromZero(n: int, k: int)
    requires n > 0
    ensures k >= 1 ==> n * k >= n
    ensures k <= -1 ==> n * k <= -n
  {
    assert n * k == n * (k - 1) + n;
    assert n * k == n * (k + 1) - n;
  }

  /** Shifting by a multiple of `n` does not change the remainder. */
  lemma ModShift(a: int, k: int, n: int)
    requires n > 0
    ensures (a + n * k) % n == a % n
  {
    var q, r := a / n, a % n;
    assert a + n * k == n * (q + k) + r;
    DivMulPlus(q + k, r, n);
  }

  /** Consecutive New Year's days are one year length apart. */
  lemma DayFromYearStep(y: int)
    ensures DayFromYear(y + 1) == DayFromYear(y) + DaysInYear(y)
  {
    FloorDivStep(y - 1969, 4);
    FloorDivStep(y - 1901, 100);
    FloorDivStep(y - 1601, 400);
    ModShift(y, -492, 4);
    ModShift(y, -19, 100);
    ModShift(y, -4, 400);
  }

  /** The year interpretation of the `Date` constructor: 0..99 means 1900..1999. */
  function FullYear(y: int): (r: int)
    ensures 0 <= y <= 99 ==> r == 1900 + y
    ensures !(0 <= y <= 99) ==> r == y
  {
    if 0 <= y <= 99 then 1900 + y else y
  }

  /**
   * ECMAScript MakeDay: the day number of day `d` of month `m` of year `y`,
   * where out-of-range months carry into the year and out-of-range days
   * carry into neighbouring months (day 0 is the previous month's last day).
   */
  function MakeDay(y: int, m: int, d: int): (r: int)
    ensures 0 <= m < 12 ==> r == DayFromYear(y) + DaysBeforeMonth(y, m) + d - 1
    ensures 12 <= m < 24 ==> r == DayFromYear(y + 1) + DaysBeforeMonth(y + 1, m - 12) + d - 1
  {
    var ym := y + m / 12;
    var mn := m % 12;
    assert 0 <= m < 12 ==> m / 12 == 0 && mn == m;
    assert 12 <= m < 24 ==> m / 12 == 1 && mn == m - 12;
    DayFromYear(ym) + DaysBeforeMonth(ym, mn) + d - 1
  }

  /** Milliseconds from midnight to `h:mi:s`; a time of day lies within the day. */
  function MakeTime(h: int, mi: int, s: int): (r: int)
    ensures 0 <= h < 24 && 0 <= mi < 60 && 0 <= s < 60 ==> 0 <= r <= MsPerDay - MsPerSecond
  {
    ((h * 60 + mi) * 60 + s) * MsPerSecond
  }

  /**
   * `new Date(y, m, d, h, mi, s)` read as local time. With an in-range time
   * of day, the instant falls on day `MakeDay(FullYear(y), m, d)`.
   */
  function LocalInstant(y: int, m: int, d: int, h: int, mi: int, s: int): (r: Instant)
    ensures 0 <= h < 24 && 0 <= mi < 60 && 0 <= s < 60 ==>
      StartOfDay(r) == MakeDay(FullYear(y), m, d) * MsPerDay
  {
    var day, time := MakeDay(FullYear(y), m, d), MakeTime(h, mi, s);
    if 0 <= time < MsPerDay then
      DivMulPlus(day, time, MsPerDay);
      day * MsPerDay + time
    else
      day * MsPerDay + time
  }

  /** Local midnight of the day containing `t`. */
  function StartOfDay(t: Instant): (r: Instant)
    ensures r <= t < r + MsPerDay
    ensures r % MsPerDay == 0
  {
    (t / MsPerDay) * MsPerDay
  }

  /** Day 0 of the following month is the last day of this month. */
  lemma DayZeroIsLastDay(y: int, m: int)
    requires 0 <= m < 12
    ensures MakeDay(y, m + 1, 0) == MakeDay(y, m, DaysInMonth(y, m))
  {
    if m == 11 {
      DayFromYearStep(y);
      MonthsFillYear(y);
    }
  }

  /**
   * The first instant of month `m` of year `y`, `new Date(y, m, 1)`:
   * midnight of the month's first day.
   */
  function MonthStart(y: int, m: int): (r: Instant)
    ensures 0 <= m < 12 ==> r == (DayFromYear(FullYear(y)) + DaysBeforeMonth(FullYear(y), m)) * MsPerDay
  {
    LocalInstant(y, m, 1, 0, 0, 0)
  }

  /**
   * The last second of month `m` of year `y`, `new Date(y, m + 1, 0, 23, 59, 59)`:
   * 23:59:59 of the month's last day.
   */
  function MonthEnd(y: int, m: int): (r: Instant)
    ensures 0 <= m < 12 ==>
      r == (DayFromYear(FullYear(y)) + DaysBeforeMonth(FullYear(y), m) + DaysInMonth(FullYear(y), m) - 1) * MsPerDay
           + 86399 * MsPerSecond
  {
    if 0 <= m < 12 then
      DayZeroIsLastDay(FullYear(y), m);
      LocalInstant(y, m + 1, 0, 23, 59, 59)
    else
      LocalInstant(y, m + 1, 0, 23, 59, 59)
  }

  /**
   * The report window of a month runs from midnight of its first day to
   * 23:59:59 of its last day: it spans the month's length in days less one
   * second, and the next month's window starts one second after it ends.
   */
  lemma MonthWindow(y: int, m: int)
    requires 0 <= m < 12
    ensures MonthStart(y, m) == MakeDay(FullYear(y), m, 1) * MsPerDay
    ensures MonthEnd(y, m) == MakeDay(FullYear(y), m, DaysInMonth(FullYear(y), m)) * MsPerDay + 86399 * MsPerSecond
    ensures MonthEnd(y, m) - MonthStart(y, m) == DaysInMonth(FullYear(y), m) * MsPerDay - MsPerSecond
    ensures MonthEnd(y, m) + MsPerSecond == MonthStart(y, m + 1)
  {
    if m == 11 {
      DayFromYearStep(FullYear(y));
      MonthsFillYear(FullYear(y));
    }
  }

  /**
   * The report window of the following month starts one second after this
   * month's window ends, including across the turn of the year, except
   * where the `Date` constructor reinterprets the next year: from December
   * of -1 to January of 0, and from December of 99 to January of 100.
   */
  lemma NextWindowFollows(year: int, month: int)
    requires 0 <= month < 12
    requires month < 11 || (year != -1 && year != 99)
    ensures var next := if month == 11 then (year + 1, 0) else (year, month + 1);
      MonthStart(next.0, next.1) == MonthEnd(year, month) + MsPerSecond
  {
    MonthWindow(year, month);
    if month == 11 {
      assert FullYear(year + 1) == FullYear(year) + 1;
    }
  }
}
