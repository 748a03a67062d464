/**
 * Gregorian calendar arithmetic standing in for the parts of `moment` the
 * calendar relies on: days in a month, the day count behind every
 * day-granularity comparison, the weekday, stepping one day and stepping one
 * month with day-of-month clamping.
 *
 * A date is moment's view of it: a year, a 0-based month and a 1-based day.
 */
module Dates {

  datatype Date = Date(year: int, month: int, day: int)

  /** Milliseconds in a calendar day (no daylight-saving shifts are modelled). */
  const MsPerDay: int := 86_400_000

  predicate IsLeapYear(y: int) {
    y % 4 == 0 && (y % 100 != 0 || y % 400 == 0)
  }

  function DaysInYear(y: int): int {
    if IsLeapYear(y) then 366 else 365
  }

  /** Days in month `m` (0 = January) of year `y`. */
  function DaysInMonth(y: int, m: int): (n: int)
    requires 0 <= m < 12
    ensures 28 <= n <= 31
  {
    if m == 1 then (if IsLeapYear(y) then 29 else 28)
    else if m == 3 || m == 5 || m == 8 || m == 10 then 30
    else 31
  }

  predicate ValidDate(d: Date) {
    0 <= d.month < 12 && 1 <= d.day <= DaysInMonth(d.year, d.month)
  }

  /** Days of year `y` that lie before the first of month `m`. */
  function DaysBeforeMonth(y: int, m: int): (n: int)
    requires 0 <= m <= 12
    ensures 28 * m <= n <= 31 * m
  {
    if m == 0 then 0 else DaysBeforeMonth(y, m - 1) + DaysInMonth(y, m - 1)
  }

  /** Days from 0001-01-01 to the first of January of year `y` (negative before year 1). */
  function DaysBeforeYear(y: int): int {
    var p := y - 1;
    365 * p + p / 4 - p / 100 + p / 400
  }

  /** The day count of a date: 0001-01-01 is day 0. */
  function DayNumber(d: Date): int
    requires ValidDate(d)
  {
    DaysBeforeYear(d.year) + DaysBeforeMonth(d.year, d.month) + d.day - 1
  }

  /** moment's `day()`: 0 = Sunday ... 6 = Saturday; 0001-01-01 was a Monday. */
  function DayOfWeek(d: Date): (w: int)
    requires ValidDate(d)
    ensures 0 <= w < 7
  {
    (DayNumber(d) + 1) % 7
  }

  /** Months since the start of year 0: one month later is one more. */
  function MonthIndex(d: Date): int {
    12 * d.year + d.month
  }

  /** `a` falls on an earlier day than `b`: (year, month, day) compared in that order. */
  predicate Before(a: Date, b: Date) {
    a.year < b.year
    || (a.year == b.year && a.month < b.month)
    || (a.year == b.year && a.month == b.month && a.day < b.day)
  }

  /** `add(1, 'day')`. */
  function NextDay(d: Date): Date
    requires ValidDate(d)
  {
    if d.day < DaysInMonth(d.year, d.month) then Date(d.year, d.month, d.day + 1)
    else if d.month < 11 then Date(d.year, d.month + 1, 1)
    else Date(d.year + 1, 0, 1)
  }

  function Min(a: int, b: int): int {
    if a <= b then a else b
  }

  /**
   * `add(1, 'month')`: the next month, keeping the day of month unless that
   * month is shorter, in which case the day is clamped to its last day.
   */
  function AddOneMonth(d: Date): (r: Date)
    requires ValidDate(d)
    ensures ValidDate(r)
    ensures MonthIndex(r) == MonthIndex(d) + 1
    ensures r.day <= d.day
    ensures d.day <= DaysInMonth(r.year, r.month) ==> r.day == d.day
    ensures r.day < d.day ==> r.day == DaysInMonth(r.year, r.month)
  {
    var (y, m) := if d.month == 11 then (d.year + 1, 0) else (d.year, d.month + 1);
    Date(y, m, Min(d.day, DaysInMonth(y, m)))
  }

  /** `add(k, 'month')` in one call: the day is clamped once, in the target month. */
  function AddMonths(d: Date, k: nat): (r: Date)
    requires ValidDate(d)
    ensures ValidDate(r)
    ensures MonthIndex(r) == MonthIndex(d) + k
    ensures r.day == Min(d.day, DaysInMonth(r.year, r.month))
  {
    var mi := MonthIndex(d) + k;
    var (y, m) := (mi / 12, mi % 12);
    Date(y, m, Min(d.day, DaysInMonth(y, m)))
  }

  /**
   * `k` successive calls of `add(1, 'month')` on the same moment: each call
   * clamps, so a clamped day never grows back.
   */
  function Step(d: Date, k: nat): (r: Date)
    requires ValidDate(d)
    ensures ValidDate(r)
    ensures MonthIndex(r) == MonthIndex(d) + k
    ensures r.day <= d.day
  {
    if k == 0 then d else AddOneMonth(Step(d, k - 1))
  }

  // ---------------------------------------------------------------------
  // The day count agrees with the calendar

  /** A year has 365 days, 366 in a leap year, in the closed form of DaysBeforeYear. */
  lemma YearLength(y: int)
    ensures DaysBeforeYear(y + 1) == DaysBeforeYear(y) + DaysInYear(y)
  {
    DivStep(y, 4);
    DivStep(y, 100);
    DivStep(y, 400);
  }

  /** Going from `y - 1` to `y` adds one to the quotient exactly when `k` divides `y`. */
  lemma DivStep(y: int, k: int)
    requires k == 4 || k == 100 || k == 400
    ensures y / k - (y - 1) / k == if y % k == 0 then 1 else 0
  {
    var q, r := (y - 1) / k, (y - 1) % k;
    assert y - 1 == k * q + r && 0 <= r < k;
    if r == k - 1 {
      assert y == k * (q + 1);
    } else {
      assert y == k * q + (r + 1);
    }
  }

  /** The months of a year add up to the year's length. */
  lemma MonthsFillYear(y: int)
    ensures DaysBeforeMonth(y, 12) == DaysInYear(y)
  {
    var leap := if IsLeapYear(y) then 1 else 0;
    assert DaysBeforeMonth(y, 1) == 31;
    assert DaysBeforeMonth(y, 2) == 59 + leap;
    assert DaysBeforeMonth(y, 3) == 90 + leap;
    assert DaysBeforeMonth(y, 4) == 120 + leap;
    assert DaysBeforeMonth(y, 5) == 151 + leap;
    assert DaysBeforeMonth(y, 6) == 181 + leap;
    assert DaysBeforeMonth(y, 7) == 212 + leap;
    assert DaysBeforeMonth(y, 8) == 243 + leap;
    assert DaysBeforeMonth(y, 9) == 273 + leap;
    assert DaysBeforeMonth(y, 10) == 304 + leap;
    assert DaysBeforeMonth(y, 11) == 334 + leap;
  }

  /** Stepping one day adds one to the day count and stays a valid date. */
  lemma NextDayNumber(d: Date)
    requires ValidDate(d)
    ensures ValidDate(NextDay(d))
    ensures DayNumber(NextDay(d)) == DayNumber(d) + 1
  {
    if d.day == DaysInMonth(d.year, d.month) && d.month == 11 {
      MonthsFillYear(d.year);
      YearLength(d.year);
    }
  }

  /** The weekday advances by one, wrapping from Saturday to Sunday, each day. */
  lemma NextDayWeekday(d: Date)
    requires ValidDate(d)
    ensures ValidDate(NextDay(d))
    ensures DayOfWeek(NextDay(d)) == (DayOfWeek(d) + 1) % 7
  {
    NextDayNumber(d);
    ModAdd(DayNumber(d) + 1, 1);
  }

  /** The first of the next month comes DaysInMonth days after the first of this one. */
  lemma NextMonthStart(y: int, m: int)
    requires 0 <= m < 12
    ensures ValidDate(Date(y, m, 1))
    ensures AddOneMonth(Date(y, m, 1)) == NextDay(Date(y, m, DaysInMonth(y, m)))
    ensures DayNumber(AddOneMonth(Date(y, m, 1))) == DayNumber(Date(y, m, 1)) + DaysInMonth(y, m)
  {
    NextDayNumber(Date(y, m, DaysInMonth(y, m)));
  }

  /** Day `k` of a month falls `k - 1` weekdays after the first. */
  lemma WeekdayInMonth(y: int, m: int, k: int)
    requires 0 <= m < 12 && 1 <= k <= DaysInMonth(y, m)
    ensures ValidDate(Date(y, m, 1)) && ValidDate(Date(y, m, k))
    ensures DayOfWeek(Date(y, m, k)) == (DayOfWeek(Date(y, m, 1)) + k - 1) % 7
  {
    var n := DayNumber(Date(y, m, 1)) + 1;
    assert DayNumber(Date(y, m, k)) + 1 == n + (k - 1);
    ModAdd(n, k - 1);
  }

  lemma ModAdd(a: int, b: int)
    ensures (a + b) % 7 == (a % 7 + b) % 7
  {
    var q := a / 7;
    assert a == 7 * q + a % 7;
    assert a + b == 7 * q + (a % 7 + b);
  }

  lemma DaysBeforeYearGrows(y1: int, y2: int)
    requires y1 <= y2
    ensures DaysBeforeYear(y2) >= DaysBeforeYear(y1) + 365 * (y2 - y1)
    decreases y2 - y1
  {
    if y1 < y2 {
      DaysBeforeYearGrows(y1, y2 - 1);
      YearLength(y2 - 1);
    }
  }

  lemma DaysBeforeMonthGrows(y: int, m1: int, m2: int)
    requires 0 <= m1 < m2 <= 12
    ensures DaysBeforeMonth(y, m2) >= DaysBeforeMonth(y, m1) + DaysInMonth(y, m1)
    decreases m2 - m1
  {
    if m1 + 1 < m2 {
      DaysBeforeMonthGrows(y, m1, m2 - 1);
    }
  }

  lemma BeforeNumber(a: Date, b: Date)
    requires ValidDate(a) && ValidDate(b) && Before(a, b)
    ensures DayNumber(a) < DayNumber(b)
  {
    if a.year < b.year {
      if a.month < 11 {
        DaysBeforeMonthGrows(a.year, a.month, 12);
      }
      MonthsFillYear(a.year);
      YearLength(a.year);
      DaysBeforeYearGrows(a.year + 1, b.year);
    } else if a.month < b.month {
      DaysBeforeMonthGrows(a.year, a.month, b.month);
    }
  }

  /**
   * The day count orders valid dates as the calendar does: comparing moments
   * at day granularity is comparing (year, month, day) lexicographically.
   */
  lemma DayNumberOrder(a: Date, b: Date)
    requires ValidDate(a) && ValidDate(b)
    ensures DayNumber(a) < DayNumber(b) <==> Before(a, b)
    ensures DayNumber(a) == DayNumber(b) <==> a == b
  {
    if Before(a, b) {
      BeforeNumber(a, b);
    } else if Before(b, a) {
      BeforeNumber(b, a);
    }
  }

  /** Stepping a month always moves strictly later. */
  lemma AddOneMonthLater(d: Date)
    requires ValidDate(d)
    ensures DayNumber(AddOneMonth(d)) > DayNumber(d)
  {
    BeforeNumber(d, AddOneMonth(d));
  }

  /** Stepping once and then `k` times is stepping `k + 1` times. */
  lemma {:induction false} StepShift(d: Date, k: nat)
    requires ValidDate(d)
    ensures Step(AddOneMonth(d), k) == Step(d, k + 1)
    decreases k
  {
    if k > 0 {
      StepShift(d, k - 1);
    }
  }

  /** More steps never lead to an earlier date. */
  lemma StepLater(d: Date, i: nat, j: nat)
    requires ValidDate(d) && i <= j
    ensures !Before(Step(d, j), Step(d, i))
  {
  }

  /** A date in an earlier month is an earlier date; one in the same month differs only in the day. */
  lemma MonthIndexOrder(a: Date, b: Date)
    requires ValidDate(a) && ValidDate(b)
    ensures MonthIndex(a) < MonthIndex(b) ==> DayNumber(a) < DayNumber(b)
    ensures MonthIndex(a) == MonthIndex(b) ==> a.year == b.year && a.month == b.month
  {
    if MonthIndex(a) < MonthIndex(b) {
      assert Before(a, b);
      BeforeNumber(a, b);
    }
  }

  /** A valid date's year and month are the quotient and remainder of its month index by 12. */
  lemma MonthIndexParts(d: Date)
    requires ValidDate(d)
    ensures d.year == MonthIndex(d) / 12 && d.month == MonthIndex(d) % 12
  {
    var q, r := MonthIndex(d) / 12, MonthIndex(d) % 12;
    assert 12 * q + r == 12 * d.year + d.month && 0 <= r < 12;
  }

  /** The Gregorian calendar repeats every 400 years, weekdays included. */
  lemma FourHundredYearCycle(d: Date)
    requires ValidDate(d)
    ensures ValidDate(Date(d.year + 400, d.month, d.day))
    ensures DayNumber(Date(d.year + 400, d.month, d.day)) == DayNumber(d) + 146097
    ensures DayOfWeek(Date(d.year + 400, d.month, d.day)) == DayOfWeek(d)
  {
    var y := d.year;
    var e := Date(y + 400, d.month, d.day);
    LeapCycle(y);
    assert DaysInMonth(y + 400, d.month) == DaysInMonth(y, d.month);
    MonthsAgree(y, y + 400, d.month);
    YearsCycle(y);
    assert DayNumber(e) == DayNumber(d) + 146097;
    CycleWeekday(DayNumber(d) + 1);
  }

  lemma CycleWeekday(n: int)
    ensures (n + 146097) % 7 == n % 7
  {
    var q, r := n / 7, n % 7;
    assert n == 7 * q + r && 0 <= r < 7;
    assert n + 146097 == 7 * (q + 20871) + r;
  }

  lemma LeapCycle(y: int)
    ensures IsLeapYear(y + 400) == IsLeapYear(y)
    ensures DaysInMonth(y + 400, 1) == DaysInMonth(y, 1)
  {
    ModShift(y, 4, 100);
    ModShift(y, 100, 4);
    ModShift(y, 400, 1);
  }

  /** Adding a multiple of `k` leaves the remainder and moves the quotient. */
  lemma ModShift(y: int, k: int, c: int)
    requires k == 4 || k == 100 || k == 400
    requires k * c == 400
    ensures (y + 400) % k == y % k && (y + 400) / k == y / k + c
  {
    var q, r := y / k, y % k;
    assert y == k * q + r && 0 <= r < k;
    assert y + 400 == k * (q + c) + r;
  }

  lemma YearsCycle(y: int)
    ensures DaysBeforeYear(y + 400) == DaysBeforeYear(y) + 146097
  {
    var p := y - 1;
    ModShift(p, 4, 100);
    ModShift(p, 100, 4);
    ModShift(p, 400, 1);
  }

  lemma MonthsAgree(y1: int, y2: int, m: int)
    requires 0 <= m <= 12 && IsLeapYear(y1) == IsLeapYear(y2)
    ensures DaysBeforeMonth(y1, m) == DaysBeforeMonth(y2, m)
  {
    if m > 0 {
      MonthsAgree(y1, y2, m - 1);
    }
  }

  /** Anchor: 1 January 1970 was a Thursday. */
  lemma EpochIsThursday()
    ensures ValidDate(Date(1970, 0, 1)) && DayOfWeek(Date(1970, 0, 1)) == 4
  {
  }
}
