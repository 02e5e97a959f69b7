/**
 The day clock. A day is an integer counting days since 0000-01-01 in the
 proleptic Gregorian calendar with astronomical year numbering (year 0 is a
 leap year, years before it are negative). This is the count MySQL's
 `TO_DAYS` produces for modern dates and the count `Table.getMysqlDay`
 computes as the difference in days from `moment([0, 0, 1])`.
 */
module Calendar {

  /** A calendar date without time of day. */
  datatype Civil = Civil(year: int, month: int, day: int)

  predicate IsLeapYear(y: int)
  {
    y % 4 == 0 && (y % 100 != 0 || y % 400 == 0)
  }

  function YearLength(y: int): int
  {
    if IsLeapYear(y) then 366 else 365
  }

  function DaysInMonth(y: int, m: int): int
    requires 1 <= m <= 12
  {
    if m == 2 && IsLeapYear(y) then 29
    else [31, 28, 31, 30, 31, 30, 31, 31, 30, 31, 30, 31][m - 1]
  }

  predicate Valid(c: Civil)
  {
    1 <= c.month <= 12 && 1 <= c.day <= DaysInMonth(c.year, c.month)
  }

  /** Days from 0000-01-01 to the first of January of year `y` (negative before year 0). */
  function DaysBeforeYear(y: int): int
  {
    365 * y + (y + 3) / 4 - (y + 99) / 100 + (y + 399) / 400
  }

  /** Days from the first of January of year `y` to the first of month `m`; month 13 stands for the next year. */
  function DaysBeforeMonth(y: int, m: int): int
    requires 1 <= m <= 13
  {
    var common := [0, 31, 59, 90, 120, 151, 181, 212, 243, 273, 304, 334, 365][m - 1];
    if m > 2 && IsLeapYear(y) then common + 1 else common
  }

  /** The day number of a calendar date: what `Table.getMysqlDay` returns for it. */
  function DayCount(c: Civil): int
    requires Valid(c)
  {
    DaysBeforeYear(c.year) + DaysBeforeMonth(c.year, c.month) + c.day - 1
  }

  lemma YearStep(y: int)
    ensures DaysBeforeYear(y + 1) == DaysBeforeYear(y) + YearLength(y)
  {
    FloorStep(y);
  }

  /** Each of the three leap-year counts in `DaysBeforeYear` grows by one exactly at a multiple of its period. */
  lemma FloorStep(y: int)
    ensures (y + 4) / 4 - (y + 3) / 4 == if y % 4 == 0 then 1 else 0
    ensures (y + 100) / 100 - (y + 99) / 100 == if y % 100 == 0 then 1 else 0
    ensures (y + 400) / 400 - (y + 399) / 400 == if y % 400 == 0 then 1 else 0
  {
    assert (y + 4) / 4 - (y + 3) / 4 == if y % 4 == 0 then 1 else 0 by {
      assert y == 4 * (y / 4) + y % 4;
    }
    assert (y + 100) / 100 - (y + 99) / 100 == if y % 100 == 0 then 1 else 0 by {
      assert y == 100 * (y / 100) + y % 100;
    }
    assert y == 400 * (y / 400) + y % 400;
  }

  lemma MonthStep(y: int, m: int)
    requires 1 <= m <= 12
    ensures DaysBeforeMonth(y, m + 1) == DaysBeforeMonth(y, m) + DaysInMonth(y, m)
  {
  }

  /** One 400-year Gregorian cycle holds exactly 146097 days. */
  lemma CycleShift(q: int, k: int)
    ensures DaysBeforeYear(400 * q + k) == 146097 * q + DaysBeforeYear(k)
  {
    CycleShiftTerms(q, k);
  }

  lemma CycleShiftTerms(q: int, k: int)
    ensures (400 * q + k + 3) / 4 == 100 * q + (k + 3) / 4
    ensures (400 * q + k + 99) / 100 == 4 * q + (k + 99) / 100
    ensures (400 * q + k + 399) / 400 == q + (k + 399) / 400
  {
  }

  lemma {:induction false} DaysBeforeYearMonotone(a: int, b: int)
    requires a < b
    ensures DaysBeforeYear(a) + YearLength(a) <= DaysBeforeYear(b)
    decreases b - a
  {
    YearStep(a);
    if a + 1 < b {
      DaysBeforeYearMonotone(a + 1, b);
    }
  }

  /** The year of day `r` of a 400-year cycle, searching upwards from year `k` of the cycle. */
  function YearOfCycle(k: int, r: int): int
    requires 0 <= k < 400 && DaysBeforeYear(k) <= r < 146097
    decreases 400 - k
  {
    if r < DaysBeforeYear(k + 1) then k else YearOfCycle(k + 1, r)
  }

  lemma {:induction false} YearOfCycleSpec(k: int, r: int)
    requires 0 <= k < 400 && DaysBeforeYear(k) <= r < 146097
    ensures k <= YearOfCycle(k, r) < 400
    ensures DaysBeforeYear(YearOfCycle(k, r)) <= r < DaysBeforeYear(YearOfCycle(k, r) + 1)
    decreases 400 - k
  {
    if r >= DaysBeforeYear(k + 1) {
      YearOfCycleSpec(k + 1, r);
    }
  }

  /**
   The year of day number `n`, moving whole 400-year cycles of 146097 days
   until `n` falls in the cycle that starts at year 0.
   */
  function YearOf(n: int): int
    decreases if n < 0 then 146097 - n else n
  {
    if n < 0 then YearOf(n + 146097) - 400
    else if n >= 146097 then YearOf(n - 146097) + 400
    else YearOfCycle(0, n)
  }

  lemma {:induction false} YearOfSpec(n: int)
    ensures DaysBeforeYear(YearOf(n)) <= n < DaysBeforeYear(YearOf(n) + 1)
    decreases if n < 0 then 146097 - n else n
  {
    if n < 0 {
      YearOfSpec(n + 146097);
      YearOfEarlierCycle(n);
    } else if n >= 146097 {
      YearOfSpec(n - 146097);
      YearOfLaterCycle(n);
    } else {
      YearOfCycleSpec(0, n);
    }
  }

  lemma YearOfEarlierCycle(n: int)
    requires n < 0
    requires DaysBeforeYear(YearOf(n + 146097)) <= n + 146097 < DaysBeforeYear(YearOf(n + 146097) + 1)
    ensures DaysBeforeYear(YearOf(n)) <= n < DaysBeforeYear(YearOf(n) + 1)
  {
    var y := YearOf(n + 146097);
    CycleDown(y, n + 146097);
    assert YearOf(n) == y - 400;
  }

  lemma YearOfLaterCycle(n: int)
    requires n >= 146097
    requires DaysBeforeYear(YearOf(n - 146097)) <= n - 146097 < DaysBeforeYear(YearOf(n - 146097) + 1)
    ensures DaysBeforeYear(YearOf(n)) <= n < DaysBeforeYear(YearOf(n) + 1)
  {
    var y := YearOf(n - 146097);
    CycleUp(y, n - 146097);
    assert YearOf(n) == y + 400;
  }

  /** Day `m` of year `y` moved one cycle later lands in year `y + 400`. */
  lemma CycleUp(y: int, m: int)
    requires DaysBeforeYear(y) <= m < DaysBeforeYear(y + 1)
    ensures DaysBeforeYear(y + 400) <= m + 146097 < DaysBeforeYear(y + 401)
  {
    CycleShift(1, y);
    CycleShift(1, y + 1);
  }

  /** Day `m` of year `y` moved one cycle earlier lands in year `y - 400`. */
  lemma CycleDown(y: int, m: int)
    requires DaysBeforeYear(y) <= m < DaysBeforeYear(y + 1)
    ensures DaysBeforeYear(y - 400) <= m - 146097 < DaysBeforeYear(y - 399)
  {
    CycleShift(-1, y);
    CycleShift(-1, y + 1);
  }

  /**
   Month and day of the month of day `doy` (counted from 0) of the part of
   year `y` that starts with month `m`.
   */
  function MonthAndDay(y: int, m: int, doy: int): (int, int)
    requires 1 <= m <= 12
    requires 0 <= doy < DaysBeforeMonth(y, 13) - DaysBeforeMonth(y, m)
    decreases 12 - m
  {
    MonthStep(y, m);
    if doy < DaysInMonth(y, m) then (m, doy + 1)
    else MonthAndDay(y, m + 1, doy - DaysInMonth(y, m))
  }

  lemma {:induction false} MonthAndDaySpec(y: int, m: int, doy: int)
    requires 1 <= m <= 12
    requires 0 <= doy < DaysBeforeMonth(y, 13) - DaysBeforeMonth(y, m)
    ensures var (month, day) := MonthAndDay(y, m, doy);
      && m <= month <= 12
      && 1 <= day <= DaysInMonth(y, month)
      && DaysBeforeMonth(y, month) + day - 1 == DaysBeforeMonth(y, m) + doy
    decreases 12 - m
  {
    MonthStep(y, m);
    if doy >= DaysInMonth(y, m) {
      MonthAndDaySpec(y, m + 1, doy - DaysInMonth(y, m));
    }
  }

  /** The calendar date of a day number. */
  function CivilOf(n: int): (c: Civil)
    ensures Valid(c)
  {
    var y := YearOf(n);
    YearOfSpec(n);
    YearStep(y);
    var doy := n - DaysBeforeYear(y);
    MonthAndDaySpec(y, 1, doy);
    var (m, d) := MonthAndDay(y, 1, doy);
    Civil(y, m, d)
  }

  /** Counting the days of the date of day number `n` gives `n` back. */
  lemma DayCountOfCivilOf(n: int)
    ensures DayCount(CivilOf(n)) == n
  {
    var y := YearOf(n);
    YearOfSpec(n);
    YearStep(y);
    MonthAndDaySpec(y, 1, n - DaysBeforeYear(y));
  }

  /**
   `Table.getMysqlDay`: the number of whole days between `moment([0, 0, 1])`
   and a date. Dates are represented here by their day number already, so the
   contract is that counting the calendar date of day `d` lands on `d` again:
   the representation and MySQL's count agree.
   */
  function MysqlDay(d: int): (n: int)
    ensures n == d
  {
    DayCountOfCivilOf(d);
    DayCount(CivilOf(d))
  }

  /** `a` is an earlier calendar date than `b`. */
  predicate Before(a: Civil, b: Civil)
  {
    a.year < b.year
    || (a.year == b.year && (a.month < b.month || (a.month == b.month && a.day < b.day)))
  }

  /** Every day of year `c.year` lies before the first day of the next year. */
  lemma DayOfYearBound(c: Civil)
    requires Valid(c)
    ensures DaysBeforeYear(c.year) <= DayCount(c) < DaysBeforeYear(c.year) + YearLength(c.year)
  {
    MonthStep(c.year, c.month);
  }

  lemma BeforeMeansFewerDays(a: Civil, b: Civil)
    requires Valid(a) && Valid(b) && Before(a, b)
    ensures DayCount(a) < DayCount(b)
  {
    DayOfYearBound(a);
    DayOfYearBound(b);
    if a.year < b.year {
      DaysBeforeYearMonotone(a.year, b.year);
    } else {
      MonthStep(a.year, a.month);
    }
  }

  /** The day count orders dates as the calendar does, in both directions. */
  lemma DayCountOrder(a: Civil, b: Civil)
    requires Valid(a) && Valid(b)
    ensures Before(a, b) <==> DayCount(a) < DayCount(b)
    ensures a == b <==> DayCount(a) == DayCount(b)
  {
    if Before(a, b) {
      BeforeMeansFewerDays(a, b);
    } else if Before(b, a) {
      BeforeMeansFewerDays(b, a);
    }
  }

  /** Formatting a day number and counting it again gives the same date back. */
  lemma CivilOfDayCount(c: Civil)
    requires Valid(c)
    ensures CivilOf(DayCount(c)) == c
  {
    DayCountOfCivilOf(DayCount(c));
    DayCountOrder(c, CivilOf(DayCount(c)));
  }

  /** The calendar date that follows `c`. */
  function NextDay(c: Civil): Civil
    requires Valid(c)
  {
    if c.day < DaysInMonth(c.year, c.month) then Civil(c.year, c.month, c.day + 1)
    else if c.month < 12 then Civil(c.year, c.month + 1, 1)
    else Civil(c.year + 1, 1, 1)
  }

  /** The day count steps by exactly one from each date to the next. */
  lemma DayCountOfNextDay(c: Civil)
    requires Valid(c)
    ensures Valid(NextDay(c)) && Before(c, NextDay(c))
    ensures DayCount(NextDay(c)) == DayCount(c) + 1
  {
    if c.day == DaysInMonth(c.year, c.month) {
      MonthStep(c.year, c.month);
      if c.month == 12 {
        YearStep(c.year);
      }
    }
  }

  /** Day number `n + 1` is the calendar day after day number `n`. */
  lemma CivilOfSuccessor(n: int)
    ensures CivilOf(n + 1) == NextDay(CivilOf(n))
  {
    var c := CivilOf(n);
    var next := NextDay(c);
    DayCountOfCivilOf(n);
    DayCountOfNextDay(c);
    assert DayCount(next) == n + 1;
    CivilOfDayCount(next);
  }
}
