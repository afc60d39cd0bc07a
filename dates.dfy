/**
 * Proleptic Gregorian calendar dates, with the day numbering and weekday of
 * Python's `datetime.date`: `DayNumber` is `date.toordinal()` (1 January of
 * year 1 is day 1) and `Weekday` is `date.weekday()` (Monday 0 ... Sunday 6).
 * The holiday rules use this arithmetic for `dt + timedelta(days=n)` and for
 * the "is this a Sunday" test.
 */
module Dates {

  const JAN := 1
  const FEB := 2
  const MAR := 3
  const APR := 4
  const MAY := 5
  const JUN := 6
  const JUL := 7
  const AUG := 8
  const SEP := 9
  const OCT := 10
  const NOV := 11
  const DEC := 12

  const MON := 0
  const TUE := 1
  const SAT := 5
  const SUN := 6

  datatype Date = Date(year: int, month: int, day: int)

  predicate IsLeap(year: int)
  {
    year % 4 == 0 && (year % 100 != 0 || year % 400 == 0)
  }

  function DaysInMonth(year: int, month: int): int
  {
    if month == FEB then (if IsLeap(year) then 29 else 28)
    else if month == APR || month == JUN || month == SEP || month == NOV then 30
    else 31
  }

  function DaysInYear(year: int): int
  {
    if IsLeap(year) then 366 else 365
  }

  predicate Valid(d: Date)
  {
    JAN <= d.month <= DEC && 1 <= d.day <= DaysInMonth(d.year, d.month)
  }

  /** Days in the years before `year` (CPython's `_days_before_year`). */
  function DaysBeforeYear(year: int): int
  {
    var y := year - 1;
    y * 365 + y / 4 - y / 100 + y / 400
  }

  /** Days in the months of `year` before `month` (CPython's `_days_before_month`). */
  function DaysBeforeMonth(year: int, month: int): (r: int)
    requires JAN <= month <= DEC + 1
    ensures month == JAN ==> r == 0
    ensures month == DEC + 1 ==> r == DaysInYear(year)
  {
    var common :=
      if month == 1 then 0 else if month == 2 then 31 else if month == 3 then 59
      else if month == 4 then 90 else if month == 5 then 120 else if month == 6 then 151
      else if month == 7 then 181 else if month == 8 then 212 else if month == 9 then 243
      else if month == 10 then 273 else if month == 11 then 304 else if month == 12 then 334
      else 365;
    common + (if month > FEB && IsLeap(year) then 1 else 0)
  }

  /** Consecutive months are `DaysInMonth` apart. */
  lemma MonthStep(year: int, month: int)
    requires JAN <= month <= DEC
    ensures DaysBeforeMonth(year, month) + DaysInMonth(year, month) == DaysBeforeMonth(year, month + 1)
  {
  }

  /** The ordinal of a date: `date.toordinal()`. */
  function DayNumber(d: Date): int
    requires Valid(d)
  {
    Ordinal(d.year, d.month, d.day)
  }

  /** The ordinal of day `day` of `month` in `year`, counted as `date.toordinal()` counts it. */
  function Ordinal(year: int, month: int, day: int): int
    requires JAN <= month <= DEC
  {
    DaysBeforeYear(year) + DaysBeforeMonth(year, month) + day
  }

  /** Consecutive years are `DaysInYear` apart in the day numbering. */
  lemma YearStep(year: int)
    ensures DaysBeforeYear(year + 1) == DaysBeforeYear(year) + DaysInYear(year)
  {
    DivStep(year - 1);
    LeapDivisors(year);
  }

  /** A multiple of 400 is a multiple of 100, and a multiple of 100 is a multiple of 4. */
  lemma LeapDivisors(year: int)
    ensures year % 400 == 0 ==> year % 100 == 0
    ensures year % 100 == 0 ==> year % 4 == 0
  {
    var q4, q100, q400 := year / 4, year / 100, year / 400;
    var r4, r100, r400 := year % 4, year % 100, year % 400;
    assert year == 4 * q4 + r4 && 0 <= r4 < 4;
    assert year == 100 * q100 + r100 && 0 <= r100 < 100;
    assert year == 400 * q400 + r400 && 0 <= r400 < 400;
    if r400 == 0 {
      assert r100 == 100 * (4 * q400 - q100);
    }
    if r100 == 0 {
      assert r4 == 4 * (25 * q100 - q4);
    }
  }

  /** How `y / 4`, `y / 100` and `y / 400` change from `y` to `y + 1`. */
  lemma DivStep(y: int)
    ensures (y + 1) / 4 - y / 4 == if (y + 1) % 4 == 0 then 1 else 0
    ensures (y + 1) / 100 - y / 100 == if (y + 1) % 100 == 0 then 1 else 0
    ensures (y + 1) / 400 - y / 400 == if (y + 1) % 400 == 0 then 1 else 0
  {
    assert y == 4 * (y / 4) + y % 4 && y + 1 == 4 * ((y + 1) / 4) + (y + 1) % 4;
    assert y == 100 * (y / 100) + y % 100 && y + 1 == 100 * ((y + 1) / 100) + (y + 1) % 100;
    assert y == 400 * (y / 400) + y % 400 && y + 1 == 400 * ((y + 1) / 400) + (y + 1) % 400;
  }

  /** The day after `d`. */
  function NextDay(d: Date): (r: Date)
    requires Valid(d)
    ensures Valid(r) && DayNumber(r) == DayNumber(d) + 1
  {
    MonthStep(d.year, d.month);
    if d.day < DaysInMonth(d.year, d.month) then Date(d.year, d.month, d.day + 1)
    else if d.month < DEC then Date(d.year, d.month + 1, 1)
    else YearStep(d.year); Date(d.year + 1, JAN, 1)
  }

  /** The day before `d`. */
  function PrevDay(d: Date): (r: Date)
    requires Valid(d)
    ensures Valid(r) && DayNumber(r) + 1 == DayNumber(d)
  {
    if d.day > 1 then Date(d.year, d.month, d.day - 1)
    else if d.month > JAN then MonthStep(d.year, d.month - 1); Date(d.year, d.month - 1, DaysInMonth(d.year, d.month - 1))
    else YearStep(d.year - 1); Date(d.year - 1, DEC, 31)
  }

  /** `d + timedelta(days=n)`: the valid date whose day number is `n` more than `d`'s. */
  function AddDays(d: Date, n: int): (r: Date)
    requires Valid(d)
    ensures Valid(r) && DayNumber(r) == DayNumber(d) + n
    decreases if n < 0 then -n else n
  {
    if n == 0 then d
    else if n > 0 then AddDays(NextDay(d), n - 1)
    else AddDays(PrevDay(d), n + 1)
  }

  /** A valid date lies after every day of the earlier years and within its own year. */
  lemma DayNumberInYear(d: Date)
    requires Valid(d)
    ensures DaysBeforeYear(d.year) < DayNumber(d) <= DaysBeforeYear(d.year + 1)
  {
    YearStep(d.year);
    MonthsBefore(d.year, d.month);
  }

  lemma MonthsBefore(year: int, month: int)
    requires JAN <= month <= DEC
    ensures DaysBeforeMonth(year, month) + DaysInMonth(year, month) <= DaysInYear(year)
  {
  }

  /** The day numbering of the years is strictly increasing. */
  lemma {:induction false} DaysBeforeYearMonotone(a: int, b: int)
    requires a < b
    ensures DaysBeforeYear(a + 1) <= DaysBeforeYear(b)
    decreases b - a
  {
    if a + 1 < b {
      DaysBeforeYearMonotone(a, b - 1);
      YearStep(b - 1);
    }
  }

  /** Two valid dates with the same day number are the same date. */
  lemma DayNumberInjective(a: Date, b: Date)
    requires Valid(a) && Valid(b) && DayNumber(a) == DayNumber(b)
    ensures a == b
  {
    DayNumberInYear(a);
    DayNumberInYear(b);
    if a.year < b.year {
      DaysBeforeYearMonotone(a.year, b.year);
    } else if b.year < a.year {
      DaysBeforeYearMonotone(b.year, a.year);
    }
    assert a.year == b.year;
    if a.month != b.month {
      MonthOrder(a.year, a.month, b.month);
      MonthOrder(a.year, b.month, a.month);
    }
  }

  lemma MonthOrder(year: int, m1: int, m2: int)
    requires JAN <= m1 < m2 <= DEC
    ensures DaysBeforeMonth(year, m1) + DaysInMonth(year, m1) <= DaysBeforeMonth(year, m2)
  {
  }

  /** Moving `n` days and then `-n` days returns to the starting date. */
  lemma AddDaysInverse(d: Date, n: int)
    requires Valid(d)
    ensures AddDays(AddDays(d, n), -n) == d
  {
    DayNumberInjective(AddDays(AddDays(d, n), -n), d);
  }

  /** `date.weekday()`: Monday is 0 and Sunday is 6. */
  function Weekday(d: Date): (w: int)
    requires Valid(d)
    ensures 0 <= w < 7
  {
    (DayNumber(d) + 6) % 7
  }

  /** Sundays are the days whose ordinal is a multiple of 7 (day 1, 1 January of year 1, is a Monday). */
  predicate IsSunday(d: Date)
    requires Valid(d)
    ensures IsSunday(d) <==> DayNumber(d) % 7 == 0
  {
    SundayOrdinal(DayNumber(d));
    Weekday(d) == SUN
  }

  lemma SundayOrdinal(n: int)
    ensures (n + 6) % 7 == SUN <==> n % 7 == 0
  {
    ShiftMod7(n, 6);
  }

  /** Moving `n` days moves the weekday by `n` modulo 7. */
  lemma WeekdayAfter(d: Date, n: int)
    requires Valid(d)
    ensures Weekday(AddDays(d, n)) == (Weekday(d) + n) % 7
  {
    var moved := AddDays(d, n);
    WeekdayShift(DayNumber(d), DayNumber(moved), n);
  }

  lemma WeekdayShift(x: int, y: int, n: int)
    requires y == x + n
    ensures (y + 6) % 7 == ((x + 6) % 7 + n) % 7
  {
    ShiftMod7(x + 6, n);
  }

  lemma ShiftMod7(a: int, n: int)
    ensures (a + n) % 7 == (a % 7 + n) % 7
  {
    var q := a / 7;
    assert a == 7 * q + a % 7;
    assert (a + n) - (a % 7 + n) == 7 * q;
  }

  /** One or two days after a Sunday is a Monday or a Tuesday. */
  lemma SundayShift(d: Date, n: int)
    requires Valid(d) && IsSunday(d) && 1 <= n <= 2
    ensures Weekday(AddDays(d, n)) == n - 1
  {
    WeekdayAfter(d, n);
    AfterSunday(Weekday(d), n);
  }

  lemma AfterSunday(w: int, n: int)
    requires w == SUN && 1 <= n <= 2
    ensures (w + n) % 7 == n - 1
  {
  }
}
