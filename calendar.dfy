/** The proleptic Gregorian calendar that JavaScript's `Date` implements, reduced
    to what the notes tool uses: dates without a time of day, in one civil
    calendar (no time zones). A date is a civil triple as the local getters
    report it (`getFullYear`, 0-based `getMonth`, `getDate`); its day number
    counts days from 1970-01-01, so weekday, shifting and comparison are
    integer arithmetic on day numbers. */
module Calendar {
  import opened Util

  /** `month` is 0-based (0 = January), as `Date.prototype.getMonth` returns it. */
  datatype Civil = Civil(year: int, month: int, day: int)

  predicate IsLeapYear(y: int)
  {
    y % 4 == 0 && (y % 100 != 0 || y % 400 == 0)
  }

  function DaysInYear(y: int): int
  {
    if IsLeapYear(y) then 366 else 365
  }

  function DaysInMonth(y: int, m: int): (n: int)
    requires 0 <= m < 12
    ensures 28 <= n <= 31
  {
    if m == 1 then (if IsLeapYear(y) then 29 else 28)
    else if m == 3 || m == 5 || m == 8 || m == 10 then 30
    else 31
  }

  /** A real calendar date: month in 0..11 and a day that exists in that month. */
  predicate Valid(c: Civil)
  {
    0 <= c.month < 12 && 1 <= c.day <= DaysInMonth(c.year, c.month)
  }

  /** Days in the months of year `y` before month `m`. */
  function DaysBeforeMonth(y: int, m: int): int
    requires 0 <= m < 12
  {
    [0, 31, 59, 90, 120, 151, 181, 212, 243, 273, 304, 334][m]
      + (if m >= 2 && IsLeapYear(y) then 1 else 0)
  }

  /** Days from 1970-01-01 to the first of January of year `y` (negative
      before 1970): the lengths of the years in between, added up. */
  function DaysBeforeYear(y: int): int
    decreases if y < 1970 then 1970 - y else y - 1970
  {
    if y == 1970 then 0
    else if y > 1970 then DaysBeforeYear(y - 1) + DaysInYear(y - 1)
    else DaysBeforeYear(y + 1) - DaysInYear(y)
  }

  /** Days from 1970-01-01 to `c`: the time value of `c` divided by 86400000. */
  function DayNumber(c: Civil): int
    requires 0 <= c.month < 12
  {
    DaysBeforeYear(c.year) + DaysBeforeMonth(c.year, c.month) + c.day - 1
  }

  /** A date lies `day - 1` days after the first of its month. */
  lemma MonthStart(c: Civil)
    requires 0 <= c.month < 12
    ensures DayNumber(c) == DayNumber(Civil(c.year, c.month, 1)) + c.day - 1
  {
  }

  /** `Date.prototype.getDay`: 0 is Sunday, 6 is Saturday; 1970-01-01 was a Thursday. */
  function DayOfWeek(c: Civil): (w: int)
    requires Valid(c)
    ensures 0 <= w < 7
  {
    (DayNumber(c) + 4) % 7
  }

  // ---------------------------------------------------------------------------
  // Year and month arithmetic
  // ---------------------------------------------------------------------------

  /** Consecutive years start `DaysInYear` days apart. */
  lemma YearStep(y: int)
    ensures DaysBeforeYear(y + 1) == DaysBeforeYear(y) + DaysInYear(y)
  {
  }

  /** Later years start after every day of earlier years. */
  lemma {:induction false} YearsAscend(a: int, b: int)
    requires a < b
    ensures DaysBeforeYear(a) + DaysInYear(a) <= DaysBeforeYear(b)
    decreases b - a
  {
    YearStep(a);
    if a + 1 < b {
      YearsAscend(a + 1, b);
    }
  }

  /** Consecutive months of one year start `DaysInMonth` days apart, and the
      last month ends the year. */
  lemma MonthStep(y: int, m: int)
    requires 0 <= m < 12
    ensures m < 11 ==> DaysBeforeMonth(y, m + 1) == DaysBeforeMonth(y, m) + DaysInMonth(y, m)
    ensures m == 11 ==> DaysBeforeMonth(y, m) + DaysInMonth(y, m) == DaysInYear(y)
  {
  }

  /** Later months of a year start after every day of earlier months. */
  lemma {:induction false} MonthsAscend(y: int, a: int, b: int)
    requires 0 <= a < b < 12
    ensures DaysBeforeMonth(y, a) + DaysInMonth(y, a) <= DaysBeforeMonth(y, b)
    decreases b - a
  {
    MonthStep(y, a);
    if a + 1 < b {
      MonthsAscend(y, a + 1, b);
    }
  }

  /** A valid date's day number lies within its year and within its month. */
  lemma DayNumberBounds(c: Civil)
    requires Valid(c)
    ensures DaysBeforeYear(c.year) <= DayNumber(c) < DaysBeforeYear(c.year) + DaysInYear(c.year)
  {
    if c.month < 11 {
      MonthsAscend(c.year, c.month, 11);
    }
    MonthStep(c.year, 11);
  }

  /** Different valid dates have different day numbers. */
  lemma DayNumberInjective(a: Civil, b: Civil)
    requires Valid(a) && Valid(b) && DayNumber(a) == DayNumber(b)
    ensures a == b
  {
    DayNumberBounds(a);
    DayNumberBounds(b);
    if a.year < b.year {
      YearsAscend(a.year, b.year);
    } else if b.year < a.year {
      YearsAscend(b.year, a.year);
    }
    assert a.year == b.year;
    if a.month < b.month {
      MonthsAscend(a.year, a.month, b.month);
    } else if b.month < a.month {
      MonthsAscend(a.year, b.month, a.month);
    }
    assert a.month == b.month;
  }

  /** The day number order is the order of (year, month, day). */
  lemma DayNumberOrder(a: Civil, b: Civil)
    requires Valid(a) && Valid(b)
    ensures DayNumber(a) < DayNumber(b) <==>
      a.year < b.year || (a.year == b.year && (a.month < b.month || (a.month == b.month && a.day < b.day)))
  {
    DayNumberBounds(a);
    DayNumberBounds(b);
    if a.year < b.year {
      YearsAscend(a.year, b.year);
    } else if b.year < a.year {
      YearsAscend(b.year, a.year);
    } else if a.month < b.month {
      MonthsAscend(a.year, a.month, b.month);
    } else if b.month < a.month {
      MonthsAscend(a.year, b.month, a.month);
    }
  }

  // ---------------------------------------------------------------------------
  // Moving by days
  // ---------------------------------------------------------------------------

  function NextDay(c: Civil): (r: Civil)
    requires Valid(c)
    ensures Valid(r) && DayNumber(r) == DayNumber(c) + 1
  {
    if c.day < DaysInMonth(c.year, c.month) then Civil(c.year, c.month, c.day + 1)
    else if c.month < 11 then MonthStep(c.year, c.month); Civil(c.year, c.month + 1, 1)
    else MonthStep(c.year, 11); YearStep(c.year); Civil(c.year + 1, 0, 1)
  }

  function PrevDay(c: Civil): (r: Civil)
    requires Valid(c)
    ensures Valid(r) && DayNumber(r) == DayNumber(c) - 1
  {
    if c.day > 1 then Civil(c.year, c.month, c.day - 1)
    else if c.month > 0 then
      MonthStep(c.year, c.month - 1); Civil(c.year, c.month - 1, DaysInMonth(c.year, c.month - 1))
    else
      MonthStep(c.year - 1, 11); YearStep(c.year - 1); Civil(c.year - 1, 11, 31)
  }

  /** The date `n` days after `c` (before it when `n` is negative). */
  function Shift(c: Civil, n: int): (r: Civil)
    requires Valid(c)
    ensures Valid(r) && DayNumber(r) == DayNumber(c) + n
    decreases if n < 0 then -n else n
  {
    if n == 0 then c
    else if n > 0 then Shift(NextDay(c), n - 1)
    else Shift(PrevDay(c), n + 1)
  }

  /** The date with day number `n`. */
  function FromDayNumber(n: int): (r: Civil)
    ensures Valid(r)
  {
    Shift(Civil(1970, 0, 1), n)
  }

  /** Day numbers and valid dates are in one-to-one correspondence. */
  lemma DayNumberRoundTrip(c: Civil, n: int)
    requires Valid(c)
    ensures DayNumber(FromDayNumber(n)) == n
    ensures FromDayNumber(DayNumber(c)) == c
  {
    DayNumberInjective(FromDayNumber(DayNumber(c)), c);
  }

  /** A valid date with the right day number is the shifted date. */
  lemma ShiftUnique(c: Civil, n: int, r: Civil)
    requires Valid(c) && Valid(r) && DayNumber(r) == DayNumber(c) + n
    ensures Shift(c, n) == r
  {
    DayNumberInjective(Shift(c, n), r);
  }

  /** Shifts compose additively. */
  lemma ShiftCompose(c: Civil, a: int, b: int)
    requires Valid(c)
    ensures Shift(Shift(c, a), b) == Shift(c, a + b)
  {
    DayNumberInjective(Shift(Shift(c, a), b), Shift(c, a + b));
  }

  /** Shifting by `n` days moves the weekday by `n` modulo 7. */
  lemma DayOfWeekShift(c: Civil, n: int)
    requires Valid(c)
    ensures DayOfWeek(Shift(c, n)) == (DayOfWeek(c) + n) % 7
  {
    DayOfWeekApart(c, Shift(c, n), n);
  }

  /** Two dates `n` days apart have weekdays `n` apart modulo 7. */
  lemma DayOfWeekApart(a: Civil, b: Civil, n: int)
    requires Valid(a) && Valid(b) && DayNumber(b) == DayNumber(a) + n
    ensures DayOfWeek(b) == (DayOfWeek(a) + n) % 7
  {
    ModAdd7(DayNumber(a) + 4, n);
  }

  /** Two dates on the same weekday less than a week apart are the same date. */
  lemma SameWeekdayClose(a: Civil, b: Civil)
    requires Valid(a) && Valid(b) && DayOfWeek(a) == DayOfWeek(b)
    requires -6 <= DayNumber(a) - DayNumber(b) <= 6
    ensures a == b
  {
    SameResidue(DayNumber(a) + 4, DayNumber(b) + 4);
    DayNumberInjective(a, b);
  }

  lemma SameResidue(x: int, y: int)
    requires x % 7 == y % 7 && -6 <= x - y <= 6
    ensures x == y
  {
    var qx, qy := x / 7, y / 7;
    assert x == 7 * qx + x % 7 && y == 7 * qy + y % 7;
    assert -1 < qx - qy < 1;
  }

  lemma ModAdd7(a: int, n: int)
    ensures (a + n) % 7 == (a % 7 + n) % 7
  {
    var q := a / 7;
    assert a == 7 * q + a % 7;
    assert a + n == 7 * q + (a % 7 + n);
  }

  /** `new Date(y, m, d)`: month overflow carries into the year and day
      overflow or underflow (0, negatives, past the month's end) carries into
      neighbouring months, as the Date constructor normalises. The
      constructor also reads a year of 0 to 99 as 1900 + y; `MakeDate` takes
      every year as written. */
  function MakeDate(y: int, m: int, d: int): (r: Civil)
    ensures Valid(r)
    ensures DayNumber(r) == DayNumber(Civil(y + m / 12, m % 12, 1)) + d - 1
  {
    Shift(Civil(y + m / 12, m % 12, 1), d - 1)
  }

  /** Day `c.day + days` of `c`'s month lies `days` days after `c`. */
  lemma MakeDateFrom(c: Civil, days: int)
    requires Valid(c)
    ensures DayNumber(MakeDate(c.year, c.month, c.day + days)) == DayNumber(c) + days
  {
    MonthBaseSame(c.year, c.month);
    MonthStart(c);
  }

  /** In-range fields are kept as they are. */
  lemma MakeDateValid(c: Civil)
    requires Valid(c)
    ensures MakeDate(c.year, c.month, c.day) == c
  {
    assert c.month / 12 == 0 && c.month % 12 == c.month;
    MonthStart(c);
    var r := MakeDate(c.year, c.month, c.day);
    assert DayNumber(r) == DayNumber(c);
    DayNumberInjective(r, c);
  }

  /** The day before the first of the month after `m` is the last day of `m`. */
  lemma NextMonthFirst(y: int, m: int)
    requires 0 <= m < 12
    ensures DayNumber(Civil(y + (m + 1) / 12, (m + 1) % 12, 1)) - 1 == DayNumber(Civil(y, m, DaysInMonth(y, m)))
  {
    MonthStep(y, m);
    if m < 11 {
      assert (m + 1) / 12 == 0 && (m + 1) % 12 == m + 1;
    } else {
      assert (m + 1) / 12 == 1 && (m + 1) % 12 == 0;
      YearStep(y);
    }
  }

  /** `new Date(y, m + 1, 0)`: day 0 of the next month is the last day of month `m`. */
  lemma MakeDateLastOfMonth(y: int, m: int)
    requires 0 <= m < 12
    ensures MakeDate(y, m + 1, 0) == Civil(y, m, DaysInMonth(y, m))
  {
    var r := MakeDate(y, m + 1, 0);
    var last := Civil(y, m, DaysInMonth(y, m));
    NextMonthFirst(y, m);
    DayNumberInjective(r, last);
  }

  /** The month before month `m` of year `y`, as (year, month). */
  function PrevMonth(y: int, m: int): (r: (int, int))
    requires 0 <= m < 12
    ensures 0 <= r.1 < 12
  {
    if m == 0 then (y - 1, 11) else (y, m - 1)
  }

  function NextMonth(y: int, m: int): (r: (int, int))
    requires 0 <= m < 12
    ensures 0 <= r.1 < 12
  {
    if m == 11 then (y + 1, 0) else (y, m + 1)
  }

  /** The first day of month `m` as the Date constructor reads it: month
      overflow carries into the year. */
  function MonthBase(y: int, m: int): int
  {
    DayNumber(Civil(y + m / 12, m % 12, 1))
  }

  /** Month `m - 1` in the Date constructor is the previous month, whose
      first day lies its own length before the first of month `m`. */
  lemma MonthBasePrev(y: int, m: int)
    requires 0 <= m < 12
    ensures MonthBase(y, m - 1) == DayNumber(Civil(PrevMonth(y, m).0, PrevMonth(y, m).1, 1))
    ensures MonthBase(y, m - 1) + DaysInMonth(PrevMonth(y, m).0, PrevMonth(y, m).1) == DayNumber(Civil(y, m, 1))
  {
    var py, pm := PrevMonth(y, m).0, PrevMonth(y, m).1;
    MonthStep(py, pm);
    if m == 0 {
      assert (m - 1) / 12 == -1 && (m - 1) % 12 == 11;
      YearStep(y - 1);
    } else {
      assert (m - 1) / 12 == 0 && (m - 1) % 12 == m - 1;
    }
  }

  /** Month `m + 1` in the Date constructor is the next month, which starts
      `DaysInMonth(y, m)` days after the first of month `m`. */
  lemma MonthBaseNext(y: int, m: int)
    requires 0 <= m < 12
    ensures MonthBase(y, m + 1) == DayNumber(Civil(NextMonth(y, m).0, NextMonth(y, m).1, 1))
    ensures MonthBase(y, m + 1) == DayNumber(Civil(y, m, 1)) + DaysInMonth(y, m)
  {
    MonthStep(y, m);
    if m == 11 {
      assert (m + 1) / 12 == 1 && (m + 1) % 12 == 0;
      YearStep(y);
    } else {
      assert (m + 1) / 12 == 0 && (m + 1) % 12 == m + 1;
    }
  }

  /** An in-range month is read as itself. */
  lemma MonthBaseSame(y: int, m: int)
    requires 0 <= m < 12
    ensures MonthBase(y, m) == DayNumber(Civil(y, m, 1))
  {
    assert m / 12 == 0 && m % 12 == m;
  }
}
