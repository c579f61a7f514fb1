/**
 The proleptic Gregorian calendar that JavaScript's `Date` uses (section 21.4.1 of
 ECMA-262), at day granularity. A day is identified by its day number: the number of
 days since 1 January 1970, which is ECMA-262's `Day(t)`. Months are zero-based
 (0 = January), as `Date.prototype.getMonth` reports them.
 */
module Gregorian {

  /** A calendar date as JavaScript's local-time getters report it:
      `getFullYear()`, `getMonth()` (zero-based) and `getDate()`. */
  datatype CivilDate = CivilDate(year: int, month: int, day: int)

  /** Leap years of the Gregorian calendar (ECMA-262 section 21.4.1.3, DaysInYear). */
  predicate IsLeapYear(y: int) {
    y % 4 == 0 && (y % 100 != 0 || y % 400 == 0)
  }

  function DaysInYear(y: int): (n: int) {
    if IsLeapYear(y) then 366 else 365
  }

  /** The reference length of month `m` of year `y`: thirty days hath September,
      April, June and November; February has 29 days in leap years. */
  function MonthLength(y: int, m: int): (n: int)
    requires 0 <= m < 12
  {
    if m == 1 then (if IsLeapYear(y) then 29 else 28)
    else if m == 3 || m == 5 || m == 8 || m == 10 then 30
    else 31
  }

  /** Days of year `y` before the first of month `m`; `m == 12` gives the whole year
      (the table behind ECMA-262 section 21.4.1.4, MonthFromTime). */
  function DaysBeforeMonth(y: int, m: int): (n: int)
    requires 0 <= m <= 12
  {
    var common :=
      if m == 0 then 0 else if m == 1 then 31 else if m == 2 then 59
      else if m == 3 then 90 else if m == 4 then 120 else if m == 5 then 151
      else if m == 6 then 181 else if m == 7 then 212 else if m == 8 then 243
      else if m == 9 then 273 else if m == 10 then 304 else if m == 11 then 334
      else 365;
    common + (if 2 <= m && IsLeapYear(y) then 1 else 0)
  }

  /** Day number of 1 January of year `y`: the lengths of the years from 1970 up to
      `y` added up (or, before 1970, subtracted). */
  function YearStart(y: int): (n: int)
    decreases if y < 1970 then 1970 - y else y - 1970
  {
    if y == 1970 then 0
    else if y > 1970 then YearStart(y - 1) + DaysInYear(y - 1)
    else YearStart(y + 1) - DaysInYear(y)
  }

  /** ECMA-262 section 21.4.1.3, DayFromYear: the closed formula for the same day
      number. Dafny's `/` by a positive constant rounds toward negative infinity, which
      is the `floor` of the standard. */
  function DayFromYear(y: int): (n: int) {
    365 * (y - 1970) + (y - 1969) / 4 - (y - 1901) / 100 + (y - 1601) / 400
  }

  predicate ValidDate(c: CivilDate) {
    0 <= c.month < 12 && 1 <= c.day <= MonthLength(c.year, c.month)
  }

  /** ECMA-262 section 21.4.1.28, MakeDay: the day number of day `d` of month `m` of
      year `y`, where an out-of-range month carries into the year (`m` floor-divided by
      12) and an out-of-range day carries into the neighbouring months. */
  function MakeDay(y: int, m: int, d: int): (n: int) {
    var ym := y + m / 12;
    var mn := m % 12;
    YearStart(ym) + DaysBeforeMonth(ym, mn) + d - 1
  }

  function DayNumber(c: CivilDate): (n: int) {
    MakeDay(c.year, c.month, c.day)
  }

  /** Within a year, `MakeDay` is the year's first day plus the days before the month. */
  lemma MakeDayInYear(y: int, m: int, d: int)
    requires 0 <= m < 12
    ensures MakeDay(y, m, d) == YearStart(y) + DaysBeforeMonth(y, m) + d - 1
  {
    assert m / 12 == 0 && m % 12 == m;
  }

  /** Month 12 of year `y` is January of the year after. */
  lemma MakeDayPastDecember(y: int, d: int)
    ensures MakeDay(y, 12, d) == YearStart(y + 1) + d - 1
  {
    assert 12 / 12 == 1 && 12 % 12 == 0;
  }

  /** ECMA-262 section 21.4.1.6, WeekDay: 0 is Sunday; day 0 (1 January 1970) was a
      Thursday. */
  function WeekDay(n: int): (w: int)
    ensures 0 <= w < 7
  {
    (n + 4) % 7
  }

  /** Weekdays repeat every seven days. */
  lemma WeekDayShift(n: int, k: int)
    ensures WeekDay(n + k) == (WeekDay(n) + k) % 7
  {
    var q, r := (n + 4) / 7, (n + 4) % 7;
    assert n + k + 4 == 7 * q + (r + k);
    ModMultiple(q, r + k);
  }

  lemma ModMultiple(q: int, x: int)
    ensures (7 * q + x) % 7 == x % 7
  {
    var a, b := x / 7, x % 7;
    assert 7 * q + x == 7 * (q + a) + b;
  }

  // ---------------------------------------------------------------------------
  // Year arithmetic

  /** Each of the three quotients of DayFromYear grows by one exactly at the years
      divisible by its divisor. */
  lemma QuotientStep4(y: int)
    ensures (y - 1968) / 4 == (y - 1969) / 4 + (if y % 4 == 0 then 1 else 0)
  {
    var q, r := y / 4, y % 4;
    assert y - 1968 == 4 * (q - 492) + r;
    if r == 0 {
      assert y - 1969 == 4 * (q - 493) + 3;
    } else {
      assert y - 1969 == 4 * (q - 492) + (r - 1);
    }
  }

  lemma QuotientStep100(y: int)
    ensures (y - 1900) / 100 == (y - 1901) / 100 + (if y % 100 == 0 then 1 else 0)
  {
    var q, r := y / 100, y % 100;
    assert y - 1900 == 100 * (q - 19) + r;
    if r == 0 {
      assert y - 1901 == 100 * (q - 20) + 99;
    } else {
      assert y - 1901 == 100 * (q - 19) + (r - 1);
    }
  }

  lemma QuotientStep400(y: int)
    ensures (y - 1600) / 400 == (y - 1601) / 400 + (if y % 400 == 0 then 1 else 0)
  {
    var q, r := y / 400, y % 400;
    assert y - 1600 == 400 * (q - 4) + r;
    if r == 0 {
      assert y - 1601 == 400 * (q - 5) + 399;
    } else {
      assert y - 1601 == 400 * (q - 4) + (r - 1);
    }
  }

  /** A year divisible by 400 is divisible by 100. */
  lemma FourHundredsAreHundreds(y: int)
    ensures y % 400 == 0 ==> y % 100 == 0
  {
    var q := y / 400;
    if y % 400 == 0 {
      assert y == 100 * (4 * q) + 0;
    }
  }

  /** A year divisible by 100 is divisible by 4. */
  lemma HundredsAreLeapCandidates(y: int)
    ensures y % 100 == 0 ==> y % 4 == 0
  {
    var q := y / 100;
    if y % 100 == 0 {
      assert y == 4 * (25 * q) + 0;
    }
  }

  lemma DayFromYearStep(y: int)
    ensures DayFromYear(y + 1) == DayFromYear(y) + DaysInYear(y)
  {
    QuotientStep4(y);
    QuotientStep100(y);
    QuotientStep400(y);
    FourHundredsAreHundreds(y);
    HundredsAreLeapCandidates(y);
  }

  /** Consecutive years start `DaysInYear` apart. */
  lemma YearStartStep(y: int)
    ensures YearStart(y + 1) == YearStart(y) + DaysInYear(y)
  {
  }

  /** The closed formula of the standard agrees with adding up year lengths, for
      every year before and after 1970. */
  lemma {:induction false} YearStartIsDayFromYear(y: int)
    ensures YearStart(y) == DayFromYear(y)
    decreases if y < 1970 then 1970 - y else y - 1970
  {
    if y > 1970 {
      YearStartIsDayFromYear(y - 1);
      DayFromYearStep(y - 1);
    } else if y < 1970 {
      YearStartIsDayFromYear(y + 1);
      DayFromYearStep(y);
    }
  }

  /** Later years start later: every day of year `a` comes before 1 January of any
      later year `b`. */
  lemma {:induction false} YearStartMonotone(a: int, b: int)
    requires a < b
    ensures YearStart(a + 1) <= YearStart(b)
    decreases b - a
  {
    if a + 1 < b {
      YearStartMonotone(a + 1, b);
      YearStartStep(a + 1);
    }
  }

  function YearSearchUp(y: int, n: int): (r: int)
    requires YearStart(y) <= n
    ensures YearStart(r) <= n < YearStart(r + 1)
    decreases n - YearStart(y)
  {
    YearStartStep(y);
    if n < YearStart(y + 1) then y else YearSearchUp(y + 1, n)
  }

  function YearSearchDown(y: int, n: int): (r: int)
    requires n < YearStart(y + 1)
    ensures YearStart(r) <= n < YearStart(r + 1)
    decreases YearStart(y + 1) - n
  {
    YearStartStep(y);
    if YearStart(y) <= n then y else YearSearchDown(y - 1, n)
  }

  /** ECMA-262 section 21.4.1.3, YearFromTime: the year whose first day is the last
      first-of-year not after day `n`. */
  function YearOf(n: int): (y: int)
    ensures YearStart(y) <= n < YearStart(y + 1)
  {
    if n >= 0 then YearSearchUp(1970, n) else YearSearchDown(1969, n)
  }

  /** Only one year can contain a given day. */
  lemma YearOfUnique(y: int, n: int)
    requires YearStart(y) <= n < YearStart(y + 1)
    ensures YearOf(n) == y
  {
    var r := YearOf(n);
    if r < y {
      YearStartMonotone(r, y);
    } else if y < r {
      YearStartMonotone(y, r);
    }
  }

  // ---------------------------------------------------------------------------
  // Month arithmetic

  lemma MonthStep(y: int, m: int)
    requires 0 <= m < 12
    ensures DaysBeforeMonth(y, m + 1) == DaysBeforeMonth(y, m) + MonthLength(y, m)
  {
  }

  lemma DaysBeforeMonthMonotone(y: int, a: int, b: int)
    requires 0 <= a < b <= 12
    ensures DaysBeforeMonth(y, a + 1) <= DaysBeforeMonth(y, b)
  {
  }

  function MonthSearch(y: int, dy: int, m: int): (r: int)
    requires 0 <= m < 12
    requires DaysBeforeMonth(y, m) <= dy < DaysInYear(y)
    ensures m <= r < 12
    ensures DaysBeforeMonth(y, r) <= dy < DaysBeforeMonth(y, r + 1)
    decreases 12 - m
  {
    if dy < DaysBeforeMonth(y, m + 1) then m else MonthSearch(y, dy, m + 1)
  }

  /** ECMA-262 section 21.4.1.4, MonthFromTime: the month of year `y` holding its
      zero-based day `dy`. */
  function MonthOf(y: int, dy: int): (m: int)
    requires 0 <= dy < DaysInYear(y)
    ensures 0 <= m < 12
    ensures DaysBeforeMonth(y, m) <= dy < DaysBeforeMonth(y, m + 1)
  {
    MonthSearch(y, dy, 0)
  }

  lemma MonthOfUnique(y: int, m: int, dy: int)
    requires 0 <= m < 12
    requires DaysBeforeMonth(y, m) <= dy < DaysBeforeMonth(y, m + 1)
    ensures 0 <= dy < DaysInYear(y)
    ensures MonthOf(y, dy) == m
  {
    var r := MonthOf(y, dy);
    if r < m {
      DaysBeforeMonthMonotone(y, r, m);
    } else if m < r {
      DaysBeforeMonthMonotone(y, m, r);
    }
  }

  // ---------------------------------------------------------------------------
  // Day numbers and dates

  /** YearFromTime, MonthFromTime and DateFromTime together: the calendar date of day
      number `n`. Every day number names exactly one valid date. */
  function ToCivil(n: int): (c: CivilDate)
    ensures ValidDate(c)
    ensures DayNumber(c) == n
  {
    var y := YearOf(n);
    YearStartStep(y);
    var dy := n - YearStart(y);
    var m := MonthOf(y, dy);
    MonthStep(y, m);
    MakeDayInYear(y, m, dy - DaysBeforeMonth(y, m) + 1);
    CivilDate(y, m, dy - DaysBeforeMonth(y, m) + 1)
  }

  /** The date `ToCivil` reads back is fixed by where `n` falls: the only year whose
      days contain `n`, and within it the only month whose days contain it. */
  lemma ToCivilFromBounds(n: int, y: int, m: int)
    requires YearStart(y) <= n < YearStart(y + 1)
    requires 0 <= m < 12
    requires DaysBeforeMonth(y, m) <= n - YearStart(y) < DaysBeforeMonth(y, m + 1)
    ensures ToCivil(n) == CivilDate(y, m, n - YearStart(y) - DaysBeforeMonth(y, m) + 1)
  {
    YearOfUnique(y, n);
    MonthOfUnique(y, m, n - YearStart(y));
  }

  /** The day number of a valid date lies inside its own year and month. */
  lemma DayNumberBounds(c: CivilDate)
    requires ValidDate(c)
    ensures YearStart(c.year) <= DayNumber(c) < YearStart(c.year + 1)
    ensures DayNumber(c) - YearStart(c.year) == DaysBeforeMonth(c.year, c.month) + c.day - 1
  {
    MakeDayInYear(c.year, c.month, c.day);
    MonthStep(c.year, c.month);
    DaysBeforeMonthMonotone(c.year, c.month, 12);
    YearStartStep(c.year);
  }

  /** Two valid dates in different years are in calendar order by year. */
  lemma YearsOrdered(a: CivilDate, b: CivilDate)
    requires ValidDate(a) && ValidDate(b) && a.year < b.year
    ensures DayNumber(a) < DayNumber(b)
  {
    DayNumberBounds(a);
    DayNumberBounds(b);
    YearStartMonotone(a.year, b.year);
  }

  /** Two valid dates in the same year and different months are in order by month. */
  lemma MonthsOrdered(a: CivilDate, b: CivilDate)
    requires ValidDate(a) && ValidDate(b) && a.year == b.year && a.month < b.month
    ensures DayNumber(a) < DayNumber(b)
  {
    DayNumberBounds(a);
    DayNumberBounds(b);
    MonthStep(a.year, a.month);
    DaysBeforeMonthMonotone(a.year, a.month, b.month);
  }

  /** Lexicographic order of (year, month, day): the order of `YYYY-MM-DD` strings. */
  predicate Before(a: CivilDate, b: CivilDate) {
    a.year < b.year
    || (a.year == b.year && a.month < b.month)
    || (a.year == b.year && a.month == b.month && a.day < b.day)
  }

  /** Comparing day numbers is comparing dates in calendar order. */
  lemma DayNumberOrder(a: CivilDate, b: CivilDate)
    requires ValidDate(a) && ValidDate(b)
    ensures DayNumber(a) < DayNumber(b) <==> Before(a, b)
    ensures DayNumber(a) == DayNumber(b) <==> a == b
  {
    if a.year < b.year {
      YearsOrdered(a, b);
    } else if b.year < a.year {
      YearsOrdered(b, a);
    } else if a.month < b.month {
      MonthsOrdered(a, b);
    } else if b.month < a.month {
      MonthsOrdered(b, a);
    } else {
      DayNumberBounds(a);
      DayNumberBounds(b);
    }
  }

  /** Round trip: converting a valid date to its day number and back gives the date
      again. */
  lemma ToCivilOfDayNumber(c: CivilDate)
    requires ValidDate(c)
    ensures ToCivil(DayNumber(c)) == c
  {
    DayNumberOrder(ToCivil(DayNumber(c)), c);
  }

  // ---------------------------------------------------------------------------
  // An independent weekday formula

  /** The number of leap years among the years 1 to `x` (for `x >= 0`). */
  function LeapDaysUpTo(x: int): (n: int) {
    x / 4 - x / 100 + x / 400
  }

  /** Month offsets of Sakamoto's method, indexed by the zero-based month. */
  function SakamotoOffset(m: int): (t: int)
    requires 0 <= m < 12
  {
    if m == 0 then 0 else if m == 1 then 3 else if m == 2 then 2 else if m == 3 then 5
    else if m == 4 then 0 else if m == 5 then 3 else if m == 6 then 5 else if m == 7 then 1
    else if m == 8 then 4 else if m == 9 then 6 else if m == 10 then 2 else 4
  }

  /** Sakamoto's day-of-week formula (0 = Sunday), a reference for `WeekDay` that does
      not go through day numbers: January and February are counted with the year
      before, so that the leap day comes last. */
  function SakamotoWeekDay(y: int, m: int, d: int): (w: int)
    requires 0 <= m < 12
    ensures 0 <= w < 7
  {
    var yy := if m < 2 then y - 1 else y;
    (yy + LeapDaysUpTo(yy) + SakamotoOffset(m) + d) % 7
  }

  /** Moving the dividend of each quotient of DayFromYear by a multiple of the divisor. */
  lemma QuotientShifts(x: int)
    ensures (x - 1968) / 4 == x / 4 - 492
    ensures (x - 1900) / 100 == x / 100 - 19
    ensures (x - 1600) / 400 == x / 400 - 4
  {
    assert x - 1968 == 4 * (x / 4 - 492) + x % 4;
    assert x - 1900 == 100 * (x / 100 - 19) + x % 100;
    assert x - 1600 == 400 * (x / 400 - 4) + x % 400;
  }

  /** DayFromYear counts the leap years before `y`. */
  lemma DayFromYearByLeapDays(y: int)
    ensures DayFromYear(y) == 365 * (y - 1970) + LeapDaysUpTo(y - 1) - 477
  {
    QuotientShifts(y - 1);
  }

  /** Passing a year adds one leap day exactly when the year is a leap year. */
  lemma LeapDaysStep(y: int)
    ensures LeapDaysUpTo(y) == LeapDaysUpTo(y - 1) + (if IsLeapYear(y) then 1 else 0)
  {
    QuotientShifts(y);
    QuotientShifts(y - 1);
    QuotientStep4(y);
    QuotientStep100(y);
    QuotientStep400(y);
    FourHundredsAreHundreds(y);
    HundredsAreLeapCandidates(y);
  }

  lemma ModSevenShift(x: int, a: int, k: int)
    requires x == a + 7 * k
    ensures x % 7 == a % 7
  {
    var q, r := a / 7, a % 7;
    assert x == 7 * (q + k) + r;
  }

  /** The weekday of every valid date, of every year, agrees with Sakamoto's formula. */
  lemma WeekDayIsSakamoto(c: CivilDate)
    requires ValidDate(c)
    ensures WeekDay(DayNumber(c)) == SakamotoWeekDay(c.year, c.month, c.day)
  {
    var y, m, d := c.year, c.month, c.day;
    MakeDayInYear(y, m, d);
    YearStartIsDayFromYear(y);
    DayFromYearByLeapDays(y);
    LeapDaysStep(y);
    var leap := if IsLeapYear(y) then 1 else 0;
    SakamotoArithmetic(y, m, d, LeapDaysUpTo(y - 1), leap, DaysBeforeMonth(y, m) - leap * (if 2 <= m then 1 else 0), DayNumber(c));
  }

  /** The arithmetic behind `WeekDayIsSakamoto`, over plain numbers: `before` is the
      common-year count of days before month `m`, and `L` counts the leap years before
      `y`. */
  lemma SakamotoArithmetic(y: int, m: int, d: int, L: int, leap: int, before: int, dn: int)
    requires 0 <= m < 12
    requires before == DaysBeforeMonth(1970, m)
    requires dn == 365 * (y - 1970) + L - 477 + before + (if 2 <= m then leap else 0) + d - 1
    ensures (dn + 4) % 7 == ((if m < 2 then y - 1 + L else y + L + leap) + SakamotoOffset(m) + d) % 7
  {
    var a := (if m < 2 then y - 1 + L else y + L + leap) + SakamotoOffset(m) + d;
    var g :=
      if m == 0 then 0 else if m == 1 then 4 else if m == 2 then 8 else if m == 3 then 12
      else if m == 4 then 17 else if m == 5 then 21 else if m == 6 then 25
      else if m == 7 then 30 else if m == 8 then 34 else if m == 9 then 38
      else if m == 10 then 43 else 47;
    ModSevenShift(dn + 4, a, 52 * y - 102789 + g);
  }

  /** Anchor of the formulas: 1 January 2000 was a Saturday. */
  lemma FirstOfJanuary2000IsSaturday()
    ensures WeekDay(DayNumber(CivilDate(2000, 0, 1))) == 6
  {
    MakeDayInYear(2000, 0, 1);
    YearStartIsDayFromYear(2000);
    assert DayFromYear(2000) == 10957;
  }
}
