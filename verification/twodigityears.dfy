/**
 The component builds every date with the three-argument `Date` constructor, and
 section 21.4.2.1 of ECMA-262 makes that constructor read a year from 0 to 99 as
 1900 to 1999. The month view therefore misbehaves once the cursor reaches such a
 year: it can get there from January of year 100, but from December of year 99 both
 navigation buttons jump into the twentieth century, and the grid of year 99 or below
 is computed for the year 1900 higher. This module models the constructor as written
 and exhibits the discrepancy; the rest of the model uses `MonthGrid`, where a year
 is always taken literally.
 */
module TwoDigitYears {
  import opened Gregorian
  import opened MonthGrid
  import opened Events

  /** The year the constructor actually uses for a year argument `y`. */
  function ConstructorYear(y: int): (r: int)
    ensures 0 <= y <= 99 ==> r == y + 1900
    ensures (y < 0 || y > 99) ==> r == y
  {
    if 0 <= y <= 99 then 1900 + y else y
  }

  /** `new Date(y, m, d)` at day granularity, as ECMA-262 defines it. */
  function NewDate(y: int, m: int, d: int): (c: CivilDate)
    ensures ValidDate(c)
    ensures DayNumber(c) == MakeDay(ConstructorYear(y), m, d)
  {
    ToCivil(MakeDay(ConstructorYear(y), m, d))
  }

  /** `daysInMonth` as written: day 0 of the next month, built by the constructor. */
  function DaysInMonthAsWritten(year: int, month: int): (n: int)
    requires 0 <= month < 12
    ensures n == MonthLength(ConstructorYear(year), month)
  {
    LastDayOfMonth(ConstructorYear(year), month);
    ToCivilOfDayNumber(CivilDate(ConstructorYear(year), month, MonthLength(ConstructorYear(year), month)));
    NewDate(year, month + 1, 0).day
  }

  /** `prevMonth` as written: day 1 of month `month - 1`, built by the constructor. */
  function PrevMonthAsWritten(year: int, month: int): (c: CivilDate)
    requires 0 <= month < 12
    ensures c == PrevMonth(ConstructorYear(year), month)
  {
    var target := PrevMonth(ConstructorYear(year), month);
    assert MakeDay(ConstructorYear(year), month - 1, 1) == DayNumber(target);
    ToCivilOfDayNumber(target);
    NewDate(year, month - 1, 1)
  }

  /** `nextMonth` as written: day 1 of month `month + 1`, built by the constructor. */
  function NextMonthAsWritten(year: int, month: int): (c: CivilDate)
    requires 0 <= month < 12
    ensures c == NextMonth(ConstructorYear(year), month)
  {
    var target := NextMonth(ConstructorYear(year), month);
    assert MakeDay(ConstructorYear(year), month + 1, 1) == DayNumber(target);
    ToCivilOfDayNumber(target);
    NewDate(year, month + 1, 1)
  }

  /** `firstDayOfMonth` as written: the weekday of day 1, built by the constructor. */
  function FirstDayOfMonthAsWritten(year: int, month: int): (w: int)
    requires 0 <= month < 12
    ensures w == FirstDayOfMonth(ConstructorYear(year), month)
  {
    WeekDay(DayNumber(NewDate(year, month, 1)))
  }

  /** `getEventsForDate` as written: the events covering the date the constructor
      builds for day `day` of the displayed month. */
  function DayEventsAsWritten(events: seq<Event>, year: int, month: int, day: int): (r: seq<Event>)
    ensures r == EventsOn(events, MakeDay(ConstructorYear(year), month, day))
  {
    EventsOn(events, DayNumber(NewDate(year, month, day)))
  }

  /** Outside the years 0 to 99 the code as written and the corrected model agree. */
  lemma AsWrittenAgreesOutsideTwoDigitYears(year: int, month: int)
    requires 0 <= month < 12 && (year < 0 || year > 99)
    ensures DaysInMonthAsWritten(year, month) == DaysInMonth(year, month)
    ensures PrevMonthAsWritten(year, month) == PrevMonth(year, month)
    ensures NextMonthAsWritten(year, month) == NextMonth(year, month)
    ensures FirstDayOfMonthAsWritten(year, month) == FirstDayOfMonth(year, month)
    ensures forall events: seq<Event>, day :: DayEventsAsWritten(events, year, month, day) == EventsOn(events, MakeDay(year, month, day))
  {
  }

  /** Year 0 is a leap year (divisible by 400), but the code as written measures
      February of 1900, which is not. */
  lemma FebruaryOfYearZero()
    ensures DaysInMonth(0, 1) == 29
    ensures DaysInMonthAsWritten(0, 1) == 28
  {
    assert ConstructorYear(0) == 1900;
    assert !IsLeapYear(1900) && IsLeapYear(0);
  }

  /** Going back from January of year 100 reaches December of year 99, as it should. */
  lemma BackIntoYear99()
    ensures PrevMonthAsWritten(100, 0) == CivilDate(99, 11, 1)
  {
    assert ConstructorYear(100) == 100;
  }

  /** From December of year 99 the buttons as written lead to November 1999 and
      January 2000. */
  lemma LeavingYear99AsWritten()
    ensures PrevMonthAsWritten(99, 11) == CivilDate(1999, 10, 1)
    ensures NextMonthAsWritten(99, 11) == CivilDate(2000, 0, 1)
  {
    assert ConstructorYear(99) == 1999;
  }

  /** The corrected navigation steps to November of year 99 and January of year
      100. */
  lemma LeavingYear99Corrected()
    ensures PrevMonth(99, 11) == CivilDate(99, 10, 1)
    ensures NextMonth(99, 11) == CivilDate(100, 0, 1)
  {
  }

  /** The months the cursor can show when it starts in a year from 100 on, as today's
      date does: any month of such a year, or December of year 99. */
  predicate ReachableMonth(year: int, month: int) {
    year >= 100 || (year == 99 && month == 11)
  }

  /** Navigation as written never leaves the reachable months: the only way into the
      years 0 to 99 is back from January of year 100, and from December of year 99 both
      buttons leave again. */
  lemma AsWrittenNavigationReachesOnlyDecember99(year: int, month: int)
    requires 0 <= month < 12 && ReachableMonth(year, month)
    ensures var p := PrevMonthAsWritten(year, month); ReachableMonth(p.year, p.month)
    ensures var n := NextMonthAsWritten(year, month); ReachableMonth(n.year, n.month)
  {
    var cy := ConstructorYear(year);
    assert cy >= 100;
  }

  /** In the one reachable two-digit month the grid starts on the wrong weekday: as
      written, December of year 99 is laid out as December 1999, which began on a
      Wednesday, while 1 December of year 99 was a Tuesday. */
  lemma DecemberOfYear99AsWritten()
    ensures FirstDayOfMonthAsWritten(99, 11) == 3
    ensures FirstDayOfMonth(99, 11) == 2
  {
    FirstDayOfMonthIsSakamoto(1999, 11);
    FirstDayOfMonthIsSakamoto(99, 11);
    SakamotoDecember();
  }

  lemma SakamotoDecember()
    ensures SakamotoWeekDay(1999, 11, 1) == 3
    ensures SakamotoWeekDay(99, 11, 1) == 2
  {
  }

  /** The cells of December of year 99 show, as written, the events of December 1999. */
  lemma DecemberOfYear99ShowsDecember1999(events: seq<Event>, day: int)
    ensures DayEventsAsWritten(events, 99, 11, day) == EventsOn(events, DayNumber(CivilDate(1999, 11, day)))
  {
    assert ConstructorYear(99) == 1999;
  }
}
