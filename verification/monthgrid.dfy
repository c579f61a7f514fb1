/**
 The month view's grid arithmetic (src/components/Calendar.jsx): the length of the
 displayed month, the weekday of its first day, stepping to the previous or next
 month, and the cells `renderDays` lays out. Every date is built the way the component
 builds it, through the `Date(year, month, day)` constructor, modelled as
 `ToCivil(MakeDay(year, month, day))` with the year taken literally; `TwoDigitYears`
 models the constructor's mapping of the years 0 to 99.
 */
module MonthGrid {
  import opened Gregorian
  import opened Events

  /** Day 0 of the next month, where the day carries back into `month`, is the last
      day of `month`. */
  lemma LastDayOfMonth(year: int, month: int)
    requires 0 <= month < 12
    ensures MakeDay(year, month + 1, 0) == DayNumber(CivilDate(year, month, MonthLength(year, month)))
  {
    MakeDayInYear(year, month, MonthLength(year, month));
    MonthStep(year, month);
    if month == 11 {
      MakeDayPastDecember(year, 0);
      YearStartStep(year);
    } else {
      MakeDayInYear(year, month + 1, 0);
    }
  }

  /** `daysInMonth`: the day of month of day 0 of the following month. It is the
      Gregorian length of the month. */
  function DaysInMonth(year: int, month: int): (n: int)
    requires 0 <= month < 12
    ensures n == MonthLength(year, month)
    ensures 28 <= n <= 31
    ensures n == 29 <==> month == 1 && IsLeapYear(year)
  {
    LastDayOfMonth(year, month);
    ToCivilOfDayNumber(CivilDate(year, month, MonthLength(year, month)));
    ToCivil(MakeDay(year, month + 1, 0)).day
  }

  /** `firstDayOfMonth`: the weekday (0 = Sunday) of day 1 of the month. */
  function FirstDayOfMonth(year: int, month: int): (w: int)
    requires 0 <= month < 12
    ensures 0 <= w < 7
    ensures w == WeekDay(DayNumber(CivilDate(year, month, 1)))
  {
    WeekDay(MakeDay(year, month, 1))
  }

  /** The first weekday of every month of every year agrees with Sakamoto's
      formula. */
  lemma FirstDayOfMonthIsSakamoto(year: int, month: int)
    requires 0 <= month < 12
    ensures FirstDayOfMonth(year, month) == SakamotoWeekDay(year, month, 1)
  {
    WeekDayIsSakamoto(CivilDate(year, month, 1));
  }

  /** `prevMonth`: the cursor moves to day 1 of the month before; January steps back
      to December of the previous year. */
  function PrevMonth(year: int, month: int): (c: CivilDate)
    requires 0 <= month < 12
    ensures ValidDate(c) && c.day == 1
    ensures month == 0 ==> c.year == year - 1 && c.month == 11
    ensures month > 0 ==> c.year == year && c.month == month - 1
    ensures c.year * 12 + c.month == year * 12 + month - 1
  {
    var target := if month == 0 then CivilDate(year - 1, 11, 1) else CivilDate(year, month - 1, 1);
    assert MakeDay(year, month - 1, 1) == DayNumber(target);
    ToCivilOfDayNumber(target);
    ToCivil(MakeDay(year, month - 1, 1))
  }

  /** `nextMonth`: the cursor moves to day 1 of the month after; December steps on to
      January of the next year. */
  function NextMonth(year: int, month: int): (c: CivilDate)
    requires 0 <= month < 12
    ensures ValidDate(c) && c.day == 1
    ensures month == 11 ==> c.year == year + 1 && c.month == 0
    ensures month < 11 ==> c.year == year && c.month == month + 1
    ensures c.year * 12 + c.month == year * 12 + month + 1
  {
    var target := if month == 11 then CivilDate(year + 1, 0, 1) else CivilDate(year, month + 1, 1);
    assert MakeDay(year, month + 1, 1) == DayNumber(target);
    ToCivilOfDayNumber(target);
    ToCivil(MakeDay(year, month + 1, 1))
  }

  /** Going back a month and then forward again returns to the same month, and the
      other way round. */
  lemma PrevThenNext(year: int, month: int)
    requires 0 <= month < 12
    ensures var p := PrevMonth(year, month);
            NextMonth(p.year, p.month) == CivilDate(year, month, 1)
    ensures var n := NextMonth(year, month);
            PrevMonth(n.year, n.month) == CivilDate(year, month, 1)
  {
  }

  /** Consecutive months tile the weeks: the next month starts on the weekday after
      this month's last day. */
  lemma NextMonthContinuesWeek(year: int, month: int)
    requires 0 <= month < 12
    ensures var n := NextMonth(year, month);
            FirstDayOfMonth(n.year, n.month)
            == (FirstDayOfMonth(year, month) + DaysInMonth(year, month)) % 7
  {
    var n := NextMonth(year, month);
    assert DaysInMonth(year, month) == MonthLength(year, month);
    FollowingFirstDay(year, month);
    if month == 11 {
      assert n.year == year + 1 && n.month == 0;
    } else {
      assert n.year == year && n.month == month + 1;
    }
  }

  lemma FollowingFirstDay(year: int, month: int)
    requires 0 <= month < 12
    ensures month == 11 ==>
      FirstDayOfMonth(year + 1, 0) == (FirstDayOfMonth(year, month) + MonthLength(year, month)) % 7
    ensures month < 11 ==>
      FirstDayOfMonth(year, month + 1) == (FirstDayOfMonth(year, month) + MonthLength(year, month)) % 7
  {
    if month == 11 {
      FirstDayAfterDecember(year);
    } else {
      FirstDayAfterEarlierMonth(year, month);
    }
  }

  lemma FirstDayAfterDecember(year: int)
    ensures FirstDayOfMonth(year + 1, 0) == (FirstDayOfMonth(year, 11) + MonthLength(year, 11)) % 7
  {
    var start := DayNumber(CivilDate(year, 11, 1));
    NewYearStart(year);
    WeekDayAfter(FirstDayOfMonth(year, 11), FirstDayOfMonth(year + 1, 0), start, MonthLength(year, 11));
  }

  lemma FirstDayAfterEarlierMonth(year: int, month: int)
    requires 0 <= month < 11
    ensures FirstDayOfMonth(year, month + 1) == (FirstDayOfMonth(year, month) + MonthLength(year, month)) % 7
  {
    var start := DayNumber(CivilDate(year, month, 1));
    NextMonthStart(year, month);
    WeekDayAfter(FirstDayOfMonth(year, month), FirstDayOfMonth(year, month + 1), start, MonthLength(year, month));
  }

  lemma WeekDayAfter(w1: int, w2: int, start: int, len: int)
    requires w1 == WeekDay(start) && w2 == WeekDay(start + len)
    ensures w2 == (w1 + len) % 7
  {
    WeekDayShift(start, len);
  }

  /** Day 1 of the next month of the same year comes `MonthLength` days after day 1 of
      this one. */
  lemma NextMonthStart(year: int, month: int)
    requires 0 <= month < 11
    ensures DayNumber(CivilDate(year, month + 1, 1)) == DayNumber(CivilDate(year, month, 1)) + MonthLength(year, month)
  {
    MakeDayInYear(year, month, 1);
    MakeDayInYear(year, month + 1, 1);
    MonthStep(year, month);
  }

  /** 1 January comes 31 days after 1 December of the year before. */
  lemma NewYearStart(year: int)
    ensures DayNumber(CivilDate(year + 1, 0, 1)) == DayNumber(CivilDate(year, 11, 1)) + MonthLength(year, 11)
  {
    MakeDayInYear(year, 11, 1);
    MakeDayInYear(year + 1, 0, 1);
    YearStartStep(year);
  }

  // ---------------------------------------------------------------------------
  // Grid cells

  /** A grid cell: a leading filler, or a day of the month with the events shown on it,
      its "Conflict" badge and whether it is the highlighted current day. */
  datatype Cell =
    | Blank
    | Day(day: int, events: seq<Event>, hasConflict: bool, isToday: bool)

  /** Highlighting of the current day; `today` is the wall-clock date, passed in. */
  predicate IsToday(year: int, month: int, day: int, today: CivilDate) {
    today.year == year && today.month == month && day == today.day
  }

  /** The contents of the cell of day `day` of the displayed month. */
  function DayCell(year: int, month: int, day: int, events: seq<Event>, today: CivilDate): Cell {
    var dateEvents := EventsOn(events, MakeDay(year, month, day));
    Day(day, dateEvents, HasConflict(dateEvents), IsToday(year, month, day, today))
  }

  /** `renderDays`: `firstDayOfMonth` blank cells, then one cell for each day
      `1..daysInMonth` in order. At most 6 blanks and 31 days make 37 cells, so the
      grid spans four to six weeks. */
  method RenderDays(year: int, month: int, events: seq<Event>, today: CivilDate)
    returns (cells: seq<Cell>)
    requires 0 <= month < 12
    ensures |cells| == FirstDayOfMonth(year, month) + DaysInMonth(year, month)
    ensures 28 <= |cells| <= 37
    ensures forall i :: 0 <= i < FirstDayOfMonth(year, month) ==> cells[i].Blank?
    ensures forall i :: FirstDayOfMonth(year, month) <= i < |cells| ==>
      cells[i].Day? && cells[i].day == i - FirstDayOfMonth(year, month) + 1
    ensures forall i, j :: FirstDayOfMonth(year, month) <= i < j < |cells| ==>
      cells[i].day < cells[j].day
    ensures forall i :: FirstDayOfMonth(year, month) <= i < |cells| ==>
      cells[i] == DayCell(year, month, cells[i].day, events, today)
  {
    cells := LayOutCells(year, month, events, today, FirstDayOfMonth(year, month), DaysInMonth(year, month));
  }

  /** The two loops of `renderDays`, for a month whose first day falls on weekday
      `first` and which has `daysInMonth` days. */
  method LayOutCells(year: int, month: int, events: seq<Event>, today: CivilDate, first: nat, daysInMonth: nat)
    returns (cells: seq<Cell>)
    ensures |cells| == first + daysInMonth
    ensures forall i :: 0 <= i < first ==> cells[i].Blank?
    ensures forall i :: first <= i < |cells| ==>
      cells[i].Day? && cells[i].day == i - first + 1
    ensures forall i :: first <= i < |cells| ==>
      cells[i] == DayCell(year, month, cells[i].day, events, today)
  {
    cells := [];
    var i := 0;
    while i < first
      invariant 0 <= i <= first
      invariant |cells| == i
      invariant forall k :: 0 <= k < i ==> cells[k].Blank?
    {
      cells := cells + [Blank];
      i := i + 1;
    }
    var day := 1;
    while day <= daysInMonth
      invariant 1 <= day <= daysInMonth + 1
      invariant |cells| == first + day - 1
      invariant forall k :: 0 <= k < first ==> cells[k].Blank?
      invariant forall k :: first <= k < |cells| ==>
        cells[k].Day? && cells[k].day == k - first + 1
      invariant forall k :: first <= k < |cells| ==>
        cells[k] == DayCell(year, month, cells[k].day, events, today)
    {
      var cell := DayCell(year, month, day, events, today);
      assert cell.day == day;
      cells := cells + [cell];
      day := day + 1;
    }
  }

  /** A day cell of the grid shows an event exactly when the event's range contains
      that date of the displayed month. */
  lemma DayCellShowsRange(year: int, month: int, day: int, events: seq<Event>, today: CivilDate, e: Event)
    requires 0 <= month < 12 && 1 <= day <= DaysInMonth(year, month)
    requires e in events && ValidDate(e.startDate) && ValidDate(e.endDate)
    ensures var c := CivilDate(year, month, day);
            e in DayCell(year, month, day, events, today).events
            <==> !Before(c, e.startDate) && !Before(e.endDate, c)
  {
    ShownExactlyInRange(events, e, CivilDate(year, month, day));
  }
}
