/**
 The comparison `getEventsForDate` makes (src/components/Calendar.jsx:70-77) with the
 clock's time zone in view. `new Date("YYYY-MM-DD")` reads a date-only string as UTC
 midnight (the date time string format of ECMA-262), while `new Date(year, month, day)`
 is local midnight. Instants are counted in minutes since the epoch, and `offset` is how
 many minutes local time is ahead of UTC (east positive; the negation of
 `Date.prototype.getTimezoneOffset`) at the cell's local midnight.

 At offset 0 the test is the day-granular `Events.Covers` the rest of the model uses.
 East of UTC the first day of every event is lost, west of UTC the last day, and a
 single-day event is shown on no day at all.
 */
module TimeZones {
  import opened Gregorian
  import opened Seqs
  import opened Events

  const MinutesPerDay := 1440

  /** Time-zone offsets are less than a day either way. */
  predicate ValidOffset(offset: int) {
    -MinutesPerDay < offset < MinutesPerDay
  }

  /** `new Date("YYYY-MM-DD")`: UTC midnight of the date. */
  function UtcMidnight(c: CivilDate): (t: int) {
    DayNumber(c) * MinutesPerDay
  }

  /** `new Date(year, month, day)`: local midnight, which comes `offset` minutes before
      UTC midnight of the same date. */
  function LocalMidnight(c: CivilDate, offset: int): (t: int) {
    DayNumber(c) * MinutesPerDay - offset
  }

  /** The filter test of `getEventsForDate` as written, for the cell of date `c`. */
  predicate ShownAsWritten(e: Event, c: CivilDate, offset: int) {
    UtcMidnight(e.startDate) <= LocalMidnight(c, offset) <= UtcMidnight(e.endDate)
  }

  function ShownOn(c: CivilDate, offset: int): Event -> bool {
    (e: Event) => ShownAsWritten(e, c, offset)
  }

  /** `getEventsForDate` as written: the events passing the test, in their order. */
  function EventsOnAsWritten(events: seq<Event>, c: CivilDate, offset: int): (r: seq<Event>)
    ensures IsSubsequence(r, events)
    ensures forall i :: 0 <= i < |r| ==> ShownAsWritten(r[i], c, offset)
    ensures |r| == Count(events, ShownOn(c, offset))
  {
    FilterIsSubsequence(events, ShownOn(c, offset));
    FilterLength(events, ShownOn(c, offset));
    Filter(events, ShownOn(c, offset))
  }

  /** Comparing a local midnight with a UTC midnight, for day numbers `a` (the cell) and
      `b` (the event's date). */
  lemma MidnightComparison(a: int, b: int, offset: int)
    requires ValidOffset(offset)
    ensures b * MinutesPerDay <= a * MinutesPerDay - offset <==> (if offset > 0 then b < a else b <= a)
    ensures a * MinutesPerDay - offset <= b * MinutesPerDay <==> (if offset < 0 then a < b else a <= b)
  {
    var k := a - b;
    assert a * MinutesPerDay - b * MinutesPerDay == 1440 * k;
  }

  /** The range an event is shown on, by the sign of the offset: exactly its dates at
      UTC, without the first day east of UTC, without the last day west of it. */
  lemma ShownAsWrittenRange(e: Event, c: CivilDate, offset: int)
    requires ValidOffset(offset)
    ensures offset == 0 ==> (ShownAsWritten(e, c, offset) <==> Covers(e, DayNumber(c)))
    ensures offset > 0 ==>
      (ShownAsWritten(e, c, offset) <==> DayNumber(e.startDate) < DayNumber(c) <= DayNumber(e.endDate))
    ensures offset < 0 ==>
      (ShownAsWritten(e, c, offset) <==> DayNumber(e.startDate) <= DayNumber(c) < DayNumber(e.endDate))
  {
    MidnightComparison(DayNumber(c), DayNumber(e.startDate), offset);
    MidnightComparison(DayNumber(c), DayNumber(e.endDate), offset);
  }

  /** The same ranges in calendar order, for valid dates: east of UTC an event is shown
      after its start date up to its end date, west of UTC from its start date up to
      the day before its end date. */
  lemma ShownAsWrittenInCalendarOrder(e: Event, c: CivilDate, offset: int)
    requires ValidOffset(offset)
    requires ValidDate(e.startDate) && ValidDate(e.endDate) && ValidDate(c)
    ensures offset == 0 ==> (ShownAsWritten(e, c, offset) <==> !Before(c, e.startDate) && !Before(e.endDate, c))
    ensures offset > 0 ==> (ShownAsWritten(e, c, offset) <==> Before(e.startDate, c) && !Before(e.endDate, c))
    ensures offset < 0 ==> (ShownAsWritten(e, c, offset) <==> !Before(c, e.startDate) && Before(c, e.endDate))
  {
    ShownAsWrittenRange(e, c, offset);
    DayNumberOrder(c, e.startDate);
    DayNumberOrder(e.startDate, c);
    DayNumberOrder(e.endDate, c);
    DayNumberOrder(c, e.endDate);
  }

  /** East of UTC no event is shown on its first day. */
  lemma FirstDayLostEastOfUtc(e: Event, offset: int)
    requires ValidOffset(offset) && offset > 0
    ensures !ShownAsWritten(e, e.startDate, offset)
  {
    ShownAsWrittenRange(e, e.startDate, offset);
  }

  /** West of UTC no event is shown on its last day. */
  lemma LastDayLostWestOfUtc(e: Event, offset: int)
    requires ValidOffset(offset) && offset < 0
    ensures !ShownAsWritten(e, e.endDate, offset)
  {
    ShownAsWrittenRange(e, e.endDate, offset);
  }

  /** Away from UTC a single-day event is shown on no date at all. */
  lemma SingleDayEventHiddenOffUtc(events: seq<Event>, e: Event, c: CivilDate, offset: int)
    requires ValidOffset(offset) && offset != 0
    requires e.endDate == e.startDate
    ensures e !in EventsOnAsWritten(events, c, offset)
  {
    ShownAsWrittenRange(e, c, offset);
    var r := EventsOnAsWritten(events, c, offset);
    forall i | 0 <= i < |r| ensures r[i] != e {
      assert ShownAsWritten(r[i], c, offset);
    }
  }

  /** At UTC the code as written shows on each date exactly the events the model's
      `EventsOn` shows. */
  lemma AtUtcAgreesWithModel(events: seq<Event>, c: CivilDate)
    ensures EventsOnAsWritten(events, c, 0) == EventsOn(events, DayNumber(c))
  {
    forall i | 0 <= i < |events|
      ensures ShownOn(c, 0)(events[i]) == CoversDay(DayNumber(c))(events[i])
    {
      ShownAsWrittenRange(events[i], c, 0);
    }
    FilterCongruent(events, ShownOn(c, 0), CoversDay(DayNumber(c)));
  }
}
