# Month-view calendar: a Dafny model

This project models the bookkeeping of the `Calendar` React component in
`src/components/Calendar.jsx`. The component shows one month as a grid of day cells
and overlays events on their inclusive date ranges. A day showing more than three
events gets a "Conflict" badge. Events are created, edited and deleted through a form
whose visibility the component tracks. Everything is modelled as pure functions over
immutable values:

- `Gregorian` (gregorian.dfy) is the proleptic Gregorian calendar that JavaScript's
  `Date` follows, section 21.4.1 of ECMA-262. It works at day granularity: leap years,
  month lengths, `DayFromYear`, `MakeDay`, `WeekDay`, and the inverse `ToCivil`
  (`YearFromTime`, `MonthFromTime` and `DateFromTime` together). Months are
  zero-based, as `getMonth()` reports them. Sakamoto's day-of-week formula serves as an
  independent reference for `WeekDay`.
- `Seqs` (seqs.dfy) is an order-preserving filter, the model of `Array.prototype.filter`.
- `Events` (events.dfy) holds the event record, `getEventsForDate`, the conflict flag,
  and the add/update and delete operations on the collection.
- `MonthGrid` (monthgrid.dfy) holds `daysInMonth`, `firstDayOfMonth`, `prevMonth` and
  `nextMonth`, and the cell layout of `renderDays`.
- `CalendarView` (calendarview.dfy) is the component state and its handlers, as a step
  function over actions, with invariants kept over whole sessions. A click on an event
  item runs the item's handler and then, as the click bubbles, that of the enclosing
  day cell. `IntendedStep` is the same machine with the event handler alone. The
  difference is the fourth finding below.
- `TwoDigitYears` (twodigityears.dfy) is the `Date` constructor exactly as written, with
  the year mapping that section 21.4.2.1 of ECMA-262 applies. It exhibits two of the
  findings below.
- `TimeZones` (timezones.dfy) is the instant comparison of `getEventsForDate` exactly as
  written, with the clock's UTC offset as a parameter. It exhibits the third finding.
- `Optional` (optional.dfy) is JavaScript's `null`-or-value.

Dates are (year, month, day) triples compared through their day numbers, the number of
days since 1 January 1970. The source compares each event's `startDate` and `endDate`,
which JavaScript parses as UTC midnight, against the local midnight of the cell's date.
The main model (`Events.EventsOn` and everything built on it) is the component on a
clock at UTC offset 0, where that comparison is "start <= day <= end". At any other
offset the code behaves differently: east of UTC every event loses its first day, west
of UTC it loses its last day, and a single-day event is shown on no day at all.
`TimeZones` proves this, and it is listed under "## Findings".

Some behaviours of the code that a reader might not expect:

- The conflict flag counts events: it is raised when a day shows more than three. It
  does not compare start and end times.
- Submitting the form changes only the collection. Whether the form then closes is
  decided by the form component, which is not part of this model.
- `deleteEvent` hides the form but keeps the selected event. In this file the callback
  is never handed to any child component. It is modelled as an action anyway.
- `handleDateClick` stores the clicked date in `selectedDate` (line 43), but nothing
  reads it: the form is given only `eventToEdit` (lines 194-201). A day click
  therefore just opens an empty form. That empty form is also what a click on an event
  leads to, as the fourth finding below shows.

## Model

| member | source | states |
|---|---|---|
| Gregorian.ToCivilFromBounds | src/components/Calendar.jsx:30-31 | the date read back from a day number is fixed by the one year and the one month whose days contain it |
| Gregorian.ToCivil | src/components/Calendar.jsx:30-31 | every day number is the day number of exactly one valid date, and that date is the one returned (reading year, month and day back from a constructed `Date`) |
| Gregorian.ToCivilOfDayNumber | src/components/Calendar.jsx:30-31 | round trip: a valid date turned into its day number and back is the same date |
| Gregorian.DayNumberOrder | src/components/Calendar.jsx:75 | for valid dates, comparing day numbers is comparing (year, month, day) in calendar order, and equal day numbers mean equal dates |
| Gregorian.YearStartIsDayFromYear | src/components/Calendar.jsx:30-31 | the closed DayFromYear formula of ECMA-262 equals the running sum of the Gregorian year lengths, for years before and after 1970 |
| Gregorian.YearStartMonotone | src/components/Calendar.jsx:30-31 | every day of a year comes before 1 January of any later year |
| Gregorian.FirstOfJanuary2000IsSaturday | src/components/Calendar.jsx:31 | calibration of the weekday formula: 1 January 2000 has weekday 6 (Saturday) |
| Gregorian.WeekDayIsSakamoto | src/components/Calendar.jsx:31 | for every valid date of every year, the weekday of ECMA-262 (`getDay`) agrees with Sakamoto's day-of-week formula, which does not use day numbers |
| MonthGrid.LastDayOfMonth | src/components/Calendar.jsx:30 | day 0 of the month after `month` is the last day of `month`, in December carrying into the next year |
| MonthGrid.DaysInMonth | src/components/Calendar.jsx:30 | the day-0-of-next-month idiom yields the Gregorian month length: always 28..31, and 29 exactly for February of a leap year |
| MonthGrid.FirstDayOfMonth | src/components/Calendar.jsx:31 | the weekday of day 1 of the month, between 0 (Sunday) and 6 |
| MonthGrid.FirstDayOfMonthIsSakamoto | src/components/Calendar.jsx:31 | the first weekday of every month of every year agrees with Sakamoto's formula |
| MonthGrid.PrevMonth | src/components/Calendar.jsx:33-35 | the cursor moves to day 1 of the previous month; January goes to December of the year before; the linear month index drops by one |
| MonthGrid.NextMonth | src/components/Calendar.jsx:37-39 | the cursor moves to day 1 of the next month; December goes to January of the next year; the linear month index grows by one |
| MonthGrid.PrevThenNext | src/components/Calendar.jsx:33-39 | next after previous, and previous after next, return to day 1 of the original month |
| MonthGrid.NextMonthContinuesWeek | src/components/Calendar.jsx:30-31 | the first weekday of the next month is this month's first weekday plus its length, modulo 7 |
| MonthGrid.RenderDays | src/components/Calendar.jsx:85-146 | the grid has `firstDayOfMonth + daysInMonth` cells (between 28 and 37): that many leading blanks, then day cells numbered 1..daysInMonth in strictly ascending order, each with that day's events and conflict flag |
| MonthGrid.LayOutCells | src/components/Calendar.jsx:90-144 | the blank-cell loop and the day-cell loop produce exactly the blanks and then the consecutively numbered day cells |
| MonthGrid.DayCellShowsRange | src/components/Calendar.jsx:101-103 | at UTC offset 0, the cell of a day of the displayed month shows an event exactly when the event's date range contains that date |
| Events.EventsOn | src/components/Calendar.jsx:68-77 | at UTC offset 0, the day's events are an order-preserving subsequence of the collection; it holds every event whose range contains the day and no other, each as often as it occurs in the collection |
| Events.EventsOnDetermined | src/components/Calendar.jsx:70-76 | those properties leave no freedom: any order-preserving selection of covering events with that count is the result |
| Seqs.FilterUnique | src/components/Calendar.jsx:70 | a filter result is the only subsequence that keeps exactly the accepted elements, each as often as it occurs |
| Events.ShownExactlyInRange | src/components/Calendar.jsx:70-76 | at UTC offset 0, an event is shown on a date if and only if startDate <= date <= endDate in calendar order, so a multi-day event appears on every day of its range |
| Events.SingleDayEvent | src/components/Calendar.jsx:70-76 | at UTC offset 0, an event whose start and end dates coincide is shown on that date and on no other |
| Events.ConflictIffFourCovering | src/components/Calendar.jsx:79-83 | the conflict flag of a day is raised if and only if at least four events of the collection cover that day |
| Events.ConflictPersistsOnAdd | src/components/Calendar.jsx:79-83 | appending an event never clears a day's conflict flag |
| Events.ReplaceById | src/components/Calendar.jsx:56 | the update keeps the length; every event with the submitted id becomes the submitted event; every other event stays at its position |
| Events.AddOrUpdate | src/components/Calendar.jsx:53-61 | with no event selected the result is the collection plus the new event at the end; with one selected, the length and the ids at every position are unchanged |
| Events.AddKeepsIdsDistinct | src/components/Calendar.jsx:59 | appending an event whose id is fresh keeps all ids unique |
| Events.UpdateKeepsIdsDistinct | src/components/Calendar.jsx:56 | an update keeps all ids unique |
| Events.DeleteById | src/components/Calendar.jsx:64 | no surviving event has the deleted id; every event with another id survives, as often as it occurs; survivors keep their relative order |
| Events.DeleteDetermined | src/components/Calendar.jsx:64 | those properties leave no freedom: any order-preserving selection of the other-id events with that count is the result |
| Events.DeleteIdempotent | src/components/Calendar.jsx:64 | deleting the same id twice is the same as deleting it once |
| Events.DeleteRemovesOne | src/components/Calendar.jsx:64 | with unique ids, deleting a present id removes exactly one event, and deleting an absent id changes nothing |
| Events.DeleteKeepsIdsDistinct | src/components/Calendar.jsx:64 | deletion keeps all ids unique |
| CalendarView.Init | src/components/Calendar.jsx:7-11 | the component starts at today's date with no events, the form hidden and nothing selected |
| CalendarView.Navigate | src/components/Calendar.jsx:33-39 | navigation moves the cursor to day 1 one month back or forward and leaves the events, the form and the selections alone |
| CalendarView.HandleDateClick | src/components/Calendar.jsx:41-46 | a click on a day of the displayed month selects that date, clears the selected event and shows the form |
| CalendarView.HandleEventClick | src/components/Calendar.jsx:48-51 | the event handler alone, the intended behaviour of an event click: it selects the event for editing and shows the form; nothing else changes |
| CalendarView.ClickOnEvent | src/components/Calendar.jsx:107-134 | a click on an event item bubbles to its day cell, so it ends exactly as a click on that day: the form is shown with no event selected |
| CalendarView.OpenAddForm | src/components/Calendar.jsx:156-159 | the "Add Event" button clears the selected event and shows the form; nothing else changes |
| CalendarView.CloseEventForm | src/components/Calendar.jsx:196-199 | closing hides the form and clears the selected event; nothing else changes |
| CalendarView.SubmitToView | src/components/Calendar.jsx:53-61 | with no event selected the submitted event is appended; with one selected, every event carrying the submitted id is replaced by it in place; nothing but the collection changes |
| CalendarView.DeleteFromView | src/components/Calendar.jsx:63-66 | the collection becomes its filter by "id differs", in order; the form is hidden; the cursor, the selected event and the selected date are kept |
| CalendarView.Step | src/components/Calendar.jsx:33-66 | every action keeps the cursor a valid date |
| CalendarView.StepTransitions | src/components/Calendar.jsx:41-66 | the form is shown after a day click, event click or "Add Event", hidden after close or delete, and otherwise unchanged; only navigation moves the cursor and only load, submit and delete touch the collection |
| CalendarView.IntendedStep | src/components/Calendar.jsx:48-51 | the intended machine agrees with the program on the cursor, the collection and the form flag after every action; it differs only in that an event click leaves that event selected (where the program leaves nothing selected) and keeps the selected date |
| CalendarView.OpeningDecidesSubmitMode | src/components/Calendar.jsx:41-61 | with the handlers alone, the next submission after an event click replaces the events carrying the submitted id; after a day click or "Add Event" it appends, even if a deletion left a stale selection |
| CalendarView.OpeningAlwaysAppends | src/components/Calendar.jsx:41-61 | as the program runs, the next submission after any way of opening the form, an event click included, appends |
| CalendarView.StepNeverSelects | src/components/Calendar.jsx:41-66 | no action as the program runs it leaves an event selected when none was |
| CalendarView.RunNeverSelects | src/components/Calendar.jsx:7-66 | from a state with no selection, no session of actions ever selects an event |
| CalendarView.SubmitAlwaysAppends | src/components/Calendar.jsx:53-61 | after any session from the initial state a submission appends, so the update branch is never taken |
| CalendarView.StepKeepsInvariant | src/components/Calendar.jsx:53-66 | an admissible action keeps the cursor valid and the event ids unique |
| CalendarView.RunKeepsInvariant | src/components/Calendar.jsx:33-66 | every admissible session of actions keeps the cursor valid and the event ids unique |
| CalendarView.InitSatisfiesInvariant | src/components/Calendar.jsx:7-11 | the initial state satisfies the invariant when today is a valid date |
| TwoDigitYears.NewDate | src/components/Calendar.jsx:42 | the three-argument constructor yields the valid date whose day number is MakeDay of the mapped year, month and day |
| TwoDigitYears.DaysInMonthAsWritten | src/components/Calendar.jsx:30 | as written, the month length is that of the mapped year: 1900 + y for 0 <= y <= 99 |
| TwoDigitYears.PrevMonthAsWritten | src/components/Calendar.jsx:33-35 | as written, previous-month navigation is the corrected one applied to the mapped year |
| TwoDigitYears.NextMonthAsWritten | src/components/Calendar.jsx:37-39 | as written, next-month navigation is the corrected one applied to the mapped year |
| TwoDigitYears.AsWrittenAgreesOutsideTwoDigitYears | src/components/Calendar.jsx:30-39 | outside the years 0..99 the code as written and the corrected model agree on month length and navigation |
| TwoDigitYears.FirstDayOfMonthAsWritten | src/components/Calendar.jsx:31 | as written, the first weekday is that of the same month of the mapped year |
| TwoDigitYears.DayEventsAsWritten | src/components/Calendar.jsx:73 | as written, a cell shows the events covering the same day of the mapped year |
| TwoDigitYears.FebruaryOfYearZero | src/components/Calendar.jsx:30 | February of year 0 has 29 days, but the expression as written gives 28 |
| TwoDigitYears.AsWrittenNavigationReachesOnlyDecember99 | src/components/Calendar.jsx:33-39 | starting from a year from 100 on, navigation as written reaches no month of the years 0 to 99 except December of year 99; in particular it never displays February of year 0 |
| TwoDigitYears.DecemberOfYear99AsWritten | src/components/Calendar.jsx:31 | as written, the grid of December of year 99 starts on weekday 3 (Wednesday, as 1 December 1999); 1 December of year 99 was a Tuesday (2) |
| TwoDigitYears.DecemberOfYear99ShowsDecember1999 | src/components/Calendar.jsx:73 | as written, the cells of December of year 99 show the events of December 1999 |
| TwoDigitYears.BackIntoYear99 | src/components/Calendar.jsx:34 | going back from January of year 100 reaches December of year 99 |
| TwoDigitYears.LeavingYear99AsWritten | src/components/Calendar.jsx:33-39 | as written, from December of year 99 "previous" leads to November 1999 and "next" to January 2000 |
| TwoDigitYears.LeavingYear99Corrected | src/components/Calendar.jsx:33-39 | corrected, from December of year 99 "previous" leads to November of year 99 and "next" to January of year 100 |
| TimeZones.EventsOnAsWritten | src/components/Calendar.jsx:70-77 | as written, a cell shows, in order and with their multiplicity, the events whose UTC-midnight start is not after the cell's local midnight and whose UTC-midnight end is not before it |
| TimeZones.ShownAsWrittenRange | src/components/Calendar.jsx:71-75 | by the sign of the offset, an event is shown from its start to its end day at UTC, from the day after its start to its end day east of UTC, and from its start to the day before its end west of UTC |
| TimeZones.ShownAsWrittenInCalendarOrder | src/components/Calendar.jsx:71-75 | the same three ranges stated with calendar order on valid dates |
| TimeZones.FirstDayLostEastOfUtc | src/components/Calendar.jsx:71-75 | east of UTC no event is shown on its start date |
| TimeZones.LastDayLostWestOfUtc | src/components/Calendar.jsx:72-75 | west of UTC no event is shown on its end date |
| TimeZones.SingleDayEventHiddenOffUtc | src/components/Calendar.jsx:70-77 | at any offset other than 0, an event whose start and end dates coincide is shown on no date |
| TimeZones.AtUtcAgreesWithModel | src/components/Calendar.jsx:70-77 | at offset 0 the code as written shows on every date exactly what `Events.EventsOn` shows |

## Left out

- Loading events from `/data/events.json` is asynchronous I/O. Only its successful
  outcome is modelled, as the `EventsLoaded` action carrying the decoded records. A
  failed load only logs an error and changes no state.
- "Today" comes from the wall clock. It is a parameter of `Init` and `RenderDays`.
- The main model is the component at UTC offset 0. `TimeZones` models the other
  offsets, but only for `getEventsForDate`. Each offset is assumed to be less than a
  day either way, and it is the offset in force at the cell's local midnight. Daylight
  saving changes are covered only in that sense.
- Parsing `YYYY-MM-DD` strings into dates is not modelled; event dates are given as
  parsed triples. A string that parses to an invalid `Date` is not modelled either;
  the model instead normalises out-of-range triples the way `MakeDay` does.
- The unused ISO date string computed in `getEventsForDate` has no effect on the
  result and is left out.
- The time-value limit of ECMA-262 (`TimeClip`, about 273,790 years either side of 1970)
  is not modelled. Years are unbounded integers.
- JSX, CSS classes, the SVG icon, the weekday header labels, `App` and the markup of
  `EventItem` are presentational and are not modelled. The one behaviour of
  `EventItem`, its click handler, is part of `CalendarView.ClickOnEvent`.
- `MonthSelector` and `EventForm` are not part of this model. This includes id
  generation and the form's default times. `Admissible` states what the model assumes
  of them: a new event gets an id not yet in use, and loaded data has unique ids.
- Start and end times of events are carried along but compared nowhere. The conflict
  flag counts events and does not compare times.
- Events.HasConflict: has no ensures; its meaning is stated by
  `Events.ConflictIffFourCovering`.

## Findings

| source | as written | input that shows it | evidently intended | confidence | as-written member | corrected member |
|---|---|---|---|---|---|---|
| src/components/Calendar.jsx:31 | `firstDayOfMonth` is built with the three-argument `Date` constructor, which reads a year from 0 to 99 as 1900 to 1999 | cursor at December of year 99, the one two-digit month navigation reaches (back from January of year 100) | the grid starts on Tuesday (2), the weekday of 1 December of year 99; as written it starts on Wednesday (3), that of 1 December 1999, and the cells show December 1999's events | medium: follows from section 21.4.2.1 of ECMA-262; not executed | TwoDigitYears.DecemberOfYear99AsWritten | MonthGrid.FirstDayOfMonthIsSakamoto |
| src/components/Calendar.jsx:33-39 | `prevMonth` and `nextMonth` use the same constructor, so from year 99 the cursor leaves for 1999 or 2000 | cursor at December of year 99, reached by going back from January of year 100 | November of year 99 and January of year 100 | medium: follows from section 21.4.2.1 of ECMA-262; not executed | TwoDigitYears.LeavingYear99AsWritten | TwoDigitYears.LeavingYear99Corrected |
| src/components/Calendar.jsx:71-75 | event dates are parsed as UTC midnight and compared with the local midnight of the cell's date | a clock at UTC+1 and an event with `startDate` and `endDate` both "2024-05-01" | the event is shown on 1 May 2024 | high: follows from the date-only string rule of ECMA-262; not executed | TimeZones.SingleDayEventHiddenOffUtc | Events.SingleDayEvent |
| src/components/Calendar.jsx:112 | the day cell's click handler also receives every click on an event item inside it, since the item's handler (src/components/EventItem.jsx:7) does not stop propagation; `handleDateClick` then clears the selection `handleEventClick` made | any state; the user clicks an event shown in the cell of a day, edits it and submits | the form edits the clicked event and the submission replaces it; as written the form opens empty and the submission appends a new event, and the update branch of `addOrUpdateEvent` is never reached | high: follows from React's event bubbling; not executed | CalendarView.SubmitAlwaysAppends | CalendarView.OpeningDecidesSubmitMode |

In December of year 99, `daysInMonth` (line 30) is 31 as written and corrected alike.
The month where the line-30 expression itself goes wrong, February of year 0
(`TwoDigitYears.FebruaryOfYearZero`), is never displayed when the cursor starts at
today's date (`TwoDigitYears.AsWrittenNavigationReachesOnlyDecember99`).
