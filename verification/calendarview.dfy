/**
 The state of the `Calendar` component (src/components/Calendar.jsx) and its event
 handlers, as a step function over an immutable state record: the cursor date, the
 event collection, whether the event form is shown, the selected event and the
 selected date. The wall clock and the event fetch enter as parameters and actions.
 */
module CalendarView {
  import opened Gregorian
  import opened Optional
  import opened Events
  import opened MonthGrid

  datatype ViewState = ViewState(
    currentDate: CivilDate,
    events: seq<Event>,
    showEventForm: bool,
    selectedEvent: Option<Event>,
    selectedDate: Option<CivilDate>)

  /** The initial state: the cursor at today's date, no events, the form hidden and
      nothing selected. */
  function Init(today: CivilDate): (s: ViewState)
    ensures s.currentDate == today && s.events == []
    ensures !s.showEventForm && s.selectedEvent.None? && s.selectedDate.None?
  {
    ViewState(today, [], false, None, None)
  }

  /** What the component can be told to do: the fetch delivering its data, or one of
      the user's clicks and form callbacks. `ClickEvent` is a click on an event item,
      which is drawn inside the cell of `day`. */
  datatype Action =
    | EventsLoaded(data: seq<Event>)
    | ClickPrevMonth
    | ClickNextMonth
    | ClickDay(day: int)
    | ClickEvent(event: Event, day: int)
    | ClickAddEvent
    | SubmitEvent(event: Event)
    | DeleteEvent(id: int)
    | CloseForm

  predicate OpensForm(a: Action) {
    a.ClickDay? || a.ClickEvent? || a.ClickAddEvent?
  }

  predicate ClosesForm(a: Action) {
    a.CloseForm? || a.DeleteEvent?
  }

  /** `prevMonth` and `nextMonth` applied to the cursor. */
  function Navigate(s: ViewState, forward: bool): (r: ViewState)
    requires ValidDate(s.currentDate)
    ensures ValidDate(r.currentDate) && r.currentDate.day == 1
    ensures r.currentDate.year * 12 + r.currentDate.month
            == s.currentDate.year * 12 + s.currentDate.month + (if forward then 1 else -1)
    ensures r.events == s.events && r.showEventForm == s.showEventForm
    ensures r.selectedEvent == s.selectedEvent && r.selectedDate == s.selectedDate
  {
    var c := s.currentDate;
    s.(currentDate := if forward then NextMonth(c.year, c.month) else PrevMonth(c.year, c.month))
  }

  /** `handleDateClick`: remembers the clicked date of the displayed month, clears the
      selected event and shows the form. */
  function HandleDateClick(s: ViewState, day: int): (r: ViewState)
    requires ValidDate(s.currentDate)
    ensures r.showEventForm && r.selectedEvent.None?
    ensures r.selectedDate.Some? && DayNumber(r.selectedDate.value) == MakeDay(s.currentDate.year, s.currentDate.month, day)
    ensures 1 <= day <= DaysInMonth(s.currentDate.year, s.currentDate.month) ==>
      r.selectedDate == Some(CivilDate(s.currentDate.year, s.currentDate.month, day))
    ensures r.currentDate == s.currentDate && r.events == s.events
  {
    var c := s.currentDate;
    DateOfDisplayedMonth(c.year, c.month, day);
    s.(selectedDate := Some(ToCivil(MakeDay(c.year, c.month, day))),
       selectedEvent := None,
       showEventForm := true)
  }

  lemma DateOfDisplayedMonth(year: int, month: int, day: int)
    requires 0 <= month < 12
    ensures 1 <= day <= MonthLength(year, month) ==>
      ToCivil(MakeDay(year, month, day)) == CivilDate(year, month, day)
  {
    if 1 <= day <= MonthLength(year, month) {
      ToCivilOfDayNumber(CivilDate(year, month, day));
    }
  }

  /** `handleEventClick`: selects the clicked event and shows the form for editing. */
  function HandleEventClick(s: ViewState, event: Event): (r: ViewState)
    ensures r.showEventForm && r.selectedEvent == Some(event)
    ensures r.currentDate == s.currentDate && r.events == s.events && r.selectedDate == s.selectedDate
  {
    s.(selectedEvent := Some(event), showEventForm := true)
  }

  /** A click on an event item as the browser delivers it. The item's handler
      (src/components/EventItem.jsx:7) does not stop the click, so it bubbles to the
      enclosing day cell, whose handler runs next: the selection it made is cleared
      again, and the click acts exactly like a click on the day. */
  function ClickOnEvent(s: ViewState, event: Event, day: int): (r: ViewState)
    requires ValidDate(s.currentDate)
    ensures r == HandleDateClick(s, day)
    ensures r.showEventForm && r.selectedEvent.None?
  {
    HandleDateClick(HandleEventClick(s, event), day)
  }

  /** The "Add Event" button: clears the selected event and shows the form. */
  function OpenAddForm(s: ViewState): (r: ViewState)
    ensures r.showEventForm && r.selectedEvent.None?
    ensures r.currentDate == s.currentDate && r.events == s.events && r.selectedDate == s.selectedDate
  {
    s.(selectedEvent := None, showEventForm := true)
  }

  /** The form's close callback: hides the form and clears the selected event. */
  function CloseEventForm(s: ViewState): (r: ViewState)
    ensures !r.showEventForm && r.selectedEvent.None?
    ensures r.currentDate == s.currentDate && r.events == s.events && r.selectedDate == s.selectedDate
  {
    s.(showEventForm := false, selectedEvent := None)
  }

  /** `addOrUpdateEvent` on the component state: the mode is chosen by whether an event
      is selected; nothing but the collection changes. */
  function SubmitToView(s: ViewState, event: Event): (r: ViewState)
    ensures s.selectedEvent.None? ==> r.events == s.events + [event]
    ensures s.selectedEvent.Some? ==> r.events == ReplaceById(s.events, event)
    ensures s.selectedEvent.Some? ==> |r.events| == |s.events| && Ids(r.events) == Ids(s.events)
    ensures r.currentDate == s.currentDate && r.showEventForm == s.showEventForm
    ensures r.selectedEvent == s.selectedEvent && r.selectedDate == s.selectedDate
  {
    var events := AddOrUpdate(s.events, s.selectedEvent, event);
    assert s.selectedEvent.None? ==> events == s.events + [event];
    s.(events := events)
  }

  /** `deleteEvent` on the component state: removes the id and hides the form. The
      selected event is left as it was. */
  function DeleteFromView(s: ViewState, id: int): (r: ViewState)
    ensures !r.showEventForm
    ensures forall i :: 0 <= i < |r.events| ==> r.events[i].id != id
    ensures forall i :: 0 <= i < |s.events| && s.events[i].id != id ==> s.events[i] in r.events
    ensures r.events == DeleteById(s.events, id)
    ensures r.currentDate == s.currentDate && r.selectedEvent == s.selectedEvent
    ensures r.selectedDate == s.selectedDate
  {
    s.(events := DeleteById(s.events, id), showEventForm := false)
  }

  /** One action applied to the state, as the program runs it. */
  function Step(s: ViewState, a: Action): (r: ViewState)
    requires ValidDate(s.currentDate)
    ensures ValidDate(r.currentDate)
  {
    match a
    case EventsLoaded(data) => s.(events := data)
    case ClickPrevMonth => Navigate(s, false)
    case ClickNextMonth => Navigate(s, true)
    case ClickDay(day) => HandleDateClick(s, day)
    case ClickEvent(event, day) => ClickOnEvent(s, event, day)
    case ClickAddEvent => OpenAddForm(s)
    case SubmitEvent(event) => SubmitToView(s, event)
    case DeleteEvent(id) => DeleteFromView(s, id)
    case CloseForm => CloseEventForm(s)
  }

  /** The form is a two-state machine: a click on a day, on an event or on "Add Event"
      shows it; closing or deleting hides it; everything else leaves it as it was. Only
      navigation moves the cursor, and only loading, submitting and deleting touch the
      collection. */
  lemma StepTransitions(s: ViewState, a: Action)
    requires ValidDate(s.currentDate)
    ensures var r := Step(s, a);
            && (r.showEventForm <==> OpensForm(a) || (s.showEventForm && !ClosesForm(a)))
            && (!(a.ClickPrevMonth? || a.ClickNextMonth?) ==> r.currentDate == s.currentDate)
            && (!(a.EventsLoaded? || a.SubmitEvent? || a.DeleteEvent?) ==> r.events == s.events)
  {
    match a
    case EventsLoaded(data) =>
    case ClickPrevMonth =>
    case ClickNextMonth =>
    case ClickDay(day) =>
    case ClickEvent(event, day) =>
    case ClickAddEvent =>
    case SubmitEvent(event) =>
    case DeleteEvent(id) =>
    case CloseForm =>
  }

  /** One action applied to the state as the handlers alone intend it: a click on an
      event item runs `handleEventClick` only, as if the item stopped the click from
      reaching its day cell. It agrees with the program on the cursor, the collection
      and the form, and differs only in the selection an event click leaves behind. */
  function IntendedStep(s: ViewState, a: Action): (r: ViewState)
    requires ValidDate(s.currentDate)
    ensures ValidDate(r.currentDate)
    ensures r.currentDate == Step(s, a).currentDate && r.events == Step(s, a).events
    ensures r.showEventForm == Step(s, a).showEventForm
    ensures a.ClickEvent? ==> r.selectedEvent == Some(a.event) && Step(s, a).selectedEvent.None?
    ensures a.ClickEvent? ==> r.selectedDate == s.selectedDate
    ensures !a.ClickEvent? ==>
      r.selectedEvent == Step(s, a).selectedEvent && r.selectedDate == Step(s, a).selectedDate
  {
    if a.ClickEvent? then HandleEventClick(s, a.event) else Step(s, a)
  }

  /** With the handlers alone, the way the form was opened decides what the next
      submission does: after an event click it updates in place, after a day click or
      "Add Event" it appends, even when an earlier deletion left a stale selection
      behind. */
  lemma OpeningDecidesSubmitMode(s: ViewState, a: Action, event: Event)
    requires ValidDate(s.currentDate) && OpensForm(a)
    ensures var r := Step(IntendedStep(s, a), SubmitEvent(event));
            if a.ClickEvent?
            then r.events == ReplaceById(s.events, event)
            else r.events == s.events + [event]
  {
  }

  /** As the program runs, every way of opening the form, a click on an event
      included, leads to a submission that appends. */
  lemma OpeningAlwaysAppends(s: ViewState, a: Action, event: Event)
    requires ValidDate(s.currentDate) && OpensForm(a)
    ensures Step(Step(s, a), SubmitEvent(event)).events == s.events + [event]
  {
  }

  /** No action selects an event: the one handler that does is always followed by the
      day cell's, which clears the selection again. */
  lemma StepNeverSelects(s: ViewState, a: Action)
    requires ValidDate(s.currentDate) && s.selectedEvent.None?
    ensures Step(s, a).selectedEvent.None?
  {
  }

  /** So from the initial state no session ever selects an event. */
  lemma {:induction false} RunNeverSelects(s: ViewState, actions: seq<Action>)
    requires ValidDate(s.currentDate) && s.selectedEvent.None?
    ensures Run(s, actions).selectedEvent.None?
    decreases |actions|
  {
    if actions != [] {
      StepNeverSelects(s, actions[0]);
      RunNeverSelects(Step(s, actions[0]), actions[1..]);
    }
  }

  /** The update branch of `addOrUpdateEvent` is unreachable: after any session from
      the initial state, a submission appends the submitted event. */
  lemma SubmitAlwaysAppends(today: CivilDate, actions: seq<Action>, event: Event)
    requires ValidDate(today)
    ensures var s := Run(Init(today), actions);
            Step(s, SubmitEvent(event)).events == s.events + [event]
  {
    RunNeverSelects(Init(today), actions);
  }

  /** The state facts every reachable state keeps: the cursor is a real date and event
      ids are unique. */
  predicate Invariant(s: ViewState) {
    ValidDate(s.currentDate) && DistinctIds(s.events)
  }

  /** What the code outside this component must guarantee for an action: loaded data
      has unique ids, and a new event gets an id not yet in use. */
  predicate Admissible(s: ViewState, a: Action) {
    match a
    case EventsLoaded(data) => DistinctIds(data)
    case SubmitEvent(event) => s.selectedEvent.None? ==> event.id !in Ids(s.events)
    case _ => true
  }

  lemma StepKeepsInvariant(s: ViewState, a: Action)
    requires Invariant(s) && Admissible(s, a)
    ensures Invariant(Step(s, a))
  {
    match a
    case SubmitEvent(event) =>
      if s.selectedEvent.None? {
        AddKeepsIdsDistinct(s.events, event);
      } else {
        UpdateKeepsIdsDistinct(s.events, s.selectedEvent.value, event);
      }
    case DeleteEvent(id) =>
      DeleteKeepsIdsDistinct(s.events, id);
    case _ =>
  }

  /** A session: the actions applied one after the other. */
  function Run(s: ViewState, actions: seq<Action>): (r: ViewState)
    requires ValidDate(s.currentDate)
    ensures ValidDate(r.currentDate)
    decreases |actions|
  {
    if actions == [] then s else Run(Step(s, actions[0]), actions[1..])
  }

  predicate AdmissibleRun(s: ViewState, actions: seq<Action>)
    requires ValidDate(s.currentDate)
    decreases |actions|
  {
    actions == []
    || (Admissible(s, actions[0]) && AdmissibleRun(Step(s, actions[0]), actions[1..]))
  }

  /** Starting from the initial state, every admissible session keeps the cursor a
      valid date and the event ids unique. */
  lemma {:induction false} RunKeepsInvariant(s: ViewState, actions: seq<Action>)
    requires Invariant(s) && AdmissibleRun(s, actions)
    ensures Invariant(Run(s, actions))
    decreases |actions|
  {
    if actions != [] {
      StepKeepsInvariant(s, actions[0]);
      RunKeepsInvariant(Step(s, actions[0]), actions[1..]);
    }
  }

  lemma InitSatisfiesInvariant(today: CivilDate)
    requires ValidDate(today)
    ensures Invariant(Init(today))
  {
  }
}
