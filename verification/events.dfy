/**
 The event collection of the calendar view (src/components/Calendar.jsx): which events
 a day shows, the "Conflict" badge, and the add, update and delete operations. Every
 operation returns a new collection, as React's `setEvents` receives one.
 */
module Events {
  import opened Gregorian
  import opened Seqs
  import opened Optional

  /** One calendar event. `startDate` and `endDate` are the parsed `YYYY-MM-DD` fields,
      with the month zero-based as `Date` keeps it; the range is inclusive. The time
      and presentation fields are carried along unchanged. */
  datatype Event = Event(
    id: int,
    title: string,
    description: string,
    startDate: CivilDate,
    endDate: CivilDate,
    startTime: string,
    endTime: string,
    color: string)

  /** Event `e` is on the calendar on day number `n`: start <= n <= end, compared at
      day granularity. */
  predicate Covers(e: Event, n: int) {
    DayNumber(e.startDate) <= n <= DayNumber(e.endDate)
  }

  function CoversDay(n: int): Event -> bool {
    (e: Event) => Covers(e, n)
  }

  /** `getEventsForDate`: the events whose inclusive date range contains day `n`, in
      the order of the collection. */
  function EventsOn(events: seq<Event>, n: int): (r: seq<Event>)
    ensures IsSubsequence(r, events)
    ensures forall i :: 0 <= i < |r| ==> r[i] in events && Covers(r[i], n)
    ensures forall i :: 0 <= i < |events| && Covers(events[i], n) ==> events[i] in r
    ensures |r| == Count(events, CoversDay(n))
  {
    FilterIsSubsequence(events, CoversDay(n));
    FilterLength(events, CoversDay(n));
    Filter(events, CoversDay(n))
  }

  /** The contract of `EventsOn` leaves no freedom: any order-preserving selection of
      the covering events that keeps each of them as often as it occurs is the result. */
  lemma EventsOnDetermined(events: seq<Event>, n: int, r: seq<Event>)
    requires IsSubsequence(r, events)
    requires forall i :: 0 <= i < |r| ==> Covers(r[i], n)
    requires |r| == Count(events, CoversDay(n))
    ensures r == EventsOn(events, n)
  {
    FilterUnique(r, events, CoversDay(n));
  }

  /** For events with valid dates, being shown on a valid date `c` is exactly
      `startDate <= c <= endDate` in calendar order: a multi-day event appears on every
      day of its range and on no other. */
  lemma ShownExactlyInRange(events: seq<Event>, e: Event, c: CivilDate)
    requires e in events
    requires ValidDate(e.startDate) && ValidDate(e.endDate) && ValidDate(c)
    ensures e in EventsOn(events, DayNumber(c))
        <==> !Before(c, e.startDate) && !Before(e.endDate, c)
  {
    DayNumberOrder(c, e.startDate);
    DayNumberOrder(e.endDate, c);
    var r := EventsOn(events, DayNumber(c));
    if e in r {
      var i :| 0 <= i < |r| && r[i] == e;
    } else {
      var i :| 0 <= i < |events| && events[i] == e;
    }
  }

  /** A single-day event appears on its own day and on no other. */
  lemma SingleDayEvent(events: seq<Event>, e: Event, c: CivilDate)
    requires e in events
    requires ValidDate(e.startDate) && e.endDate == e.startDate && ValidDate(c)
    ensures e in EventsOn(events, DayNumber(c)) <==> c == e.startDate
  {
    ShownExactlyInRange(events, e, c);
    DayNumberOrder(c, e.startDate);
  }

  /** `checkForEventConflicts`: a day is flagged when it shows more than three
      events. */
  function HasConflict(dayEvents: seq<Event>): (conflict: bool) {
    |dayEvents| > 3
  }

  /** The flag of day `n` is raised exactly when at least four events of the whole
      collection cover that day. */
  lemma ConflictIffFourCovering(events: seq<Event>, n: int)
    ensures HasConflict(EventsOn(events, n)) <==> Count(events, CoversDay(n)) >= 4
  {
    FilterLength(events, CoversDay(n));
  }

  /** Adding an event never clears the flag of a day. */
  lemma ConflictPersistsOnAdd(events: seq<Event>, e: Event, n: int)
    requires HasConflict(EventsOn(events, n))
    ensures HasConflict(EventsOn(events + [e], n))
  {
    FilterAppend(events, [e], CoversDay(n));
  }

  // ---------------------------------------------------------------------------
  // Add, update, delete

  function Ids(events: seq<Event>): (ids: seq<int>)
    ensures |ids| == |events|
    ensures forall i :: 0 <= i < |events| ==> ids[i] == events[i].id
  {
    seq(|events|, i requires 0 <= i < |events| => events[i].id)
  }

  predicate DistinctIds(events: seq<Event>) {
    forall i, j :: 0 <= i < j < |events| ==> events[i].id != events[j].id
  }

  /** The update branch of `addOrUpdateEvent`: every event carrying the submitted
      event's id is replaced by it, and every other event stays where it was. */
  function ReplaceById(events: seq<Event>, event: Event): (r: seq<Event>)
    ensures |r| == |events|
    ensures forall i :: 0 <= i < |events| && events[i].id == event.id ==> r[i] == event
    ensures forall i :: 0 <= i < |events| && events[i].id != event.id ==> r[i] == events[i]
  {
    if events == [] then []
    else [if events[0].id == event.id then event else events[0]] + ReplaceById(events[1..], event)
  }

  /** `addOrUpdateEvent`: with no event selected the submitted event is appended;
      with one selected, every event with the submitted id is replaced in place. */
  function AddOrUpdate(events: seq<Event>, selected: Option<Event>, event: Event): (r: seq<Event>)
    ensures selected.None? ==> |r| == |events| + 1 && r[..|events|] == events && r[|events|] == event
    ensures selected.Some? ==> |r| == |events| && Ids(r) == Ids(events)
    ensures selected.Some? ==> forall i :: 0 <= i < |events| ==>
      r[i] == (if events[i].id == event.id then event else events[i])
  {
    if selected.Some? then ReplaceById(events, event) else events + [event]
  }

  /** Appending an event with a fresh id keeps ids unique. */
  lemma AddKeepsIdsDistinct(events: seq<Event>, event: Event)
    requires DistinctIds(events)
    requires event.id !in Ids(events)
    ensures DistinctIds(AddOrUpdate(events, None, event))
  {
    var r := AddOrUpdate(events, None, event);
    forall i, j | 0 <= i < j < |r|
      ensures r[i].id != r[j].id
    {
      if j == |events| {
        assert Ids(events)[i] == r[i].id;
      }
    }
  }

  /** Updating keeps ids unique, since it never changes the id at any position. */
  lemma UpdateKeepsIdsDistinct(events: seq<Event>, selected: Event, event: Event)
    requires DistinctIds(events)
    ensures DistinctIds(AddOrUpdate(events, Some(selected), event))
  {
    var r := AddOrUpdate(events, Some(selected), event);
    forall i, j | 0 <= i < j < |r|
      ensures r[i].id != r[j].id
    {
      assert Ids(r)[i] == Ids(events)[i] && Ids(r)[j] == Ids(events)[j];
    }
  }

  function IdIsNot(id: int): Event -> bool {
    (e: Event) => e.id != id
  }

  /** The filter of `deleteEvent`: the events whose id differs from `id`, in their
      original order. */
  function DeleteById(events: seq<Event>, id: int): (r: seq<Event>)
    ensures IsSubsequence(r, events)
    ensures forall i :: 0 <= i < |r| ==> r[i].id != id && r[i] in events
    ensures forall i :: 0 <= i < |events| && events[i].id != id ==> events[i] in r
    ensures |r| == Count(events, IdIsNot(id))
  {
    FilterIsSubsequence(events, IdIsNot(id));
    FilterLength(events, IdIsNot(id));
    Filter(events, IdIsNot(id))
  }

  /** Likewise for deletion: the survivors in their order, each as often as it occurs,
      are the only possible result. */
  lemma DeleteDetermined(events: seq<Event>, id: int, r: seq<Event>)
    requires IsSubsequence(r, events)
    requires forall i :: 0 <= i < |r| ==> r[i].id != id
    requires |r| == Count(events, IdIsNot(id))
    ensures r == DeleteById(events, id)
  {
    FilterUnique(r, events, IdIsNot(id));
  }

  /** Deleting an id a second time changes nothing. */
  lemma DeleteIdempotent(events: seq<Event>, id: int)
    ensures DeleteById(DeleteById(events, id), id) == DeleteById(events, id)
  {
    FilterIdempotent(events, IdIsNot(id));
  }

  lemma {:induction false} CountOtherIds(events: seq<Event>, id: int)
    requires DistinctIds(events)
    ensures id in Ids(events) ==> Count(events, IdIsNot(id)) == |events| - 1
    ensures id !in Ids(events) ==> Count(events, IdIsNot(id)) == |events|
  {
    if events != [] {
      var tail := events[1..];
      assert DistinctIds(tail) by {
        forall i, j | 0 <= i < j < |tail| ensures tail[i].id != tail[j].id {
          assert tail[i] == events[i + 1] && tail[j] == events[j + 1];
        }
      }
      CountOtherIds(tail, id);
      if events[0].id == id {
        assert id !in Ids(tail) by {
          forall k | 0 <= k < |tail| ensures Ids(tail)[k] != id {
            assert tail[k] == events[k + 1];
          }
        }
      } else {
        assert id in Ids(events) <==> id in Ids(tail) by {
          if id in Ids(events) {
            var k :| 0 <= k < |events| && Ids(events)[k] == id;
            assert Ids(tail)[k - 1] == id;
          }
          if id in Ids(tail) {
            var k :| 0 <= k < |tail| && Ids(tail)[k] == id;
            assert Ids(events)[k + 1] == id;
          }
        }
      }
    }
  }

  /** With unique ids, deleting a present id removes exactly one event, and deleting
      an absent id removes none. */
  lemma DeleteRemovesOne(events: seq<Event>, id: int)
    requires DistinctIds(events)
    ensures id in Ids(events) ==> |DeleteById(events, id)| == |events| - 1
    ensures id !in Ids(events) ==> DeleteById(events, id) == events
  {
    CountOtherIds(events, id);
    FilterLength(events, IdIsNot(id));
    if id !in Ids(events) {
      FilterKeepsAll(events, IdIsNot(id));
    }
  }

  /** Dropping events never makes two ids equal: a subsequence of a collection with
      unique ids has unique ids. */
  lemma {:induction false} SubsequenceKeepsIdsDistinct(a: seq<Event>, b: seq<Event>)
    requires IsSubsequence(a, b) && DistinctIds(b)
    ensures DistinctIds(a)
    decreases |b|
  {
    if a != [] {
      var tail := b[1..];
      assert DistinctIds(tail) by {
        forall p, q | 0 <= p < q < |tail| ensures tail[p].id != tail[q].id {
          assert tail[p] == b[p + 1] && tail[q] == b[q + 1];
        }
      }
      if a[0] == b[0] {
        SubsequenceKeepsIdsDistinct(a[1..], tail);
        SubsequenceMembers(a[1..], tail);
        forall i, j | 0 <= i < j < |a| ensures a[i].id != a[j].id {
          assert a[j] == a[1..][j - 1];
          if i == 0 {
            var k :| 0 <= k < |tail| && tail[k] == a[j];
            assert b[k + 1] == a[j];
          } else {
            assert a[i] == a[1..][i - 1];
          }
        }
      } else {
        SubsequenceKeepsIdsDistinct(a, tail);
      }
    }
  }

  lemma DeleteKeepsIdsDistinct(events: seq<Event>, id: int)
    requires DistinctIds(events)
    ensures DistinctIds(DeleteById(events, id))
  {
    SubsequenceKeepsIdsDistinct(DeleteById(events, id), events);
  }
}
