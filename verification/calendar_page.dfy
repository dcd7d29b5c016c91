/** The calendar page's in-memory event list: how it changes when the store
    answers an add, a delete or an update, how it is loaded, and which events
    the day modal receives. */
module CalendarPage {
  import opened Wrappers
  import opened Seqs
  import opened Events
  import opened CalendarGrid

  /** The store's answer to an insert: the stored row, or an error. */
  datatype InsertResult = InsertedRow(row: EventRow) | InsertFailed(message: string)

  /** A message the page shows in a toast. */
  datatype Notice = Notice(title: string, description: string, destructive: bool)

  /** The page's event list after a handler, and the toast it shows (if any). */
  datatype PageUpdate = PageUpdate(events: seq<Event>, notice: Option<Notice>)

  /** `handleAddEvent`: without a session nothing happens; otherwise the new
      row is appended on success, and an error leaves the list alone. */
  function AddEvent(events: seq<Event>, session: Option<string>, result: InsertResult): (r: PageUpdate)
    ensures session.None? || result.InsertFailed? ==> r.events == events
    ensures session.Some? && result.InsertedRow? ==>
      |r.events| == |events| + 1 && r.events[..|events|] == events && r.events[|events|] == FromRow(result.row)
    ensures session.None? <==> r.notice.None?
  {
    if session.None? then PageUpdate(events, None)
    else match result
      case InsertFailed(_) => PageUpdate(events, Some(Notice("Error", "Failed to create event", true)))
      case InsertedRow(row) => PageUpdate(events + [FromRow(row)], Some(Notice("Success", "Event created successfully", false)))
  }

  /** The insert the page sends for an event when a user is signed in. */
  function InsertRequest(e: Event, session: Option<string>): (r: Option<(RowFields, string)>)
    ensures r.Some? <==> session.Some?
    ensures r.Some? ==> r.value.1 == session.value
    ensures r.Some? ==> r.value.0 == FieldsOf(e) && r.value.0.notificationEnabled == e.notificationEnabled
  {
    match session
    case None => None
    case Some(userId) => Some((FieldsOf(e), userId))
  }

  function OtherIdTest(id: string): Event -> bool {
    (e: Event) => e.id != id
  }

  /** `events.filter((e) => e.id !== eventId)`. */
  function RemoveById(events: seq<Event>, id: string): (r: seq<Event>)
    ensures forall i :: 0 <= i < |r| ==> r[i].id != id && r[i] in events
    ensures forall i :: 0 <= i < |events| && events[i].id != id ==> events[i] in r
  {
    Filter(OtherIdTest(id), events)
  }

  /** `handleDeleteEvent`: on success every event with the id goes; on error nothing changes. */
  function DeleteEvent(events: seq<Event>, id: string, error: Option<string>): (r: PageUpdate)
    ensures error.Some? ==> r.events == events
    ensures error.None? ==> r.events == RemoveById(events, id)
  {
    match error
    case Some(_) => PageUpdate(events, Some(Notice("Error", "Failed to delete event", true)))
    case None => PageUpdate(RemoveById(events, id), Some(Notice("Success", "Event deleted successfully", false)))
  }

  /** `events.map((e) => e.id === updated.id ? updated : e)`. */
  function ReplaceById(events: seq<Event>, updated: Event): (r: seq<Event>)
    ensures |r| == |events|
    ensures forall i :: 0 <= i < |events| ==> r[i] == if events[i].id == updated.id then updated else events[i]
  {
    seq(|events|, i requires 0 <= i < |events| => if events[i].id == updated.id then updated else events[i])
  }

  /** `handleUpdateEvent`: on success matching events are replaced; on error nothing changes. */
  function UpdateEvent(events: seq<Event>, updated: Event, error: Option<string>): (r: PageUpdate)
    ensures error.Some? ==> r.events == events
    ensures error.None? ==> r.events == ReplaceById(events, updated)
  {
    match error
    case Some(_) => PageUpdate(events, Some(Notice("Error", "Failed to update event", true)))
    case None => PageUpdate(ReplaceById(events, updated), Some(Notice("Success", "Event updated successfully", false)))
  }

  /** `fetchEvents`: the loaded rows become the list; an error or a missing
      session keeps the current list. */
  function LoadEvents(current: seq<Event>, session: bool, rows: Option<seq<EventRow>>): (r: seq<Event>)
    ensures !session || rows.None? ==> r == current
    ensures session && rows.Some? ==>
      |r| == |rows.value| && forall i :: 0 <= i < |r| ==> r[i] == FromRow(rows.value[i])
  {
    if !session || rows.None? then current
    else seq(|rows.value|, i requires 0 <= i < |rows.value| => FromRow(rows.value[i]))
  }

  function OnDayTest(day: int): Event -> bool {
    e => OnDay(e, day)
  }

  /** The events handed to the day modal: those on the selected day, none
      when no day is selected. */
  function ModalEvents(events: seq<Event>, selected: Option<int>): (r: seq<Event>)
    ensures selected.None? ==> r == []
    ensures selected.Some? ==> forall i :: 0 <= i < |r| ==> OnDay(r[i], selected.value) && r[i] in events
    ensures selected.Some? ==> forall i :: 0 <= i < |events| && OnDay(events[i], selected.value) ==> events[i] in r
  {
    match selected
    case None => []
    case Some(day) => Filter(OnDayTest(day), events)
  }

  /** The modal lists exactly what the day cell holds before any search. */
  lemma ModalMatchesCell(events: seq<Event>, day: int)
    ensures ModalEvents(events, Some(day)) == EventsForDate(events, day, "")
  {
    FilterCongruent(OnDayTest(day), ShownOnTest(day, ""), events);
  }

  /** Deleting an id no event has leaves the list as it was. */
  lemma RemoveAbsentId(events: seq<Event>, id: string)
    requires id !in Ids(events)
    ensures RemoveById(events, id) == events
  {
    forall i | 0 <= i < |events|
      ensures OtherIdTest(id)(events[i])
    {
      assert Ids(events)[i] == events[i].id;
    }
    FilterKeepsAll(OtherIdTest(id), events);
  }

  /** Deleting works element by element: the survivors of `a + b` are the
      survivors of `a` followed by those of `b`. */
  lemma RemoveByIdConcat(a: seq<Event>, b: seq<Event>, id: string)
    ensures RemoveById(a + b, id) == RemoveById(a, id) + RemoveById(b, id)
  {
    FilterConcat(OtherIdTest(id), a, b);
  }

  /** Adding an event whose stored id is new, then deleting that id, gives
      back the original list; the added event is the submitted one under the
      store's id. */
  lemma AddThenDelete(events: seq<Event>, e: Event, id: string, userId: string)
    requires id !in Ids(events)
    ensures var sent := InsertRequest(e, Some(userId)).value;
      var added := AddEvent(events, Some(userId), InsertedRow(Inserted(sent.0, id, sent.1))).events;
      && added[|events|] == e.(id := id)
      && DeleteEvent(added, id, None).events == events
  {
    var added := events + [e.(id := id)];
    assert InsertRequest(e, Some(userId)).value == (FieldsOf(e), userId);
    InsertRoundTrip(e, id, userId);
    assert AddEvent(events, Some(userId), InsertedRow(Inserted(FieldsOf(e), id, userId))).events == added;
    RemoveByIdConcat(events, [e.(id := id)], id);
    RemoveAbsentId(events, id);
    assert RemoveById([e.(id := id)], id) == [];
    assert added == events + [e.(id := id)];
  }

  /** An update keeps every id in place, is idempotent, and changes nothing
      when no event has the updated id. */
  lemma ReplaceByIdProperties(events: seq<Event>, updated: Event)
    ensures Ids(ReplaceById(events, updated)) == Ids(events)
    ensures ReplaceById(ReplaceById(events, updated), updated) == ReplaceById(events, updated)
    ensures updated.id !in Ids(events) ==> ReplaceById(events, updated) == events
  {
    if updated.id !in Ids(events) {
      forall i | 0 <= i < |events|
        ensures events[i].id != updated.id
      {
        assert Ids(events)[i] == events[i].id;
      }
    }
  }
}
