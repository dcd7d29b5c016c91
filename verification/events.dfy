/** The event record the client works with, the row the store keeps, and the
    field mapping between the two (camelCase `notificationEnabled` on the
    client, snake_case `notification_enabled` in the store). */
module Events {
  import opened Wrappers
  import opened Dates

  /** An event as the client holds it. Optional fields are `None` when absent. */
  datatype Event = Event(
    id: string,
    title: string,
    date: string,
    time: string,
    notes: Option<string>,
    notificationEnabled: bool,
    category: Option<string>,
    color: Option<string>)

  /** A row of the store's `events` table, which also records the owner. */
  datatype EventRow = EventRow(
    id: string,
    userId: string,
    title: string,
    date: string,
    time: string,
    notes: Option<string>,
    notificationEnabled: bool,
    category: Option<string>,
    color: Option<string>)

  /** The column values the client sends on insert and on update; the store
      assigns the id. */
  datatype RowFields = RowFields(
    title: string,
    date: string,
    time: string,
    notes: Option<string>,
    notificationEnabled: bool,
    category: Option<string>,
    color: Option<string>)

  /** The insert/update payload built from an event. */
  function FieldsOf(e: Event): RowFields {
    RowFields(e.title, e.date, e.time, e.notes, e.notificationEnabled, e.category, e.color)
  }

  /** The event built from a row the store returns. */
  function FromRow(r: EventRow): Event {
    Event(r.id, r.title, r.date, r.time, r.notes, r.notificationEnabled, r.category, r.color)
  }

  /** The row the store holds after inserting `f` for `userId` under a fresh `id`. */
  function Inserted(f: RowFields, id: string, userId: string): EventRow {
    EventRow(id, userId, f.title, f.date, f.time, f.notes, f.notificationEnabled, f.category, f.color)
  }

  /** The row the store holds after an update with `f`: id and owner are kept. */
  function Updated(r: EventRow, f: RowFields): EventRow {
    EventRow(r.id, r.userId, f.title, f.date, f.time, f.notes, f.notificationEnabled, f.category, f.color)
  }

  /** Inserting an event and mapping the returned row back gives the same
      event under the id the store assigned. */
  lemma InsertRoundTrip(e: Event, id: string, userId: string)
    ensures FromRow(Inserted(FieldsOf(e), id, userId)) == e.(id := id)
    ensures Inserted(FieldsOf(e), id, userId).userId == userId
  {
  }

  /** Updating a row with an event of the same id and mapping it back gives that event. */
  lemma UpdateRoundTrip(r: EventRow, e: Event)
    requires r.id == e.id
    ensures FromRow(Updated(r, FieldsOf(e))) == e
    ensures Updated(r, FieldsOf(e)).userId == r.userId
  {
  }

  /** The colour an event is shown in when it has none of its own. */
  const DefaultColor := "#FADADD"

  /** `color || "#FADADD"`: an absent or empty colour falls back to the default. */
  function ColorOrDefault(color: Option<string>): (r: string)
    ensures r != ""
    ensures color.Some? && color.value != "" ==> r == color.value
  {
    if color.Some? && color.value != "" then color.value else DefaultColor
  }

  /** The event falls on calendar day `day` (`new Date(e.date).toDateString()`
      equal to that day's); an unreadable date falls on no day. */
  predicate OnDay(e: Event, day: int) {
    ParseDate(e.date) == Some(day)
  }

  /** The ids of a list of events, in order. */
  function Ids(events: seq<Event>): (r: seq<string>)
    ensures |r| == |events|
    ensures forall i :: 0 <= i < |events| ==> r[i] == events[i].id
  {
    seq(|events|, i requires 0 <= i < |events| => events[i].id)
  }
}
