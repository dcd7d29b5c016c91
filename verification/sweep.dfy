/** The server-side sweep: one invocation of the `check-notifications`
    function. It renders the current time as `HH:MM`, selects the enabled
    events of the current date whose time lies in a string window, logs one
    record per selected event, and answers with a count or an error. */
module Sweep {
  import opened Wrappers
  import opened Seqs
  import opened Text
  import opened Clock
  import opened Events

  /** The instant a sweep runs: the UTC date string (`YYYY-MM-DD`) and the
      local hour and minute. */
  datatype SweepClock = SweepClock(date: string, hours: nat, minutes: nat)

  /** A thrown value: an `Error` object carrying a message, or anything else. */
  datatype Thrown = ErrorInstance(message: string) | OtherValue

  /** The store's answer to the query: the rows (possibly `null`) and an error, if any. */
  datatype Reply = Reply(data: Option<seq<EventRow>>, error: Option<Thrown>)

  datatype Body =
    | NoBody
    | Checked(checked: nat, message: string)
    | ErrorBody(error: string)

  datatype Response = Response(status: int, headers: seq<(string, string)>, body: Body)

  /** The console records an invocation writes. */
  datatype LogRecord =
    | CheckingFor(date: string, time: string)
    | FoundEvents(count: nat)
    | EventNotice(title: string, userId: string, time: string)
    | FetchError
    | HandlerError

  datatype Outcome = Outcome(response: Response, logs: seq<LogRecord>)

  const CorsHeaders: seq<(string, string)> := [
    ("Access-Control-Allow-Origin", "*"),
    ("Access-Control-Allow-Headers", "authorization, x-client-info, apikey, content-type")]

  const JsonHeaders: seq<(string, string)> := CorsHeaders + [("Content-Type", "application/json")]

  const UnknownError := "Unknown error occurred"

  /** The lower end of the window: the current time, zero-padded. */
  function CurrentTime(c: SweepClock): string {
    ClockString(c.hours, c.minutes)
  }

  /** The upper end of the window: the minute plus one, with no carry into the hour. */
  function UpperBound(c: SweepClock): string {
    ClockString(c.hours, c.minutes + 1)
  }

  /** The query's filter on one row: notifications on, the current date, and a
      time between the two bounds in string order, both ends included. */
  function Selected(row: EventRow, c: SweepClock): (r: bool)
    ensures r ==> row.notificationEnabled && row.date == c.date
    ensures c.hours < 100 && c.minutes < 99 && row.time == CurrentTime(c) ==> (r <==> row.notificationEnabled && row.date == c.date)
  {
    LexLeReflexive(CurrentTime(c));
    assert c.hours < 100 && c.minutes < 99 ==> LexLe(CurrentTime(c), UpperBound(c)) by {
      if c.hours < 100 && c.minutes < 99 {
        ClockStringOrder(c.hours, c.minutes, c.hours, c.minutes + 1);
      }
    }
    && row.notificationEnabled
    && row.date == c.date
    && LexLe(CurrentTime(c), row.time)
    && LexLe(row.time, UpperBound(c))
  }

  /** The rows the store returns for the query, in table order. */
  function SelectDue(table: seq<EventRow>, c: SweepClock): seq<EventRow> {
    Filter(row => Selected(row, c), table)
  }

  /** The store answering the query from `table`. */
  function StoreAnswer(table: seq<EventRow>, c: SweepClock): Reply {
    Reply(Some(SelectDue(table, c)), None)
  }

  function ErrorMessage(t: Thrown): string {
    match t
    case ErrorInstance(m) => m
    case OtherValue => UnknownError
  }

  function CheckedMessage(n: nat): string {
    "Checked " + DecimalString(n) + " events for notifications"
  }

  function Notices(rows: seq<EventRow>): (r: seq<LogRecord>)
    ensures |r| == |rows|
    ensures forall i :: 0 <= i < |rows| ==> r[i] == EventNotice(rows[i].title, rows[i].userId, rows[i].time)
  {
    seq(|rows|, i requires 0 <= i < |rows| => EventNotice(rows[i].title, rows[i].userId, rows[i].time))
  }

  predicate IsNotice(l: LogRecord) {
    l.EventNotice?
  }

  /** One invocation. A preflight request is answered at once. Otherwise a
      query error is rethrown and caught, giving status 500; a successful
      query gives status 200 with the number of rows (0 for `null`). */
  function Handle(httpMethod: string, c: SweepClock, reply: Reply): (r: Outcome)
    ensures httpMethod == "OPTIONS" ==> r.response.body == NoBody && r.logs == []
    ensures httpMethod != "OPTIONS" ==> r.response.headers == JsonHeaders
    ensures httpMethod != "OPTIONS" && reply.error.Some? ==>
      r.response.status == 500 && r.response.body == ErrorBody(ErrorMessage(reply.error.value))
    ensures httpMethod != "OPTIONS" && reply.error.None? ==>
      (var n := if reply.data.Some? then |reply.data.value| else 0;
       r.response.status == 200 && r.response.body == Checked(n, CheckedMessage(n)))
  {
    if httpMethod == "OPTIONS" then Outcome(Response(200, CorsHeaders, NoBody), [])
    else
      var start := [CheckingFor(c.date, CurrentTime(c))];
      match reply.error
      case Some(t) => Outcome(Response(500, JsonHeaders, ErrorBody(ErrorMessage(t))), start + [FetchError, HandlerError])
      case None =>
        var rows := reply.data.GetOr([]);
        Outcome(Response(200, JsonHeaders, Checked(|rows|, CheckedMessage(|rows|))),
                start + [FoundEvents(|rows|)] + Notices(rows))
  }

  /** A preflight request does not depend on the store at all. */
  lemma PreflightQueriesNothing(c: SweepClock, r1: Reply, r2: Reply)
    ensures Handle("OPTIONS", c, r1) == Handle("OPTIONS", c, r2)
    ensures Handle("OPTIONS", c, r1).response == Response(200, CorsHeaders, NoBody)
  {
  }

  /** A successful invocation logs the two opening records and then the notices. */
  lemma SuccessLogs(httpMethod: string, c: SweepClock, reply: Reply)
    requires httpMethod != "OPTIONS" && reply.error.None?
    ensures var o := Handle(httpMethod, c, reply);
      var rows := reply.data.GetOr([]);
      && o.logs == [CheckingFor(c.date, CurrentTime(c)), FoundEvents(|rows|)] + Notices(rows)
      && o.response.body.checked == |rows|
  {
  }

  /** The opening records are not notices. */
  lemma {:induction false} NoticesAfterOpening(c: SweepClock, rows: seq<EventRow>)
    ensures Filter(IsNotice, [CheckingFor(c.date, CurrentTime(c)), FoundEvents(|rows|)] + Notices(rows)) == Notices(rows)
  {
    var start := [CheckingFor(c.date, CurrentTime(c)), FoundEvents(|rows|)];
    FilterConcat(IsNotice, start, Notices(rows));
    FilterKeepsAll(IsNotice, Notices(rows));
    assert Filter(IsNotice, start) == [] by {
      assert start[1..][1..] == [];
    }
  }

  /** Exactly one notice is logged per returned row, in row order, and the
      count in the response is the number of notices. */
  lemma OneNoticePerRow(httpMethod: string, c: SweepClock, reply: Reply)
    requires httpMethod != "OPTIONS" && reply.error.None?
    ensures var o := Handle(httpMethod, c, reply);
      var rows := reply.data.GetOr([]);
      && Filter(IsNotice, o.logs) == Notices(rows)
      && o.response.body.checked == |Filter(IsNotice, o.logs)|
  {
    SuccessLogs(httpMethod, c, reply);
    NoticesAfterOpening(c, reply.data.GetOr([]));
  }

  /** The number in the success message reads back as the count. */
  lemma CheckedMessageCount(n: nat)
    ensures var m := CheckedMessage(n);
      var digits := m[8..|m| - 25];
      && m[..8] == "Checked " && m[|m| - 25..] == " events for notifications"
      && AllDigits(digits) && DigitsValue(digits) == n
  {
    var m := CheckedMessage(n);
    assert m[8..|m| - 25] == DecimalString(n);
    DecimalRoundTrip(n);
  }

  /** With the store answering from a table, the count is the number of rows
      that pass the filter, and a row is reported exactly when it passes. */
  lemma StoreSelection(httpMethod: string, c: SweepClock, table: seq<EventRow>)
    requires httpMethod != "OPTIONS"
    ensures var o := Handle(httpMethod, c, StoreAnswer(table, c));
      && o.response.status == 200
      && o.response.body.checked == |SelectDue(table, c)|
      && (forall i :: 0 <= i < |table| && Selected(table[i], c) ==> table[i] in SelectDue(table, c))
      && (forall row :: row in SelectDue(table, c) ==> row in table && Selected(row, c))
  {
    var s := SelectDue(table, c);
    forall row | row in s
      ensures row in table && Selected(row, c)
    {
      var i :| 0 <= i < |s| && s[i] == row;
    }
  }

  /** For a real clock reading and a zero-padded `HH:MM` row time, the string
      window holds the times of the current hour whose minute is the current
      one or the next. */
  lemma WindowInClockTerms(row: EventRow, c: SweepClock, hours: nat, minutes: nat)
    requires c.hours < 24 && c.minutes < 60 && hours < 24 && minutes < 60
    requires row.time == ClockString(hours, minutes)
    ensures Selected(row, c) <==>
      && row.notificationEnabled && row.date == c.date
      && hours == c.hours && c.minutes <= minutes <= c.minutes + 1
  {
    ClockStringOrder(c.hours, c.minutes, hours, minutes);
    ClockStringOrder(hours, minutes, c.hours, c.minutes + 1);
  }

  /** Before minute 59 the window is the current minute of the day and the next. */
  lemma WindowBeforeMinute59(row: EventRow, c: SweepClock, hours: nat, minutes: nat)
    requires c.hours < 24 && c.minutes < 59 && hours < 24 && minutes < 60
    requires row.time == ClockString(hours, minutes)
    ensures Selected(row, c) <==>
      && row.notificationEnabled && row.date == c.date
      && MinuteOfDay(c.hours, c.minutes) <= MinuteOfDay(hours, minutes) <= MinuteOfDay(c.hours, c.minutes) + 1
  {
    WindowInClockTerms(row, c, hours, minutes);
  }

  /** At minute 59 the upper bound is `HH:60`: the window holds `HH:59` only,
      and an event at the next hour's minute 0 is not selected. */
  lemma WindowAtMinute59(row: EventRow, c: SweepClock)
    requires c.hours < 23 && c.minutes == 59
    requires row.notificationEnabled && row.date == c.date
    ensures UpperBound(c) == ClockString(c.hours, 60)
    ensures row.time == ClockString(c.hours + 1, 0) ==> !Selected(row, c)
    ensures row.time == ClockString(c.hours, 59) ==> Selected(row, c)
  {
    if row.time == ClockString(c.hours + 1, 0) {
      WindowInClockTerms(row, c, c.hours + 1, 0);
    }
    if row.time == ClockString(c.hours, 59) {
      WindowInClockTerms(row, c, c.hours, 59);
    }
  }

}
