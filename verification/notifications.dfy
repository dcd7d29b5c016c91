/** One tick of the client-side reminder poller: which events are due at an
    instant, and the system notifications and toasts the tick emits. The
    timer that repeats the tick is not modelled. */
module Notifications {
  import opened Wrappers
  import opened Seqs
  import opened Clock
  import opened Dates
  import opened Events
  import opened Text

  /** `Notification.permission`. */
  datatype Permission = Default | Granted | Denied

  /** The browser: whether it offers the Notification API, and its permission state. */
  datatype Host = Host(hasNotificationApi: bool, permission: Permission)

  /** The instant a tick runs: the UTC calendar day (the date part of
      `toISOString()`) and the local hour and minute (`getHours`, `getMinutes`). */
  datatype Instant = Instant(utcDay: int, hours: int, minutes: int)

  /** What a tick shows the user. */
  datatype Emission =
    | SystemNotification(title: string, body: string, icon: string, tag: string)
    | Toast(title: string, description: string)

  /** The outcome of a tick: what it emitted, and whether it stopped on an
      exception (`toISOString` of an invalid date throws a RangeError). */
  datatype Tick = Tick(emitted: seq<Emission>, threw: bool)

  const SystemTitle := "DayLY Reminder"
  const ToastTitle := "Event Reminder"
  const Icon := "/favicon.ico"

  /** Each run of the poller's effect asks for permission only when the API
      exists and the user has not yet answered. */
  predicate ShouldRequestPermission(host: Host) {
    host.hasNotificationApi && host.permission == Default
  }

  /** The browser after one run of the effect: when it asks, the permission
      becomes the user's `answer` (which may leave it at `default` if the
      prompt is dismissed); otherwise nothing changes. */
  function AfterRun(host: Host, answer: Permission): (r: Host)
    ensures r.hasNotificationApi == host.hasNotificationApi
    ensures host.permission != Default ==> r == host
    ensures !ShouldRequestPermission(host) ==> r == host
  {
    if ShouldRequestPermission(host) then host.(permission := answer) else host
  }

  /** The browser as each of a sequence of effect runs sees it (the effect
      re-runs whenever the event list changes); `answers[i]` is what the user
      would answer were run `i` to ask. */
  function RunHosts(host: Host, answers: seq<Permission>): (r: seq<Host>)
    ensures |r| == |answers|
    ensures |r| > 0 ==> r[0] == host
    decreases |answers|
  {
    if |answers| == 0 then [] else [host] + RunHosts(AfterRun(host, answers[0]), answers[1..])
  }

  /** Once the user has answered, every later run sees the same browser. */
  lemma {:induction false} SettledPermissionStays(host: Host, answers: seq<Permission>)
    requires host.permission != Default
    ensures forall k :: 0 <= k < |answers| ==> RunHosts(host, answers)[k] == host
    decreases |answers|
  {
    if |answers| > 0 {
      SettledPermissionStays(AfterRun(host, answers[0]), answers[1..]);
      var r := RunHosts(host, answers);
      assert r == [host] + RunHosts(host, answers[1..]);
      forall k | 0 < k < |answers|
        ensures r[k] == host
      {
        assert r[k] == RunHosts(host, answers[1..])[k - 1];
      }
    }
  }

  /** The prompt is never shown again once granted or denied: if the
      permission at run `i` is answered, run `j` after it asks nothing and
      sees the same answer. */
  lemma {:induction false} NoRepeatedPrompt(host: Host, answers: seq<Permission>, i: nat, j: nat)
    requires i <= j < |answers|
    requires RunHosts(host, answers)[i].permission != Default
    ensures RunHosts(host, answers)[j].permission == RunHosts(host, answers)[i].permission
    ensures !ShouldRequestPermission(RunHosts(host, answers)[j])
    decreases i
  {
    var r := RunHosts(host, answers);
    var next := AfterRun(host, answers[0]);
    assert r == [host] + RunHosts(next, answers[1..]);
    if i == 0 {
      SettledPermissionStays(host, answers);
    } else {
      assert r[i] == RunHosts(next, answers[1..])[i - 1];
      assert r[j] == RunHosts(next, answers[1..])[j - 1];
      NoRepeatedPrompt(next, answers[1..], i - 1, j - 1);
    }
  }

  predicate CanNotify(host: Host) {
    host.hasNotificationApi && host.permission == Granted
  }

  function StartingNow(title: string): string {
    title + " is starting now!"
  }

  function Abs(x: int): nat {
    if x < 0 then -x else x
  }

  /** The due test of one event: notifications on, its time reads as a number
      of minutes, its UTC day is the current UTC day, and the two minute counts
      are at most one apart. A time that reads as `NaN` makes every comparison
      false. */
  function IsDue(e: Event, now: Instant): (r: bool)
    ensures r ==> e.notificationEnabled && ParseDate(e.date) == Some(now.utcDay)
    ensures r ==>
      && ParseTime(e.time).Some?
      && MinuteOfDay(now.hours, now.minutes) - 1 <= ParseTime(e.time).value <= MinuteOfDay(now.hours, now.minutes) + 1
  {
    && e.notificationEnabled
    && ParseDate(e.date) == Some(now.utcDay)
    && match ParseTime(e.time)
       case None => false
       case Some(t) => Abs(t - MinuteOfDay(now.hours, now.minutes)) <= 1
  }

  function ToastFor(e: Event): Emission {
    Toast(ToastTitle, StartingNow(e.title))
  }

  function SystemNotificationFor(e: Event): Emission {
    SystemNotification(SystemTitle, StartingNow(e.title), Icon, e.id)
  }

  /** What a due event emits: the system notification (only with permission)
      and then the toast. */
  function RemindersFor(e: Event, host: Host): seq<Emission> {
    (if CanNotify(host) then [SystemNotificationFor(e)] else []) + [ToastFor(e)]
  }

  predicate IsEnabled(e: Event) {
    e.notificationEnabled
  }

  /** Every enabled event has a date `new Date(...)` can read. */
  predicate ReadableDates(events: seq<Event>) {
    forall i :: 0 <= i < |events| && events[i].notificationEnabled ==> ParseDate(events[i].date).Some?
  }

  /** One run of `checkNotifications`: the events in list order, skipping
      disabled ones; an enabled event with an unreadable date throws and ends
      the tick, keeping what was already emitted. */
  function CheckNotifications(events: seq<Event>, now: Instant, host: Host): (r: Tick)
    ensures r.threw <==> !ReadableDates(events)
    ensures |r.emitted| <= 2 * |events|
    decreases |events|
  {
    if |events| == 0 then Tick([], false)
    else
      var e := events[0];
      var rest := CheckNotifications(events[1..], now, host);
      if !e.notificationEnabled then rest
      else if ParseDate(e.date).None? then Tick([], true)
      else Tick((if IsDue(e, now) then RemindersFor(e, host) else []) + rest.emitted, rest.threw)
  }

  /** The events due at `now`, in list order. */
  function DueEvents(events: seq<Event>, now: Instant): seq<Event> {
    Filter(DueTest(now), events)
  }

  function DueTest(now: Instant): Event -> bool {
    e => IsDue(e, now)
  }

  function ToastsFor(events: seq<Event>): (r: seq<Emission>)
    ensures |r| == |events|
    ensures forall i :: 0 <= i < |events| ==> r[i] == ToastFor(events[i])
  {
    if |events| == 0 then [] else [ToastFor(events[0])] + ToastsFor(events[1..])
  }

  function SystemNotificationsFor(events: seq<Event>): (r: seq<Emission>)
    ensures |r| == |events|
    ensures forall i :: 0 <= i < |events| ==> r[i] == SystemNotificationFor(events[i])
  {
    if |events| == 0 then [] else [SystemNotificationFor(events[0])] + SystemNotificationsFor(events[1..])
  }

  predicate IsToast(m: Emission) {
    m.Toast?
  }

  predicate IsSystemNotification(m: Emission) {
    m.SystemNotification?
  }

  lemma DueEventsCons(events: seq<Event>, now: Instant)
    requires |events| > 0
    ensures DueEvents(events, now)
      == (if IsDue(events[0], now) then [events[0]] else []) + DueEvents(events[1..], now)
  {
    var p := DueTest(now);
    assert p(events[0]) == IsDue(events[0], now);
    assert Filter(p, events) == (if p(events[0]) then [events[0]] else []) + Filter(p, events[1..]);
  }

  /** Dropping the head of a list keeps its dates readable. */
  lemma ReadableTail(events: seq<Event>)
    requires |events| > 0 && ReadableDates(events)
    ensures ReadableDates(events[1..])
  {
    forall i | 0 <= i < |events[1..]| && events[1..][i].notificationEnabled
      ensures ParseDate(events[1..][i].date).Some?
    {
      assert events[1..][i] == events[i + 1];
    }
  }

  /** A tick over a readable list is the head's reminders (if due) followed by the rest's. */
  lemma TickCons(events: seq<Event>, now: Instant, host: Host)
    requires |events| > 0 && ReadableDates(events)
    ensures CheckNotifications(events, now, host).emitted
      == (if IsDue(events[0], now) then RemindersFor(events[0], host) else [])
         + CheckNotifications(events[1..], now, host).emitted
  {
    if !events[0].notificationEnabled {
      assert !IsDue(events[0], now);
    }
  }

  lemma ToastsConcat(a: seq<Event>, b: seq<Event>)
    ensures ToastsFor(a + b) == ToastsFor(a) + ToastsFor(b)
  {
  }

  lemma SystemNotificationsConcat(a: seq<Event>, b: seq<Event>)
    ensures SystemNotificationsFor(a + b) == SystemNotificationsFor(a) + SystemNotificationsFor(b)
  {
  }

  /** What one event contributes to a tick, restricted to system notifications. */
  lemma OwnSystemNotifications(e: Event, now: Instant, host: Host)
    ensures Filter(IsSystemNotification, if IsDue(e, now) then RemindersFor(e, host) else [])
      == if IsDue(e, now) && CanNotify(host) then [SystemNotificationFor(e)] else []
  {
    if IsDue(e, now) {
      var sys: seq<Emission> := if CanNotify(host) then [SystemNotificationFor(e)] else [];
      assert RemindersFor(e, host) == sys + [ToastFor(e)];
      FilterConcat(IsSystemNotification, sys, [ToastFor(e)]);
      assert Filter(IsSystemNotification, [ToastFor(e)]) == [] by {
        assert [ToastFor(e)][1..] == [];
      }
      if CanNotify(host) {
        assert Filter(IsSystemNotification, sys) == sys by {
          assert sys[1..] == [];
        }
      }
    }
  }

  /** What one event contributes to a tick, restricted to toasts. */
  lemma OwnToasts(e: Event, now: Instant, host: Host)
    ensures Filter(IsToast, if IsDue(e, now) then RemindersFor(e, host) else [])
      == if IsDue(e, now) then [ToastFor(e)] else []
  {
    if IsDue(e, now) {
      var sys: seq<Emission> := if CanNotify(host) then [SystemNotificationFor(e)] else [];
      assert RemindersFor(e, host) == sys + [ToastFor(e)];
      FilterConcat(IsToast, sys, [ToastFor(e)]);
      assert Filter(IsToast, [ToastFor(e)]) == [ToastFor(e)] by {
        assert [ToastFor(e)][1..] == [];
      }
      if CanNotify(host) {
        assert Filter(IsToast, sys) == [] by {
          assert sys[1..] == [];
        }
      }
    }
  }

  /** A tick that does not throw shows exactly one toast per due event, in
      list order, and nothing for an event that is not due. */
  lemma {:induction false} OneToastPerDueEvent(events: seq<Event>, now: Instant, host: Host)
    requires ReadableDates(events)
    ensures Filter(IsToast, CheckNotifications(events, now, host).emitted) == ToastsFor(DueEvents(events, now))
    decreases |events|
  {
    if |events| > 0 {
      var e := events[0];
      ReadableTail(events);
      OneToastPerDueEvent(events[1..], now, host);
      DueEventsCons(events, now);
      TickCons(events, now, host);
      var mine := if IsDue(e, now) then RemindersFor(e, host) else [];
      FilterConcat(IsToast, mine, CheckNotifications(events[1..], now, host).emitted);
      OwnToasts(e, now, host);
      var due := if IsDue(e, now) then [e] else [];
      ToastsConcat(due, DueEvents(events[1..], now));
    }
  }

  /** A tick that does not throw shows a system notification, tagged with the
      event id, for each due event when permission is granted, and none otherwise. */
  lemma {:induction false} SystemNotificationsOnlyWhenGranted(events: seq<Event>, now: Instant, host: Host)
    requires ReadableDates(events)
    ensures Filter(IsSystemNotification, CheckNotifications(events, now, host).emitted)
      == if CanNotify(host) then SystemNotificationsFor(DueEvents(events, now)) else []
    decreases |events|
  {
    if |events| > 0 {
      var e := events[0];
      ReadableTail(events);
      SystemNotificationsOnlyWhenGranted(events[1..], now, host);
      var restTick := CheckNotifications(events[1..], now, host);
      var mine := if IsDue(e, now) then RemindersFor(e, host) else [];
      TickCons(events, now, host);
      FilterConcat(IsSystemNotification, mine, restTick.emitted);
      OwnSystemNotifications(e, now, host);
      if CanNotify(host) {
        DueEventsCons(events, now);
        var due := if IsDue(e, now) then [e] else [];
        SystemNotificationsConcat(due, DueEvents(events[1..], now));
      }
    }
  }

  /** Disabled events make no difference to a tick, whatever their date or time. */
  lemma {:induction false} DisabledEventsIgnored(events: seq<Event>, now: Instant, host: Host)
    ensures CheckNotifications(events, now, host) == CheckNotifications(Filter(IsEnabled, events), now, host)
    decreases |events|
  {
    if |events| > 0 {
      DisabledEventsIgnored(events[1..], now, host);
      if IsEnabled(events[0]) {
        var f := Filter(IsEnabled, events);
        assert f[0] == events[0] && f[1..] == Filter(IsEnabled, events[1..]);
      }
    }
  }

  /** The first enabled event with an unreadable date ends the tick: what the
      events before it emitted is kept and nothing after it runs. */
  lemma {:induction false} TickStopsAtUnreadableDate(events: seq<Event>, k: nat, now: Instant, host: Host)
    requires k < |events| && events[k].notificationEnabled && ParseDate(events[k].date).None?
    requires ReadableDates(events[..k])
    ensures CheckNotifications(events, now, host) == Tick(CheckNotifications(events[..k], now, host).emitted, true)
    decreases k
  {
    if k > 0 {
      assert events[1..][..k - 1] == events[..k][1..];
      assert ReadableDates(events[..k][1..]) by {
        var p := events[..k];
        forall i | 0 <= i < |p[1..]| && p[1..][i].notificationEnabled
          ensures ParseDate(p[1..][i].date).Some?
        {
          assert p[1..][i] == p[i + 1];
        }
      }
      TickStopsAtUnreadableDate(events[1..], k - 1, now, host);
      assert events[..k][0] == events[0];
    }
  }

  /** A time that does not read as a number is never due. */
  lemma UnreadableTimeNeverDue(e: Event, now: Instant)
    requires ParseTime(e.time).None?
    ensures !IsDue(e, now)
  {
  }

  /** For a zero-padded `HH:MM` time, an enabled event is due exactly when it is
      on the current day and its minute of the day is within one of now's. */
  lemma DueAtClockTime(e: Event, now: Instant, hours: nat, minutes: nat)
    requires hours < 24 && minutes < 60 && e.time == ClockString(hours, minutes)
    ensures IsDue(e, now) <==>
      && e.notificationEnabled
      && ParseDate(e.date) == Some(now.utcDay)
      && -1 <= MinuteOfDay(hours, minutes) - MinuteOfDay(now.hours, now.minutes) <= 1
  {
    ParseClockString(hours, minutes);
  }

  /** The window does not wrap past midnight: an event at 00:00 is not due at
      23:59, neither on its own day nor on the day before. */
  lemma NoWrapAtMidnight(e: Event, day: int)
    requires e.time == ClockString(0, 0)
    ensures !IsDue(e, Instant(day, 23, 59))
  {
    ParseClockString(0, 0);
  }

  /** The reading is lenient: minute 60 counts as the next hour's minute 0, so
      an event at `23:60` fires at 23:59. */
  lemma MinuteSixtyFiresAtEndOfDay(e: Event, day: int)
    requires e.notificationEnabled && ParseDate(e.date) == Some(day) && e.time == ClockString(23, 60)
    ensures IsDue(e, Instant(day, 23, 59))
  {
    ParseClockString(23, 60);
  }

  /** An event at `25:99` reads as minute 1599 and is never due at a real clock reading. */
  lemma OutOfRangeTimeNeverDue(e: Event, now: Instant)
    requires e.time == ClockString(25, 99) && 0 <= now.hours < 24 && 0 <= now.minutes < 60
    ensures !IsDue(e, now)
  {
    ParseClockString(25, 99);
  }

  /** The worked scenario: an enabled event on day `day` at 09:00 fires once at
      09:00 that day, not at 09:03, and not at 09:00 the next day. */
  lemma NineOClockScenario(e: Event, day: int, host: Host)
    requires e.notificationEnabled && ParseDate(e.date) == Some(day) && e.time == ClockString(9, 0)
    ensures CheckNotifications([e], Instant(day, 9, 0), host) == Tick(RemindersFor(e, host), false)
    ensures CheckNotifications([e], Instant(day, 9, 3), host) == Tick([], false)
    ensures CheckNotifications([e], Instant(day + 1, 9, 0), host) == Tick([], false)
  {
    ParseClockString(9, 0);
    assert [e][1..] == [];
  }

  /** The scenario's date string `2025-06-01` reads as 1 June 2025. */
  lemma JuneFirstDate()
    ensures ParseDate("2025-06-01") == Some(DayNumber(2025, 5, 1))
  {
    var s := IsoDate(2025, 5, 1);
    JuneFirstRendering();
    ParseIsoDate(2025, 5, 1, []);
    assert s + [] == s;
  }

  /** The rendering of 1 June 2025, piece by piece. */
  lemma JuneFirstRendering()
    ensures IsoDate(2025, 5, 1) == "2025-06-01"
  {
    assert DecimalString(2) == "2";
    assert DecimalString(20) == DecimalString(2) + "0";
    assert DecimalString(202) == DecimalString(20) + "2";
    assert DecimalString(2025) == DecimalString(202) + "5";
    TwoDigitsShape(6);
    TwoDigitsShape(1);
    assert TwoDigits(6) == "06" && TwoDigits(1) == "01";
  }
}
