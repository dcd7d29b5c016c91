# DayLY event planner: verified model of the reminder and calendar logic

DayLY is a personal calendar web app. Users keep dated events. Each event has a
title, a `YYYY-MM-DD` date, an `HH:MM` time, optional notes, colour and
category, and a "notify me" flag. The app gets reminders in two ways:

- a **client poller** checks the cached event list once a minute;
- a **server sweep** is a function that a scheduler invokes and that queries
  the events table directly.

Most of the repository is React UI over a hosted database. This project models
the parts that contain logic, as pure Dafny functions over immutable records:

- **Reminder tick** (`notifications.dfy`): one run of `checkNotifications`.
  It decides which events are due: enabled, on the current UTC day, and within
  one minute of now. For each due event it emits a system notification (only
  when permission is granted) and then a toast. An event whose time does not
  read as a number is never due. An enabled event with an unreadable date
  throws and ends the tick.
- **Sweep** (`sweep.dfy`): one invocation of the `check-notifications`
  function. It renders the zero-padded `HH:MM` window bounds and filters rows
  by string order. It logs one notice per selected row. It answers 200 with a
  count, or 500 with an error message. A preflight request gets an empty
  answer.
- **Clock strings** (`clock.dfy`): the `HH:MM` rendering, the lenient
  `split(":").map(Number)` reading, and the proof that padded string order is
  time order.
- **Dates** (`dates.dfy`): day numbers with day 0 = 1 January 1970 and
  JavaScript's `new Date(y, m, d)` normalisation for years from 100 on. Also
  `getDay`, the number of days in a month, and `YYYY-MM-DD` reading and
  rendering.
- **Month grid** (`calendar_grid.dfy`): the run of days from Sunday to
  Saturday that covers the month, navigation with year rollover, the per-day
  event filter with case-insensitive title search, and the rule "two titles
  plus +N more".
- **Calendar page** (`calendar_page.dfy`): the in-memory list after an add,
  delete or update, which depends on whether the store succeeded. Also the
  load from the store and the events handed to the day modal.
- **Event modal** (`event_modal.dfy`): the form as a state machine with save,
  edit, delete, cancel and close.
- `events.dfy` holds the event record and the row mapping
  (`notificationEnabled` ↔ `notification_enabled`). `seqs.dfy` holds an
  order-preserving `Filter`. `text.dfy` holds the string primitives: `String(n)`,
  `padStart`, `split`, `toLowerCase`, `includes` and code-point string order
  (it agrees with UTF-16 code-unit order below U+10000, so on every clock string).
  `wrappers.dfy` holds `Option`.

Inputs the code takes from its environment are parameters:

- the current instant: UTC day, local hour and minute;
- the browser's notification support and permission;
- the store's answers: rows, or an error;
- the signed-in user;
- `Date.now().toString()` and `selectedDate.toISOString()`.

Behaviours of the code worth knowing, each stated as a lemma:

- The sweep's window is `[HH:MM, HH:(MM+1)]` compared as strings, with no
  carry into the hour. At minute 59 the upper bound is `HH:60`, so the window
  holds only `HH:59` and not the next hour's `:00` (`Sweep.WindowAtMinute59`).
- `Number` is lenient. `"25:99"` reads as minute 1599; it is never due at a
  real clock reading (`Notifications.OutOfRangeTimeNeverDue`). `"23:60"` reads
  as minute 1440 and fires at 23:59
  (`Notifications.MinuteSixtyFiresAtEndOfDay`).
- `toISOString()` on an invalid `Date` throws, so an enabled event with an
  unreadable date ends the tick early
  (`Notifications.TickStopsAtUnreadableDate`).
- The poller compares the UTC day (`toISOString`) with the local hour and
  minute (useNotifications.ts:15-16).
- The sweep's error body is `error.message`, which may be the empty string
  (`Sweep.Handle`).

## Model

| member | source | states |
|---|---|---|
| Notifications.AfterRun | src/hooks/useNotifications.ts:6-10 | One run of the effect changes the permission only when it asks, and a settled (granted or denied) permission is left as it is. |
| Notifications.NoRepeatedPrompt | src/hooks/useNotifications.ts:6-10 | Over any sequence of effect runs, whatever the user answers: once a run sees the permission granted or denied, every later run sees the same answer and does not ask again. |
| Notifications.IsDue | src/hooks/useNotifications.ts:19-27 | Definition of the due test. A due event is enabled, on the current UTC day, and its time reads as a minute within one of now's; `Notifications.DueAtClockTime` characterises it exactly. |
| Clock.ParseTime | src/hooks/useNotifications.ts:22-23 | Definition of the `split(":").map(Number)` reading. A time without a colon reads as `NaN`; `Clock.ParseClockString` gives its value on rendered times. |
| Notifications.CheckNotifications | src/hooks/useNotifications.ts:13-44 | A tick throws exactly when some enabled event has an unreadable date. It emits at most two records per event. |
| Notifications.OneToastPerDueEvent | src/hooks/useNotifications.ts:18-41 | When the tick does not throw, its toasts are exactly one `"<title> is starting now!"` toast per due event, in list order. Events that are not due give nothing. |
| Notifications.SystemNotificationsOnlyWhenGranted | src/hooks/useNotifications.ts:29-35 | System notifications appear only when the API exists and permission is `granted`. There is then exactly one per due event, in order, tagged with the event id. |
| Notifications.DisabledEventsIgnored | src/hooks/useNotifications.ts:19 | A tick over the list equals a tick over its enabled events alone, so a disabled event never contributes anything, whatever its date or time. |
| Notifications.TickStopsAtUnreadableDate | src/hooks/useNotifications.ts:18-24 | The first enabled event with an unreadable date ends the tick. What earlier events emitted is kept, and no later event is looked at. |
| Notifications.UnreadableTimeNeverDue | src/hooks/useNotifications.ts:22-27 | A time that reads as `NaN` is never due. |
| Notifications.DueAtClockTime | src/hooks/useNotifications.ts:15-27 | For a zero-padded `HH:MM` time, an event is due exactly when it is enabled, on the current UTC day, and its minute of the day is within one of now's. |
| Notifications.NoWrapAtMidnight | src/hooks/useNotifications.ts:24-27 | An event at 00:00 is not due at 23:59, whatever its date. |
| Notifications.MinuteSixtyFiresAtEndOfDay | src/hooks/useNotifications.ts:22-27 | The lenient reading makes an event at `23:60` due at 23:59 of its day. |
| Notifications.OutOfRangeTimeNeverDue | src/hooks/useNotifications.ts:22-27 | An event at `25:99` is never due at a real clock reading. |
| Notifications.NineOClockScenario | src/hooks/useNotifications.ts:13-44 | An enabled 09:00 event fires its reminders once at 09:00 on its day. It emits nothing at 09:03, and nothing at 09:00 on the next day. |
| Notifications.JuneFirstDate | src/hooks/useNotifications.ts:24 | The date string `2025-06-01` reads as the day number of 1 June 2025. |
| Clock.ParseClockString | src/hooks/useNotifications.ts:22-23 | Reading a zero-padded `HH:MM` gives back hours*60+minutes. For hours 0-23 and minutes 0-59 that lies in [0, 1439]. |
| Clock.ClockStringShape | supabase/functions/check-notifications/index.ts:32 | A real clock reading renders as tens and units of the hour, `:`, then tens and units of the minute. |
| Clock.ClockStringOrder | supabase/functions/check-notifications/index.ts:42-43 | For zero-padded clock strings with fields below 100, string order is (hour, minute) order. This includes the minute 60 of the upper bound. |
| Clock.ClockOrderIsTimeOrder | supabase/functions/check-notifications/index.ts:42-43 | For real clock readings, string order agrees with minutes-of-day order. |
| Sweep.Selected | supabase/functions/check-notifications/index.ts:39-43 | Definition of the query's filter. A selected row is enabled and on the current date, and a row at exactly the current time is always selected; `Sweep.WindowInClockTerms` characterises it exactly. |
| Sweep.Handle | supabase/functions/check-notifications/index.ts:19-93 | A preflight gives an empty body and no logs. A query error gives 500 with the error's message, or `"Unknown error occurred"` for a thrown non-Error. Success gives 200 with `checked` equal to the number of rows (0 for `null`) and the matching `"Checked N events for notifications"`. |
| Sweep.PreflightQueriesNothing | supabase/functions/check-notifications/index.ts:19-21 | The answer to `OPTIONS` is 200 with the CORS headers and no body. It does not depend on the store. |
| Sweep.OneNoticePerRow | supabase/functions/check-notifications/index.ts:58-61 | Exactly one notice log is written per returned row, in row order. The reported count equals the number of notices. |
| Sweep.CheckedMessageCount | supabase/functions/check-notifications/index.ts:72-77 | The number inside the success message reads back as the count. |
| Sweep.StoreSelection | supabase/functions/check-notifications/index.ts:37-43 | When the store answers from a table, a row is reported exactly when it is enabled, on the current date, and its time lies between the two bounds in string order. The count is the number of such rows. |
| Sweep.WindowInClockTerms | supabase/functions/check-notifications/index.ts:39-43 | For a zero-padded row time, the row is selected exactly when it is enabled, on the current date, in the current hour, and its minute is the current one or the next. |
| Sweep.WindowBeforeMinute59 | supabase/functions/check-notifications/index.ts:42-43 | Before minute 59, the window is the current minute of the day and the next. |
| Sweep.WindowAtMinute59 | supabase/functions/check-notifications/index.ts:43 | At minute 59 the upper bound is `HH:60`. `HH:59` is selected and the next hour's `:00` is not. |
| Dates.WeekdayAnchors | src/components/calendar/CalendarGrid.tsx:33 | `getDay` is anchored correctly: day 0 (1 January 1970) is a Thursday and 1 June 2025 is a Sunday. |
| Text.SplitJoin | src/hooks/useNotifications.ts:22 | `split(":")` loses nothing: joining the pieces with `:` gives back the string. |
| Text.ContainsAt | src/components/calendar/CalendarGrid.tsx:65 | `includes` holds exactly when the query occurs at some position of the title. |
| Text.LexLeReflexive | supabase/functions/check-notifications/index.ts:42-43 | The string order the `gte`/`lte` filters use is reflexive. |
| Text.LexLeAntisymmetric | supabase/functions/check-notifications/index.ts:42-43 | The string order is antisymmetric. |
| Text.LexLeTransitive | supabase/functions/check-notifications/index.ts:42-43 | The string order is transitive. |
| Text.LexLeTotal | supabase/functions/check-notifications/index.ts:42-43 | Any two strings are comparable, so `gte` and `lte` bound a window. |
| Dates.NextMonthStart | src/components/calendar/CalendarGrid.tsx:27-31 | The first of the next month is `DaysInMonth` days after the first of this one, across February in leap and common years and across December. |
| Dates.LastDayOfMonth | src/components/calendar/CalendarGrid.tsx:27-31 | `new Date(y, m + 1, 0)` is the last day of month `m`. |
| Dates.ParseIsoDate | src/components/calendar/CalendarGrid.tsx:60-61 | Reading a rendered `YYYY-MM-DD` date, with or without a `T…` suffix, gives its day number. |
| CalendarGrid.MonthSpan | src/components/calendar/CalendarGrid.tsx:22-31 | `monthStart` is day 1 of the displayed month. `monthEnd` is that day plus the month's length minus one. |
| CalendarGrid.GridBounds | src/components/calendar/CalendarGrid.tsx:32-36 | `startDate` is a Sunday on or before `monthStart`, at most 6 days earlier. `endDate` is a Saturday on or after `monthEnd`, at most 6 days later. The span is 28, 35 or 42 days. |
| CalendarGrid.GridDays | src/components/calendar/CalendarGrid.tsx:38-44 | `days` is the consecutive run from `startDate` to `endDate`. Its length is a multiple of 7 between 28 and 42. It starts on a Sunday, ends on a Saturday, and contains every day of the month. |
| CalendarGrid.Normalize | src/components/calendar/CalendarGrid.tsx:46-56 | Month -1 rolls back to December of the previous year, month 12 rolls on to January of the next, and months 0-11 stay. |
| CalendarGrid.PreviousMonth | src/components/calendar/CalendarGrid.tsx:46-50 | The month before, with January going back to December of the previous year. Its first day is `new Date(y, m - 1, 1)`. |
| CalendarGrid.NextMonth | src/components/calendar/CalendarGrid.tsx:52-56 | The month after, with December going on to January of the next year. Its first day is `new Date(y, m + 1, 1)`. |
| CalendarGrid.NavigationRoundTrip | src/components/calendar/CalendarGrid.tsx:46-56 | Previous then next, or next then previous, returns to the same month. Adjacent months meet without a gap. |
| CalendarGrid.EventsForDate | src/components/calendar/CalendarGrid.tsx:58-70 | The cell's events are list events on that day. When the query is not empty, they also contain the lower-cased query in the lower-cased title. Every such event is included. |
| CalendarGrid.SearchNarrowsDay | src/components/calendar/CalendarGrid.tsx:62-68 | The searched list is the unsearched day list filtered by title, in the same order. With an empty query it is the day list itself. |
| CalendarGrid.EventsForDateConcat | src/components/calendar/CalendarGrid.tsx:58-70 | The day filter preserves order: the cell of `a + b` is the cell of `a` followed by the cell of `b`. |
| CalendarGrid.CellView | src/components/calendar/CalendarGrid.tsx:135-149 | A cell shows the first `min(2, n)` titles with their colour, falling back to `#FADADD`. It shows "+N more" exactly when n > 2. Shown titles plus N account for all n events. |
| Events.InsertRoundTrip | src/pages/Calendar.tsx:106-137 | With a store that keeps each column as sent, mapping an event to its insert payload, storing it and mapping the row back preserves every field except the id, which the store assigns. |
| Events.UpdateRoundTrip | src/pages/Calendar.tsx:168-178 | With a store that keeps each column as sent, mapping an event to its update payload and applying it to the row with that id gives back the event, and keeps the row's owner. |
| CalendarPage.AddEvent | src/pages/Calendar.tsx:102-144 | With a session and a stored row, the list grows by one, the old list is an unchanged prefix, and the new last element is the mapped row. Without a session, or on a store error, the list is unchanged. |
| CalendarPage.InsertRequest | src/pages/Calendar.tsx:103-116 | An insert is sent only with a session. Its payload is the event's fields, with `notificationEnabled` as `notification_enabled`, and it carries the user's id. |
| CalendarPage.AddThenDelete | src/pages/Calendar.tsx:106-159 | Sending the insert payload, storing it and appending the mapped row adds the submitted event under the store's id. Deleting that id (when new) gives back the original list. |
| CalendarPage.RemoveById | src/pages/Calendar.tsx:159 | No survivor has the deleted id. Every event with another id survives. |
| CalendarPage.RemoveByIdConcat | src/pages/Calendar.tsx:159 | Deletion preserves order: it works on `a + b` as on `a` then `b`. |
| CalendarPage.RemoveAbsentId | src/pages/Calendar.tsx:159 | Deleting an id no event has leaves the list as it was. |
| CalendarPage.DeleteEvent | src/pages/Calendar.tsx:146-165 | On success the list is the filtered list. On a store error it is unchanged. |
| CalendarPage.ReplaceByIdProperties | src/pages/Calendar.tsx:188 | An update keeps the ids in place and is idempotent. It changes nothing when no event has the id. |
| CalendarPage.UpdateEvent | src/pages/Calendar.tsx:167-194 | On success matching events are replaced and the length is kept. On a store error the list is unchanged. |
| CalendarPage.LoadEvents | src/pages/Calendar.tsx:25-54 | Loaded rows become the list element by element through the row mapping. An error or a missing session keeps the current list. |
| CalendarPage.ModalEvents | src/pages/Calendar.tsx:213 | The modal gets exactly the list's events on the selected day, and none when no day is selected. |
| CalendarPage.ModalMatchesCell | src/pages/Calendar.tsx:213 | The modal's events are the day cell's events with an empty search. |
| EventModal.ResetForm | src/components/calendar/EventModal.tsx:52-58 | The fields return to empty title, time and notes, notifications off and colour `#FADADD`. The mode is kept. |
| EventModal.StartAdding | src/components/calendar/EventModal.tsx:168-169 | "Add Event" shows the form. It keeps the edited event and changes no field. |
| EventModal.Save | src/components/calendar/EventModal.tsx:60-87 | A missing title, time or date calls nothing and leaves the form as it was. Otherwise exactly one call is made: update when editing, add otherwise. The event carries the form's fields and the selected date, and keeps the edited id unless that id is empty (then the clock id). The form returns to its defaults. |
| EventModal.Edit | src/components/calendar/EventModal.tsx:89-97 | The form is shown with the event's fields loaded, notes defaulting to `""` and colour to `#FADADD`. The event is the one being edited. |
| EventModal.EditThenSave | src/components/calendar/EventModal.tsx:60-97 | Editing an event and saving it unchanged updates that same event under the same id. |
| EventModal.SavedEventComplete | src/components/calendar/EventModal.tsx:61-64 | A saved event never has an empty title or time. |
| EventModal.AddFromFreshForm | src/components/calendar/EventModal.tsx:36-87 | Filling a fresh form and saving adds an event under the clock id, with the defaults for the other fields. |
| EventModal.Delete | src/components/calendar/EventModal.tsx:99-102 | Delete forwards exactly the given id and leaves the form unchanged. |
| EventModal.Cancel | src/components/calendar/EventModal.tsx:243-247 | Cancel leaves adding or editing and resets the fields. |
| EventModal.OpenChanged | src/components/calendar/EventModal.tsx:44-50 | Closing the modal does what Cancel does. Opening it keeps the form. |
| EventModal.CloseIsCancel | src/components/calendar/EventModal.tsx:44-58 | From any state, close and Cancel both reach the initial state. Resetting twice is resetting once. |

## Left out

- The timer is not modelled: the immediate call, the 60-second `setInterval`, and the restart when the list changes. Only one tick is modelled, as a pure function.
- The browser Notification API and toast rendering are reduced to emitted records. The asynchronous result of `requestPermission` is not modelled.
- Supabase client calls, `Deno.serve`, `Deno.env`, JSON encoding and header maps are left out. Store answers are inputs, and the sweep's query is a filter over a given table.
- Sweep.Handle: only a query error is an input. A throw while creating the client is caught in the same way but is not modelled separately. Console payloads are reduced to record kinds.
- Sweep.Selected: the type of the `time` column is not visible. The model compares as text in code-point order, which is the order the window relies on. It agrees with UTF-16 code-unit order (JavaScript) and byte-wise collation below U+10000, so on every clock string; on characters above U+FFFF the orders differ.
- Clock.NumberOf: `Number` is modelled for the empty string and for optionally signed decimal digit runs. Padding whitespace, decimals, exponents, hex and `Infinity` are treated as `NaN`, although JavaScript reads them as numbers. Digit runs and the minute sum `hours * 60 + minutes` are exact integers, while JavaScript rounds them to doubles beyond 2^53; so an absurd time such as `9007199254740993:-540431955284459040` is minute 540 in the model but 512 in JavaScript.
- Dates.ParseDate: only strict `YYYY-MM-DD` is read, optionally followed by `T…`, and the date must be real. A `T…` suffix is not validated, so a date such as `2025-06-01T25:00`, whose `toISOString()` throws in JavaScript and ends the tick, reads in the model as 1 June 2025 and does not end the tick. Other formats that JavaScript engines accept are treated as unreadable.
- Events.OnDay: it compares day numbers, which assumes the local zone is UTC. `new Date("YYYY-MM-DD")` is UTC midnight, so west of UTC `toDateString` shows the day before.
- Text.Lower: only ASCII letters are lower-cased. Unicode case mapping is not modelled.
- Sort order of the loaded list (`order("date")`) is not modelled, since the store applies it.
- Presentation is left out: the today highlight, the in-month shading, the month heading, and the date formatting in the modal title.
- Authentication, the landing page, the header and the logo are not part of this model. So are profile loading and the auth-state subscription.
- Uniqueness of `Date.now().toString()` ids is not modelled. The id is a parameter.
- Events.Inserted: the store is taken to keep each column exactly as sent. The column types are not visible. If `date` is a date column, the store truncates the modal's `toISOString()` timestamp to `YYYY-MM-DD`, and the model does not. So in the model an event added from the modal never matches the sweep's `.eq("date", …)`.
- Events.Updated: an absent optional field is written as null (`None`). The modal never sets `category`, and JSON drops `undefined`, so the real update leaves the stored category untouched. The model clears it instead.
- CalendarPage.AddEvent: it applies to the list it is given. The real handler appends to the `events` list captured when it was created, so two overlapping asynchronous handlers can lose one another's change. The model does not capture this.
- CalendarPage.DeleteEvent: likewise. Deleting A and then B before A's answer arrives leaves A on screen in the real page, while two model deletions remove both.
- CalendarPage.UpdateEvent: likewise, it maps over the list it is given rather than a captured snapshot.
- Dates.MakeDay: years 0-99, which JavaScript reads as 1900-1999, and results outside JavaScript's date range (an Invalid Date) are not modelled. For example, `MonthView(99, 11)` gives December of year 99 rather than December 1999.
- Notifications.NoRepeatedPrompt: a user resetting the permission in the browser's settings between runs is not modelled.
