/** The month grid: the run of days from the Sunday on or before the first of
    the displayed month to the Saturday on or after its last day, navigation
    to the adjacent month, the events shown in a day cell (filtered by the
    search box), and the two-titles-plus-"+N more" rendering of a cell. */
module CalendarGrid {
  import opened Wrappers
  import opened Seqs
  import opened Text
  import opened Dates
  import opened Events

  /** The displayed month: `getFullYear()` and `getMonth()` (0 = January). */
  datatype MonthView = MonthView(year: int, month: int) {
    predicate Valid() {
      0 <= month < 12
    }
  }

  /** The month of `new Date(year, month, 1)` for any integer month: months
      before January or after December roll the year over. */
  function Normalize(year: int, month: int): (r: MonthView)
    ensures r.Valid()
    ensures 0 <= month < 12 ==> r == MonthView(year, month)
    ensures month == -1 ==> r == MonthView(year - 1, 11)
    ensures month == 12 ==> r == MonthView(year + 1, 0)
  {
    MonthView(year + month / 12, month % 12)
  }

  /** `monthStart`: day 1 of the displayed month. */
  function MonthStart(v: MonthView): int {
    MakeDay(v.year, v.month, 1)
  }

  /** `monthEnd`: day 0 of the following month. */
  function MonthEnd(v: MonthView): int {
    MakeDay(v.year, v.month + 1, 0)
  }

  /** `startDate`: back from `monthStart` by its weekday. */
  function GridStart(v: MonthView): int {
    MonthStart(v) - Weekday(MonthStart(v))
  }

  /** `endDate`: forward from `monthEnd` to the next Saturday. */
  function GridEnd(v: MonthView): int {
    MonthEnd(v) + (6 - Weekday(MonthEnd(v)))
  }

  lemma WeekdayShift(d: int, k: int)
    ensures Weekday(d + k) == (Weekday(d) + k) % 7
  {
  }

  /** `monthEnd` is the last day of the displayed month. */
  lemma MonthSpan(v: MonthView)
    requires v.Valid()
    ensures MonthStart(v) == DayNumber(v.year, v.month, 1)
    ensures MonthEnd(v) == MonthStart(v) + DaysInMonth(v.year, v.month) - 1
  {
    MakeDayNextMonth(v.year, v.month, 1);
    LastDayOfMonth(v.year, v.month);
  }

  /** Widening a run of 28 to 31 days `first..last` out to whole weeks,
      Sunday to Saturday, adds at most six days at each end and gives four,
      five or six weeks. */
  lemma WholeWeeks(first: int, last: int)
    requires 27 <= last - first <= 30
    ensures var lo, hi := first - Weekday(first), last + (6 - Weekday(last));
      && Weekday(lo) == 0 && lo <= first <= lo + 6
      && Weekday(hi) == 6 && last <= hi <= last + 6
      && (hi - lo + 1) % 7 == 0 && 28 <= hi - lo + 1 <= 42
  {
    var ws, we := Weekday(first), Weekday(last);
    WeekdayShift(first, -ws);
    WeekdayShift(last, 6 - we);
    WeekdayShift(first, last - first);
    var x := ws + (last - first);
    assert we == x % 7;
    assert last + (6 - we) - (first - ws) + 1 == x - x % 7 + 7;
  }

  /** The grid starts on a Sunday at most six days before the first of the
      month, ends on a Saturday at most six days after its last day, and
      spans four, five or six whole weeks. */
  lemma GridBounds(v: MonthView)
    requires v.Valid()
    ensures Weekday(GridStart(v)) == 0 && GridStart(v) <= MonthStart(v) <= GridStart(v) + 6
    ensures Weekday(GridEnd(v)) == 6 && MonthEnd(v) <= GridEnd(v) <= MonthEnd(v) + 6
    ensures var n := GridEnd(v) - GridStart(v) + 1; n % 7 == 0 && 28 <= n <= 42
  {
    MonthSpan(v);
    WholeWeeks(MonthStart(v), MonthEnd(v));
  }

  /** The `days` loop: every day from `startDate` to `endDate`, in order. */
  method GridDays(v: MonthView) returns (days: seq<int>)
    requires v.Valid()
    ensures |days| == GridEnd(v) - GridStart(v) + 1
    ensures forall i :: 0 <= i < |days| ==> days[i] == GridStart(v) + i
    ensures |days| % 7 == 0 && 28 <= |days| <= 42
    ensures Weekday(days[0]) == 0 && Weekday(days[|days| - 1]) == 6
    ensures forall d :: MonthStart(v) <= d <= MonthEnd(v) ==> d in days
  {
    GridBounds(v);
    var start, end := GridStart(v), GridEnd(v);
    days := [];
    var current := start;
    while current <= end
      invariant start <= current <= end + 1
      invariant |days| == current - start
      invariant forall i :: 0 <= i < |days| ==> days[i] == start + i
    {
      days := days + [current];
      current := current + 1;
    }
    forall d | MonthStart(v) <= d <= MonthEnd(v)
      ensures d in days
    {
      assert days[d - start] == d;
    }
  }

  /** `previousMonth`: the month before, rolling back the year from January. */
  function PreviousMonth(v: MonthView): (r: MonthView)
    requires v.Valid()
    ensures r.Valid()
    ensures v.month == 0 ==> r == MonthView(v.year - 1, 11)
    ensures v.month > 0 ==> r == MonthView(v.year, v.month - 1)
    ensures MonthStart(r) == MakeDay(v.year, v.month - 1, 1)
  {
    Normalize(v.year, v.month - 1)
  }

  /** `nextMonth`: the month after, rolling the year over from December. */
  function NextMonth(v: MonthView): (r: MonthView)
    requires v.Valid()
    ensures r.Valid()
    ensures v.month == 11 ==> r == MonthView(v.year + 1, 0)
    ensures v.month < 11 ==> r == MonthView(v.year, v.month + 1)
    ensures MonthStart(r) == MakeDay(v.year, v.month + 1, 1)
  {
    Normalize(v.year, v.month + 1)
  }

  /** A month ends the day before the next one starts. */
  lemma MonthsMeet(v: MonthView)
    requires v.Valid()
    ensures MonthEnd(v) + 1 == MonthStart(NextMonth(v))
  {
    var n := NextMonth(v);
    MonthSpan(v);
    MonthSpan(n);
    NextMonthStart(v.year, v.month);
  }

  /** Going back and forward again returns to the same month, and the
      adjacent month ends the day before this one starts. */
  lemma NavigationRoundTrip(v: MonthView)
    requires v.Valid()
    ensures NextMonth(PreviousMonth(v)) == v && PreviousMonth(NextMonth(v)) == v
    ensures MonthEnd(PreviousMonth(v)) + 1 == MonthStart(v)
    ensures MonthEnd(v) + 1 == MonthStart(NextMonth(v))
  {
    var p := PreviousMonth(v);
    assert NextMonth(p) == v;
    MonthsMeet(p);
    MonthsMeet(v);
  }

  /** The search box test: the lower-cased title contains the lower-cased query. */
  predicate TitleMatches(e: Event, query: string) {
    Contains(Lower(e.title), Lower(query))
  }

  /** `getEventsForDate`'s test: on the day and, when the query is not empty,
      matching the query. */
  predicate ShownOn(e: Event, day: int, query: string) {
    if |query| > 0 then OnDay(e, day) && TitleMatches(e, query) else OnDay(e, day)
  }

  function ShownOnTest(day: int, query: string): Event -> bool {
    e => ShownOn(e, day, query)
  }

  function TitleTest(query: string): Event -> bool {
    e => TitleMatches(e, query)
  }

  /** `getEventsForDate`: the events shown in a day cell, in list order. */
  function EventsForDate(events: seq<Event>, day: int, query: string): (r: seq<Event>)
    ensures forall i :: 0 <= i < |r| ==>
      r[i] in events && OnDay(r[i], day) && (|query| > 0 ==> TitleMatches(r[i], query))
    ensures forall i ::
              0 <= i < |events| && OnDay(events[i], day) && (|query| > 0 ==> TitleMatches(events[i], query))
              ==> events[i] in r
  {
    Filter(ShownOnTest(day, query), events)
  }

  /** Every title contains the empty query. */
  lemma EmptyQueryMatches(e: Event)
    ensures TitleMatches(e, "")
  {
    assert IsPrefix("", Lower(e.title));
  }

  /** Searching narrows the day's list to the matching titles, keeping their order. */
  lemma SearchNarrowsDay(events: seq<Event>, day: int, query: string)
    ensures EventsForDate(events, day, query) == Filter(TitleTest(query), EventsForDate(events, day, ""))
  {
    forall i | 0 <= i < |events|
      ensures ShownOnTest(day, query)(events[i]) == (ShownOnTest(day, "")(events[i]) && TitleTest(query)(events[i]))
    {
      if |query| == 0 {
        assert Lower(query) == "";
        EmptyQueryMatches(events[i]);
      }
    }
    FilterFilter(ShownOnTest(day, ""), TitleTest(query), ShownOnTest(day, query), events);
  }

  /** Lists that differ only by other days' events show the same cell: the
      cell for `day` of `a + b` is the cell of `a` followed by the cell of `b`. */
  lemma EventsForDateConcat(a: seq<Event>, b: seq<Event>, day: int, query: string)
    ensures EventsForDate(a + b, day, query) == EventsForDate(a, day, query) + EventsForDate(b, day, query)
  {
    FilterConcat(ShownOnTest(day, query), a, b);
  }

  /** One title line of a cell. */
  datatype Chip = Chip(title: string, color: string)

  /** A rendered day cell: the title lines, and the "+N more" count if any. */
  datatype Cell = Cell(chips: seq<Chip>, more: Option<nat>)

  /** A cell shows the first two events and, when there are more, how many more. */
  function CellView(dayEvents: seq<Event>): (c: Cell)
    ensures |c.chips| == if |dayEvents| < 2 then |dayEvents| else 2
    ensures forall i :: 0 <= i < |c.chips| ==> c.chips[i] == Chip(dayEvents[i].title, ColorOrDefault(dayEvents[i].color))
    ensures c.more.Some? <==> |dayEvents| > 2
    ensures |c.chips| + c.more.GetOr(0) == |dayEvents|
  {
    var shown := if |dayEvents| < 2 then |dayEvents| else 2;
    Cell(seq(shown, i requires 0 <= i < shown => Chip(dayEvents[i].title, ColorOrDefault(dayEvents[i].color))),
         if |dayEvents| > 2 then Some(|dayEvents| - 2) else None)
  }
}
