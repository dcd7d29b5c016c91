/** Calendar dates as integer day numbers (day 0 is 1 January 1970, as in
    JavaScript's time value), with JavaScript's `new Date(year, month, day)`
    normalisation, weekdays (`getDay`, 0 = Sunday), the number of days in a
    month, and the `YYYY-MM-DD` strings the event store holds. Months are
    numbered from 0, as `getMonth` numbers them. */
module Dates {
  import opened Wrappers
  import opened Text

  predicate IsLeapYear(y: int) {
    y % 4 == 0 && (y % 100 != 0 || y % 400 == 0)
  }

  /** Number of days in month `m` (0 = January) of year `y`. */
  function DaysInMonth(y: int, m: int): (n: int)
    requires 0 <= m < 12
    ensures 28 <= n <= 31
  {
    if m == 1 then (if IsLeapYear(y) then 29 else 28)
    else if m == 3 || m == 5 || m == 8 || m == 10 then 30
    else 31
  }

  /** Days from 1 March of year 0 to 1 March of year `y` (proleptic Gregorian
      calendar). Counting years from March puts the leap day last. */
  function MarchYearStart(y: int): int {
    var era, yoe := y / 400, y % 400;
    era * 146097 + yoe * 365 + yoe / 4 - yoe / 100
  }

  /** Days from 1 March to the first day of the month `k` months later. */
  function DaysBeforeMarchMonth(k: int): int
    requires 0 <= k < 12
  {
    [0, 31, 61, 92, 122, 153, 184, 214, 245, 275, 306, 337][k]
  }

  /** The day number of year `y`, month `m` (0-based), day `d`; `d` may lie
      outside the month, and then counts on from its first day. */
  function DayNumber(y: int, m: int, d: int): int
    requires 0 <= m < 12
  {
    var marchYear := if m < 2 then y - 1 else y;
    var k := if m < 2 then m + 10 else m - 2;
    MarchYearStart(marchYear) + DaysBeforeMarchMonth(k) + d - 1 - 719468
  }

  /** `new Date(y, m, d)` for a year from 100 on and a result inside
      JavaScript's date range: an out-of-range month carries into the year,
      and day 0 is the last day of the previous month. JavaScript reads a
      year 0-99 as 1900 + y; that case is not modelled here. */
  function MakeDay(y: int, m: int, d: int): int {
    DayNumber(y + m / 12, m % 12, d)
  }

  /** `getDay()`: 0 = Sunday ... 6 = Saturday. */
  function Weekday(day: int): (w: int)
    ensures 0 <= w < 7
  {
    (day + 4) % 7
  }

  lemma NextQuotient4(n: int)
    requires 0 <= n
    ensures (n + 1) / 4 == n / 4 + (if (n + 1) % 4 == 0 then 1 else 0)
  {
  }

  lemma NextQuotient100(n: int)
    requires 0 <= n
    ensures (n + 1) / 100 == n / 100 + (if (n + 1) % 100 == 0 then 1 else 0)
  {
  }

  /** `MarchYearStart` in terms of the era `q` and the year of the era `r`. */
  lemma MarchYearStartParts(y: int, q: int, r: int)
    requires y == 400 * q + r && 0 <= r < 400
    ensures MarchYearStart(y) == q * 146097 + r * 365 + r / 4 - r / 100
  {
    assert y / 400 == q && y % 400 == r;
  }

  /** Inside one 400-year era, the next year starts 365 days later, or 366
      when it ends with a leap February. */
  lemma EraYearStep(r: int)
    requires 0 <= r < 399
    ensures (r + 1) * 365 + (r + 1) / 4 - (r + 1) / 100
      == r * 365 + r / 4 - r / 100 + (if (r + 1) % 4 == 0 && (r + 1) % 100 != 0 then 366 else 365)
  {
    NextQuotient4(r);
    NextQuotient100(r);
  }

  /** Adding whole multiples of a leap-rule divisor keeps the remainder. */
  lemma ModUnique4(a: int, k: int, r: int)
    requires a == 4 * k + r && 0 <= r < 4
    ensures a % 4 == r
  {
  }

  lemma ModUnique100(a: int, k: int, r: int)
    requires a == 100 * k + r && 0 <= r < 100
    ensures a % 100 == r
  {
  }

  lemma ModUnique400(a: int, k: int, r: int)
    requires a == 400 * k + r && 0 <= r < 400
    ensures a % 400 == r
  {
  }

  /** Whole eras do not change the leap-year residues. */
  lemma EraResidues(q: int, s: int)
    ensures (400 * q + s) % 4 == s % 4
    ensures (400 * q + s) % 100 == s % 100
    ensures (400 * q + s) % 400 == s % 400
  {
    ModUnique4(400 * q + s, 100 * q + s / 4, s % 4);
    ModUnique100(400 * q + s, 4 * q + s / 100, s % 100);
    ModUnique400(400 * q + s, q + s / 400, s % 400);
  }

  /** A year counted from March has 366 days exactly when the February it
      ends with is a leap February. */
  lemma MarchYearLength(y: int)
    ensures MarchYearStart(y + 1) == MarchYearStart(y) + (if IsLeapYear(y + 1) then 366 else 365)
  {
    var q, r := y / 400, y % 400;
    MarchYearStartParts(y, q, r);
    EraResidues(q, r + 1);
    if r < 399 {
      MarchYearStartParts(y + 1, q, r + 1);
      EraYearStep(r);
    } else {
      MarchYearStartParts(y + 1, q + 1, 0);
    }
  }

  /** The first of the following month is `DaysInMonth` days after the first
      of this one: consecutive months tile the day line. */
  lemma NextMonthStart(y: int, m: int)
    requires 0 <= m < 12
    ensures m < 11 ==> DayNumber(y, m + 1, 1) == DayNumber(y, m, 1) + DaysInMonth(y, m)
    ensures m == 11 ==> DayNumber(y + 1, 0, 1) == DayNumber(y, m, 1) + DaysInMonth(y, m)
  {
    if m == 1 {
      MarchYearLength(y - 1);
    }
  }

  /** The day-of-month argument counts on linearly from the first. */
  lemma DayOffset(y: int, m: int, d: int)
    requires 0 <= m < 12
    ensures DayNumber(y, m, d) == DayNumber(y, m, 1) + d - 1
  {
  }

  /** `new Date(y, m + 1, d)` names month `m + 1` of year `y`, or January of
      the next year when `m` is December. */
  lemma MakeDayNextMonth(y: int, m: int, d: int)
    requires 0 <= m < 12
    ensures m < 11 ==> MakeDay(y, m + 1, d) == DayNumber(y, m + 1, d)
    ensures m == 11 ==> MakeDay(y, m + 1, d) == DayNumber(y + 1, 0, d)
    ensures MakeDay(y, m, d) == DayNumber(y, m, d)
  {
    assert m / 12 == 0 && m % 12 == m;
    if m < 11 {
      assert (m + 1) / 12 == 0 && (m + 1) % 12 == m + 1;
    } else {
      assert (m + 1) / 12 == 1 && (m + 1) % 12 == 0;
    }
  }

  /** `new Date(y, m + 1, 0)` is the last day of month `m`. */
  lemma LastDayOfMonth(y: int, m: int)
    requires 0 <= m < 12
    ensures MakeDay(y, m + 1, 0) == MakeDay(y, m, 1) + DaysInMonth(y, m) - 1
  {
    NextMonthStart(y, m);
    MakeDayNextMonth(y, m, 0);
    MakeDayNextMonth(y, m, 1);
    if m < 11 {
      DayOffset(y, m + 1, 0);
    } else {
      DayOffset(y + 1, 0, 0);
    }
  }

  /** Day 0 is Thursday 1 January 1970, and 1 June 2025 is a Sunday. */
  lemma WeekdayAnchors()
    ensures DayNumber(1970, 0, 1) == 0 && Weekday(0) == 4
    ensures Weekday(DayNumber(2025, 5, 1)) == 0
  {
  }

  /** The `YYYY-MM-DD` rendering of a date (month `m` 0-based). */
  function IsoDate(y: nat, m: nat, d: nat): string {
    PadStart(DecimalString(y), 4, '0') + "-" + TwoDigits(m + 1) + "-" + TwoDigits(d)
  }

  /** The calendar day a date string denotes: `YYYY-MM-DD`, optionally followed
      by `T` and a time of day, naming a real date; `None` (JavaScript's
      `Invalid Date`) otherwise. */
  function ParseDate(s: string): (r: Option<int>)
    ensures r.Some? ==> |s| >= 10 && s[4] == '-' && s[7] == '-'
    ensures r.Some? ==> AllDigits(s[..4]) && AllDigits(s[5..7]) && AllDigits(s[8..10])
    ensures r.Some? ==> |s| == 10 || s[10] == 'T'
  {
    if |s| < 10 || s[4] != '-' || s[7] != '-' || (|s| > 10 && s[10] != 'T') then None
    else
      var ys, ms, ds := s[..4], s[5..7], s[8..10];
      if !(AllDigits(ys) && AllDigits(ms) && AllDigits(ds)) then None
      else
        var y, mo, d := DigitsValue(ys), DigitsValue(ms), DigitsValue(ds);
        if 1 <= mo <= 12 && 1 <= d <= DaysInMonth(y, mo - 1) then Some(DayNumber(y, mo - 1, d))
        else None
  }

  lemma IsoFields(ys: string, ms: string, ds: string, suffix: string)
    requires |ys| == 4 && |ms| == 2 && |ds| == 2
    ensures var s := ys + "-" + ms + "-" + ds + suffix;
      |s| == 10 + |suffix| && s[4] == '-' && s[7] == '-' && s[10..] == suffix
      && s[..4] == ys && s[5..7] == ms && s[8..10] == ds
  {
  }

  lemma ParseDateFields(s: string, y: nat, mo: nat, d: nat)
    requires |s| >= 10 && s[4] == '-' && s[7] == '-' && (|s| == 10 || s[10] == 'T')
    requires AllDigits(s[..4]) && AllDigits(s[5..7]) && AllDigits(s[8..10])
    requires DigitsValue(s[..4]) == y && DigitsValue(s[5..7]) == mo && DigitsValue(s[8..10]) == d
    requires 1 <= mo <= 12 && 1 <= d <= DaysInMonth(y, mo - 1)
    ensures ParseDate(s) == Some(DayNumber(y, mo - 1, d))
  {
  }

  /** A rendered date followed by nothing or by a `T...` suffix has the shape
      `ParseDate` accepts, with the rendered fields in place. */
  lemma IsoDateShape(y: nat, m: nat, d: nat, suffix: string)
    requires y <= 9999 && m < 12 && 1 <= d <= 31
    requires suffix == [] || suffix[0] == 'T'
    ensures var s := IsoDate(y, m, d) + suffix;
      && |s| >= 10 && s[4] == '-' && s[7] == '-' && (|s| == 10 || s[10] == 'T')
      && s[..4] == PadStart(DecimalString(y), 4, '0') && s[5..7] == TwoDigits(m + 1) && s[8..10] == TwoDigits(d)
  {
    var ys := PadStart(DecimalString(y), 4, '0');
    var ms, ds := TwoDigits(m + 1), TwoDigits(d);
    TwoDigitsValue(m + 1);
    TwoDigitsValue(d);
    IsoFields(ys, ms, ds, suffix);
    var s := IsoDate(y, m, d) + suffix;
    assert s == ys + "-" + ms + "-" + ds + suffix;
    if |s| > 10 {
      assert s[10] == s[10..][0];
    }
  }

  /** Reading a rendered date back gives its day number, with or without a
      time-of-day suffix. */
  lemma ParseIsoDate(y: nat, m: nat, d: nat, suffix: string)
    requires y <= 9999 && m < 12 && 1 <= d <= DaysInMonth(y, m)
    requires suffix == [] || suffix[0] == 'T'
    ensures ParseDate(IsoDate(y, m, d) + suffix) == Some(DayNumber(y, m, d))
  {
    var s := IsoDate(y, m, d) + suffix;
    IsoDateShape(y, m, d, suffix);
    ZeroPadValue(DecimalString(y), 4);
    DecimalRoundTrip(y);
    TwoDigitsValue(m + 1);
    TwoDigitsValue(d);
    ParseDateFields(s, y, m + 1, d);
  }
}
