/** Wall-clock times of day written `HH:MM`: the zero-padded rendering the
    sweep job builds, the lenient `split(":").map(Number)` reading the client
    poller does, and how string order on such times relates to time order. */
module Clock {
  import opened Wrappers
  import opened Text

  const MinutesPerDay: int := 24 * 60

  /** Minutes since midnight of an hour and minute. */
  function MinuteOfDay(hours: int, minutes: int): int {
    hours * 60 + minutes
  }

  /** `${String(h).padStart(2, "0")}:${String(m).padStart(2, "0")}`. */
  function ClockString(hours: nat, minutes: nat): string {
    TwoDigits(hours) + ":" + TwoDigits(minutes)
  }

  /** A real clock reading renders as exactly five characters `DD:DD`. */
  lemma ClockStringShape(hours: nat, minutes: nat)
    requires hours < 24 && minutes < 60
    ensures ClockString(hours, minutes)
      == [DigitChar(hours / 10), DigitChar(hours % 10), ':', DigitChar(minutes / 10), DigitChar(minutes % 10)]
  {
    var hh, mm := TwoDigits(hours), TwoDigits(minutes);
    TwoDigitsShape(hours);
    TwoDigitsShape(minutes);
    assert ClockString(hours, minutes) == hh + ":" + mm;
  }

  /** `Number(piece)` for the pieces a time string can contain: the empty
      string is 0, an optionally signed run of decimal digits is its exact
      integer value (JavaScript rounds it to a double beyond 2^53), and
      anything else is `NaN` (`None`). */
  function NumberOf(s: string): (r: Option<int>)
    ensures AllDigits(s) ==> r == Some(DigitsValue(s))
    ensures |s| > 0 && !IsDigit(s[0]) && s[0] != '-' && s[0] != '+' ==> r == None
  {
    if AllDigits(s) then Some(DigitsValue(s))
    else if |s| > 1 && s[0] == '-' && AllDigits(s[1..]) then var v: int := DigitsValue(s[1..]); Some(-v)
    else if |s| > 1 && s[0] == '+' && AllDigits(s[1..]) then Some(DigitsValue(s[1..]))
    else None
  }

  /** `const [hours, minutes] = time.split(":").map(Number); hours * 60 + minutes`,
      with `None` for a `NaN` result: fewer than two pieces, or a piece that is
      not a number. Pieces after the second are ignored. */
  function ParseTime(time: string): (r: Option<int>)
    ensures ':' !in time ==> r.None?
  {
    var pieces := Split(time, ':');
    assert ':' !in time ==> pieces == [time] by {
      if ':' !in time {
        SplitNoSeparator(time, ':');
      }
    }
    if |pieces| < 2 then None
    else match (NumberOf(pieces[0]), NumberOf(pieces[1]))
      case (Some(h), Some(m)) => Some(MinuteOfDay(h, m))
      case _ => None
  }

  /** Reading a rendered clock string gives back its minute of the day, and a
      real clock reading lies within one day. */
  lemma ParseClockString(hours: nat, minutes: nat)
    requires hours < 100 && minutes < 100
    ensures ParseTime(ClockString(hours, minutes)) == Some(MinuteOfDay(hours, minutes))
    ensures hours < 24 && minutes < 60 ==> 0 <= MinuteOfDay(hours, minutes) < MinutesPerDay
  {
    var hh, mm := TwoDigits(hours), TwoDigits(minutes);
    TwoDigitsValue(hours);
    TwoDigitsValue(minutes);
    assert ':' !in hh && ':' !in mm by {
      assert forall i :: 0 <= i < |hh| ==> IsDigit(hh[i]);
      assert forall i :: 0 <= i < |mm| ==> IsDigit(mm[i]);
    }
    SplitAtSeparator(hh, ':', mm);
    SplitNoSeparator(mm, ':');
    assert ClockString(hours, minutes) == hh + [':'] + mm;
  }

  /** Strings `a:b` with equal-length heads compare by head, then by tail. */
  lemma ColonPairOrder(a1: string, b1: string, a2: string, b2: string)
    requires |a1| == |a2|
    ensures LexLe(a1 + ":" + b1, a2 + ":" + b2) <==> if a1 == a2 then LexLe(b1, b2) else LexLe(a1, a2)
  {
    assert a1 + ":" + b1 == a1 + (":" + b1);
    assert a2 + ":" + b2 == a2 + (":" + b2);
    LexLeConcat(a1, a2, ":" + b1, ":" + b2);
    LexLeConcat(":", ":", b1, b2);
  }

  /** For zero-padded clock strings, string order is (hour, minute) order,
      whether or not the minute is a real one. */
  lemma ClockStringOrder(h1: nat, m1: nat, h2: nat, m2: nat)
    requires h1 < 100 && m1 < 100 && h2 < 100 && m2 < 100
    ensures LexLe(ClockString(h1, m1), ClockString(h2, m2)) <==> h1 < h2 || (h1 == h2 && m1 <= m2)
  {
    var a1, a2 := TwoDigits(h1), TwoDigits(h2);
    assert |a1| == 2 && |a2| == 2;
    ColonPairOrder(a1, TwoDigits(m1), a2, TwoDigits(m2));
    TwoDigitsInjective(h1, h2);
    TwoDigitsOrder(h1, h2);
    TwoDigitsOrder(m1, m2);
  }

  /** For real clock readings, string order agrees with minutes-of-day order. */
  lemma ClockOrderIsTimeOrder(h1: nat, m1: nat, h2: nat, m2: nat)
    requires h1 < 24 && m1 < 60 && h2 < 24 && m2 < 60
    ensures LexLe(ClockString(h1, m1), ClockString(h2, m2)) <==> MinuteOfDay(h1, m1) <= MinuteOfDay(h2, m2)
  {
    ClockStringOrder(h1, m1, h2, m2);
  }
}
