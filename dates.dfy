/** Calendar arithmetic of the portal: registration windows, the date rules an
    event must satisfy, the four-way clash test between two events, and the
    time-of-day and event-span tests of match scheduling.

    A day is an integer (server.js normalises every date to local midnight);
    a moment is an integer count of minutes from midnight of day 0, local
    time. `today` and `now` are parameters: nothing here reads a clock. */
module Dates {

  type Day = int
  type Minute = int

  const MinutesPerDay: int := 1440
  const MillisPerDay: int := 86_400_000

  /** The day a moment falls on. */
  function DayOf(t: Minute): Day
  {
    t / MinutesPerDay
  }

  // ---------------------------------------------------------------------
  // Registration window
  // ---------------------------------------------------------------------

  datatype RegStatus = NotStarted | Open | Closed

  /** calculateRegistrationStatus: `today` against the window
      [regStart, regEnd], both days inclusive. */
  function CalculateRegistrationStatus(today: Day, regStart: Day, regEnd: Day): (r: RegStatus)
    ensures r == NotStarted <==> today < regStart
    ensures r == Closed <==> regStart <= today && regEnd < today
    ensures r == Open <==> regStart <= today <= regEnd
  {
    if today < regStart then NotStarted
    else if today > regEnd then Closed
    else Open
  }

  /** The same computation as server.js performs it, on milliseconds: today
      at 00:00:00.000, the start day at 00:00:00.000 and the end day at
      23:59:59.999. */
  function RegistrationStatusAtMillis(today: Day, regStart: Day, regEnd: Day): RegStatus
  {
    var t := today * MillisPerDay;
    var start := regStart * MillisPerDay;
    var end := regEnd * MillisPerDay + (MillisPerDay - 1);
    if t < start then NotStarted
    else if t > end then Closed
    else Open
  }

  /** Working on whole days loses nothing: the millisecond computation and the
      day computation agree on every input. */
  lemma MillisAgreeWithDays(today: Day, regStart: Day, regEnd: Day)
    ensures RegistrationStatusAtMillis(today, regStart, regEnd)
         == CalculateRegistrationStatus(today, regStart, regEnd)
  {
    var t := today * MillisPerDay;
    var end := regEnd * MillisPerDay + (MillisPerDay - 1);
    assert t < regStart * MillisPerDay <==> today < regStart by {
      ScaleMonotone(today, regStart);
    }
    assert t > end <==> today > regEnd by {
      ScaleMonotone(today, regEnd + 1);
    }
  }

  lemma ScaleMonotone(a: int, b: int)
    ensures a * MillisPerDay < b * MillisPerDay <==> a < b
  {
    if a < b {
      assert b * MillisPerDay == a * MillisPerDay + (b - a) * MillisPerDay;
    } else {
      assert a * MillisPerDay == b * MillisPerDay + (a - b) * MillisPerDay;
    }
  }

  /** The day boundaries of a window: its first and last days are open, the day
      before it has not started and the day after it is closed. */
  lemma WindowBoundaries(regStart: Day, regEnd: Day)
    requires regStart <= regEnd
    ensures CalculateRegistrationStatus(regStart - 1, regStart, regEnd) == NotStarted
    ensures CalculateRegistrationStatus(regStart, regStart, regEnd) == Open
    ensures CalculateRegistrationStatus(regEnd, regStart, regEnd) == Open
    ensures CalculateRegistrationStatus(regEnd + 1, regStart, regEnd) == Closed
  {
  }

  // ---------------------------------------------------------------------
  // Date rules of an event
  // ---------------------------------------------------------------------

  datatype DateError =
    | RegStartInPast          // 'Registration start date cannot be in the past'
    | RegEndBeforeRegStart    // 'Registration end date cannot be before start date'
    | RegEndAfterEventStart   // 'Registration must close on or before event starts'
    | EventEndBeforeStart     // 'Event end date cannot be before start date'

  /** The rule behind each message, as a condition on the dates. */
  predicate Violates(e: DateError, today: Day, regStart: Day, regEnd: Day, eventStart: Day, eventEnd: Day)
  {
    match e
    case RegStartInPast => regStart < today
    case RegEndBeforeRegStart => regEnd < regStart
    case RegEndAfterEventStart => regEnd > eventStart
    case EventEndBeforeStart => eventEnd < eventStart
  }

  /** validateRegistrationDates: one message per violated rule, in the
      order server.js checks them. */
  function ValidateRegistrationDates(today: Day, regStart: Day, regEnd: Day, eventStart: Day, eventEnd: Day)
    : (errs: seq<DateError>)
    ensures errs == [] <==> today <= regStart <= regEnd <= eventStart <= eventEnd
    ensures forall e :: e in errs <==> Violates(e, today, regStart, regEnd, eventStart, eventEnd)
    ensures forall i, j :: 0 <= i < j < |errs| ==> errs[i] != errs[j]
  {
    (if regStart < today then [RegStartInPast] else [])
    + (if regEnd < regStart then [RegEndBeforeRegStart] else [])
    + (if regEnd > eventStart then [RegEndAfterEventStart] else [])
    + (if eventEnd < eventStart then [EventEndBeforeStart] else [])
  }

  // ---------------------------------------------------------------------
  // Day intervals and the clash test between events
  // ---------------------------------------------------------------------

  /** A closed interval of days, such as an event's dates or its
      registration window. */
  datatype Span = Span(first: Day, last: Day)

  predicate WellFormed(s: Span)
  {
    s.first <= s.last
  }

  /** Two closed intervals share at least one day. */
  predicate Intersects(a: Span, b: Span)
  {
    a.first <= b.last && b.first <= a.last
  }

  /** The three-clause SQL test of a stored interval `o` against a candidate
      `n`: `o` contains `n`'s first day, or contains `n`'s last day, or lies
      inside `n`. */
  function SqlOverlap(o: Span, n: Span): (r: bool)
    ensures WellFormed(o) && WellFormed(n) ==> (r <==> Intersects(o, n))
  {
    || (o.first <= n.first && o.last >= n.first)
    || (o.first <= n.last && o.last >= n.last)
    || (o.first >= n.first && o.last <= n.last)
  }

  /** The two-clause SQL cross test of a stored interval `o` against a candidate
      `n`: they intersect, or `o` contains `n`. */
  function SqlCrossOverlap(o: Span, n: Span): (r: bool)
    ensures WellFormed(n) ==> (r <==> Intersects(o, n))
  {
    || (o.first <= n.last && o.last >= n.first)
    || (o.first <= n.first && o.last >= n.last)
  }

  /** The clash test of event create and update: a stored event with dates
      `oEvent` and registration window `oReg` against a candidate with dates
      `nEvent` and window `nReg`. */
  function EventsClash(oEvent: Span, oReg: Span, nEvent: Span, nReg: Span): (r: bool)
    ensures WellFormed(oEvent) && WellFormed(oReg) && WellFormed(nEvent) && WellFormed(nReg) ==>
      (r <==> || Intersects(oEvent, nEvent) || Intersects(oReg, nReg)
              || Intersects(oEvent, nReg) || Intersects(oReg, nEvent))
  {
    || SqlOverlap(oEvent, nEvent)
    || SqlOverlap(oReg, nReg)
    || SqlCrossOverlap(oEvent, nReg)
    || SqlCrossOverlap(oReg, nEvent)
  }

  /** On well-formed intervals the clash test does not depend on which event is
      the stored one and which the candidate. */
  lemma ClashIsSymmetric(a: Span, aReg: Span, b: Span, bReg: Span)
    requires WellFormed(a) && WellFormed(aReg) && WellFormed(b) && WellFormed(bReg)
    ensures EventsClash(a, aReg, b, bReg) == EventsClash(b, bReg, a, aReg)
  {
  }

  /** The three-clause test relies on well-formed intervals: an interval whose
      end precedes its start can pass it without sharing a day. */
  lemma SqlOverlapOnMalformedInterval()
    ensures SqlOverlap(Span(5, 3), Span(4, 6)) && !Intersects(Span(5, 3), Span(4, 6))
  {
  }

  // ---------------------------------------------------------------------
  // Times of matches
  // ---------------------------------------------------------------------

  /** `getHours()` of a moment. */
  function HourOf(t: Minute): (h: int)
    ensures 0 <= h < 24
  {
    (t / 60) % 24
  }

  /** 'Match time must be between 8:00 AM and 10:00 PM'. */
  predicate InPlayingHours(t: Minute)
  {
    8 <= HourOf(t) < 22
  }

  /** The minute of the day a moment falls at. */
  function MinuteOfDay(t: Minute): (m: int)
    ensures 0 <= m < MinutesPerDay
  {
    t % MinutesPerDay
  }

  /** The playing hours are the minutes 08:00 to 21:59 of every day. */
  lemma PlayingHoursAsMinutes(t: Minute)
    ensures InPlayingHours(t) <==> 480 <= MinuteOfDay(t) < 1320
  {
    var q := t / MinutesPerDay;
    var m := t % MinutesPerDay;
    assert t == q * MinutesPerDay + m;
    assert t / 60 == q * 24 + m / 60;
    assert (t / 60) % 24 == m / 60;
  }

  /** The span test of server.js: not before the first day's midnight and not
      after 23:59 of the last day. */
  predicate WithinEventSpan(t: Minute, s: Span)
  {
    !(t < s.first * MinutesPerDay || t > s.last * MinutesPerDay + (MinutesPerDay - 1))
  }

  /** A moment is within an event's span exactly when its day is one of the
      event's days. */
  lemma WithinEventSpanByDay(t: Minute, s: Span)
    ensures WithinEventSpan(t, s) <==> s.first <= DayOf(t) <= s.last
  {
    var d := DayOf(t);
    assert d * MinutesPerDay <= t < d * MinutesPerDay + MinutesPerDay;
    if s.first <= d {
      assert s.first * MinutesPerDay <= d * MinutesPerDay;
    } else {
      assert (d + 1) * MinutesPerDay <= s.first * MinutesPerDay;
    }
    if d <= s.last {
      assert d * MinutesPerDay <= s.last * MinutesPerDay;
    } else {
      assert (s.last + 1) * MinutesPerDay <= d * MinutesPerDay;
    }
  }

  function Abs(x: int): (r: nat)
    ensures r == x || r == -x
  {
    if x < 0 then -x else x
  }

  /** `ABS(TIMESTAMPDIFF(MINUTE, a, b)) < 120`: the two moments are less than
      two hours apart. */
  predicate WithinTwoHours(a: Minute, b: Minute)
  {
    Abs(b - a) < 120
  }

  /** The two-hour test is symmetric, bounded on both sides, and exactly two
      hours apart is not a conflict. */
  lemma TwoHourWindow(a: Minute, b: Minute)
    ensures WithinTwoHours(a, b) <==> WithinTwoHours(b, a)
    ensures WithinTwoHours(a, b) <==> a - 120 < b < a + 120
    ensures !WithinTwoHours(a, a + 120) && WithinTwoHours(a, a + 119)
  {
  }
}
