/** The event lifecycle as functions on the Events and Matches tables: the
    registration-status refresh, the demotion and promotion of activation,
    and the cancellation of an event's pending matches. */
module Lifecycle {
  import opened Wrappers
  import opened Dates
  import opened Tables
  import opened Entities

  /** `e` with its cached registration status recomputed for `today`. */
  function Refresh(e: Event, today: Day): (r: Event)
    ensures r.regStatus == CalculateRegistrationStatus(today, e.reg.first, e.reg.last)
    ensures r.(regStatus := e.regStatus) == e
  {
    e.(regStatus := CalculateRegistrationStatus(today, e.reg.first, e.reg.last))
  }

  /** Every event refreshed: what the listing endpoint leaves in the table. */
  function Refreshed(evs: map<Id, Event>, today: Day): (r: map<Id, Event>)
    ensures r.Keys == evs.Keys
    ensures forall k :: k in r ==> r[k] == Refresh(evs[k], today)
  {
    map k | k in evs :: Refresh(evs[k], today)
  }

  /** After a refresh every cached status agrees with the calendar, and a
      second refresh on the same day changes nothing. */
  lemma RefreshedIsCurrent(evs: map<Id, Event>, today: Day)
    ensures forall k :: k in Refreshed(evs, today) ==>
      (Refreshed(evs, today)[k].regStatus == Open <==> evs[k].reg.first <= today <= evs[k].reg.last)
    ensures Refreshed(Refreshed(evs, today), today) == Refreshed(evs, today)
  {
    var r := Refreshed(evs, today);
    forall k | k in r ensures Refresh(r[k], today) == r[k] {
      assert r[k].reg == evs[k].reg;
    }
  }

  predicate IsActive(e: Event)
  {
    e.status == Active
  }

  /** The active event a SELECT without ORDER BY lists first. */
  function FirstActive(evs: map<Id, Event>, next: Id): (r: Option<Id>)
    ensures r.Some? ==> r.value in evs && IsActive(evs[r.value])
    ensures KeysBelow(evs, next) ==> (r.None? <==> forall k :: k in evs ==> !IsActive(evs[k]))
  {
    FirstKeyWhere(evs, IsActive, 0, next)
  }

  /** UPDATE Events SET status = 'completed' WHERE status = 'active'. */
  function CompleteActive(evs: map<Id, Event>): (r: map<Id, Event>)
    ensures r.Keys == evs.Keys
    ensures forall k :: k in r ==> !IsActive(r[k])
    ensures forall k :: k in r ==> r[k] == if IsActive(evs[k]) then evs[k].(status := Completed) else evs[k]
  {
    map k | k in evs :: if IsActive(evs[k]) then evs[k].(status := Completed) else evs[k]
  }

  /** Activation: every active event completed, then the target made active.
      Exactly one event is active afterwards. */
  function Promote(evs: map<Id, Event>, id: Id): (r: map<Id, Event>)
    requires id in evs
    ensures r.Keys == evs.Keys
    ensures forall k :: k in r ==> (IsActive(r[k]) <==> k == id)
    ensures r[id] == evs[id].(status := Active)
    ensures forall k :: k in evs && k != id ==>
      r[k] == if IsActive(evs[k]) then evs[k].(status := Completed) else evs[k]
  {
    var c := CompleteActive(evs);
    c[id := c[id].(status := Active)]
  }

  /** UPDATE Matches SET status = 'cancelled' WHERE event_id = ? AND status
      IN ('scheduled', 'live'): afterwards no match of the event is in play,
      and no other match changes. */
  function CancelEventMatches(ms: map<Id, Match>, event: Id): (r: map<Id, Match>)
    ensures r.Keys == ms.Keys
    ensures forall k :: k in r && r[k].event == event ==> !InPlay(r[k].status)
    ensures forall k :: k in r && r[k] != ms[k] ==>
      ms[k].event == event && InPlay(ms[k].status) && r[k] == ms[k].(status := Cancelled)
  {
    map k | k in ms :: if ms[k].event == event && InPlay(ms[k].status) then ms[k].(status := Cancelled) else ms[k]
  }
  // ---------------------------------------------------------------------
  // The event queries behind create, update, open and reopen
  // ---------------------------------------------------------------------

  /** A stored event that blocks a candidate with dates `span` and window
      `reg`: it is not completed and the clash test fires. */
  predicate ClashesWith(e: Event, span: Span, reg: Span)
  {
    e.status != Completed && EventsClash(e.span, e.reg, span, reg)
  }

  /** A stored event whose registrations compete with the window `reg`: it is
      open for registration or active, and its window overlaps `reg` by the
      three-clause test. */
  predicate RegCompetes(e: Event, reg: Span)
  {
    (e.status == RegistrationOpen || e.status == Active) && SqlOverlap(e.reg, reg)
  }

  /** The event dates an update ends with: each given date replaces the
      stored one. */
  function FinalSpan(e: Event, start: Option<Day>, end: Option<Day>): Span
  {
    Span(start.GetOr(e.span.first), end.GetOr(e.span.last))
  }

  /** The registration window an update ends with. */
  function FinalReg(e: Event, regStart: Option<Day>, regEnd: Option<Day>): Span
  {
    Span(regStart.GetOr(e.reg.first), regEnd.GetOr(e.reg.last))
  }

  /** A match of `event` that is still to be played. */
  predicate PendingMatchOf(m: Match, event: Id)
  {
    m.event == event && InPlay(m.status)
  }

  /** A completed match of `event`. */
  predicate CompletedMatchOf(m: Match, event: Id)
  {
    m.event == event && m.status == MatchCompleted
  }

  /** A match of `event` still to be played, if any. */
  function PendingMatchIn(ms: map<Id, Match>, next: Id, event: Id): (r: Option<Id>)
    ensures r.Some? ==> r.value in ms && PendingMatchOf(ms[r.value], event)
    ensures KeysBelow(ms, next) ==> (r.None? <==> forall k :: k in ms ==> !PendingMatchOf(ms[k], event))
  {
    FirstKeyWhere(ms, (m: Match) => PendingMatchOf(m, event), 0, next)
  }

  /** A completed match of `event`, if any. */
  function CompletedMatchIn(ms: map<Id, Match>, next: Id, event: Id): (r: Option<Id>)
    ensures r.Some? ==> r.value in ms && CompletedMatchOf(ms[r.value], event)
    ensures KeysBelow(ms, next) ==> (r.None? <==> forall k :: k in ms ==> !CompletedMatchOf(ms[k], event))
  {
    FirstKeyWhere(ms, (m: Match) => CompletedMatchOf(m, event), 0, next)
  }

  /** A stored event other than `self` that clashes with the candidate dates,
      if any. */
  function ClashingEvent(evs: map<Id, Event>, next: Id, self: Option<Id>, span: Span, reg: Span): (r: Option<Id>)
    ensures r.Some? ==> r.value in evs && Some(r.value) != self && ClashesWith(evs[r.value], span, reg)
    ensures KeysBelow(evs, next) ==>
      (r.None? <==> forall k :: k in evs && Some(k) != self ==> !ClashesWith(evs[k], span, reg))
  {
    var others := map k | k in evs && Some(k) != self :: evs[k];
    assert forall k :: k in others <==> k in evs && Some(k) != self;
    var r := FirstKeyWhere(others, (e: Event) => ClashesWith(e, span, reg), 0, next);
    assert KeysBelow(evs, next) ==> (r.None? <==> forall k :: k in others ==> !ClashesWith(others[k], span, reg));
    r
  }

  /** A stored event other than `self` whose registrations compete with the
      window `reg`, if any. */
  function CompetingEvent(evs: map<Id, Event>, next: Id, self: Id, reg: Span): (r: Option<Id>)
    ensures r.Some? ==> r.value in evs && r.value != self && RegCompetes(evs[r.value], reg)
    ensures KeysBelow(evs, next) ==>
      (r.None? <==> forall k :: k in evs && k != self ==> !RegCompetes(evs[k], reg))
  {
    var others := map k | k in evs && k != self :: evs[k];
    assert forall k :: k in others <==> k in evs && k != self;
    var r := FirstKeyWhere(others, (e: Event) => RegCompetes(e, reg), 0, next);
    assert KeysBelow(evs, next) ==> (r.None? <==> forall k :: k in others ==> !RegCompetes(others[k], reg));
    r
  }
}
