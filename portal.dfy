/** The portal's store and its endpoints. Each table is a field that the
    endpoints reassign; an endpoint answers Ok or Err, and every Err leaves
    the whole store, id counters included, as it found it, as the
    transactions of the team endpoints do and as the early returns of the
    others do. */
module Portal {
  import opened Wrappers
  import opened Text
  import opened Dates
  import opened Roster
  import opened Standings
  import opened Tables
  import opened Entities
  import opened Lifecycle
  import opened Admission
  import opened Scoring
  import opened Scheduling
  import opened Catalog

  /** Every score belongs to a stored match that is completed. */
  predicate ScoresBelongToCompletedMatches(scores: map<Id, Score>, matches: map<Id, Match>)
  {
    forall k :: k in scores ==> k in matches && matches[k].status == MatchCompleted
  }

  /** The guards a team registration passes before its transaction, in the
      store `d`. */
  predicate RegistrationChecksPass(d: Db, today: Day, manager: Id, name: string, sport: Id, event: Id,
                                   payment: Option<string>, ps: seq<PlayerInput>)
  {
    && event in d.events
    && d.events[event].regStatus == Open
    && d.events[event].reg.first <= today <= d.events[event].reg.last
    && (forall k :: k in d.teams ==> !Blocks(d.teams[k], manager, sport, event))
    && TeamNameOk(name)
    && sport in d.sports
    && (d.sports[sport].fee > 0.0 ==> payment.Some?)
    && RosterAccepted(ps, d.sports[sport].name, d.sports[sport].teamSize, d.sports[sport].maxSubs)
  }

  /** Every guard of a team registration, the per-player field checks of its
      transaction included. */
  predicate RegistrationAccepted(d: Db, today: Day, manager: Id, name: string, sport: Id, event: Id,
                                 payment: Option<string>, ps: seq<PlayerInput>)
  {
    RegistrationChecksPass(d, today, manager, name, sport, event, payment, ps) && AllFieldsValid(ps)
  }

  /** The registration window checks: the event's cached status, then today
      against the window's first and last day. */
  function WindowRefusal(e: Event, today: Day): (r: Option<Error>)
    ensures r.None? <==> e.regStatus == Open && e.reg.first <= today <= e.reg.last
    ensures r == Some(RegistrationsNotOpen) <==> e.regStatus == NotStarted
    ensures r == Some(RegistrationsClosed) <==> e.regStatus == Closed
    ensures r.Some? ==> r.value in {RegistrationsNotOpen, RegistrationsClosed, BeforeRegStart, AfterRegEnd}
  {
    match e.regStatus
    case NotStarted => Some(RegistrationsNotOpen)
    case Closed => Some(RegistrationsClosed)
    case Open =>
      if today < e.reg.first then Some(BeforeRegStart)
      else if today > e.reg.last then Some(AfterRegEnd)
      else None
  }

  /** The roster rules of a sport, with validatePlayers' messages. */
  function RosterRefusal(sp: Sport, ps: seq<PlayerInput>): (r: Option<Error>)
    ensures r.None? <==> RosterAccepted(ps, sp.name, sp.teamSize, sp.maxSubs)
    ensures r.Some? ==> r.value.InvalidRoster? && r.value.roster == ValidatePlayers(ps, sp.name, sp.teamSize, sp.maxSubs)
  {
    var errs := ValidatePlayers(ps, sp.name, sp.teamSize, sp.maxSubs);
    if errs != [] then Some(InvalidRoster(errs)) else None
  }

  /** The sport's checks: a fee needs a payment screenshot, then the roster
      must pass the roster rules of the sport. */
  function SportRefusal(sp: Sport, payment: Option<string>, ps: seq<PlayerInput>): (r: Option<Error>)
    ensures r.None? <==>
      (sp.fee > 0.0 ==> payment.Some?) && RosterAccepted(ps, sp.name, sp.teamSize, sp.maxSubs)
    ensures r == Some(PaymentRequired) <==> sp.fee > 0.0 && payment.None?
    ensures r.Some? && r != Some(PaymentRequired) ==>
      r.value.InvalidRoster? && r.value.roster == ValidatePlayers(ps, sp.name, sp.teamSize, sp.maxSubs)
  {
    if sp.fee > 0.0 && payment.None? then Some(PaymentRequired)
    else RosterRefusal(sp, ps)
  }

  /** The checks on the team itself: no earlier team of the manager blocks
      it, its trimmed name has 3 to 50 characters, and its sport exists. */
  function TeamRefusal(teams: map<Id, Team>, nextTeam: Id, sports: map<Id, Sport>, manager: Id, name: string,
                       sport: Id, event: Id): (r: Option<Error>)
    ensures r == Some(PreviouslyDisqualified) ==>
      exists k :: k in teams && Blocks(teams[k], manager, sport, event) && teams[k].status == Disqualified
    ensures r.Some? ==> r.value in {PreviouslyDisqualified, AlreadyApproved, AlreadyPending,
                                    TeamNameTooShort, TeamNameTooLong, InvalidSport}
    ensures KeysBelow(teams, nextTeam) ==>
      (r.None? <==> (forall k :: k in teams ==> !Blocks(teams[k], manager, sport, event))
                    && TeamNameOk(name) && sport in sports)
  {
    var blocking := BlockingTeam(teams, nextTeam, manager, sport, event);
    if blocking.Some? then Some(BlockError(teams[blocking.value].status))
    else if Utf16Length(Trim(name)) < 3 then Some(TeamNameTooShort)
    else if Utf16Length(Trim(name)) > 50 then Some(TeamNameTooLong)
    else if sport !in sports then Some(InvalidSport)
    else None
  }

  /** The first refusal of the checks a registration runs before its
      transaction, in the endpoint's order: the event, its registration
      window, the team, then the sport's payment and roster rules. */
  function RegistrationRefusal(d: Db, today: Day, manager: Id, name: string, sport: Id, event: Id,
                               payment: Option<string>, ps: seq<PlayerInput>): (r: Option<Error>)
    ensures event !in d.events ==> r == Some(EventNotFound)
    ensures r.Some? ==> !r.value.InvalidPlayer?
    ensures r.Some? && r.value.InvalidRoster? ==>
      && sport in d.sports
      && r.value.roster == ValidatePlayers(ps, d.sports[sport].name, d.sports[sport].teamSize, d.sports[sport].maxSubs)
    ensures KeysBelow(d.teams, d.nextTeam) ==>
      (r.None? <==> RegistrationChecksPass(d, today, manager, name, sport, event, payment, ps))
  {
    if event !in d.events then Some(EventNotFound)
    else
      var w := WindowRefusal(d.events[event], today);
      if w.Some? then w
      else
        var t := TeamRefusal(d.teams, d.nextTeam, d.sports, manager, name, sport, event);
        if t.Some? then t
        else SportRefusal(d.sports[sport], payment, ps)
  }

  /** The guards a team update passes before its roster is stored: the
      team exists; an admin may edit any team, its manager only while it is
      pending; a non-empty name has 3 to 50 characters after trimming; and
      a new roster passes the roster rules of the team's sport. */
  predicate UpdateChecksPass(d: Db, actor: Id, isAdmin: bool, id: Id, name: string, ps: Option<seq<PlayerInput>>)
  {
    && id in d.teams
    && (isAdmin || (d.teams[id].manager == actor && d.teams[id].status == Pending))
    && (name != [] ==> TeamNameOk(name))
    && (ps.Some? ==>
          && d.teams[id].sport in d.sports
          && var sp := d.sports[d.teams[id].sport];
             RosterAccepted(ps.value, sp.name, sp.teamSize, sp.maxSubs))
  }

  /** The first refusal of a team update's checks, in the endpoint's order. */
  function UpdateRefusal(d: Db, actor: Id, isAdmin: bool, id: Id, name: string,
                         ps: Option<seq<PlayerInput>>): (r: Option<Error>)
    ensures id !in d.teams ==> r == Some(TeamNotFound)
    ensures id in d.teams && !isAdmin && d.teams[id].manager != actor ==> r == Some(NotAuthorized)
    ensures r == Some(OnlyPendingTeams) ==> !isAdmin && id in d.teams && d.teams[id].status != Pending
    ensures r.Some? ==> !r.value.InvalidPlayer?
    ensures r.Some? && r.value.InvalidRoster? ==>
      && ps.Some? && id in d.teams && d.teams[id].sport in d.sports
      && var sp := d.sports[d.teams[id].sport];
         r.value.roster == ValidatePlayers(ps.value, sp.name, sp.teamSize, sp.maxSubs)
    ensures r.None? <==> UpdateChecksPass(d, actor, isAdmin, id, name, ps)
  {
    if id !in d.teams then Some(TeamNotFound)
    else
      var t := d.teams[id];
      if !isAdmin && t.manager != actor then Some(NotAuthorized)
      else if !isAdmin && t.status != Pending then Some(OnlyPendingTeams)
      else if name != [] && !TeamNameOk(name) then Some(TeamNameLength)
      else if ps.None? then None
      else if t.sport !in d.sports then Some(InvalidSport)
      else RosterRefusal(d.sports[t.sport], ps.value)
  }

  /** The team exists and the admin queries' join finds its sport and event. */
  predicate TeamJoined(d: Db, id: Id)
  {
    id in d.teams && d.teams[id].sport in d.sports && d.teams[id].event in d.events
  }

  /** The guards a match schedule request passes, in the store `d`. */
  predicate ScheduleAccepted(d: Db, event: Id, sport: Id, t1: Id, t2: Id, venue: Option<Id>, date: Minute)
  {
    && t1 != t2
    && (venue.Some? && venue.value in d.venues ==>
          && (d.venues[venue.value].sport.None? || d.venues[venue.value].sport == Some(sport))
          && !VenueConflict(d.matches, venue.value, date))
    && (exists a, b :: a in d.teams && b in d.teams && a != b
                       && ApprovedIn(d.teams[a], event, sport) && ApprovedIn(d.teams[b], event, sport))
    && t1 in d.teams && t2 in d.teams
    && d.teams[t1].status == Approved && d.teams[t2].status == Approved
    && InPlayingHours(date)
    && event in d.events && WithinEventSpan(date, d.events[event].span)
    && !TeamConflict(d.matches, d.teams, t1, t2, date)
  }

  /** The venue checks of scheduling: a venue that exists must not be tied
      to another sport and must be free within two hours of the match. */
  function VenueRefusal(venues: map<Id, Venue>, matches: map<Id, Match>, nextMatch: Id, sport: Id,
                        venue: Option<Id>, date: Minute): (r: Option<Error>)
    ensures r.Some? ==> venue.Some? && venue.value in venues
    ensures r == Some(VenueUnsuitable) <==>
      venue.Some? && venue.value in venues && venues[venue.value].sport.Some? && venues[venue.value].sport != Some(sport)
    ensures r.Some? && r != Some(VenueUnsuitable) ==> r == Some(VenueBusy) && VenueConflict(matches, venue.value, date)
    ensures KeysBelow(matches, nextMatch) ==>
      (r.None? <==> (venue.Some? && venue.value in venues ==>
                       && (venues[venue.value].sport.None? || venues[venue.value].sport == Some(sport))
                       && !VenueConflict(matches, venue.value, date)))
  {
    if venue.None? || venue.value !in venues then None
    else if venues[venue.value].sport.Some? && venues[venue.value].sport != Some(sport) then Some(VenueUnsuitable)
    else if VenueClash(matches, nextMatch, venue.value, date).Some? then Some(VenueBusy)
    else None
  }

  /** The count of approved teams behind the two-team minimum. */
  lemma ApprovedPairCount(teams: map<Id, Team>, event: Id, sport: Id, next: nat)
    ensures KeysBelow(teams, next) ==>
      (CountApproved(teams, event, sport, next) >= 2 <==>
         exists a, b :: a in teams && b in teams && a != b
                        && ApprovedIn(teams[a], event, sport) && ApprovedIn(teams[b], event, sport))
  {
    if KeysBelow(teams, next) {
      TwoApprovedTeams(teams, event, sport, next);
    }
  }

  /** The team checks of scheduling: two approved teams in the event's sport,
      then both named teams stored and approved. */
  function PairRefusal(teams: map<Id, Team>, nextTeam: Id, event: Id, sport: Id, t1: Id, t2: Id): (r: Option<Error>)
    ensures r.Some? ==> r.value in {TooFewTeams, TeamsNotFound, TeamsNotApproved}
    ensures r == Some(TeamsNotFound) ==> t1 !in teams || t2 !in teams
    ensures r == Some(TeamsNotApproved) ==> t1 in teams && t2 in teams
                                            && (teams[t1].status != Approved || teams[t2].status != Approved)
    ensures KeysBelow(teams, nextTeam) ==>
      (r == Some(TooFewTeams) <==>
         !exists a, b :: a in teams && b in teams && a != b
                         && ApprovedIn(teams[a], event, sport) && ApprovedIn(teams[b], event, sport))
    ensures KeysBelow(teams, nextTeam) ==>
      (r.None? <==>
         && (exists a, b :: a in teams && b in teams && a != b
                            && ApprovedIn(teams[a], event, sport) && ApprovedIn(teams[b], event, sport))
         && t1 in teams && t2 in teams && teams[t1].status == Approved && teams[t2].status == Approved)
  {
    ApprovedPairCount(teams, event, sport, nextTeam);
    if CountApproved(teams, event, sport, nextTeam) < 2 then Some(TooFewTeams)
    else if t1 !in teams || t2 !in teams then Some(TeamsNotFound)
    else if teams[t1].status != Approved || teams[t2].status != Approved then Some(TeamsNotApproved)
    else None
  }

  /** The presence test of the schedule endpoint: `!x` refuses an absent
      field and an id of 0. */
  predicate ScheduleFieldsGiven(event: Option<Id>, sport: Option<Id>, t1: Option<Id>, t2: Option<Id>, date: Option<Minute>)
  {
    && event.Some? && event.value != 0 && sport.Some? && sport.value != 0
    && t1.Some? && t1.value != 0 && t2.Some? && t2.value != 0 && date.Some?
  }

  /** `venue_id || null`: an absent venue and a venue id of 0 are both NULL,
      any other id is kept. */
  function VenueOrNull(venue: Option<Id>): (r: Option<Id>)
    ensures r.None? <==> venue.None? || venue.value == 0
    ensures r.Some? ==> r == venue
  {
    if venue == Some(0) then None else venue
  }

  /** The first refusal of the schedule endpoint, in the endpoint's order:
      the same team twice, the venue, the teams, the playing hours, the
      event's dates, then a team's other match within two hours. */
  function ScheduleRefusal(d: Db, event: Id, sport: Id, t1: Id, t2: Id, venue: Option<Id>, date: Minute)
    : (r: Option<Error>)
    ensures t1 == t2 ==> r == Some(SameTeams)
    ensures r == Some(VenueBusy) ==> venue.Some? && VenueConflict(d.matches, venue.value, date)
    ensures r == Some(TeamBusy) ==> TeamConflict(d.matches, d.teams, t1, t2, date)
    ensures r == Some(OutsidePlayingHours) ==> !InPlayingHours(date)
    ensures KeysBelow(d.matches, d.nextMatch) && KeysBelow(d.teams, d.nextTeam) ==>
      (r.None? <==> ScheduleAccepted(d, event, sport, t1, t2, venue, date))
  {
    if t1 == t2 then Some(SameTeams)
    else
      var v := VenueRefusal(d.venues, d.matches, d.nextMatch, sport, venue, date);
      if v.Some? then v
      else
        var p := PairRefusal(d.teams, d.nextTeam, event, sport, t1, t2);
        if p.Some? then p
        else if !InPlayingHours(date) then Some(OutsidePlayingHours)
        else if event !in d.events then Some(EventNotFound)
        else if !WithinEventSpan(date, d.events[event].span) then Some(OutsideEventDates)
        else if TeamClash(d.matches, d.teams, d.nextMatch, t1, t2, date).Some? then Some(TeamBusy)
        else None
  }

  /** The guards a match update passes: the match exists; a completed match
      may only be sent with the completed status; a new time is in playing
      hours and clear of the teams' other matches. */
  predicate RescheduleAccepted(d: Db, id: Id, date: Option<Minute>, status: Option<MatchStatus>)
  {
    && id in d.matches
    && (d.matches[id].status == MatchCompleted ==> status == Some(MatchCompleted))
    && (date.Some? ==>
          && InPlayingHours(date.value)
          && !RescheduleConflict(d.matches, id, d.matches[id].team1, d.matches[id].team2, date.value))
  }

  /** The first refusal of the match update endpoint, in the endpoint's order. */
  function RescheduleRefusal(d: Db, id: Id, date: Option<Minute>, status: Option<MatchStatus>): (r: Option<Error>)
    ensures id !in d.matches ==> r == Some(MatchNotFound)
    ensures r == Some(MatchIsCompleted) <==>
      id in d.matches && d.matches[id].status == MatchCompleted && status != Some(MatchCompleted)
    ensures r == Some(TeamBusy) ==>
      date.Some? && RescheduleConflict(d.matches, id, d.matches[id].team1, d.matches[id].team2, date.value)
    ensures KeysBelow(d.matches, d.nextMatch) ==> (r.None? <==> RescheduleAccepted(d, id, date, status))
  {
    if id !in d.matches then Some(MatchNotFound)
    else
      var m := d.matches[id];
      if m.status == MatchCompleted && status != Some(MatchCompleted) then Some(MatchIsCompleted)
      else if date.None? then None
      else if !InPlayingHours(date.value) then Some(OutsidePlayingHours)
      else if RescheduleClash(d.matches, d.nextMatch, id, m.team1, m.team2, date.value).Some? then Some(TeamBusy)
      else None
  }

  /** The guards a score passes: both scores in 0..100, the match found
      with both its teams, and its scheduled time reached. */
  predicate ScoreAccepted(d: Db, id: Id, s1: int, s2: int, now: Minute)
  {
    && 0 <= s1 <= 100 && 0 <= s2 <= 100
    && id in d.matches && d.matches[id].team1 in d.teams && d.matches[id].team2 in d.teams
    && now >= d.matches[id].date
  }

  /** The first refusal of the score endpoint, in the endpoint's order. */
  function ScoreRefusal(d: Db, id: Id, s1: int, s2: int, now: Minute): (r: Option<Error>)
    ensures r == Some(NegativeScore) <==> s1 < 0 || s2 < 0
    ensures r == Some(ScoreTooHigh) <==> 0 <= s1 && 0 <= s2 && (s1 > 100 || s2 > 100)
    ensures r == Some(TooEarly) ==> id in d.matches && now < d.matches[id].date
    ensures r.None? <==> ScoreAccepted(d, id, s1, s2, now)
  {
    if s1 < 0 || s2 < 0 then Some(NegativeScore)
    else if s1 > 100 || s2 > 100 then Some(ScoreTooHigh)
    else if id !in d.matches || d.matches[id].team1 !in d.teams || d.matches[id].team2 !in d.teams then Some(MatchNotFound)
    else if now < d.matches[id].date then Some(TooEarly)
    else None
  }

  /** The PointsTable after a score for match `m` is entered: an earlier score
      of the match is rolled back first, then the new one is applied. */
  function PointsAfterScore(points: map<Id, PointsRow>, m: Match, earlier: Option<Score>, s: Score)
    : (r: map<Id, PointsRow>)
    ensures r.Keys == points.Keys
    ensures earlier.None? ==> r == ApplyScore(points, m, s)
    ensures forall base :: earlier.Some? && points == ApplyScore(base, m, earlier.value) ==> r == ApplyScore(base, m, s)
  {
    if earlier.Some? then
      CorrectionsReplace(m, earlier.value, s);
      ApplyScore(UndoScore(points, m, earlier.value), m, s)
    else ApplyScore(points, m, s)
  }

  lemma CorrectionsReplace(m: Match, a: Score, b: Score)
    ensures forall base :: ApplyScore(UndoScore(ApplyScore(base, m, a), m, a), m, b) == ApplyScore(base, m, b)
  {
    forall base { CorrectionReplacesResult(base, m, a, b); }
  }

  /** The loop of the player inserts: each player's fields are checked in
      turn and, if they pass, its row goes in at the next id. The first
      player that fails stops the loop with its field error. */
  method InsertRows(table: map<Id, PlayerRow>, next: Id, team: Id, ps: seq<PlayerInput>)
    returns (failure: Option<FieldError>, rows: map<Id, PlayerRow>, last: Id)
    ensures failure.None? <==> AllFieldsValid(ps)
    ensures failure.Some? ==> exists i :: 0 <= i < |ps| && CheckPlayerFields(ps[i]) == failure
                                           && forall j :: 0 <= j < i ==> CheckPlayerFields(ps[j]).None?
    ensures failure.None? ==> rows == table + RosterRows(team, ps, next) && last == next + |ps|
    ensures KeysBelow(table, next) ==> KeysBelow(rows, last)
  {
    rows, last := table, next;
    var i := 0;
    while i < |ps|
      invariant 0 <= i <= |ps|
      invariant AllFieldsValid(ps[..i])
      invariant rows == table + RosterRows(team, ps[..i], next)
      invariant last == next + i
      invariant KeysBelow(table, next) ==> KeysBelow(rows, last)
    {
      var fe := CheckPlayerFields(ps[i]);
      if fe.Some? {
        FieldsValidPrefix(ps, i);
        return fe, rows, last;
      }
      InsertRowExtends(rows, table, team, ps, i, next, last);
      FieldsValidExtend(ps, i);
      rows := rows[last := NewPlayerRow(team, ps[i])];
      last := last + 1;
      i := i + 1;
    }
    assert ps[..|ps|] == ps;
    return None, rows, last;
  }

  class Portal {
    var events: map<Id, Event>
    var sports: map<Id, Sport>
    var venues: map<Id, Venue>
    var eventSports: set<(Id, Id)>
    var teams: map<Id, Team>
    var players: map<Id, PlayerRow>
    var matches: map<Id, Match>
    var scores: map<Id, Score>
    var points: map<Id, PointsRow>
    var teamLog: seq<TeamLog>
    var matchLog: seq<MatchLog>
    var nextEvent: Id
    var nextSport: Id
    var nextVenue: Id
    var nextTeam: Id
    var nextPlayer: Id
    var nextMatch: Id
    var nextPoints: Id

    /** Every row id is below its table's counter, and scores only exist for
        completed matches. */
    ghost predicate Valid()
      reads this
    {
      && KeysBelow(events, nextEvent) && KeysBelow(sports, nextSport) && KeysBelow(venues, nextVenue)
      && KeysBelow(teams, nextTeam) && KeysBelow(players, nextPlayer) && KeysBelow(matches, nextMatch)
      && KeysBelow(points, nextPoints)
      && ScoresBelongToCompletedMatches(scores, matches)
    }

    /** The whole store as one value. */
    function Tables(): Db
      reads this
    {
      Db(events, sports, venues, eventSports, teams, players, matches, scores, points, teamLog, matchLog,
         nextEvent, nextSport, nextVenue, nextTeam, nextPlayer, nextMatch, nextPoints)
    }

    /** An empty store; AUTO_INCREMENT ids start at 1. */
    constructor ()
      ensures Valid()
      ensures Tables() == Db(map[], map[], map[], {}, map[], map[], map[], map[], map[], [], [], 1, 1, 1, 1, 1, 1, 1)
    {
      events, sports, venues, eventSports := map[], map[], map[], {};
      teams, players, matches, scores, points := map[], map[], map[], map[], map[];
      teamLog, matchLog := [], [];
      nextEvent, nextSport, nextVenue, nextTeam, nextPlayer, nextMatch, nextPoints := 1, 1, 1, 1, 1, 1, 1;
    }

    // -------------------------------------------------------------------
    // Events
    // -------------------------------------------------------------------

    /** The listing's pass over the Events table: each event whose cached
        registration status differs from the calendar's is rewritten, and
        nothing else changes. */
    method RefreshRegistrationStatuses(today: Day)
      requires Valid()
      modifies this
      ensures Valid()
      ensures Tables() == old(Tables()).(events := Refreshed(old(events), today))
    {
      var evs, i := events, 0;
      while i < nextEvent
        invariant 0 <= i <= nextEvent
        invariant evs.Keys == events.Keys
        invariant forall k :: k in evs ==> evs[k] == if k < i then Refresh(events[k], today) else events[k]
      {
        if i in evs {
          var e := evs[i];
          var status := CalculateRegistrationStatus(today, e.reg.first, e.reg.last);
          if status != e.regStatus {
            evs := evs[i := e.(regStatus := status)];
          }
        }
        i := i + 1;
      }
      assert evs == Refreshed(events, today);
      events := evs;
    }

    /** Create an event. It needs a name, event dates and registration
        dates; the dates must be ordered today <= registration start <=
        registration end <= event start <= event end; and no event that is
        not completed may clash with it. The new event is planned, its
        location defaults to "TBD" and its registration status is computed
        for today. */
    method CreateEvent(today: Day, name: string, start: Option<Day>, end: Option<Day>, location: string,
                       description: string, regStart: Option<Day>, regEnd: Option<Day>)
      returns (r: Result<Id, Error>)
      requires Valid()
      modifies this
      ensures Valid()
      ensures r.Err? ==> Tables() == old(Tables())
      ensures name == [] || start.None? || end.None? ==> r == Err(EventFieldsMissing)
      ensures name != [] && start.Some? && end.Some? && (regStart.None? || regEnd.None?) ==> r == Err(RegDatesMissing)
      ensures r.Err? && r.error.InvalidDates? ==>
        && start.Some? && end.Some? && regStart.Some? && regEnd.Some?
        && r.error.errors == ValidateRegistrationDates(today, regStart.value, regEnd.value, start.value, end.value)
        && r.error.errors != []
      ensures r.Err? && r.error.DateConflict? ==>
        && start.Some? && end.Some? && regStart.Some? && regEnd.Some?
        && r.error.other in old(events)
        && ClashesWith(old(events)[r.error.other], Span(start.value, end.value), Span(regStart.value, regEnd.value))
      ensures r.Ok? <==>
        && name != [] && start.Some? && end.Some? && regStart.Some? && regEnd.Some?
        && today <= regStart.value <= regEnd.value <= start.value <= end.value
        && forall k :: k in old(events) ==>
             !ClashesWith(old(events)[k], Span(start.value, end.value), Span(regStart.value, regEnd.value))
      ensures r.Ok? ==> r.value == old(nextEvent) && Tables() == old(Tables()).(
        events := old(events)[old(nextEvent) := Event(name, Span(start.value, end.value), Span(regStart.value, regEnd.value),
                                                      if location == [] then "TBD" else location, description, Planned,
                                                      CalculateRegistrationStatus(today, regStart.value, regEnd.value))],
        nextEvent := old(nextEvent) + 1)
    {
      if name == [] || start.None? || end.None? {
        return Err(EventFieldsMissing);
      }
      if regStart.None? || regEnd.None? {
        return Err(RegDatesMissing);
      }
      var span, reg := Span(start.value, end.value), Span(regStart.value, regEnd.value);
      var errs := ValidateRegistrationDates(today, reg.first, reg.last, span.first, span.last);
      if errs != [] {
        return Err(InvalidDates(errs));
      }
      var clash := ClashingEvent(events, nextEvent, None, span, reg);
      if clash.Some? {
        return Err(DateConflict(clash.value));
      }
      var id := nextEvent;
      events := events[id := Event(name, span, reg, if location == [] then "TBD" else location, description, Planned,
                                   CalculateRegistrationStatus(today, reg.first, reg.last))];
      nextEvent := nextEvent + 1;
      return Ok(id);
    }

    /** Update an event that is not completed. Each given field replaces the
        stored one (an empty name keeps the old name). When a registration
        date is given the final dates must be ordered as for creation and the
        registration status is recomputed; when any date is given, no other
        event that is not completed may clash with the final dates. */
    method UpdateEvent(today: Day, id: Id, name: string, start: Option<Day>, end: Option<Day>,
                       location: Option<string>, description: Option<string>,
                       regStart: Option<Day>, regEnd: Option<Day>)
      returns (r: Result<(), Error>)
      requires Valid()
      modifies this
      ensures Valid()
      ensures r.Err? ==> Tables() == old(Tables())
      ensures id !in old(events) ==> r == Err(EventNotFound)
      ensures id in old(events) && old(events)[id].status == Completed ==> r == Err(EventCompleted)
      ensures r.Err? && r.error.DateConflict? ==>
        && id in old(events) && r.error.other in old(events) && r.error.other != id
        && ClashesWith(old(events)[r.error.other], FinalSpan(old(events)[id], start, end),
                       FinalReg(old(events)[id], regStart, regEnd))
      ensures r.Ok? <==>
        && id in old(events) && old(events)[id].status != Completed
        && (regStart.Some? || regEnd.Some? ==>
              var span, reg := FinalSpan(old(events)[id], start, end), FinalReg(old(events)[id], regStart, regEnd);
              today <= reg.first <= reg.last <= span.first <= span.last)
        && (regStart.Some? || regEnd.Some? || start.Some? || end.Some? ==>
              forall k :: k in old(events) && k != id ==>
                !ClashesWith(old(events)[k], FinalSpan(old(events)[id], start, end), FinalReg(old(events)[id], regStart, regEnd)))
      ensures r.Ok? ==>
        var e := old(events)[id];
        var reg := FinalReg(e, regStart, regEnd);
        Tables() == old(Tables()).(events := old(events)[id := Event(
          if name == [] then e.name else name, FinalSpan(e, start, end), reg,
          location.GetOr(e.location), description.GetOr(e.description), e.status,
          if regStart.Some? || regEnd.Some? then CalculateRegistrationStatus(today, reg.first, reg.last) else e.regStatus)])
    {
      if id !in events {
        return Err(EventNotFound);
      }
      var e := events[id];
      if e.status == Completed {
        return Err(EventCompleted);
      }
      var span, reg := FinalSpan(e, start, end), FinalReg(e, regStart, regEnd);
      if regStart.Some? || regEnd.Some? {
        var errs := ValidateRegistrationDates(today, reg.first, reg.last, span.first, span.last);
        if errs != [] {
          return Err(InvalidDates(errs));
        }
      }
      if regStart.Some? || regEnd.Some? || start.Some? || end.Some? {
        var clash := ClashingEvent(events, nextEvent, Some(id), span, reg);
        if clash.Some? {
          return Err(DateConflict(clash.value));
        }
      }
      events := events[id := Event(
        if name == [] then e.name else name, span, reg, location.GetOr(e.location), description.GetOr(e.description),
        e.status, if regStart.Some? || regEnd.Some? then CalculateRegistrationStatus(today, reg.first, reg.last) else e.regStatus)];
      return Ok(());
    }

    /** Open registrations for a planned event: no other event open for
        registration or active may have an overlapping window, and today must
        lie inside the event's own window. */
    method OpenRegistrations(today: Day, id: Id) returns (r: Result<(), Error>)
      requires Valid()
      modifies this
      ensures Valid()
      ensures r.Err? ==> Tables() == old(Tables())
      ensures id !in old(events) ==> r == Err(EventNotFound)
      ensures id in old(events) && old(events)[id].status == RegistrationOpen ==> r == Err(RegistrationsAlreadyOpen)
      ensures r.Err? && r.error.RegOverlap? ==>
        && id in old(events) && r.error.other in old(events) && r.error.other != id
        && RegCompetes(old(events)[r.error.other], old(events)[id].reg)
      ensures r == Err(RegNotStartedYet) ==> id in old(events) && today < old(events)[id].reg.first
      ensures r == Err(RegPeriodEnded) ==> id in old(events) && old(events)[id].reg.last < today
      ensures r.Ok? <==>
        && id in old(events) && old(events)[id].status == Planned
        && (forall k :: k in old(events) && k != id ==> !RegCompetes(old(events)[k], old(events)[id].reg))
        && old(events)[id].reg.first <= today <= old(events)[id].reg.last
      ensures r.Ok? ==>
        Tables() == old(Tables()).(events := old(events)[id := old(events)[id].(status := RegistrationOpen, regStatus := Open)])
    {
      if id !in events {
        return Err(EventNotFound);
      }
      var e := events[id];
      if e.status == RegistrationOpen {
        return Err(RegistrationsAlreadyOpen);
      }
      if e.status == Active || e.status == Completed {
        return Err(WrongEventStatus(e.status));
      }
      var overlap := CompetingEvent(events, nextEvent, id, e.reg);
      if overlap.Some? {
        return Err(RegOverlap(overlap.value));
      }
      var status := CalculateRegistrationStatus(today, e.reg.first, e.reg.last);
      if status == NotStarted {
        return Err(RegNotStartedYet);
      }
      if status == Closed {
        return Err(RegPeriodEnded);
      }
      events := events[id := e.(status := RegistrationOpen, regStatus := Open)];
      return Ok(());
    }

    /** Give an event that is not completed and has not started a new
        registration window: the dates must be ordered today <= start <= end
        <= event start <= event end, and no other event open for
        registration or active may have an overlapping window. The event is
        then open for registration, its status computed for today. */
    method ReopenRegistrations(today: Day, id: Id, regStart: Option<Day>, regEnd: Option<Day>)
      returns (r: Result<(), Error>)
      requires Valid()
      modifies this
      ensures Valid()
      ensures r.Err? ==> Tables() == old(Tables())
      ensures regStart.None? || regEnd.None? ==> r == Err(RegDatesMissing)
      ensures regStart.Some? && regEnd.Some? && id !in old(events) ==> r == Err(EventNotFound)
      ensures r == Err(EventStarted) ==> id in old(events) && old(events)[id].span.first <= today
      ensures r.Err? && r.error.RegOverlap? ==>
        && regStart.Some? && regEnd.Some? && r.error.other in old(events) && r.error.other != id
        && RegCompetes(old(events)[r.error.other], Span(regStart.value, regEnd.value))
      ensures r.Ok? <==>
        && regStart.Some? && regEnd.Some? && id in old(events) && old(events)[id].status != Completed
        && today < old(events)[id].span.first
        && today <= regStart.value <= regEnd.value <= old(events)[id].span.first <= old(events)[id].span.last
        && forall k :: k in old(events) && k != id ==> !RegCompetes(old(events)[k], Span(regStart.value, regEnd.value))
      ensures r.Ok? ==> Tables() == old(Tables()).(events := old(events)[id := old(events)[id].(
        reg := Span(regStart.value, regEnd.value),
        regStatus := CalculateRegistrationStatus(today, regStart.value, regEnd.value),
        status := RegistrationOpen)])
    {
      if regStart.None? || regEnd.None? {
        return Err(RegDatesMissing);
      }
      if id !in events {
        return Err(EventNotFound);
      }
      var e := events[id];
      if e.status == Completed {
        return Err(EventCompleted);
      }
      if today >= e.span.first {
        return Err(EventStarted);
      }
      var reg := Span(regStart.value, regEnd.value);
      var errs := ValidateRegistrationDates(today, reg.first, reg.last, e.span.first, e.span.last);
      if errs != [] {
        return Err(InvalidDates(errs));
      }
      var overlap := CompetingEvent(events, nextEvent, id, reg);
      if overlap.Some? {
        return Err(RegOverlap(overlap.value));
      }
      events := events[id := e.(reg := reg, regStatus := CalculateRegistrationStatus(today, reg.first, reg.last),
                               status := RegistrationOpen)];
      return Ok(());
    }

    /** Close registrations of a planned or open event whose registrations
        are not already closed and none of whose teams is pending. Only the
        cached registration status changes. */
    method CloseRegistrations(id: Id) returns (r: Result<(), Error>)
      requires Valid()
      modifies this
      ensures Valid()
      ensures r.Err? ==> Tables() == old(Tables())
      ensures id !in old(events) ==> r == Err(EventNotFound)
      ensures r == Err(PendingTeams) ==> exists k :: k in old(teams) && PendingIn(old(teams)[k], id)
      ensures r.Ok? <==>
        && id in old(events)
        && (old(events)[id].status == Planned || old(events)[id].status == RegistrationOpen)
        && old(events)[id].regStatus != Closed
        && forall k :: k in old(teams) ==> !PendingIn(old(teams)[k], id)
      ensures r.Ok? ==> Tables() == old(Tables()).(events := old(events)[id := old(events)[id].(regStatus := Closed)])
    {
      if id !in events {
        return Err(EventNotFound);
      }
      var e := events[id];
      if e.status == Active || e.status == Completed {
        return Err(WrongEventStatus(e.status));
      }
      if e.regStatus == Closed {
        return Err(RegistrationsAlreadyClosed);
      }
      var pending := PendingTeamOf(teams, nextTeam, id);
      if pending.Some? {
        return Err(PendingTeams);
      }
      events := events[id := e.(regStatus := Closed)];
      return Ok(());
    }

    /** Delete an event unless it has a completed match. The Events row goes
        and nothing else changes; a missing event is no error. */
    method DeleteEvent(id: Id) returns (r: Result<(), Error>)
      requires Valid()
      modifies this
      ensures Valid()
      ensures r.Err? ==> r == Err(HasCompletedMatches) && Tables() == old(Tables())
      ensures r.Ok? <==> forall k :: k in old(matches) ==> !CompletedMatchOf(old(matches)[k], id)
      ensures r.Ok? ==> Tables() == old(Tables()).(events := old(events) - {id})
    {
      var played := CompletedMatchIn(matches, nextMatch, id);
      if played.Some? {
        return Err(HasCompletedMatches);
      }
      events := events - {id};
      return Ok(());
    }

    /** Mark an active event completed. */
    method CompleteEvent(id: Id) returns (r: Result<(), Error>)
      requires Valid()
      modifies this
      ensures Valid()
      ensures r.Err? ==> Tables() == old(Tables())
      ensures id !in old(events) ==> r == Err(EventNotFound)
      ensures r.Ok? <==> id in old(events) && old(events)[id].status == Active
      ensures r.Ok? ==> Tables() == old(Tables()).(events := old(events)[id := old(events)[id].(status := Completed)])
    {
      if id !in events {
        return Err(EventNotFound);
      }
      if events[id].status != Active {
        return Err(NotActive);
      }
      events := events[id := events[id].(status := Completed)];
      return Ok(());
    }

    /** Set a completed event active again; other active events are left as
        they are. */
    method ReopenEvent(id: Id) returns (r: Result<(), Error>)
      requires Valid()
      modifies this
      ensures Valid()
      ensures r.Err? ==> Tables() == old(Tables())
      ensures id !in old(events) ==> r == Err(EventNotFound)
      ensures r.Ok? <==> id in old(events) && old(events)[id].status == Completed
      ensures r.Ok? ==> Tables() == old(Tables()).(events := old(events)[id := old(events)[id].(status := Active)])
    {
      if id !in events {
        return Err(EventNotFound);
      }
      if events[id].status != Completed {
        return Err(NotCompleted);
      }
      events := events[id := events[id].(status := Active)];
      return Ok(());
    }

    /** Activate an event whose registrations are closed and none of whose
        teams is pending. If an event is already active and still has
        matches to play, this needs `force`, which cancels those matches.
        Every active event is completed and the target becomes the only
        active event. Only the first active event (in id order) is looked
        at. */
    method ActivateEvent(id: Id, force: bool) returns (r: Result<(), Error>)
      requires Valid()
      modifies this
      ensures Valid()
      ensures r.Err? ==> Tables() == old(Tables())
      ensures id !in old(events) ==> r == Err(EventNotFound)
      ensures r.Err? && r.error.RequiresForce? ==>
        && !force && r.error.current in old(events) && IsActive(old(events)[r.error.current])
        && exists k :: k in old(matches) && PendingMatchOf(old(matches)[k], r.error.current)
      ensures r.Ok? <==>
        && id in old(events) && old(events)[id].regStatus == Closed
        && (forall k :: k in old(teams) ==> !PendingIn(old(teams)[k], id))
        && (force || FirstActive(old(events), old(nextEvent)).None? ||
            forall k :: k in old(matches) ==> !PendingMatchOf(old(matches)[k], FirstActive(old(events), old(nextEvent)).value))
      ensures r.Ok? ==> forall k :: k in events ==> (IsActive(events[k]) <==> k == id)
      ensures r.Ok? ==>
        var current := FirstActive(old(events), old(nextEvent));
        Tables() == old(Tables()).(
          events := Promote(old(events), id),
          matches := if force && current.Some? then CancelEventMatches(old(matches), current.value) else old(matches))
    {
      if id !in events {
        return Err(EventNotFound);
      }
      if events[id].regStatus != Closed {
        return Err(RegNotClosed);
      }
      var pending := PendingTeamOf(teams, nextTeam, id);
      if pending.Some? {
        return Err(PendingTeams);
      }
      var current := FirstActive(events, nextEvent);
      if current.Some? && !force && PendingMatchIn(matches, nextMatch, current.value).Some? {
        return Err(RequiresForce(current.value));
      }
      if force && current.Some? {
        CancelPendingMatches(current.value);
      }
      PromoteEvent(id);
      return Ok(());
    }

    /** The forced activation's cancellation of an event's matches still to
        be played; completed matches, and so the scores, are untouched. */
    method CancelPendingMatches(event: Id)
      requires Valid()
      modifies this
      ensures Valid()
      ensures Tables() == old(Tables()).(matches := CancelEventMatches(old(matches), event))
    {
      matches := CancelEventMatches(matches, event);
    }

    /** The activation's two updates: every active event completed, then
        `id` made active. */
    method PromoteEvent(id: Id)
      requires Valid() && id in events
      modifies this
      ensures Valid()
      ensures Tables() == old(Tables()).(events := Promote(old(events), id))
    {
      events := Promote(events, id);
    }
  
    // -------------------------------------------------------------------
    // Sports, venues and the sports of an event
    // -------------------------------------------------------------------

    /** Create a sport: a name and a team size of 1 to 50 are required, a
        positive fee must lie between 200 and 5000 (a missing fee is 0), and
        no sport may have the same name up to ASCII case. */
    method CreateSport(name: string, teamSize: int, maxSubs: int, fee: Option<real>, rules: string, status: string)
      returns (r: Result<Id, Error>)
      requires Valid()
      modifies this
      ensures Valid()
      ensures r.Err? ==> Tables() == old(Tables())
      ensures name == [] || teamSize == 0 ==> r == Err(SportFieldsMissing)
      ensures r == Err(TeamSizeOutOfRange) ==> teamSize < 1 || teamSize > 50
      ensures r == Err(FeeOutOfRange) ==> 0.0 < fee.GetOr(0.0) && (fee.GetOr(0.0) < 200.0 || fee.GetOr(0.0) > 5000.0)
      ensures r == Err(DuplicateSportName) ==> NameTaken(old(sports), name)
      ensures r.Ok? <==>
        name != [] && 1 <= teamSize <= 50 && FeeAllowed(fee.GetOr(0.0)) && !NameTaken(old(sports), name)
      ensures r.Ok? ==> r.value == old(nextSport) && Tables() == old(Tables()).(
        sports := old(sports)[old(nextSport) := NewSport(name, teamSize, maxSubs, fee, rules, status)],
        nextSport := old(nextSport) + 1)
    {
      if name == [] || teamSize == 0 {
        return Err(SportFieldsMissing);
      }
      if teamSize < 1 || teamSize > 50 {
        return Err(TeamSizeOutOfRange);
      }
      if !FeeAllowed(fee.GetOr(0.0)) {
        return Err(FeeOutOfRange);
      }
      var same := FirstKeyWhere(sports, (sp: Sport) => SameIgnoringCase(sp.name, name), 0, nextSport);
      if same.Some? {
        return Err(DuplicateSportName);
      }
      var id := nextSport;
      sports := sports[id := NewSport(name, teamSize, maxSubs, fee, rules, status)];
      nextSport := nextSport + 1;
      return Ok(id);
    }

    /** Delete a sport that no approved team plays, together with its
        EventSports links. */
    method DeleteSport(id: Id) returns (r: Result<(), Error>)
      requires Valid()
      modifies this
      ensures Valid()
      ensures r.Err? ==> Tables() == old(Tables())
      ensures id !in old(sports) ==> r == Err(SportNotFound)
      ensures r.Ok? <==>
        id in old(sports) && forall k :: k in old(teams) ==> !(old(teams)[k].sport == id && old(teams)[k].status == Approved)
      ensures r.Ok? ==> Tables() == old(Tables()).(sports := old(sports) - {id}, eventSports := WithoutSport(old(eventSports), id))
    {
      if id !in sports {
        return Err(SportNotFound);
      }
      var approved := FirstKeyWhere(teams, (t: Team) => t.sport == id && t.status == Approved, 0, nextTeam);
      if approved.Some? {
        return Err(ApprovedTeamsExist);
      }
      eventSports := WithoutSport(eventSports, id);
      sports := sports - {id};
      return Ok(());
    }

    /** Create a venue; it needs a name and a sport, and a sport id of 0 is
        refused as missing because it is falsy. */
    method CreateVenue(name: string, location: string, capacity: Option<int>, contact: string, sport: Option<Id>)
      returns (r: Result<Id, Error>)
      requires Valid()
      modifies this
      ensures Valid()
      ensures r.Err? ==> Tables() == old(Tables())
      ensures name == [] ==> r == Err(VenueNameMissing)
      ensures name != [] && (sport.None? || sport.value == 0) ==> r == Err(VenueSportMissing)
      ensures r.Ok? <==> name != [] && sport.Some? && sport.value != 0
      ensures r.Ok? ==> r.value == old(nextVenue) && Tables() == old(Tables()).(
        venues := old(venues)[old(nextVenue) := NewVenue(name, location, capacity, contact, sport.value)],
        nextVenue := old(nextVenue) + 1)
    {
      if name == [] {
        return Err(VenueNameMissing);
      }
      if sport.None? || sport.value == 0 {
        return Err(VenueSportMissing);
      }
      var id := nextVenue;
      venues := venues[id := NewVenue(name, location, capacity, contact, sport.value)];
      nextVenue := nextVenue + 1;
      return Ok(id);
    }

    /** Delete a venue that no match, past or future, refers to. */
    method DeleteVenue(id: Id) returns (r: Result<(), Error>)
      requires Valid()
      modifies this
      ensures Valid()
      ensures r.Err? ==> Tables() == old(Tables())
      ensures id !in old(venues) ==> r == Err(VenueNotFound)
      ensures r.Ok? <==> id in old(venues) && forall k :: k in old(matches) ==> old(matches)[k].venue != Some(id)
      ensures r.Ok? ==> Tables() == old(Tables()).(venues := old(venues) - {id})
    {
      if id !in venues {
        return Err(VenueNotFound);
      }
      var used := FirstKeyWhere(matches, (m: Match) => m.venue == Some(id), 0, nextMatch);
      if used.Some? {
        return Err(VenueInUse);
      }
      venues := venues - {id};
      return Ok(());
    }

    /** Link a sport to an event unless the link exists. Neither id is
        looked up. */
    method AddSportToEvent(event: Id, sport: Id) returns (r: Result<(), Error>)
      requires Valid()
      modifies this
      ensures Valid()
      ensures r.Err? ==> r == Err(SportAlreadyAdded) && Tables() == old(Tables())
      ensures r.Ok? <==> (event, sport) !in old(eventSports)
      ensures r.Ok? ==> Tables() == old(Tables()).(eventSports := old(eventSports) + {(event, sport)})
    {
      if (event, sport) in eventSports {
        return Err(SportAlreadyAdded);
      }
      eventSports := eventSports + {(event, sport)};
      return Ok(());
    }

    /** Unlink a sport from the active event, unless the event has approved
        teams in that sport. */
    method RemoveSportFromEvent(event: Id, sport: Id) returns (r: Result<(), Error>)
      requires Valid()
      modifies this
      ensures Valid()
      ensures r.Err? ==> Tables() == old(Tables())
      ensures event !in old(events) || old(events)[event].status != Active ==> r == Err(NotActive)
      ensures r.Ok? <==>
        && event in old(events) && old(events)[event].status == Active
        && forall k :: k in old(teams) ==> !ApprovedIn(old(teams)[k], event, sport)
      ensures r.Ok? ==> Tables() == old(Tables()).(eventSports := old(eventSports) - {(event, sport)})
    {
      if event !in events || events[event].status != Active {
        return Err(NotActive);
      }
      CountApprovedZero(teams, event, sport, nextTeam);
      if CountApproved(teams, event, sport, nextTeam) > 0 {
        return Err(ApprovedTeamsExist);
      }
      eventSports := eventSports - {(event, sport)};
      return Ok(());
    }

    // -------------------------------------------------------------------
    // Teams
    // -------------------------------------------------------------------

    /** The player insertion loop: each player's fields are checked and, if
        they pass, its row is inserted at the next player id. The first
        player that fails stops the loop with its field error; only the
        Players table and its counter change. */
    method InsertPlayers(team: Id, ps: seq<PlayerInput>) returns (failure: Option<FieldError>)
      requires KeysBelow(players, nextPlayer)
      modifies this`players, this`nextPlayer
      ensures KeysBelow(players, nextPlayer)
      ensures failure.None? <==> AllFieldsValid(ps)
      ensures failure.Some? ==> exists i :: 0 <= i < |ps| && CheckPlayerFields(ps[i]) == failure
                                             && forall j :: 0 <= j < i ==> CheckPlayerFields(ps[j]).None?
      ensures failure.Some? ==> Tables() == old(Tables())
      ensures failure.None? ==> Tables() == old(Tables()).(
        players := old(players) + RosterRows(team, ps, old(nextPlayer)), nextPlayer := old(nextPlayer) + |ps|)
    {
      var table, next;
      failure, table, next := InsertRows(players, nextPlayer, team, ps);
      if failure.None? {
        SetPlayers(table, next);
      }
    }

    /** The Players table and its counter once a roster's rows are in. */
    method SetPlayers(table: map<Id, PlayerRow>, next: Id)
      modifies this`players, this`nextPlayer
      ensures Tables() == old(Tables()).(players := table, nextPlayer := next)
    {
      players, nextPlayer := table, next;
    }

    /** The registration transaction once its checks have passed: the team
        row at the next team id, then its players one at a time, then its
        "created" history row. A player whose fields fail rolls the whole
        transaction back. */
    method InsertTeam(t: Team, ps: seq<PlayerInput>) returns (r: Result<Id, Error>)
      requires Valid()
      modifies this
      ensures Valid()
      ensures r.Err? ==> Tables() == old(Tables()) && r.error.InvalidPlayer?
      ensures r.Err? ==> exists i :: 0 <= i < |ps| && CheckPlayerFields(ps[i]) == Some(r.error.field)
                                     && forall j :: 0 <= j < i ==> CheckPlayerFields(ps[j]).None?
      ensures r.Ok? <==> AllFieldsValid(ps)
      ensures r.Ok? ==> r.value == old(nextTeam) && Tables() == old(Tables()).(
        teams := old(teams)[old(nextTeam) := t],
        players := old(players) + RosterRows(old(nextTeam), ps, old(nextPlayer)),
        teamLog := old(teamLog) + [TeamLog(old(nextTeam), "created", t.manager, "Team registered by manager")],
        nextTeam := old(nextTeam) + 1,
        nextPlayer := old(nextPlayer) + |ps|)
    {
      var id, savedTeams := nextTeam, teams;
      AddTeamRow(t);
      var failure := InsertPlayers(id, ps);
      if failure.Some? {
        RestoreTeams(savedTeams, id);
        return Err(InvalidPlayer(failure.value));
      }
      AppendTeamLog(TeamLog(id, "created", t.manager, "Team registered by manager"));
      return Ok(id);
    }

    /** The Teams insert of a registration. */
    method AddTeamRow(t: Team)
      requires Valid()
      modifies this
      ensures Valid()
      ensures Tables() == old(Tables()).(teams := old(teams)[old(nextTeam) := t], nextTeam := old(nextTeam) + 1)
    {
      teams := teams[nextTeam := t];
      nextTeam := nextTeam + 1;
    }

    /** The rollback of a team transaction: the Teams table and its counter
        as they were before it began. */
    method RestoreTeams(ts: map<Id, Team>, nt: Id)
      requires Valid() && KeysBelow(ts, nt)
      modifies this
      ensures Valid()
      ensures Tables() == old(Tables()).(teams := ts, nextTeam := nt)
    {
      teams, nextTeam := ts, nt;
    }

    /** The rollback of a roster replacement: the Players table as it was. */
    method RestorePlayers(ps: map<Id, PlayerRow>)
      requires Valid() && KeysBelow(ps, nextPlayer)
      modifies this
      ensures Valid()
      ensures Tables() == old(Tables()).(players := ps)
    {
      players := ps;
    }

    /** One TeamRegistrationHistory row. */
    method AppendTeamLog(entry: TeamLog)
      requires Valid()
      modifies this
      ensures Valid()
      ensures Tables() == old(Tables()).(teamLog := old(teamLog) + [entry])
    {
      teamLog := teamLog + [entry];
    }

    /** Register a team for a sport of an event, under the checks of
        registration in the endpoint's order: the event exists, its cached
        registration status is open and today lies in its window; the
        manager has no pending, approved or disqualified team for the same
        sport and event; the trimmed name has 3 to 50 characters; the sport
        exists; a sport with a fee needs a payment screenshot; the roster
        passes the roster rules; and every player's fields pass, checked as
        each row is inserted. The team is stored pending with its trimmed
        name, followed by its players and a "created" history row. */
    method RegisterTeam(today: Day, manager: Id, name: string, sport: Id, event: Id,
                        logo: Option<string>, payment: Option<string>, ps: seq<PlayerInput>)
      returns (r: Result<Id, Error>)
      requires Valid()
      modifies this
      ensures Valid()
      ensures r.Err? ==> Tables() == old(Tables())
      ensures var refusal := RegistrationRefusal(old(Tables()), today, manager, name, sport, event, payment, ps);
        refusal.Some? ==> r == Err(refusal.value)
      ensures r.Err? && r.error.InvalidPlayer? ==>
        exists i :: 0 <= i < |ps| && CheckPlayerFields(ps[i]) == Some(r.error.field)
                    && forall j :: 0 <= j < i ==> CheckPlayerFields(ps[j]).None?
      ensures r.Ok? <==> RegistrationAccepted(old(Tables()), today, manager, name, sport, event, payment, ps)
      ensures r.Ok? ==> r.value == old(nextTeam) && Tables() == old(Tables()).(
        teams := old(teams)[old(nextTeam) := Team(Trim(name), manager, sport, event, logo, payment, Pending, None)],
        players := old(players) + RosterRows(old(nextTeam), ps, old(nextPlayer)),
        teamLog := old(teamLog) + [TeamLog(old(nextTeam), "created", manager, "Team registered by manager")],
        nextTeam := old(nextTeam) + 1,
        nextPlayer := old(nextPlayer) + |ps|)
    {
      var refusal := RegistrationRefusal(Tables(), today, manager, name, sport, event, payment, ps);
      if refusal.Some? {
        return Err(refusal.value);
      }
      r := InsertTeam(Team(Trim(name), manager, sport, event, logo, payment, Pending, None), ps);
    }

    /** Approve a team the join finds, whatever its status: it becomes
        approved, gets a zeroed PointsTable row for its event and sport, and
        an "approved" history row. */
    method ApproveTeam(actor: Id, id: Id) returns (r: Result<(), Error>)
      requires Valid()
      modifies this
      ensures Valid()
      ensures r.Err? ==> r == Err(TeamNotFound) && Tables() == old(Tables())
      ensures r.Ok? <==> TeamJoined(old(Tables()), id)
      ensures r.Ok? ==>
        var t := old(teams)[id];
        Tables() == old(Tables()).(
          teams := old(teams)[id := t.(status := Approved)],
          points := old(points)[old(nextPoints) := PointsRow(t.event, t.sport, id, Zeroed)],
          nextPoints := old(nextPoints) + 1,
          teamLog := old(teamLog) + [TeamLog(id, "approved", actor, "Approved by admin")])
    {
      if id !in teams || teams[id].sport !in sports || teams[id].event !in events {
        return Err(TeamNotFound);
      }
      var t := teams[id];
      SetTeamRow(id, t.(status := Approved));
      AddPointsRow(PointsRow(t.event, t.sport, id, Zeroed));
      AppendTeamLog(TeamLog(id, "approved", actor, "Approved by admin"));
      return Ok(());
    }

    /** Reject a team the join finds, whatever its status, recording the
        reason (an empty reason is stored as NULL) and a "rejected" history
        row. The manager may register again. */
    method RejectTeam(actor: Id, id: Id, reason: string) returns (r: Result<(), Error>)
      requires Valid()
      modifies this
      ensures Valid()
      ensures r.Err? ==> r == Err(TeamNotFound) && Tables() == old(Tables())
      ensures r.Ok? <==> TeamJoined(old(Tables()), id)
      ensures r.Ok? ==> Tables() == old(Tables()).(
        teams := old(teams)[id := old(teams)[id].(status := Rejected, rejectionReason := if reason == [] then None else Some(reason))],
        teamLog := old(teamLog) + [TeamLog(id, "rejected", actor, if reason == [] then "Rejected by admin" else reason)])
    {
      if id !in teams || teams[id].sport !in sports || teams[id].event !in events {
        return Err(TeamNotFound);
      }
      SetTeamRow(id, teams[id].(status := Rejected, rejectionReason := if reason == [] then None else Some(reason)));
      AppendTeamLog(TeamLog(id, "rejected", actor, if reason == [] then "Rejected by admin" else reason));
      return Ok(());
    }

    /** The PointsTable insert of an approval. */
    method AddPointsRow(row: PointsRow)
      requires Valid()
      modifies this
      ensures Valid()
      ensures Tables() == old(Tables()).(points := old(points)[old(nextPoints) := row], nextPoints := old(nextPoints) + 1)
    {
      points := points[nextPoints := row];
      nextPoints := nextPoints + 1;
    }

    /** An UPDATE of PointsTable rows, keeping its row ids. */
    method SetPoints(pts: map<Id, PointsRow>)
      requires Valid() && pts.Keys == points.Keys
      modifies this
      ensures Valid()
      ensures Tables() == old(Tables()).(points := pts)
    {
      points := pts;
    }

    /** The disqualification's cancellation of the team's future scheduled
        matches; completed matches, and so the scores, are untouched. */
    method CancelFutureMatchesOf(team: Id, now: Minute)
      requires Valid()
      modifies this
      ensures Valid()
      ensures Tables() == old(Tables()).(matches := CancelFutureMatches(old(matches), team, now))
    {
      matches := CancelFutureMatches(matches, team, now);
    }

    /** Disqualify a team the join finds that is not already disqualified:
        the reason is recorded (by default "Disqualified by admin"), the
        points, wins and draws of its PointsTable rows are reset, its future
        scheduled matches are cancelled, and a "disqualified" history row is
        added. */
    method DisqualifyTeam(actor: Id, id: Id, reason: string, now: Minute) returns (r: Result<(), Error>)
      requires Valid()
      modifies this
      ensures Valid()
      ensures r.Err? ==> Tables() == old(Tables())
      ensures !TeamJoined(old(Tables()), id) ==> r == Err(TeamNotFound)
      ensures r.Ok? <==> TeamJoined(old(Tables()), id) && old(teams)[id].status != Disqualified
      ensures r.Ok? ==>
        var note := if reason == [] then "Disqualified by admin" else reason;
        Tables() == old(Tables()).(
          teams := old(teams)[id := old(teams)[id].(status := Disqualified, rejectionReason := Some(note))],
          points := ResetForDisqualification(old(points), id),
          matches := CancelFutureMatches(old(matches), id, now),
          teamLog := old(teamLog) + [TeamLog(id, "disqualified", actor, note)])
    {
      if id !in teams || teams[id].sport !in sports || teams[id].event !in events {
        return Err(TeamNotFound);
      }
      if teams[id].status == Disqualified {
        return Err(AlreadyDisqualified);
      }
      var note := if reason == [] then "Disqualified by admin" else reason;
      SetTeamRow(id, teams[id].(status := Disqualified, rejectionReason := Some(note)));
      SetPoints(ResetForDisqualification(points, id));
      CancelFutureMatchesOf(id, now);
      AppendTeamLog(TeamLog(id, "disqualified", actor, note));
      return Ok(());
    }

    /** Update a team: an admin may edit any team, a manager only a pending
        team of their own. A non-empty name must have 3 to 50 characters
        after trimming and is stored trimmed. A new roster must pass the
        roster rules of the team's sport and every player's field checks; it
        replaces all of the team's players. An "updated" history row is
        added. */
    method UpdateTeam(actor: Id, isAdmin: bool, id: Id, name: string, ps: Option<seq<PlayerInput>>)
      returns (r: Result<(), Error>)
      requires Valid()
      modifies this
      ensures Valid()
      ensures r.Err? ==> Tables() == old(Tables())
      ensures id !in old(teams) ==> r == Err(TeamNotFound)
      ensures var refusal := UpdateRefusal(old(Tables()), actor, isAdmin, id, name, ps);
        refusal.Some? ==> r == Err(refusal.value)
      ensures r.Err? && r.error.InvalidPlayer? ==>
        ps.Some? && exists i :: 0 <= i < |ps.value| && CheckPlayerFields(ps.value[i]) == Some(r.error.field)
                                && forall j :: 0 <= j < i ==> CheckPlayerFields(ps.value[j]).None?
      ensures r.Ok? <==>
        UpdateChecksPass(old(Tables()), actor, isAdmin, id, name, ps) && (ps.Some? ==> AllFieldsValid(ps.value))
      ensures r.Ok? ==>
        var t := old(teams)[id];
        Tables() == old(Tables()).(
          teams := old(teams)[id := if name == [] then t else t.(name := Trim(name))],
          players := if ps.Some? then WithoutTeamPlayers(old(players), id) + RosterRows(id, ps.value, old(nextPlayer))
                     else old(players),
          nextPlayer := if ps.Some? then old(nextPlayer) + |ps.value| else old(nextPlayer),
          teamLog := old(teamLog) + [TeamLog(id, "updated", actor, "Team details updated")])
    {
      var refusal := UpdateRefusal(Tables(), actor, isAdmin, id, name, ps);
      if refusal.Some? {
        return Err(refusal.value);
      }
      var t := teams[id];
      r := ReplaceTeam(actor, id, if name == [] then t else t.(name := Trim(name)), ps);
    }

    /** The update transaction once its checks have passed: the new Teams
        row, then, for a new roster, the removal of all the team's players
        and the insertion of the new ones one at a time, then the "updated"
        history row. A player whose fields fail rolls it all back. */
    method ReplaceTeam(actor: Id, id: Id, t: Team, ps: Option<seq<PlayerInput>>) returns (r: Result<(), Error>)
      requires Valid() && id in teams
      modifies this
      ensures Valid()
      ensures r.Err? ==> Tables() == old(Tables()) && r.error.InvalidPlayer?
      ensures r.Err? ==>
        ps.Some? && exists i :: 0 <= i < |ps.value| && CheckPlayerFields(ps.value[i]) == Some(r.error.field)
                                && forall j :: 0 <= j < i ==> CheckPlayerFields(ps.value[j]).None?
      ensures r.Ok? <==> (ps.Some? ==> AllFieldsValid(ps.value))
      ensures r.Ok? ==> Tables() == old(Tables()).(
        teams := old(teams)[id := t],
        players := if ps.Some? then WithoutTeamPlayers(old(players), id) + RosterRows(id, ps.value, old(nextPlayer))
                   else old(players),
        nextPlayer := if ps.Some? then old(nextPlayer) + |ps.value| else old(nextPlayer),
        teamLog := old(teamLog) + [TeamLog(id, "updated", actor, "Team details updated")])
    {
      var savedTeams, savedPlayers, savedNextTeam := teams, players, nextTeam;
      SetTeamRow(id, t);
      if ps.Some? {
        DropTeamPlayers(id);
        var failure := InsertPlayers(id, ps.value);
        if failure.Some? {
          RestoreTeams(savedTeams, savedNextTeam);
          RestorePlayers(savedPlayers);
          return Err(InvalidPlayer(failure.value));
        }
      }
      AppendTeamLog(TeamLog(id, "updated", actor, "Team details updated"));
      return Ok(());
    }

    /** An UPDATE of one Teams row. */
    method SetTeamRow(id: Id, t: Team)
      requires Valid() && id in teams
      modifies this
      ensures Valid()
      ensures Tables() == old(Tables()).(teams := old(teams)[id := t])
    {
      teams := teams[id := t];
    }

    /** The DELETE of all of a team's Players rows. */
    method DropTeamPlayers(id: Id)
      requires Valid()
      modifies this
      ensures Valid()
      ensures Tables() == old(Tables()).(players := WithoutTeamPlayers(old(players), id))
    {
      players := WithoutTeamPlayers(players, id);
    }

    /** Delete a team: an admin may delete any team, a manager only a pending
        team of their own; a team with a completed match cannot be deleted.
        Only the Teams row goes. */
    method DeleteTeam(actor: Id, isAdmin: bool, id: Id) returns (r: Result<(), Error>)
      requires Valid()
      modifies this
      ensures Valid()
      ensures r.Err? ==> Tables() == old(Tables())
      ensures id !in old(teams) ==> r == Err(TeamNotFound)
      ensures r == Err(HasCompletedMatches) ==> exists k :: k in old(matches) && CompletedMatchWith(old(matches)[k], id)
      ensures r.Ok? <==>
        && id in old(teams)
        && (isAdmin || (old(teams)[id].manager == actor && old(teams)[id].status == Pending))
        && forall k :: k in old(matches) ==> !CompletedMatchWith(old(matches)[k], id)
      ensures r.Ok? ==> Tables() == old(Tables()).(teams := old(teams) - {id})
    {
      if id !in teams {
        return Err(TeamNotFound);
      }
      if !isAdmin && teams[id].manager != actor {
        return Err(NotAuthorized);
      }
      if !isAdmin && teams[id].status != Pending {
        return Err(OnlyPendingTeams);
      }
      if CompletedMatchOfTeam(matches, nextMatch, id).Some? {
        return Err(HasCompletedMatches);
      }
      teams := teams - {id};
      return Ok(());
    }

    // -------------------------------------------------------------------
    // Matches and scores
    // -------------------------------------------------------------------

    /** Schedule a match once its required fields are present, after the
        checks of ScheduleRefusal; it is stored scheduled at the next match
        id. */
    method ScheduleMatch(event: Id, sport: Id, t1: Id, t2: Id, venue: Option<Id>, date: Minute)
      returns (r: Result<Id, Error>)
      requires Valid()
      modifies this
      ensures Valid()
      ensures r.Err? ==> Tables() == old(Tables())
      ensures var refusal := ScheduleRefusal(old(Tables()), event, sport, t1, t2, venue, date);
        refusal.Some? ==> r == Err(refusal.value)
      ensures r.Ok? <==> ScheduleAccepted(old(Tables()), event, sport, t1, t2, venue, date)
      ensures r.Ok? ==> r.value == old(nextMatch) && Tables() == old(Tables()).(
        matches := old(matches)[old(nextMatch) := Match(event, sport, t1, t2, venue, date, Scheduled)],
        nextMatch := old(nextMatch) + 1)
    {
      var refusal := ScheduleRefusal(Tables(), event, sport, t1, t2, venue, date);
      if refusal.Some? {
        return Err(refusal.value);
      }
      r := AddMatchRow(Match(event, sport, t1, t2, venue, date, Scheduled));
    }

    /** The schedule endpoint as it receives its body: every field except
        the venue must be present, and an id of 0 counts as missing as it is
        falsy; a venue id of 0 is likewise no venue, so its checks are skipped
        and NULL is stored. The remaining checks are those of ScheduleMatch. */
    method ScheduleMatchRequest(event: Option<Id>, sport: Option<Id>, t1: Option<Id>, t2: Option<Id>,
                                venue: Option<Id>, date: Option<Minute>)
      returns (r: Result<Id, Error>)
      requires Valid()
      modifies this
      ensures Valid()
      ensures r.Err? ==> Tables() == old(Tables())
      ensures !ScheduleFieldsGiven(event, sport, t1, t2, date) ==> r == Err(MatchFieldsMissing)
      ensures ScheduleFieldsGiven(event, sport, t1, t2, date) ==>
        var refusal := ScheduleRefusal(old(Tables()), event.value, sport.value, t1.value, t2.value, VenueOrNull(venue), date.value);
        refusal.Some? ==> r == Err(refusal.value)
      ensures r.Ok? <==>
        ScheduleFieldsGiven(event, sport, t1, t2, date)
        && ScheduleAccepted(old(Tables()), event.value, sport.value, t1.value, t2.value, VenueOrNull(venue), date.value)
      ensures r.Ok? ==> r.value == old(nextMatch) && Tables() == old(Tables()).(
        matches := old(matches)[old(nextMatch) := Match(event.value, sport.value, t1.value, t2.value, VenueOrNull(venue), date.value, Scheduled)],
        nextMatch := old(nextMatch) + 1)
      ensures r.Ok? && venue == Some(0) ==> matches[r.value].venue.None?
    {
      if !ScheduleFieldsGiven(event, sport, t1, t2, date) {
        return Err(MatchFieldsMissing);
      }
      r := ScheduleMatch(event.value, sport.value, t1.value, t2.value, VenueOrNull(venue), date.value);
    }

    /** The Matches insert of a scheduled match. */
    method AddMatchRow(m: Match) returns (r: Result<Id, Error>)
      requires Valid() && m.status != MatchCompleted
      modifies this
      ensures Valid()
      ensures r == Ok(old(nextMatch))
      ensures Tables() == old(Tables()).(matches := old(matches)[old(nextMatch) := m], nextMatch := old(nextMatch) + 1)
    {
      var id := nextMatch;
      matches := matches[id := m];
      nextMatch := nextMatch + 1;
      return Ok(id);
    }

    /** One MatchHistory row. */
    method AppendMatchLog(entry: MatchLog)
      requires Valid()
      modifies this
      ensures Valid()
      ensures Tables() == old(Tables()).(matchLog := old(matchLog) + [entry])
    {
      matchLog := matchLog + [entry];
    }

    /** An UPDATE of one Matches row; a match with a score stays completed. */
    method SetMatchRow(id: Id, m: Match)
      requires Valid() && id in matches && (id in scores ==> m.status == MatchCompleted)
      modifies this
      ensures Valid()
      ensures Tables() == old(Tables()).(matches := old(matches)[id := m])
    {
      matches := matches[id := m];
    }

    /** The Scores upsert of a completed match. */
    method SetScore(id: Id, sc: Score)
      requires Valid() && id in matches && matches[id].status == MatchCompleted
      modifies this
      ensures Valid()
      ensures Tables() == old(Tables()).(scores := old(scores)[id := sc])
    {
      scores := scores[id := sc];
    }

    /** Update a match: a new time (in playing hours and clear of the teams'
        other matches) is logged as a reschedule, and the given time, venue
        and status replace the stored ones. */
    method RescheduleMatch(actor: Id, id: Id, date: Option<Minute>, venue: Option<Option<Id>>,
                           status: Option<MatchStatus>)
      returns (r: Result<(), Error>)
      requires Valid()
      modifies this
      ensures Valid()
      ensures r.Err? ==> Tables() == old(Tables())
      ensures var refusal := RescheduleRefusal(old(Tables()), id, date, status);
        refusal.Some? ==> r == Err(refusal.value)
      ensures r.Ok? <==> RescheduleAccepted(old(Tables()), id, date, status)
      ensures r.Ok? ==>
        var m := old(matches)[id];
        Tables() == old(Tables()).(
          matches := old(matches)[id := m.(date := date.GetOr(m.date), venue := venue.GetOr(m.venue),
                                           status := status.GetOr(m.status))],
          matchLog := if date.Some? then old(matchLog) + [MatchLog(id, actor, Rescheduled(m.date, date.value))]
                      else old(matchLog))
    {
      var refusal := RescheduleRefusal(Tables(), id, date, status);
      if refusal.Some? {
        return Err(refusal.value);
      }
      var m := matches[id];
      if date.Some? {
        AppendMatchLog(MatchLog(id, actor, Rescheduled(m.date, date.value)));
      }
      SetMatchRow(id, m.(date := date.GetOr(m.date), venue := venue.GetOr(m.venue),
                         status := status.GetOr(m.status)));
      return Ok(());
    }

    /** Enter or correct a match's score once both scores are present: an
        earlier score's points are rolled back and the correction logged,
        the score is stored with its
        winner (none for a draw), the match is completed, and the new
        result's points are added to both teams' rows. */
    method SubmitScore(actor: Id, id: Id, s1: int, s2: int, now: Minute) returns (r: Result<(), Error>)
      requires Valid()
      modifies this
      ensures Valid()
      ensures r.Err? ==> Tables() == old(Tables())
      ensures var refusal := ScoreRefusal(old(Tables()), id, s1, s2, now);
        refusal.Some? ==> r == Err(refusal.value)
      ensures r.Ok? <==> ScoreAccepted(old(Tables()), id, s1, s2, now)
      ensures r.Ok? ==>
        var m := old(matches)[id];
        var sc := Score(s1, s2, WinnerOf(m.team1, m.team2, s1, s2));
        var earlier := if id in old(scores) then Some(old(scores)[id]) else None;
        Tables() == old(Tables()).(
          scores := old(scores)[id := sc],
          matches := old(matches)[id := m.(status := MatchCompleted)],
          points := PointsAfterScore(old(points), m, earlier, sc),
          matchLog := if earlier.Some?
                      then old(matchLog) + [MatchLog(id, actor, ScoreUpdated(earlier.value.team1Score,
                                                                             earlier.value.team2Score, s1, s2))]
                      else old(matchLog))
    {
      var refusal := ScoreRefusal(Tables(), id, s1, s2, now);
      if refusal.Some? {
        return Err(refusal.value);
      }
      StoreScore(actor, id, s1, s2);
      return Ok(());
    }

    /** The score endpoint as it receives its body: both scores must be
        present; the remaining checks and writes are those of SubmitScore. */
    method SubmitScoreRequest(actor: Id, id: Id, s1: Option<int>, s2: Option<int>, now: Minute)
      returns (r: Result<(), Error>)
      requires Valid()
      modifies this
      ensures Valid()
      ensures r.Err? ==> Tables() == old(Tables())
      ensures s1.None? || s2.None? ==> r == Err(ScoresMissing)
      ensures s1.Some? && s2.Some? ==>
        var refusal := ScoreRefusal(old(Tables()), id, s1.value, s2.value, now);
        refusal.Some? ==> r == Err(refusal.value)
      ensures r.Ok? <==> s1.Some? && s2.Some? && ScoreAccepted(old(Tables()), id, s1.value, s2.value, now)
      ensures r.Ok? ==>
        var m := old(matches)[id];
        var sc := Score(s1.value, s2.value, WinnerOf(m.team1, m.team2, s1.value, s2.value));
        var earlier := if id in old(scores) then Some(old(scores)[id]) else None;
        Tables() == old(Tables()).(
          scores := old(scores)[id := sc],
          matches := old(matches)[id := m.(status := MatchCompleted)],
          points := PointsAfterScore(old(points), m, earlier, sc),
          matchLog := if earlier.Some?
                      then old(matchLog) + [MatchLog(id, actor, ScoreUpdated(earlier.value.team1Score,
                                                                             earlier.value.team2Score, s1.value, s2.value))]
                      else old(matchLog))
    {
      if s1.None? || s2.None? {
        return Err(ScoresMissing);
      }
      r := SubmitScore(actor, id, s1.value, s2.value, now);
    }

    /** The writes of an accepted score: the correction log row, the
        completed match, the Scores row and the PointsTable. */
    method StoreScore(actor: Id, id: Id, s1: int, s2: int)
      requires Valid() && id in matches
      modifies this
      ensures Valid()
      ensures var m := old(matches)[id];
        var sc := Score(s1, s2, WinnerOf(m.team1, m.team2, s1, s2));
        var earlier := if id in old(scores) then Some(old(scores)[id]) else None;
        Tables() == old(Tables()).(
          scores := old(scores)[id := sc],
          matches := old(matches)[id := m.(status := MatchCompleted)],
          points := PointsAfterScore(old(points), m, earlier, sc),
          matchLog := if earlier.Some?
                      then old(matchLog) + [MatchLog(id, actor, ScoreUpdated(earlier.value.team1Score,
                                                                             earlier.value.team2Score, s1, s2))]
                      else old(matchLog))
    {
      var m := matches[id];
      var sc := Score(s1, s2, WinnerOf(m.team1, m.team2, s1, s2));
      var earlier := if id in scores then Some(scores[id]) else None;
      if earlier.Some? {
        AppendMatchLog(MatchLog(id, actor, ScoreUpdated(earlier.value.team1Score, earlier.value.team2Score, s1, s2)));
      }
      SetMatchRow(id, m.(status := MatchCompleted));
      SetScore(id, sc);
      SetPoints(PointsAfterScore(points, m, earlier, sc));
    }

    /** Delete a match that is not completed and whose time has not passed. */
    method DeleteMatch(id: Id, now: Minute) returns (r: Result<(), Error>)
      requires Valid()
      modifies this
      ensures Valid()
      ensures r.Err? ==> Tables() == old(Tables())
      ensures id !in old(matches) ==> r == Err(MatchNotFound)
      ensures r == Err(MatchIsCompleted) <==> id in old(matches) && old(matches)[id].status == MatchCompleted
      ensures r.Ok? <==> id in old(matches) && old(matches)[id].status != MatchCompleted && now <= old(matches)[id].date
      ensures r.Ok? ==> Tables() == old(Tables()).(matches := old(matches) - {id})
    {
      if id !in matches {
        return Err(MatchNotFound);
      }
      if matches[id].status == MatchCompleted {
        return Err(MatchIsCompleted);
      }
      if now > matches[id].date {
        return Err(MatchInPast);
      }
      matches := matches - {id};
      return Ok(());
    }
}
}
