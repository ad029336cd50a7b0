/** Match scheduling: the conflict queries behind the schedule and reschedule
    endpoints, and the cancellation a disqualification applies. */
module Scheduling {
  import opened Wrappers
  import opened Dates
  import opened Tables
  import opened Entities

  /** The match has `t1` or `t2` on either side. */
  predicate SharesTeam(m: Match, t1: Id, t2: Id)
  {
    m.team1 == t1 || m.team2 == t1 || m.team1 == t2 || m.team2 == t2
  }

  /** A match in play at `venue` strictly within two hours of `t`. */
  predicate AtVenueNear(m: Match, venue: Id, t: Minute)
  {
    m.venue == Some(venue) && InPlay(m.status) && WithinTwoHours(m.date, t)
  }

  /** A match in play sharing a team with the candidate strictly within two
      hours of `t`. */
  predicate SharesTeamNear(m: Match, t1: Id, t2: Id, t: Minute)
  {
    SharesTeam(m, t1, t2) && InPlay(m.status) && WithinTwoHours(m.date, t)
  }

  /** The venue is taken within two hours of `t`. */
  predicate VenueConflict(ms: map<Id, Match>, venue: Id, t: Minute)
  {
    exists k :: k in ms && AtVenueNear(ms[k], venue, t)
  }

  /** The schedule endpoint's team conflict: a match in play sharing a team
      lies within two hours of `t`. The query joins both of that match's
      teams, so a match one of whose teams is gone is not seen. */
  predicate TeamConflict(ms: map<Id, Match>, teams: map<Id, Team>, t1: Id, t2: Id, t: Minute)
  {
    exists k :: k in ms && SharesTeamNear(ms[k], t1, t2, t) && ms[k].team1 in teams && ms[k].team2 in teams
  }

  /** The reschedule endpoint's conflict: another match in play sharing a
      team lies within two hours of `t` (no join on teams). */
  predicate RescheduleConflict(ms: map<Id, Match>, self: Id, t1: Id, t2: Id, t: Minute)
  {
    exists k :: k in ms && k != self && SharesTeamNear(ms[k], t1, t2, t)
  }

  /** The venue conflict query. */
  function VenueClash(ms: map<Id, Match>, next: Id, venue: Id, t: Minute): (r: Option<Id>)
    ensures r.Some? ==> r.value in ms && AtVenueNear(ms[r.value], venue, t)
    ensures KeysBelow(ms, next) ==> (r.None? <==> !VenueConflict(ms, venue, t))
  {
    FirstKeyWhere(ms, (m: Match) => AtVenueNear(m, venue, t), 0, next)
  }

  /** The schedule endpoint's team conflict query. */
  function TeamClash(ms: map<Id, Match>, teams: map<Id, Team>, next: Id, t1: Id, t2: Id, t: Minute): (r: Option<Id>)
    ensures r.Some? ==> TeamConflict(ms, teams, t1, t2, t)
    ensures KeysBelow(ms, next) ==> (r.None? <==> !TeamConflict(ms, teams, t1, t2, t))
  {
    FirstKeyWhere(ms, (m: Match) => SharesTeamNear(m, t1, t2, t) && m.team1 in teams && m.team2 in teams, 0, next)
  }

  /** The reschedule endpoint's conflict query. */
  function RescheduleClash(ms: map<Id, Match>, next: Id, self: Id, t1: Id, t2: Id, t: Minute): (r: Option<Id>)
    ensures r.Some? ==> RescheduleConflict(ms, self, t1, t2, t)
    ensures KeysBelow(ms, next) ==> (r.None? <==> !RescheduleConflict(ms, self, t1, t2, t))
  {
    var others := map k | k in ms && k != self :: ms[k];
    assert forall k :: k in others <==> k in ms && k != self;
    var r := FirstKeyWhere(others, (m: Match) => SharesTeamNear(m, t1, t2, t), 0, next);
    assert KeysBelow(ms, next) ==> (r.None? <==> forall k :: k in others ==> !SharesTeamNear(others[k], t1, t2, t));
    r
  }

  /** A match sharing no team with the candidate never blocks it, whatever its
      time; a match on the same team exactly two hours away does not block it
      either. */
  lemma ConflictNeedsSharedTeamWithinTwoHours(ms: map<Id, Match>, teams: map<Id, Team>, t1: Id, t2: Id, t: Minute)
    requires forall k :: k in ms ==> !SharesTeam(ms[k], t1, t2) || Abs(ms[k].date - t) >= 120
    ensures !TeamConflict(ms, teams, t1, t2, t)
    ensures forall self :: !RescheduleConflict(ms, self, t1, t2, t)
  {
  }

  /** The join hides orphaned matches: a match in play at the same time as the
      candidate, whose opponent no longer exists, blocks a reschedule but not a
      new schedule. */
  lemma OrphanedMatchBlocksOnlyReschedule(m: Match, t1: Id, t2: Id, teams: map<Id, Team>)
    requires InPlay(m.status) && m.team1 == t1 && m.team2 !in teams
    ensures !TeamConflict(map[1 := m], teams, t1, t2, m.date)
    ensures RescheduleConflict(map[1 := m], 2, t1, t2, m.date)
  {
    var ms := map[1 := m];
    assert ms[1] == m && WithinTwoHours(m.date, m.date);
  }

  /** `team` plays in the match, on either side. */
  predicate Involves(m: Match, team: Id)
  {
    m.team1 == team || m.team2 == team
  }

  /** A completed match `team` played in: the history that stops its deletion. */
  predicate CompletedMatchWith(m: Match, team: Id)
  {
    Involves(m, team) && m.status == MatchCompleted
  }

  /** A completed match of `team`, if any. */
  function CompletedMatchOfTeam(ms: map<Id, Match>, next: Id, team: Id): (r: Option<Id>)
    ensures r.Some? ==> r.value in ms && CompletedMatchWith(ms[r.value], team)
    ensures KeysBelow(ms, next) ==> (r.None? <==> forall k :: k in ms ==> !CompletedMatchWith(ms[k], team))
  {
    FirstKeyWhere(ms, (m: Match) => CompletedMatchWith(m, team), 0, next)
  }

  /** The match involves `team`, is scheduled, and is dated after `now`. */
  predicate FutureScheduledFor(m: Match, team: Id, now: Minute)
  {
    Involves(m, team) && m.status == Scheduled && m.date > now
  }

  /** UPDATE Matches SET status = 'cancelled' for the team's future scheduled
      matches: exactly those are cancelled, and no other match changes. */
  function CancelFutureMatches(ms: map<Id, Match>, team: Id, now: Minute): (r: map<Id, Match>)
    ensures r.Keys == ms.Keys
    ensures forall k :: k in r && FutureScheduledFor(ms[k], team, now) ==> r[k] == ms[k].(status := Cancelled)
    ensures forall k :: k in r && !FutureScheduledFor(ms[k], team, now) ==> r[k] == ms[k]
  {
    map k | k in ms :: if FutureScheduledFor(ms[k], team, now) then ms[k].(status := Cancelled) else ms[k]
  }

  /** The cancellation never touches a completed match: every team, the
      disqualified one included, keeps exactly its completed matches (and so
      the results scored on them), and the completed-match guard of a later
      delete finds the same row as before. */
  lemma {:induction false} CancellationKeepsCompletedMatches(ms: map<Id, Match>, team: Id, now: Minute, other: Id, next: Id)
    ensures forall k :: k in ms ==>
      (CompletedMatchWith(CancelFutureMatches(ms, team, now)[k], other) <==> CompletedMatchWith(ms[k], other))
    ensures CompletedMatchOfTeam(CancelFutureMatches(ms, team, now), next, other) == CompletedMatchOfTeam(ms, next, other)
  {
    var r := CancelFutureMatches(ms, team, now);
    var p := (m: Match) => CompletedMatchWith(m, other);
    forall k | k in ms
      ensures p(r[k]) == p(ms[k])
    {
      if FutureScheduledFor(ms[k], team, now) {
        assert r[k].status == Cancelled && ms[k].status == Scheduled;
      }
    }
    FirstKeyWhereAgrees(r, ms, p, 0, next);
  }
}
