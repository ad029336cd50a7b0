/** The score engine on the PointsTable: the winner of a result, what each
    side's row moves by, the rollback-then-reapply correction of a score, the
    reset a disqualification applies, and the standings listing. */
module Scoring {
  import opened Wrappers
  import opened Standings
  import opened Entities

  /** The winner stored with a result: the side with the strictly higher
      score, none on a tie. */
  function WinnerOf(team1: Id, team2: Id, score1: int, score2: int): (w: Option<Id>)
    ensures score1 > score2 ==> w == Some(team1)
    ensures score2 > score1 ==> w == Some(team2)
    ensures w.None? <==> score1 == score2
  {
    if score1 > score2 then Some(team1) else if score2 > score1 then Some(team2) else None
  }

  /** The amounts one side's row moves by, computed as the endpoint does from
      the stored winner: a win when the winner is `side`, a draw when there is
      none, a loss when it is `opponent`. */
  function SideDelta(side: Id, opponent: Id, winner: Option<Id>, goalsFor: int, goalsAgainst: int): Stats
  {
    Stats(1,
          if winner == Some(side) then 1 else 0,
          if winner.None? then 1 else 0,
          if winner == Some(opponent) then 1 else 0,
          goalsFor, goalsAgainst,
          if winner == Some(side) then 3 else if winner.None? then 1 else 0)
  }

  /** For two different teams the amounts are exactly one played match,
      worth 3, 1 or 0 points, from each side's point of view. */
  lemma SidesGetTheirContribution(team1: Id, team2: Id, score1: int, score2: int)
    requires team1 != team2
    ensures SideDelta(team1, team2, WinnerOf(team1, team2, score1, score2), score1, score2) == Contribution(score1, score2)
    ensures SideDelta(team2, team1, WinnerOf(team1, team2, score1, score2), score2, score1) == Contribution(score2, score1)
  {
  }

  function Team1Delta(m: Match, s: Score): Stats
  {
    SideDelta(m.team1, m.team2, s.winner, s.team1Score, s.team2Score)
  }

  function Team2Delta(m: Match, s: Score): Stats
  {
    SideDelta(m.team2, m.team1, s.winner, s.team2Score, s.team1Score)
  }

  predicate RowOf(p: PointsRow, event: Id, sport: Id, team: Id)
  {
    p.event == event && p.sport == sport && p.team == team
  }

  /** UPDATE PointsTable SET counters = counters + d WHERE team_id, event_id
      and sport_id match. */
  function AddTo(rows: map<Id, PointsRow>, event: Id, sport: Id, team: Id, d: Stats): (r: map<Id, PointsRow>)
    ensures r.Keys == rows.Keys
    ensures forall k :: k in r && RowOf(rows[k], event, sport, team) ==> r[k].stats == Plus(rows[k].stats, d) && r[k].(stats := rows[k].stats) == rows[k]
    ensures forall k :: k in r && !RowOf(rows[k], event, sport, team) ==> r[k] == rows[k]
  {
    map k | k in rows :: if RowOf(rows[k], event, sport, team) then rows[k].(stats := Plus(rows[k].stats, d)) else rows[k]
  }

  /** The same UPDATE with counters = counters - d. */
  function SubtractFrom(rows: map<Id, PointsRow>, event: Id, sport: Id, team: Id, d: Stats): (r: map<Id, PointsRow>)
    ensures r.Keys == rows.Keys
    ensures forall k :: k in r && RowOf(rows[k], event, sport, team) ==> r[k].stats == Minus(rows[k].stats, d) && r[k].(stats := rows[k].stats) == rows[k]
    ensures forall k :: k in r && !RowOf(rows[k], event, sport, team) ==> r[k] == rows[k]
  {
    map k | k in rows :: if RowOf(rows[k], event, sport, team) then rows[k].(stats := Minus(rows[k].stats, d)) else rows[k]
  }

  /** A result entered for match `m`: team1's rows then team2's rows updated. */
  function ApplyScore(rows: map<Id, PointsRow>, m: Match, s: Score): (r: map<Id, PointsRow>)
    ensures r.Keys == rows.Keys
  {
    AddTo(AddTo(rows, m.event, m.sport, m.team1, Team1Delta(m, s)), m.event, m.sport, m.team2, Team2Delta(m, s))
  }

  /** The rollback of a stored result before a corrected one is entered. */
  function UndoScore(rows: map<Id, PointsRow>, m: Match, s: Score): (r: map<Id, PointsRow>)
    ensures r.Keys == rows.Keys
  {
    SubtractFrom(SubtractFrom(rows, m.event, m.sport, m.team1, Team1Delta(m, s)), m.event, m.sport, m.team2, Team2Delta(m, s))
  }

  /** A fresh result for a match between two different teams adds one match
      and its 3/1/0 points to each side's rows of the match's event and sport,
      and leaves every other row as it was. */
  lemma ApplyScoreCounts(rows: map<Id, PointsRow>, m: Match, score1: int, score2: int, k: Id)
    requires m.team1 != m.team2 && k in rows
    ensures var r := ApplyScore(rows, m, Score(score1, score2, WinnerOf(m.team1, m.team2, score1, score2)));
      && (RowOf(rows[k], m.event, m.sport, m.team1) ==> r[k] == rows[k].(stats := Plus(rows[k].stats, Contribution(score1, score2))))
      && (RowOf(rows[k], m.event, m.sport, m.team2) ==> r[k] == rows[k].(stats := Plus(rows[k].stats, Contribution(score2, score1))))
      && (!RowOf(rows[k], m.event, m.sport, m.team1) && !RowOf(rows[k], m.event, m.sport, m.team2) ==> r[k] == rows[k])
  {
    SidesGetTheirContribution(m.team1, m.team2, score1, score2);
  }

  /** Rolling a result back restores every row it changed. */
  lemma UndoCancelsApply(rows: map<Id, PointsRow>, m: Match, s: Score)
    ensures UndoScore(ApplyScore(rows, m, s), m, s) == rows
  {
    var d1, d2 := Team1Delta(m, s), Team2Delta(m, s);
    var r := UndoScore(ApplyScore(rows, m, s), m, s);
    forall k | k in rows ensures r[k] == rows[k] {
      MinusUndoesPlus(rows[k].stats, d1);
      MinusUndoesPlus(rows[k].stats, d2);
      MinusUndoesPlus(Plus(rows[k].stats, d1), d2);
      assert Minus(Minus(Plus(Plus(rows[k].stats, d1), d2), d1), d2) == rows[k].stats;
    }
  }

  /** Correcting result `a` to `b` leaves the rows as if `b` had been the only
      result ever entered. */
  lemma CorrectionReplacesResult(rows: map<Id, PointsRow>, m: Match, a: Score, b: Score)
    ensures ApplyScore(UndoScore(ApplyScore(rows, m, a), m, a), m, b) == ApplyScore(rows, m, b)
  {
    UndoCancelsApply(rows, m, a);
  }

  /** A worked correction of team 1's fresh row: a 2-2 draw entered, rolled
      back and re-entered as 3-1 leaves one win, 3 points and goals 3-1. */
  lemma DrawCorrectedToWinForTeam1(m: Match)
    requires m.team1 != m.team2
    ensures Plus(Minus(Plus(Zeroed, Team1Delta(m, Score(2, 2, None))), Team1Delta(m, Score(2, 2, None))),
                 Team1Delta(m, Score(3, 1, Some(m.team1)))) == Stats(1, 1, 0, 0, 3, 1, 3)
  {
    var d, w := Team1Delta(m, Score(2, 2, None)), Team1Delta(m, Score(3, 1, Some(m.team1)));
    assert d == Stats(1, 0, 1, 0, 2, 2, 1) && w == Stats(1, 1, 0, 0, 3, 1, 3);
    MinusUndoesPlus(Zeroed, d);
    PlusZeroed(w);
  }

  /** The same correction seen from team 2's fresh row: one loss, no points,
      goals 1-3. */
  lemma DrawCorrectedToWinForTeam2(m: Match)
    requires m.team1 != m.team2
    ensures Plus(Minus(Plus(Zeroed, Team2Delta(m, Score(2, 2, None))), Team2Delta(m, Score(2, 2, None))),
                 Team2Delta(m, Score(3, 1, Some(m.team1)))) == Stats(1, 0, 0, 1, 1, 3, 0)
  {
    var d, w := Team2Delta(m, Score(2, 2, None)), Team2Delta(m, Score(3, 1, Some(m.team1)));
    assert d == Stats(1, 0, 1, 0, 2, 2, 1) && w == Stats(1, 0, 0, 1, 1, 3, 0);
    MinusUndoesPlus(Zeroed, d);
    PlusZeroed(w);
  }

  /** The disqualification reset: points, wins and draws of every row of the
      team (in every event) set to 0; matches played, losses and goals kept;
      other teams' rows untouched. */
  function ResetForDisqualification(rows: map<Id, PointsRow>, team: Id): (r: map<Id, PointsRow>)
    ensures r.Keys == rows.Keys
    ensures forall k :: k in r && rows[k].team == team ==>
      && r[k].stats.points == 0 && r[k].stats.wins == 0 && r[k].stats.draws == 0
      && r[k].stats.played == rows[k].stats.played && r[k].stats.losses == rows[k].stats.losses
      && r[k].stats.goalsFor == rows[k].stats.goalsFor && r[k].stats.goalsAgainst == rows[k].stats.goalsAgainst
      && r[k].(stats := rows[k].stats) == rows[k]
    ensures forall k :: k in r && rows[k].team != team ==> r[k] == rows[k]
  {
    map k | k in rows :: if rows[k].team == team then rows[k].(stats := rows[k].stats.(points := 0, wins := 0, draws := 0)) else rows[k]
  }

  // ---------------------------------------------------------------------
  // Standings listing
  // ---------------------------------------------------------------------

  /** A PointsTable row that the standings query returns: its team, sport and
      event exist, and it passes the optional event and sport filters. */
  predicate Listed(p: PointsRow, teams: map<Id, Team>, sports: map<Id, Sport>, events: map<Id, Event>,
                   event: Option<Id>, sport: Option<Id>)
  {
    && p.team in teams && p.sport in sports && p.event in events
    && (event.Some? ==> p.event == event.value)
    && (sport.Some? ==> p.sport == sport.value)
  }

  function StandingOf(p: PointsRow, teams: map<Id, Team>): Standing
    requires p.team in teams
  {
    Standing(p.team, p.stats, teams[p.team].status == Disqualified)
  }

  /** The ids below `n` of the rows the query returns, each once, in
      increasing order. */
  function ListedKeys(rows: map<Id, PointsRow>, teams: map<Id, Team>, sports: map<Id, Sport>, events: map<Id, Event>,
                      event: Option<Id>, sport: Option<Id>, n: nat): (ks: seq<Id>)
    ensures forall i :: 0 <= i < |ks| ==> ks[i] < n && ks[i] in rows && Listed(rows[ks[i]], teams, sports, events, event, sport)
    ensures forall i, j :: 0 <= i < j < |ks| ==> ks[i] < ks[j]
    ensures forall k :: k in ks <==> k < n && k in rows && Listed(rows[k], teams, sports, events, event, sport)
  {
    if n == 0 then []
    else
      var prev := ListedKeys(rows, teams, sports, events, event, sport, n - 1);
      var k := n - 1;
      if k in rows && Listed(rows[k], teams, sports, events, event, sport) then prev + [k] else prev
  }

  /** The listed rows among the ids below `n`, in id order: one standing per
      listed PointsTable row, so a team with two rows appears twice. */
  function ListedRows(rows: map<Id, PointsRow>, teams: map<Id, Team>, sports: map<Id, Sport>, events: map<Id, Event>,
                      event: Option<Id>, sport: Option<Id>, n: nat): (r: seq<Standing>)
    ensures var ks := ListedKeys(rows, teams, sports, events, event, sport, n);
      |r| == |ks| && forall i :: 0 <= i < |ks| ==> r[i] == StandingOf(rows[ks[i]], teams)
    ensures forall x :: x in r <==>
      exists k :: k < n && k in rows && Listed(rows[k], teams, sports, events, event, sport) && x == StandingOf(rows[k], teams)
  {
    var ks := ListedKeys(rows, teams, sports, events, event, sport, n);
    var r := seq(|ks|, i requires 0 <= i < |ks| => StandingOf(rows[ks[i]], teams));
    assert forall k :: k in ks ==> StandingOf(rows[k], teams) in r by {
      forall k | k in ks ensures StandingOf(rows[k], teams) in r {
        var i :| 0 <= i < |ks| && ks[i] == k;
        assert r[i] == StandingOf(rows[k], teams);
      }
    }
    r
  }

  /** The standings: the listed rows, sorted so that teams that are not
      disqualified come first, then by points, goal difference and goals. */
  function PointsStandings(rows: map<Id, PointsRow>, teams: map<Id, Team>, sports: map<Id, Sport>, events: map<Id, Event>,
                     event: Option<Id>, sport: Option<Id>, next: nat): (r: seq<Standing>)
    ensures Sorted(r)
    ensures multiset(r) == multiset(ListedRows(rows, teams, sports, events, event, sport, next))
  {
    SortStandings(ListedRows(rows, teams, sports, events, event, sport, next))
  }
}
