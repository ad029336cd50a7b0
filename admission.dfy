/** Team admission as functions on the Teams and Players tables: which
    existing team blocks a registration, the Players rows a roster becomes,
    and the count of approved teams that match scheduling demands. */
module Admission {
  import opened Wrappers
  import opened Text
  import opened Roster
  import opened Tables
  import opened Entities

  /** An existing team that stops `manager` from registering another team for
      `sport` in `event`: pending, approved or disqualified (a rejected team
      does not count). */
  predicate Blocks(t: Team, manager: Id, sport: Id, event: Id)
  {
    && t.manager == manager && t.sport == sport && t.event == event
    && (t.status == Pending || t.status == Approved || t.status == Disqualified)
  }

  /** The blocking team the registration query lists first, if any. */
  function BlockingTeam(teams: map<Id, Team>, next: Id, manager: Id, sport: Id, event: Id): (r: Option<Id>)
    ensures r.Some? ==> r.value in teams && Blocks(teams[r.value], manager, sport, event)
    ensures KeysBelow(teams, next) ==>
      (r.None? <==> forall k :: k in teams ==> !Blocks(teams[k], manager, sport, event))
  {
    FirstKeyWhere(teams, (t: Team) => Blocks(t, manager, sport, event), 0, next)
  }

  /** The refusal a blocking team's status gives. */
  function BlockError(s: TeamStatus): (e: Error)
    requires s != Rejected
    ensures e == PreviouslyDisqualified <==> s == Disqualified
    ensures e == AlreadyApproved <==> s == Approved
    ensures e == AlreadyPending <==> s == Pending
  {
    match s
    case Disqualified => PreviouslyDisqualified
    case Approved => AlreadyApproved
    case Pending => AlreadyPending
  }

  /** The length rule for team names, applied after trimming and counted
      in UTF-16 code units as `.length` counts them. */
  predicate TeamNameOk(name: string)
  {
    3 <= Utf16Length(Trim(name)) <= 50
  }

  /** The length rule counts code units: a name of two emoji passes
      although it has only two characters. */
  lemma EmojiTeamNameAccepted()
    ensures TeamNameOk("\U{1F600}\U{1F600}")
  {
    Utf16LengthOfEmoji();
    TrimWithoutSpaces("\U{1F600}\U{1F600}");
  }

  /** The Players row inserted for one submitted player: name and jersey
      trimmed, an age of 0 and an empty position stored as NULL. */
  function NewPlayerRow(team: Id, p: PlayerInput): PlayerRow
  {
    PlayerRow(team, Trim(p.name), Trim(p.jersey), if p.age == Some(0) then None else p.age,
              if p.position == "" then None else Some(p.position), p.kind)
  }

  /** The rows a whole roster becomes, inserted in order at consecutive ids
      from `base`. */
  function RosterRows(team: Id, ps: seq<PlayerInput>, base: Id): (r: map<Id, PlayerRow>)
    ensures forall k :: k in r <==> base <= k < base + |ps|
    ensures forall i :: 0 <= i < |ps| ==> r[base + i] == NewPlayerRow(team, ps[i])
  {
    if ps == [] then map[]
    else
      var init := ps[..|ps| - 1];
      var prev := RosterRows(team, init, base);
      assert forall i :: 0 <= i < |init| ==> init[i] == ps[i] && prev[base + i] == NewPlayerRow(team, ps[i]);
      prev[base + |ps| - 1 := NewPlayerRow(team, ps[|ps| - 1])]
  }

  /** Inserting the rows one player at a time builds the roster's rows: the
      rows of the first i+1 players are those of the first i plus player i's
      row at id base+i. */
  lemma RosterRowsExtend(team: Id, ps: seq<PlayerInput>, i: nat, base: Id)
    requires i < |ps|
    ensures RosterRows(team, ps[..i + 1], base) == RosterRows(team, ps[..i], base)[base + i := NewPlayerRow(team, ps[i])]
  {
    assert ps[..i + 1][..i] == ps[..i];
  }

  /** One insertion step on the Players table: adding player i's row at
      id base+i to the table holding the rows of the first i players gives
      the table holding the rows of the first i+1. */
  lemma InsertRowExtends(table: map<Id, PlayerRow>, players: map<Id, PlayerRow>, team: Id,
                          ps: seq<PlayerInput>, i: nat, base: Id, at: Id)
    requires i < |ps| && table == players + RosterRows(team, ps[..i], base) && at == base + i
    ensures table[at := NewPlayerRow(team, ps[i])] == players + RosterRows(team, ps[..i + 1], base)
  {
    RosterRowsExtend(team, ps, i, base);
    UnionUpdate(players, RosterRows(team, ps[..i], base), at, NewPlayerRow(team, ps[i]));
  }

  /** A player whose fields pass is stored with its jersey text unchanged
      and a trimmed name of 2 to 50 characters. */
  lemma StoredPlayerKeepsJersey(team: Id, p: PlayerInput)
    requires CheckPlayerFields(p).None?
    ensures NewPlayerRow(team, p).jersey == p.jersey
    ensures 2 <= |NewPlayerRow(team, p).name| <= 50
  {
  }

  /** For a roster whose fields all pass, every stored row keeps its player's
      jersey text exactly, so the rows carry the distinct jerseys the roster
      check compared. */
  lemma StoredRosterKeepsJerseys(team: Id, ps: seq<PlayerInput>, base: Id)
    requires AllFieldsValid(ps)
    ensures forall i :: 0 <= i < |ps| ==> RosterRows(team, ps, base)[base + i].jersey == ps[i].jersey
  {
    forall i | 0 <= i < |ps| ensures RosterRows(team, ps, base)[base + i].jersey == ps[i].jersey {
      StoredPlayerKeepsJersey(team, ps[i]);
    }
  }

  /** The Players table without the rows of `team`. */
  function WithoutTeamPlayers(players: map<Id, PlayerRow>, team: Id): (r: map<Id, PlayerRow>)
    ensures forall k :: k in r <==> k in players && players[k].team != team
    ensures forall k :: k in r ==> r[k] == players[k]
  {
    map k | k in players && players[k].team != team :: players[k]
  }

  /** A roster replacement: once the team's rows are dropped and the new
      roster is inserted from a counter above every stored id, the team's rows
      are exactly the new ones, at base..base+|ps|-1 in roster order, and every
      other team's row is kept and no other row appears. */
  lemma ReplacedRosterIsExactlyNew(players: map<Id, PlayerRow>, team: Id, ps: seq<PlayerInput>, base: Id)
    requires KeysBelow(players, base)
    ensures var t := WithoutTeamPlayers(players, team) + RosterRows(team, ps, base);
      && (forall k :: k in t && t[k].team == team <==> base <= k < base + |ps|)
      && (forall i :: 0 <= i < |ps| ==> t[base + i] == NewPlayerRow(team, ps[i]))
      && (forall k :: k in players && players[k].team != team ==> k in t && t[k] == players[k])
      && (forall k :: k in t && t[k].team != team ==> k in players && t[k] == players[k])
  {
    var kept, added := WithoutTeamPlayers(players, team), RosterRows(team, ps, base);
    var t := kept + added;
    forall k | k in t
      ensures t[k].team == team <==> base <= k < base + |ps|
      ensures t[k].team != team ==> k in players && t[k] == players[k]
    {
      if k in added {
        assert t[k] == NewPlayerRow(team, ps[k - base]);
      } else {
        assert k in kept && t[k] == players[k] && k < base;
      }
    }
    forall k | k in players && players[k].team != team ensures k in t && t[k] == players[k] {
      assert k < base && k !in added;
    }
  }

  /** A team of `event` still awaiting review. */
  predicate PendingIn(t: Team, event: Id)
  {
    t.event == event && t.status == Pending
  }

  /** A pending team of `event`, if any: the COUNT of pending teams is
      positive exactly when there is one. */
  function PendingTeamOf(teams: map<Id, Team>, next: Id, event: Id): (r: Option<Id>)
    ensures r.Some? ==> r.value in teams && PendingIn(teams[r.value], event)
    ensures KeysBelow(teams, next) ==> (r.None? <==> forall k :: k in teams ==> !PendingIn(teams[k], event))
  {
    FirstKeyWhere(teams, (t: Team) => PendingIn(t, event), 0, next)
  }

  predicate ApprovedIn(t: Team, event: Id, sport: Id)
  {
    t.event == event && t.sport == sport && t.status == Approved
  }

  /** SELECT COUNT(*) FROM Teams WHERE event_id = ? AND sport_id = ? AND
      status = 'approved', over the ids below `n`. */
  function CountApproved(teams: map<Id, Team>, event: Id, sport: Id, n: nat): nat
  {
    if n == 0 then 0
    else CountApproved(teams, event, sport, n - 1)
         + (if n - 1 in teams && ApprovedIn(teams[n - 1], event, sport) then 1 else 0)
  }

  lemma {:induction false} CountApprovedZero(teams: map<Id, Team>, event: Id, sport: Id, n: nat)
    ensures CountApproved(teams, event, sport, n) == 0 <==>
      forall k :: k < n && k in teams ==> !ApprovedIn(teams[k], event, sport)
  {
    if n > 0 {
      CountApprovedZero(teams, event, sport, n - 1);
    }
  }

  /** The count reaches two exactly when two different approved teams of the
      event and sport exist. */
  lemma {:induction false} CountApprovedTwo(teams: map<Id, Team>, event: Id, sport: Id, n: nat)
    ensures CountApproved(teams, event, sport, n) >= 2 <==>
      exists a, b :: a < b < n && a in teams && b in teams
                     && ApprovedIn(teams[a], event, sport) && ApprovedIn(teams[b], event, sport)
  {
    if n > 0 {
      CountApprovedTwo(teams, event, sport, n - 1);
      CountApprovedZero(teams, event, sport, n - 1);
      var last := n - 1 in teams && ApprovedIn(teams[n - 1], event, sport);
      if last && CountApproved(teams, event, sport, n - 1) >= 1 {
        var a :| a < n - 1 && a in teams && ApprovedIn(teams[a], event, sport);
        assert a < n - 1 < n;
      }
    }
  }

  lemma TwoApprovedTeams(teams: map<Id, Team>, event: Id, sport: Id, next: nat)
    requires KeysBelow(teams, next)
    ensures CountApproved(teams, event, sport, next) >= 2 <==>
      exists a, b :: a in teams && b in teams && a != b
                     && ApprovedIn(teams[a], event, sport) && ApprovedIn(teams[b], event, sport)
  {
    CountApprovedTwo(teams, event, sport, next);
    if exists a, b :: a in teams && b in teams && a != b
                      && ApprovedIn(teams[a], event, sport) && ApprovedIn(teams[b], event, sport) {
      var a, b :| a in teams && b in teams && a != b
                  && ApprovedIn(teams[a], event, sport) && ApprovedIn(teams[b], event, sport);
      if a < b {
        assert a < b < next;
      } else {
        assert b < a < next;
      }
    }
  }
}
