/** Standings: the counters of one PointsTable row, what one match result
    contributes to them (win 3, draw 1, loss 0), and the order in which the
    standings query lists rows. */
module Standings {

  /** matches_played, wins, draws, losses, goals_for, goals_against, points. */
  datatype Stats = Stats(played: int, wins: int, draws: int, losses: int,
                         goalsFor: int, goalsAgainst: int, points: int)

  /** The row approval creates. */
  const Zeroed: Stats := Stats(0, 0, 0, 0, 0, 0, 0)

  /** Every counter raised by the matching counter of `d`. */
  function Plus(s: Stats, d: Stats): Stats
  {
    Stats(s.played + d.played, s.wins + d.wins, s.draws + d.draws, s.losses + d.losses,
          s.goalsFor + d.goalsFor, s.goalsAgainst + d.goalsAgainst, s.points + d.points)
  }

  /** Every counter lowered by the matching counter of `d`. */
  function Minus(s: Stats, d: Stats): Stats
  {
    Stats(s.played - d.played, s.wins - d.wins, s.draws - d.draws, s.losses - d.losses,
          s.goalsFor - d.goalsFor, s.goalsAgainst - d.goalsAgainst, s.points - d.points)
  }

  /** Subtracting a contribution undoes adding it. */
  lemma MinusUndoesPlus(s: Stats, d: Stats)
    ensures Minus(Plus(s, d), d) == s
  {
  }

  /** Adding to a zeroed row gives the contribution itself. */
  lemma PlusZeroed(d: Stats)
    ensures Plus(Zeroed, d) == d
  {
  }

  function GoalDifference(s: Stats): int
  {
    s.goalsFor - s.goalsAgainst
  }

  /** What one played match adds to a side that scored `own` and conceded
      `other`. */
  function Contribution(own: int, other: int): (d: Stats)
    ensures d.played == 1 && d.wins + d.draws + d.losses == 1
    ensures d.wins == 1 <==> own > other
    ensures d.draws == 1 <==> own == other
    ensures d.losses == 1 <==> own < other
    ensures d.points == 3 * d.wins + d.draws
    ensures d.goalsFor == own && d.goalsAgainst == other
  {
    if own > other then Stats(1, 1, 0, 0, own, other, 3)
    else if own == other then Stats(1, 0, 1, 0, own, other, 1)
    else Stats(1, 0, 0, 1, own, other, 0)
  }

  /** The two sides of one match: wins of one are losses of the other, points
      given out are 3 for a decided match and 2 for a draw, and the goals of
      one are the goals against the other. */
  lemma MatchIsBalanced(a: int, b: int)
    ensures Contribution(a, b).wins == Contribution(b, a).losses
    ensures Contribution(a, b).draws == Contribution(b, a).draws
    ensures Contribution(a, b).points + Contribution(b, a).points == (if a == b then 2 else 3)
    ensures Contribution(a, b).goalsFor == Contribution(b, a).goalsAgainst
  {
  }

  // ---------------------------------------------------------------------
  // Standings order
  // ---------------------------------------------------------------------

  /** One line of the standings: a PointsTable row with its team's status. */
  datatype Standing = Standing(team: nat, stats: Stats, disqualified: bool)

  /** `a` may be listed before `b` under ORDER BY (disqualified last),
      points DESC, goal difference DESC, goals_for DESC. */
  predicate RanksBefore(a: Standing, b: Standing)
  {
    if a.disqualified != b.disqualified then !a.disqualified
    else if a.stats.points != b.stats.points then a.stats.points > b.stats.points
    else if GoalDifference(a.stats) != GoalDifference(b.stats) then GoalDifference(a.stats) > GoalDifference(b.stats)
    else a.stats.goalsFor >= b.stats.goalsFor
  }

  /** The order is total and transitive, so sorting by it is well defined up
      to rows that tie on every key. */
  lemma RanksBeforeIsTotalPreorder(a: Standing, b: Standing, c: Standing)
    ensures RanksBefore(a, a)
    ensures RanksBefore(a, b) || RanksBefore(b, a)
    ensures RanksBefore(a, b) && RanksBefore(b, c) ==> RanksBefore(a, c)
  {
  }

  predicate Sorted(s: seq<Standing>)
  {
    forall i, j :: 0 <= i < j < |s| ==> RanksBefore(s[i], s[j])
  }

  /** In a sorted standings list no disqualified team precedes a team that is
      not disqualified, and within each group points never increase down
      the list. */
  lemma SortedListsDisqualifiedLast(s: seq<Standing>, i: nat, j: nat)
    requires Sorted(s) && i < j < |s|
    ensures s[i].disqualified ==> s[j].disqualified
    ensures s[i].disqualified == s[j].disqualified ==> s[i].stats.points >= s[j].stats.points
  {
    assert RanksBefore(s[i], s[j]);
  }

  /** `x` put into the sorted list `s` at its place. */
  function Insert(x: Standing, s: seq<Standing>): (r: seq<Standing>)
    requires Sorted(s)
    ensures Sorted(r)
    ensures multiset(r) == multiset(s) + multiset{x}
    ensures |r| == |s| + 1
  {
    if s == [] then [x]
    else if RanksBefore(x, s[0]) then
      RanksBeforeOrderFirst(x, s);
      [x] + s
    else
      var rest := Insert(x, s[1..]);
      InsertAfterHead(x, s, rest);
      assert s == [s[0]] + s[1..];
      [s[0]] + rest
  }

  lemma RanksBeforeOrderFirst(x: Standing, s: seq<Standing>)
    requires Sorted(s) && s != [] && RanksBefore(x, s[0])
    ensures Sorted([x] + s)
  {
    forall j | 1 <= j < |s| + 1 ensures RanksBefore(x, ([x] + s)[j]) {
      RanksBeforeIsTotalPreorder(x, s[0], s[j - 1]);
    }
  }

  lemma InsertAfterHead(x: Standing, s: seq<Standing>, rest: seq<Standing>)
    requires Sorted(s) && s != [] && !RanksBefore(x, s[0])
    requires Sorted(rest) && multiset(rest) == multiset(s[1..]) + multiset{x}
    ensures Sorted([s[0]] + rest)
  {
    forall j | 0 <= j < |rest| ensures RanksBefore(s[0], rest[j]) {
      assert rest[j] in multiset(rest);
      if rest[j] == x {
        RanksBeforeIsTotalPreorder(x, s[0], s[0]);
      } else {
        assert rest[j] in multiset(s[1..]);
        var k :| 0 <= k < |s[1..]| && s[1..][k] == rest[j];
        assert s[k + 1] == rest[j];
      }
    }
  }

  /** The standings query's ordering: a sorted rearrangement of its rows. */
  function SortStandings(s: seq<Standing>): (r: seq<Standing>)
    ensures Sorted(r)
    ensures multiset(r) == multiset(s)
  {
    if s == [] then []
    else
      assert s == s[..|s| - 1] + [s[|s| - 1]];
      Insert(s[|s| - 1], SortStandings(s[..|s| - 1]))
  }
}
