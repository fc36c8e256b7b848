/** The scoring rule of the league (`updateStandings`) and what it adds up to.

    A team's line in the table is determined by the matches it has played: `Tally` replays them,
    in the order they were played, on a fresh team. */
module Standings {
  import opened Records
  import opened Registry

  /** Points for one side of a match: 3 for a win, 1 for a draw, none for a loss. */
  function SidePoints(scored: int, conceded: int): (p: int)
    ensures p == 3 <==> scored > conceded
    ensures p == 1 <==> scored == conceded
    ensures p == 0 <==> scored < conceded
  {
    if scored > conceded then 3 else if scored == conceded then 1 else 0
  }

  /** What `updateStandings` does to the line of team `t` for the match `m`: it is credited as
      the first side when it is `m.team1` and as the second side when it is `m.team2` (both, for a
      team recorded against itself, as the source allows), and left alone otherwise. */
  function Credit(t: Team, m: Match): (r: Team)
    ensures r.name == t.name
    ensures !Involves(m, t.name) ==> r == t
  {
    var t' := if t.name == m.team1 then
        Team(t.name, t.points + SidePoints(m.score1, m.score2), t.goalsScored + m.score1, t.goalsConceded + m.score2)
      else t;
    if t.name == m.team2 then
      Team(t.name, t'.points + SidePoints(m.score2, m.score1), t'.goalsScored + m.score2, t'.goalsConceded + m.score1)
    else t'
  }

  /** The line of team `name` after the results `rs`, played in order, starting from a fresh team. */
  function Tally(name: string, rs: seq<Match>): (t: Team)
    ensures t.name == name
  {
    if rs == [] then Team(name, 0, 0, 0) else Credit(Tally(name, rs[..|rs| - 1]), rs[|rs| - 1])
  }

  predicate Involves(m: Match, name: string)
  {
    m.team1 == name || m.team2 == name
  }

  /** A team that has played none of the results still has a fresh line. */
  lemma {:induction false} TallyUninvolved(name: string, rs: seq<Match>)
    requires forall m :: m in rs ==> !Involves(m, name)
    ensures Tally(name, rs) == Team(name, 0, 0, 0)
  {
    if rs != [] {
      assert forall m :: m in rs[..|rs| - 1] ==> m in rs;
      TallyUninvolved(name, rs[..|rs| - 1]);
      assert rs[|rs| - 1] in rs;
    }
  }

  /** The sides `name` won and drew in the match `m` (two sides for a team against itself). */
  function SidesWon(m: Match, name: string): nat
  {
    (if m.team1 == name && m.score1 > m.score2 then 1 else 0) + (if m.team2 == name && m.score2 > m.score1 then 1 else 0)
  }

  function SidesDrawn(m: Match, name: string): nat
  {
    (if m.team1 == name && m.score1 == m.score2 then 1 else 0) + (if m.team2 == name && m.score2 == m.score1 then 1 else 0)
  }

  function Wins(name: string, rs: seq<Match>): nat
  {
    if rs == [] then 0 else Wins(name, rs[..|rs| - 1]) + SidesWon(rs[|rs| - 1], name)
  }

  function Draws(name: string, rs: seq<Match>): nat
  {
    if rs == [] then 0 else Draws(name, rs[..|rs| - 1]) + SidesDrawn(rs[|rs| - 1], name)
  }

  /** The points rule of the table: three points a win, one a draw. */
  lemma {:induction false} TallyPoints(name: string, rs: seq<Match>)
    ensures Tally(name, rs).points == 3 * Wins(name, rs) + Draws(name, rs)
  {
    if rs != [] {
      TallyPoints(name, rs[..|rs| - 1]);
    }
  }

  /** Goals for and against: every goal of every match the team played, on its side. */
  function GoalsFor(name: string, rs: seq<Match>): int
  {
    if rs == [] then 0
    else
      var m := rs[|rs| - 1];
      GoalsFor(name, rs[..|rs| - 1]) + (if m.team1 == name then m.score1 else 0) + (if m.team2 == name then m.score2 else 0)
  }

  function GoalsAgainst(name: string, rs: seq<Match>): int
  {
    if rs == [] then 0
    else
      var m := rs[|rs| - 1];
      GoalsAgainst(name, rs[..|rs| - 1]) + (if m.team1 == name then m.score2 else 0) + (if m.team2 == name then m.score1 else 0)
  }

  lemma {:induction false} TallyGoals(name: string, rs: seq<Match>)
    ensures Tally(name, rs).goalsScored == GoalsFor(name, rs)
    ensures Tally(name, rs).goalsConceded == GoalsAgainst(name, rs)
  {
    if rs != [] {
      TallyGoals(name, rs[..|rs| - 1]);
    }
  }

  // ---------------------------------------------------------------------------------------------
  // League totals

  /** `Credit` applied to every team of the table. */
  function CreditAll(chain: seq<Team>, m: Match): (r: seq<Team>)
    ensures |r| == |chain|
    ensures forall j :: 0 <= j < |chain| ==> r[j] == Credit(chain[j], m)
  {
    if chain == [] then [] else [Credit(chain[0], m)] + CreditAll(chain[1..], m)
  }

  /** Crediting a match renames nobody. */
  lemma CreditAllNames(chain: seq<Team>, m: Match)
    ensures NamesOf(CreditAll(chain, m)) == NamesOf(chain)
    ensures DistinctNames(chain) ==> DistinctNames(CreditAll(chain, m))
  {
    SameNames(CreditAll(chain, m), chain);
  }

  /** Crediting a match to a table of tallies gives the tallies with that match played last. */
  lemma CreditAllTallies(chain: seq<Team>, rs: seq<Match>, m: Match)
    requires forall j :: 0 <= j < |chain| ==> chain[j] == Tally(chain[j].name, rs)
    ensures forall j :: 0 <= j < |chain| ==> CreditAll(chain, m)[j] == Tally(chain[j].name, rs + [m])
  {
    assert (rs + [m])[..|rs|] == rs;
  }

  function TotalPoints(chain: seq<Team>): int
  {
    if chain == [] then 0 else chain[0].points + TotalPoints(chain[1..])
  }

  function TotalGoalDifference(chain: seq<Team>): int
  {
    if chain == [] then 0 else GoalDifference(chain[0]) + TotalGoalDifference(chain[1..])
  }

  /** Points a match hands out in total: three for a decisive result, two for a draw. */
  function Awarded(rs: seq<Match>): int
  {
    if rs == [] then 0 else Awarded(rs[..|rs| - 1]) + (if rs[|rs| - 1].score1 != rs[|rs| - 1].score2 then 3 else 2)
  }

  /** The head of a table with distinct names is the only team with its name. */
  lemma DistinctNamesSplit(chain: seq<Team>)
    requires DistinctNames(chain) && chain != []
    ensures DistinctNames(chain[1..])
    ensures NamesOf(chain) == {chain[0].name} + NamesOf(chain[1..])
    ensures chain[0].name !in NamesOf(chain[1..])
  {
    var rest := chain[1..];
    forall j, k | 0 <= j < k < |rest|
      ensures rest[j].name != rest[k].name
    {
      assert rest[j] == chain[j + 1] && rest[k] == chain[k + 1];
    }
    assert forall t :: t in chain <==> t == chain[0] || t in rest;
    forall t | t in rest
      ensures t.name != chain[0].name
    {
      var k :| 0 <= k < |rest| && rest[k] == t;
      assert chain[k + 1] == t;
    }
  }

  /** Crediting a match to a table in which the names are distinct adds the points of each side
      whose team is in the table ... */
  lemma {:induction false} CreditAllPoints(chain: seq<Team>, m: Match)
    requires DistinctNames(chain)
    ensures TotalPoints(CreditAll(chain, m)) == TotalPoints(chain)
      + (if m.team1 in NamesOf(chain) then SidePoints(m.score1, m.score2) else 0)
      + (if m.team2 in NamesOf(chain) then SidePoints(m.score2, m.score1) else 0)
  {
    if chain != [] {
      DistinctNamesSplit(chain);
      CreditAllPoints(chain[1..], m);
      assert CreditAll(chain, m) == [Credit(chain[0], m)] + CreditAll(chain[1..], m);
    }
  }

  /** ... and shifts the total goal difference by the margin of each such side. */
  lemma {:induction false} CreditAllGoalDifference(chain: seq<Team>, m: Match)
    requires DistinctNames(chain)
    ensures TotalGoalDifference(CreditAll(chain, m)) == TotalGoalDifference(chain)
      + (if m.team1 in NamesOf(chain) then m.score1 - m.score2 else 0)
      + (if m.team2 in NamesOf(chain) then m.score2 - m.score1 else 0)
  {
    if chain != [] {
      DistinctNamesSplit(chain);
      CreditAllGoalDifference(chain[1..], m);
      assert CreditAll(chain, m) == [Credit(chain[0], m)] + CreditAll(chain[1..], m);
    }
  }

  /** A played match between two teams of the table hands out exactly `Awarded([m])` points and
      leaves the total goal difference as it was. */
  lemma MatchTotals(chain: seq<Team>, m: Match)
    requires DistinctNames(chain) && m.team1 in NamesOf(chain) && m.team2 in NamesOf(chain)
    ensures TotalPoints(CreditAll(chain, m)) == TotalPoints(chain) + Awarded([m])
    ensures TotalGoalDifference(CreditAll(chain, m)) == TotalGoalDifference(chain)
  {
    CreditAllPoints(chain, m);
    CreditAllGoalDifference(chain, m);
    assert [m][..0] == [];
  }

  /** The table built by replaying `rs` for every team of `chain`. */
  function TallyAll(chain: seq<Team>, rs: seq<Match>): (r: seq<Team>)
    ensures |r| == |chain|
    ensures forall j :: 0 <= j < |chain| ==> r[j] == Tally(chain[j].name, rs)
  {
    if chain == [] then [] else [Tally(chain[0].name, rs)] + TallyAll(chain[1..], rs)
  }

  lemma TallyAllNames(chain: seq<Team>, rs: seq<Match>)
    ensures NamesOf(TallyAll(chain, rs)) == NamesOf(chain)
    ensures DistinctNames(chain) ==> DistinctNames(TallyAll(chain, rs))
  {
    SameNames(TallyAll(chain, rs), chain);
  }

  lemma {:induction false} FreshTotals(chain: seq<Team>)
    ensures TotalPoints(TallyAll(chain, [])) == 0 && TotalGoalDifference(TallyAll(chain, [])) == 0
  {
    if chain != [] {
      FreshTotals(chain[1..]);
      assert TallyAll(chain, []) == [Tally(chain[0].name, [])] + TallyAll(chain[1..], []);
      assert TallyAll(chain, [])[1..] == TallyAll(chain[1..], []);
    }
  }

  /** Over a whole season: the points in a table of distinct teams add up to three per decisive
      result and two per draw, and the goal differences add up to zero, provided every result
      is between teams of the table. */
  lemma {:induction false} SeasonTotals(chain: seq<Team>, rs: seq<Match>)
    requires DistinctNames(chain)
    requires forall m :: m in rs ==> m.team1 in NamesOf(chain) && m.team2 in NamesOf(chain)
    ensures TotalPoints(TallyAll(chain, rs)) == Awarded(rs)
    ensures TotalGoalDifference(TallyAll(chain, rs)) == 0
  {
    if rs == [] {
      FreshTotals(chain);
    } else {
      var init, m := rs[..|rs| - 1], rs[|rs| - 1];
      SeasonTotals(chain, init);
      TallyAllNames(chain, init);
      MatchTotals(TallyAll(chain, init), m);
      assert TallyAll(chain, rs) == CreditAll(TallyAll(chain, init), m);
    }
  }
}
