/** The score manager (`ScoreManager`): registers teams, records and schedules matches, plays
    fixtures, undoes the last recorded match and ranks the table.

    Every match ever created lives in the append-only match table `table`, under its position
    there (its id); the date index, the history and the schedule hold ids, as the source's
    structures hold pointers to the same `Match` objects. */
module League {
  import opened Records
  import opened MatchIndex
  import opened Registry
  import opened Fixtures
  import opened Sorter
  import opened Standings

  /** What the console messages of the source report. */
  datatype Status = Ok | DuplicateTeam | TeamNotFound | NoScheduledMatch | NothingToUndo

  /** The index lists exactly the played matches `results`, in the order they were played, each
      under its id in the match table. */
  ghost predicate IndexHolds(entries: seq<Entry>, results: seq<Match>, table: seq<Match>)
  {
    && |entries| == |results|
    && forall k :: 0 <= k < |results| ==>
         entries[k].id < |table| && table[entries[k].id] == results[k] && entries[k].date == results[k].date
  }

  /** Every fixture on the schedule is a match of the table between teams named in `names` that
      has not been played, and none is on the schedule twice. */
  ghost predicate Pending(items: seq<nat>, entries: seq<Entry>, table: seq<Match>, names: set<string>)
  {
    && (forall k :: 0 <= k < |items| ==>
          && items[k] < |table|
          && items[k] !in IdsOf(entries)
          && table[items[k]].team1 in names
          && table[items[k]].team2 in names)
    && (forall j, k :: 0 <= j < k < |items| ==> items[j] != items[k])
  }

  /** Every team's line is the tally of the results, all of which are between teams of the table,
      and no two teams share a name. */
  ghost predicate Tallied(chain: seq<Team>, results: seq<Match>)
  {
    && DistinctNames(chain)
    && (forall m :: m in results ==> m.team1 in NamesOf(chain) && m.team2 in NamesOf(chain))
    && forall j :: 0 <= j < |chain| ==> chain[j] == Tally(chain[j].name, results)
  }

  /** The invariant of the score manager, on the contents of its parts: the index holds the
      results, the schedule holds pending fixtures, the table holds the tallies of the results and
      the history holds indexed matches. */
  ghost predicate Consistent(entries: seq<Entry>, results: seq<Match>, table: seq<Match>, items: seq<nat>,
                             chain: seq<Team>, hist: seq<nat>)
  {
    && IndexHolds(entries, results, table)
    && Pending(items, entries, table, NamesOf(chain))
    && Tallied(chain, results)
    && (forall id :: id in hist ==> id in IdsOf(entries))
  }

  /** Adding a match to the table, or rescoring one that is not yet indexed, keeps the index. */
  lemma IndexHoldsRetable(entries: seq<Entry>, results: seq<Match>, table: seq<Match>, table': seq<Match>)
    requires IndexHolds(entries, results, table)
    requires |table| <= |table'|
    requires forall id :: 0 <= id < |table| && id in IdsOf(entries) ==> table'[id] == table[id]
    ensures IndexHolds(entries, results, table')
  {
    forall k | 0 <= k < |results|
      ensures table'[entries[k].id] == results[k]
    {
      assert entries[k] in entries;
    }
  }

  /** Indexing the match `m` of the table under its id records it as the latest result. */
  lemma IndexHoldsPlay(entries: seq<Entry>, results: seq<Match>, table: seq<Match>, id: nat, m: Match)
    requires IndexHolds(entries, results, table)
    requires id < |table| && table[id] == m
    ensures IndexHolds(entries + [Entry(m.date, id)], results + [m], table)
  {
  }

  /** The schedule stays pending when the table grows, or when a match not on it is rescored. */
  lemma PendingRetable(items: seq<nat>, entries: seq<Entry>, table: seq<Match>, table': seq<Match>, names: set<string>)
    requires Pending(items, entries, table, names)
    requires |table| <= |table'|
    requires forall id :: 0 <= id < |table| && id in items ==> table'[id] == table[id]
    ensures Pending(items, entries, table', names)
  {
    forall k | 0 <= k < |items|
      ensures table'[items[k]] == table[items[k]]
    {
      assert items[k] in items;
    }
  }

  /** The head of the schedule is an unplayed match that is not also further down, and the rest
      of the schedule stays pending. */
  lemma PendingHead(items: seq<nat>, entries: seq<Entry>, table: seq<Match>, names: set<string>)
    requires Pending(items, entries, table, names) && items != []
    ensures items[0] !in IdsOf(entries) && items[0] !in items[1..]
    ensures Pending(items[1..], entries, table, names)
  {
    forall k | 0 <= k < |items| - 1
      ensures items[1..][k] == items[k + 1]
    {
    }
  }

  /** Indexing a match that is not on the schedule keeps the schedule pending. */
  lemma PendingPlayOther(items: seq<nat>, entries: seq<Entry>, table: seq<Match>, names: set<string>, e: Entry)
    requires Pending(items, entries, table, names) && e.id !in items
    ensures Pending(items, entries + [e], table, names)
  {
    forall k | 0 <= k < |items|
      ensures items[k] !in IdsOf(entries + [e])
    {
      assert items[k] in items;
    }
  }

  /** Queuing the newest match of the table, between teams named in `names`, keeps the schedule
      pending. */
  lemma PendingSchedule(items: seq<nat>, entries: seq<Entry>, results: seq<Match>, table: seq<Match>, names: set<string>, m: Match)
    requires Pending(items, entries, table, names) && IndexHolds(entries, results, table)
    requires m.team1 in names && m.team2 in names
    ensures Pending(items + [|table|], entries, table + [m], names)
  {
    PendingRetable(items, entries, table, table + [m], names);
    forall e | e in entries
      ensures e.id != |table|
    {
      var k :| 0 <= k < |entries| && entries[k] == e;
    }
  }

  /** Registering a team no result involves keeps the table of tallies. */
  lemma TalliedAddTeam(chain: seq<Team>, results: seq<Match>, name: string)
    requires Tallied(chain, results) && name !in NamesOf(chain)
    ensures Tallied([Team(name, 0, 0, 0)] + chain, results)
  {
    TallyUninvolved(name, results);
    PrependNames(Team(name, 0, 0, 0), chain);
    var chain' := [Team(name, 0, 0, 0)] + chain;
    forall j | 0 <= j < |chain'|
      ensures chain'[j] == Tally(chain'[j].name, results)
    {
      if j > 0 {
        assert chain'[j] == chain[j - 1];
      }
    }
  }

  /** Crediting a match between two teams of the table keeps the table of tallies, with that match
      as the latest result. */
  lemma TalliedPlay(chain: seq<Team>, results: seq<Match>, m: Match)
    requires Tallied(chain, results)
    requires m.team1 in NamesOf(chain) && m.team2 in NamesOf(chain)
    ensures Tallied(CreditAll(chain, m), results + [m])
  {
    CreditAllNames(chain, m);
    CreditAllTallies(chain, results, m);
  }

  /** Playing the match `m` with id `id`, which is in the table and off the schedule, between the
      teams at positions `k1` and `k2` of the table: index it, push it on the history and credit
      it to the table. */
  lemma ConsistentPlay(entries: seq<Entry>, results: seq<Match>, table: seq<Match>, items: seq<nat>,
                       chain: seq<Team>, hist: seq<nat>, id: nat, m: Match, k1: nat, k2: nat)
    requires Consistent(entries, results, table, items, chain, hist)
    requires id < |table| && table[id] == m && id !in items
    requires k1 < |chain| && chain[k1].name == m.team1 && k2 < |chain| && chain[k2].name == m.team2
    ensures Consistent(entries + [Entry(m.date, id)], results + [m], table, items, CreditAll(chain, m), hist + [id])
  {
    assert chain[k1] in chain && chain[k2] in chain;
    IndexHoldsPlay(entries, results, table, id, m);
    CreditAllNames(chain, m);
    PendingPlayOther(items, entries, table, NamesOf(chain), Entry(m.date, id));
    TalliedPlay(chain, results, m);
  }

  /** Adding the match `m` to the table keeps the invariant. */
  lemma ConsistentGrow(entries: seq<Entry>, results: seq<Match>, table: seq<Match>, items: seq<nat>,
                       chain: seq<Team>, hist: seq<nat>, m: Match)
    requires Consistent(entries, results, table, items, chain, hist)
    ensures Consistent(entries, results, table + [m], items, chain, hist)
  {
    IndexHoldsRetable(entries, results, table, table + [m]);
    PendingRetable(items, entries, table, table + [m], NamesOf(chain));
  }

  /** Adding the fixture `m` between teams of the table to the table and to the schedule keeps
      the invariant. */
  lemma ConsistentSchedule(entries: seq<Entry>, results: seq<Match>, table: seq<Match>, items: seq<nat>,
                           chain: seq<Team>, hist: seq<nat>, m: Match)
    requires Consistent(entries, results, table, items, chain, hist)
    requires m.team1 in NamesOf(chain) && m.team2 in NamesOf(chain)
    ensures Consistent(entries, results, table + [m], items + [|table|], chain, hist)
  {
    PendingSchedule(items, entries, results, table, NamesOf(chain), m);
    IndexHoldsRetable(entries, results, table, table + [m]);
  }

  /** Taking the earliest fixture off the schedule and giving it the score of `m` keeps the
      invariant, and leaves a match ready to be played. */
  lemma ConsistentTakeHead(entries: seq<Entry>, results: seq<Match>, table: seq<Match>, items: seq<nat>,
                           chain: seq<Team>, hist: seq<nat>, m: Match)
    requires Consistent(entries, results, table, items, chain, hist) && items != []
    requires items[0] < |table| && m == table[items[0]].(score1 := m.score1, score2 := m.score2)
    ensures items[0] !in items[1..]
    ensures m.team1 in NamesOf(chain) && m.team2 in NamesOf(chain)
    ensures Consistent(entries, results, table[items[0] := m], items[1..], chain, hist)
  {
    PendingHead(items, entries, table, NamesOf(chain));
    IndexHoldsRetable(entries, results, table, table[items[0] := m]);
    PendingRetable(items[1..], entries, table, table[items[0] := m], NamesOf(chain));
  }

  class ScoreManager {
    const teams: TeamList
    /** The date index (`matches` in the source). */
    const index: MatchBST
    const history: MatchHistory
    const schedule: MatchSchedule
    /** Every match created so far, by id. */
    var table: seq<Match>
    /** The matches played so far, in the order they were played. */
    ghost var results: seq<Match>

    ghost predicate Valid()
      reads this, teams, index, history, schedule
    {
      && index.Valid()
      && Consistent(index.entries, results, table, schedule.items, teams.teams, history.items)
    }

    constructor ()
      ensures fresh(teams) && fresh(index) && fresh(history) && fresh(schedule)
      ensures Valid()
      ensures teams.teams == [] && index.entries == [] && history.items == [] && schedule.items == []
      ensures table == [] && results == []
    {
      teams := new TeamList();
      index := new MatchBST();
      history := new MatchHistory();
      schedule := new MatchSchedule();
      table := [];
      results := [];
    }

    /** The league-wide totals follow from the standings invariant: three points per decisive
        result and two per draw have been handed out, and the goal differences cancel. */
    lemma StandingsAddUp()
      requires Valid()
      ensures TotalPoints(teams.teams) == Awarded(results)
      ensures TotalGoalDifference(teams.teams) == 0
    {
      SeasonTotals(teams.teams, results);
      assert teams.teams == TallyAll(teams.teams, results);
    }

    /** `updateStandings(t1, t2, s1, s2)` for the teams at positions `k1` and `k2` (possibly the
        same one) and the score of `m`: goals first, then points, each written through to the
        team itself. */
    method UpdateStandings(k1: nat, k2: nat, m: Match)
      requires k1 < |teams.teams| && k2 < |teams.teams|
      requires teams.teams[k1].name == m.team1 && teams.teams[k2].name == m.team2
      requires DistinctNames(teams.teams)
      modifies teams
      ensures teams.teams == CreditAll(old(teams.teams), m)
    {
      var t1 := teams.teams[k1];
      teams.teams := teams.teams[k1 := t1.(goalsScored := t1.goalsScored + m.score1, goalsConceded := t1.goalsConceded + m.score2)];
      var t2 := teams.teams[k2];
      teams.teams := teams.teams[k2 := t2.(goalsScored := t2.goalsScored + m.score2, goalsConceded := t2.goalsConceded + m.score1)];
      if m.score1 > m.score2 {
        var w := teams.teams[k1];
        teams.teams := teams.teams[k1 := w.(points := w.points + 3)];
      } else if m.score2 > m.score1 {
        var w := teams.teams[k2];
        teams.teams := teams.teams[k2 := w.(points := w.points + 3)];
      } else {
        var d1 := teams.teams[k1];
        teams.teams := teams.teams[k1 := d1.(points := d1.points + 1)];
        var d2 := teams.teams[k2];
        teams.teams := teams.teams[k2 := d2.(points := d2.points + 1)];
      }
      forall j | 0 <= j < |teams.teams|
        ensures teams.teams[j] == Credit(old(teams.teams[j]), m)
      {
        assert j == k1 <==> old(teams.teams[j]).name == m.team1;
        assert j == k2 <==> old(teams.teams[j]).name == m.team2;
      }
    }

    /** `addTeam`: a new name joins the table at the head with a fresh line; a name already
        registered leaves everything as it was. */
    method AddTeam(name: string) returns (status: Status)
      requires Valid()
      modifies teams
      ensures Valid()
      ensures status == Ok || status == DuplicateTeam
      ensures status == DuplicateTeam <==> name in old(NamesOf(teams.teams))
      ensures status == Ok ==> teams.teams == [Team(name, 0, 0, 0)] + old(teams.teams)
      ensures status == DuplicateTeam ==> teams.teams == old(teams.teams)
    {
      var found := teams.FindTeam(name);
      if found.Some? {
        return DuplicateTeam;
      }
      TalliedAddTeam(teams.teams, results, name);
      teams.AddTeam(Team(name, 0, 0, 0));
      status := Ok;
    }

    /** The bookkeeping shared by `recordMatch` and `playScheduledMatch` once the match `m` with
        id `id` is in the table and off the schedule: index it, push it on the history, credit
        both teams. */
    method Play(id: nat, m: Match, k1: nat, k2: nat)
      requires index.Valid() && DistinctNames(teams.teams)
      requires k1 < |teams.teams| && teams.teams[k1].name == m.team1
      requires k2 < |teams.teams| && teams.teams[k2].name == m.team2
      modifies this, teams, index, history
      ensures index.Valid()
      ensures index.entries == old(index.entries) + [Entry(m.date, id)]
      ensures history.items == old(history.items) + [id]
      ensures teams.teams == CreditAll(old(teams.teams), m)
      ensures results == old(results) + [m] && table == old(table)
    {
      index.AddMatch(m.date, id);
      history.AddMatch(id);
      UpdateStandings(k1, k2, m);
      results := results + [m];
    }

    /** `recordMatch`: both teams must be registered; then the match is added to the table and
        played at once. */
    method RecordMatch(date: string, t1: string, t2: string, s1: int, s2: int) returns (status: Status)
      requires Valid()
      modifies this, teams, index, history
      ensures Valid()
      ensures status == Ok || status == TeamNotFound
      ensures status == TeamNotFound <==> t1 !in old(NamesOf(teams.teams)) || t2 !in old(NamesOf(teams.teams))
      ensures status == TeamNotFound ==> unchanged(this, teams, index, history)
      ensures status == Ok ==>
        var m := Match(date, t1, t2, s1, s2);
        && table == old(table) + [m]
        && results == old(results) + [m]
        && index.entries == old(index.entries) + [Entry(date, |old(table)|)]
        && history.items == old(history.items) + [|old(table)|]
        && teams.teams == CreditAll(old(teams.teams), m)
    {
      var k1 := teams.FindTeam(t1);
      var k2 := teams.FindTeam(t2);
      if k1.None? || k2.None? {
        return TeamNotFound;
      }
      var m := Match(date, t1, t2, s1, s2);
      var id := |table|;
      ConsistentGrow(index.entries, results, table, schedule.items, teams.teams, history.items, m);
      table := table + [m];
      ConsistentPlay(index.entries, results, table, schedule.items, teams.teams, history.items, id, m, k1.value, k2.value);
      Play(id, m, k1.value, k2.value);
      status := Ok;
    }

    /** `scheduleMatch`: both teams must be registered; the fixture is a 0-0 match added to the
        table and queued, and nothing is played. */
    method ScheduleMatch(date: string, t1: string, t2: string) returns (status: Status)
      requires Valid()
      modifies this, schedule
      ensures Valid()
      ensures status == Ok || status == TeamNotFound
      ensures status == TeamNotFound <==> t1 !in NamesOf(teams.teams) || t2 !in NamesOf(teams.teams)
      ensures status == TeamNotFound ==> unchanged(this, schedule)
      ensures unchanged(teams, index, history) && results == old(results)
      ensures status == Ok ==>
        && table == old(table) + [Match(date, t1, t2, 0, 0)]
        && schedule.items == old(schedule.items) + [|old(table)|]
    {
      var k1 := teams.FindTeam(t1);
      var k2 := teams.FindTeam(t2);
      if k1.None? || k2.None? {
        return TeamNotFound;
      }
      var id := |table|;
      assert teams.teams[k1.value] in teams.teams && teams.teams[k2.value] in teams.teams;
      ConsistentSchedule(index.entries, results, table, schedule.items, teams.teams, history.items, Match(date, t1, t2, 0, 0));
      table := table + [Match(date, t1, t2, 0, 0)];
      schedule.ScheduleMatch(id);
      status := Ok;
    }

    /** `playScheduledMatch`: the earliest fixture gets the score `s1`-`s2` and is then recorded
        like `recordMatch`; with no fixture, nothing happens. */
    method PlayScheduledMatch(s1: int, s2: int) returns (status: Status)
      requires Valid()
      modifies this, teams, index, history, schedule
      ensures Valid()
      ensures status == Ok || status == NoScheduledMatch
      ensures status == NoScheduledMatch <==> old(schedule.items) == []
      ensures status == NoScheduledMatch ==> unchanged(this, teams, index, history, schedule)
      ensures status == Ok ==>
        var id := old(schedule.items[0]);
        var m := old(table[id]).(score1 := s1, score2 := s2);
        && schedule.items == old(schedule.items[1..])
        && table == old(table)[id := m]
        && results == old(results) + [m]
        && index.entries == old(index.entries) + [Entry(m.date, id)]
        && history.items == old(history.items) + [id]
        && teams.teams == CreditAll(old(teams.teams), m)
    {
      var next := schedule.PlayNextMatch();
      if next.None? {
        return NoScheduledMatch;
      }
      var id := next.value;
      var m := table[id].(score1 := s1, score2 := s2);
      ConsistentTakeHead(index.entries, results, table, old(schedule.items), teams.teams, history.items, m);
      table := table[id := m];
      var k1 := teams.FindTeam(m.team1);
      var k2 := teams.FindTeam(m.team2);
      ConsistentPlay(index.entries, results, table, schedule.items, teams.teams, history.items, id, m, k1.value, k2.value);
      Play(id, m, k1.value, k2.value);
      status := Ok;
    }

    /** `undoLastMatch`: pops the history and nothing else; the match stays in the index and the
        standings keep its result. */
    method UndoLastMatch() returns (status: Status)
      requires Valid()
      modifies history
      ensures Valid()
      ensures status == Ok || status == NothingToUndo
      ensures status == NothingToUndo <==> old(history.items) == []
      ensures status == Ok ==> history.items == old(history.items)[..|old(history.items)| - 1]
      ensures status == NothingToUndo ==> history.items == old(history.items)
      ensures unchanged(this, teams, index, schedule)
    {
      var empty := history.IsEmpty();
      if empty {
        return NothingToUndo;
      }
      history.UndoLastMatch();
      status := Ok;
    }

    /** `displayStandings` without the printing: a copy of the teams, ranked by bubble sort when
        there are fewer than ten of them and by quick sort otherwise. */
    method DisplayStandings() returns (ranked: seq<Team>)
      ensures Sorted(ranked)
      ensures multiset(ranked) == multiset(teams.teams)
    {
      var all := teams.GetAllTeams();
      var a := new Team[|all|](i requires 0 <= i < |all| => all[i]);
      assert a[..] == all;
      if a.Length < 10 {
        BubbleSortTeams(a);
      } else {
        QuickSortTeams(a, 0, a.Length - 1);
        assert a[0..a.Length] == a[..];
      }
      ranked := a[..];
    }
  }
}
