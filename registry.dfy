/** The team registry: a singly linked list of teams, newest first (`TeamList`).

    The chain of nodes from `head` is represented by the sequence of the teams it holds, in the
    order of the chain; a pointer to a team in the chain is represented by its position. */
module Registry {
  import opened Wrappers
  import opened Records

  /** The names of the teams in `chain`. */
  function NamesOf(chain: seq<Team>): set<string>
  {
    set t | t in chain :: t.name
  }

  /** No two teams in `chain` share a name. */
  predicate DistinctNames(chain: seq<Team>)
  {
    forall j, k :: 0 <= j < k < |chain| ==> chain[j].name != chain[k].name
  }

  /** Prepending a team adds its name, and keeps the names distinct when it is a new name. */
  lemma PrependNames(t: Team, chain: seq<Team>)
    ensures NamesOf([t] + chain) == {t.name} + NamesOf(chain)
    ensures DistinctNames(chain) && t.name !in NamesOf(chain) ==> DistinctNames([t] + chain)
  {
    var c := [t] + chain;
    assert forall u :: u in c <==> u == t || u in chain;
    if DistinctNames(chain) && t.name !in NamesOf(chain) {
      forall j, k | 0 <= j < k < |c|
        ensures c[j].name != c[k].name
      {
        assert c[k] == chain[k - 1];
        if j > 0 {
          assert c[j] == chain[j - 1];
        }
      }
    }
  }

  /** Two tables with the same name at every position have the same names, and the names of
      one are distinct exactly when those of the other are. */
  lemma SameNames(a: seq<Team>, b: seq<Team>)
    requires |a| == |b| && forall j :: 0 <= j < |a| ==> a[j].name == b[j].name
    ensures NamesOf(a) == NamesOf(b)
    ensures DistinctNames(a) <==> DistinctNames(b)
  {
    forall n | n in NamesOf(a)
      ensures n in NamesOf(b)
    {
      var k :| 0 <= k < |a| && a[k].name == n;
      assert b[k] in b;
    }
    forall n | n in NamesOf(b)
      ensures n in NamesOf(a)
    {
      var k :| 0 <= k < |b| && b[k].name == n;
      assert a[k] in a;
    }
  }

  /** `countTeamsRecursive`: one per node, following `next` to the end of the chain. */
  function CountFrom(chain: seq<Team>): (n: nat)
    ensures n == |chain|
  {
    if chain == [] then 0 else 1 + CountFrom(chain[1..])
  }

  class TeamList {
    /** The chain of nodes from `head`. */
    var teams: seq<Team>

    constructor ()
      ensures teams == []
    {
      teams := [];
    }

    /** `addTeam`: the new node becomes the head. No check for duplicate names is made here. */
    method AddTeam(t: Team)
      modifies this
      ensures teams == [t] + old(teams)
    {
      teams := [t] + teams;
    }

    /** `findTeam`: walks the chain from the head and stops at the first team with the name. */
    method FindTeam(name: string) returns (found: Option<nat>)
      ensures found.Some? ==> found.value < |teams| && teams[found.value].name == name
      ensures found.Some? ==> forall k :: 0 <= k < found.value ==> teams[k].name != name
      ensures found.None? <==> name !in NamesOf(teams)
    {
      var current := 0;
      while current < |teams|
        invariant 0 <= current <= |teams|
        invariant forall k :: 0 <= k < current ==> teams[k].name != name
      {
        if teams[current].name == name {
          return Some(current);
        }
        current := current + 1;
      }
      assert forall t :: t in teams ==> t.name != name;
      return None;
    }

    /** `countTeams`. */
    method CountTeams() returns (n: nat)
      ensures n == |teams|
    {
      n := CountFrom(teams);
    }

    /** `getAllTeams`: a snapshot of the chain, in chain order (newest first). */
    method GetAllTeams() returns (all: seq<Team>)
      ensures all == teams
    {
      all := [];
      var current := 0;
      while current < |teams|
        invariant 0 <= current <= |teams|
        invariant all == teams[..current]
      {
        all := all + [teams[current]];
        current := current + 1;
      }
    }
  }
}
