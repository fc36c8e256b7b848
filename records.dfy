/** The two records of the league: teams and matches. */
module Records {

  /** A team and its running statistics. The name is the team's identity: it is never changed
      and no two registered teams share it. A fresh team has all three statistics at zero. */
  datatype Team = Team(name: string, points: int, goalsScored: int, goalsConceded: int)

  /** A match between two registered teams, referred to by name. A scheduled fixture carries the
      score 0-0 until it is played. */
  datatype Match = Match(date: string, team1: string, team2: string, score1: int, score2: int)

  /** The goal difference is derived, never stored. */
  function GoalDifference(t: Team): (d: int)
    ensures d > 0 <==> t.goalsScored > t.goalsConceded
    ensures d == 0 <==> t.goalsScored == t.goalsConceded
    ensures d < 0 <==> t.goalsScored < t.goalsConceded
  {
    t.goalsScored - t.goalsConceded
  }
}
