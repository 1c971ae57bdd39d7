/**
 * The records the league service works on: a fixture as the match source
 * delivers it, and one row of the leaderboard.
 */
module LeagueTypes {

  /** One fixture. The scores are meaningful only when `matchPlayed` holds. */
  datatype Match = Match(
    homeTeam: string,
    awayTeam: string,
    matchPlayed: bool,
    homeTeamScore: nat,
    awayTeamScore: nat)

  /** One leaderboard row, keyed by `teamName`. */
  datatype Entry = Entry(
    teamName: string,
    matchesPlayed: nat,
    goalsFor: nat,
    goalsAgainst: nat,
    points: nat)

  /** The four counters of an entry, so that one update rule serves all of them. */
  datatype Field = MatchesPlayed | GoalsFor | GoalsAgainst | Points

  /** The entry a team gets the first time a match names it. */
  function Zero(team: string): (e: Entry)
    ensures e.teamName == team
    ensures forall f: Field :: Stat(e, f) == 0
  {
    Entry(team, 0, 0, 0, 0)
  }

  /** The value of one counter. */
  function Stat(e: Entry, f: Field): nat
  {
    match f
    case MatchesPlayed => e.matchesPlayed
    case GoalsFor => e.goalsFor
    case GoalsAgainst => e.goalsAgainst
    case Points => e.points
  }

  /** `e.<f> += n`: adds `n` to one counter and leaves the name and the other counters alone. */
  function Add(e: Entry, f: Field, n: nat): (r: Entry)
    ensures r.teamName == e.teamName
    ensures forall g: Field :: Stat(r, g) == Stat(e, g) + (if g == f then n else 0)
  {
    match f
    case MatchesPlayed => e.(matchesPlayed := e.matchesPlayed + n)
    case GoalsFor => e.(goalsFor := e.goalsFor + n)
    case GoalsAgainst => e.(goalsAgainst := e.goalsAgainst + n)
    case Points => e.(points := e.points + n)
  }

  /** Goals scored minus goals conceded; may be negative. */
  function GoalDifference(e: Entry): int
  {
    e.goalsFor - e.goalsAgainst
  }
}
