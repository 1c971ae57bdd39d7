# League standings engine, modelled in Dafny

This project models the leaderboard computation of the Angular sports-league
service, `LeagueService.getLeaderBoard` in `src/app/services/league.service.ts`,
together with the service's stored match list (`setMatches`).

`getLeaderBoard` has two stages:

1. **Accumulation.** One loop over the matches builds a dictionary from team
   name to leaderboard entry. Both teams of every match get a zero entry the
   first time they appear. For a played match, it increments matches played,
   adds the goals for and against, and awards points on the 3/1/0 rule.
2. **Ranking.** The dictionary's values are listed and sorted by a comparator:
   points descending, goal difference descending, goals for descending, then
   team name ascending.

The files:

- `league_types.dfy` (module `LeagueTypes`): the `Match` and `Entry` records,
  and `Field`, which names the four counters of an entry.
- `accumulator.dfy` (module `Accumulator`): the loop body as a pure map
  update (`ApplyMatch`), built from one function per group of source
  statements. Each counter update is one `Bump`, in the source's order. Two
  independent descriptions of the result sit beside it:
  - `Expected`, a closed form: every counter is the sum of what each match
    credits that team (`Credit`);
  - `Total`, the sum of one counter over the whole dictionary.

  The lemmas connect the fold `Standings` to both.
- `ranker.dfy` (module `Ranker`): the comparator as written (`Compare`), the
  ranking it stands for (`RanksAbove`), and an insertion sort proved against it.
- `league_service.dfy` (module `League`): the imperative loop that updates the
  dictionary match by match (`Accumulate`, `RecordMatch`, `RecordResult`), the
  listing of the dictionary in an unspecified key order (`ListStandings`), the
  class `LeagueService`, and the proof that the leaderboard is one fixed
  sequence, whatever the listing order and whatever the order of the matches.
- `scenarios.dfy` (module `Scenarios`): worked examples for any two team
  names. They cover a home win and an away win that leave both teams level,
  so the name decides, and a single unplayed match.

A match whose home and away team are the same name is not rejected by the
source. The model follows the code: every update lands on the same entry
(`SelfMatchUpdate`). `getLeaderBoard` checks nothing and raises no error, so
the model has no error path.

## Model

| member | source | states |
|---|---|---|
| `LeagueTypes.Zero` | src/app/services/league.service.ts:118-119 | a newly seen team's entry carries its name and all four counters are 0 |
| `Accumulator.Register` | src/app/services/league.service.ts:118-119 | registering adds exactly that team; a team already present keeps its entry; a new one gets a zero entry and no other entry changes |
| `Accumulator.Bump` | src/app/services/league.service.ts:122-137 | each `++` or `+=` on one counter of one team keeps the set of teams; `BumpAt` states that it adds to just that counter of just that entry |
| `Accumulator.AddAppearances` | src/app/services/league.service.ts:122-123 | keeps the set of teams; `AddAppearancesAt` states that each side's matchesPlayed rises by 1 (by 2 for one team on both sides) and nothing else changes |
| `Accumulator.AddGoals` | src/app/services/league.service.ts:125-129 | keeps the set of teams; `AddGoalsAt` states that each side's goalsFor rises by its own score and goalsAgainst by the other side's |
| `Accumulator.AwardPoints` | src/app/services/league.service.ts:131-138 | keeps the set of teams; `AwardPointsAt` states 3 points to the winner, or 1 to each side of a draw |
| `Accumulator.Standings` | src/app/services/league.service.ts:113-140 | the `forEach` fold of the match list, in order, from an empty dictionary; `StandingsKeys` and `StandingsClosedForm` state its keys and its entries |
| `Accumulator.ApplyMatch` | src/app/services/league.service.ts:116-139 | after one match the keys are the old keys plus both team names, played or not |
| `Accumulator.ApplyMatchCreditAt` | src/app/services/league.service.ts:118-138 | one match adds to each counter of each team exactly that team's credit under the 3/1/0 rule, starting from 0 for a new team; the name is unchanged |
| `Accumulator.ApplyMatchCredit` | src/app/services/league.service.ts:118-138 | the same for every team and counter at once, and every entry stays stored under its own name |
| `Accumulator.UnplayedMatchNeutral` | src/app/services/league.service.ts:118-121 | an unplayed match adds both teams at zero and changes no entry already present |
| `Accumulator.ApplyMatchOthersUnchanged` | src/app/services/league.service.ts:115-140 | a match leaves the entries of all other teams exactly as they were |
| `Accumulator.PlayedMatchUpdate` | src/app/services/league.service.ts:121-138 | for distinct teams: each side plays +1; goals go to the scorer's goalsFor and the other side's goalsAgainst; winner +3 and loser +0, or +1 each on a draw |
| `Accumulator.SelfMatchUpdate` | src/app/services/league.service.ts:121-138 | when home and away are the same name, the one entry gets +2 matches, both scores as goalsFor and as goalsAgainst, and +3 points (decisive) or +2 (draw) |
| `Accumulator.StandingsKeys` | src/app/services/league.service.ts:113-119 | the final dictionary has exactly one key per team named by any match, played or not, and every entry is stored under its own name |
| `Accumulator.StandingsEntry` | src/app/services/league.service.ts:113-140 | every final entry equals the closed form: each counter is the sum of that team's credits over all matches |
| `Accumulator.StandingsClosedForm` | src/app/services/league.service.ts:113-140 | the final dictionary equals the map from each team to its closed-form entry |
| `Accumulator.CreditsPermutation` | src/app/services/league.service.ts:115-140 | a team's summed credits are the same for any reordering of the matches |
| `Accumulator.OrderIndependent` | src/app/services/league.service.ts:115-140 | the final dictionary is the same for any reordering of the input matches |
| `Accumulator.StandingsGrowAt` | src/app/services/league.service.ts:115-140 | a team present after a prefix of the matches is present at the end, with no counter smaller |
| `Accumulator.StandingsGrow` | src/app/services/league.service.ts:115-140 | the same for all teams and counters: no team is forgotten and counters never decrease along the loop |
| `Accumulator.TotalRemove` | src/app/services/league.service.ts:125-129 | the reference sum `Total` of a counter over the dictionary, which the conservation lemmas use, can be split off at any key, so it does not depend on the order of the keys |
| `Accumulator.AddAppearancesTotal` | src/app/services/league.service.ts:122-123 | a played match adds 2 to the total of matches played and nothing to the other totals |
| `Accumulator.AddGoalsTotal` | src/app/services/league.service.ts:125-129 | a played match adds both scores to total goalsFor and to total goalsAgainst, and nothing to the other totals |
| `Accumulator.AwardPointsTotal` | src/app/services/league.service.ts:131-138 | a played match adds 3 to the points total when decisive and 2 on a draw |
| `Accumulator.ApplyMatchTotal` | src/app/services/league.service.ts:118-139 | each match raises every total by its own figures; an unplayed match raises none |
| `Accumulator.StandingsTotal` | src/app/services/league.service.ts:115-140 | each total over the final dictionary is the sum of the per-match figures |
| `Accumulator.GoalConservation` | src/app/services/league.service.ts:125-129 | total goalsFor and total goalsAgainst over all entries both equal the sum of all scores of played matches |
| `Accumulator.PointsAndAppearances` | src/app/services/league.service.ts:121-138 | total points are 3 per decisive played match plus 2 per played draw; total matches played are 2 per played match |
| `Ranker.NameCompare` | src/app/services/league.service.ts:146 | comparing two team names yields -1, 0 or 1 |
| `Ranker.NameCompareZero` | src/app/services/league.service.ts:146 | two names compare as 0 exactly when they are equal |
| `Ranker.NameCompareAntisymmetric` | src/app/services/league.service.ts:146 | swapping the names negates the result |
| `Ranker.NameCompareTransitive` | src/app/services/league.service.ts:146 | "comes before" on names is transitive |
| `LeagueTypes.GoalDifference` | src/app/services/league.service.ts:144 | goals for minus goals against, the second sort key; `CompareMeaning` states how it ranks |
| `Ranker.Compare` | src/app/services/league.service.ts:142-147 | the comparator as written; `CompareMeaning` states that its sign is the independent ranking `RanksAbove` |
| `Ranker.CompareMeaning` | src/app/services/league.service.ts:142-147 | the comparator is negative exactly when the first entry ranks above, positive exactly when the second does, and 0 exactly when all four keys, name included, are equal |
| `Ranker.RanksAboveStrict` | src/app/services/league.service.ts:143-146 | the ranking is irreflexive and transitive |
| `Ranker.RanksAboveTotal` | src/app/services/league.service.ts:143-146 | of two entries with different names, exactly one ranks above the other |
| `Ranker.NotAboveTransitive` | src/app/services/league.service.ts:143-146 | "not ranked above" is transitive |
| `Ranker.Insert` | src/app/services/league.service.ts:142-147 | insertion adds exactly the one entry |
| `Ranker.InsertSorted` | src/app/services/league.service.ts:142-147 | inserting into a sorted sequence keeps it sorted |
| `Ranker.SortStandings` | src/app/services/league.service.ts:142-147 | the result is a permutation of the rows, and no row ranks above an earlier one |
| `League.Accumulate` | src/app/services/league.service.ts:113-140 | the loop leaves the dictionary equal to the fold of all matches |
| `League.RecordMatch` | src/app/services/league.service.ts:116-139 | the statements for one match update the dictionary as `ApplyMatch` says |
| `League.RecordResult` | src/app/services/league.service.ts:121-139 | the statements for a played match add appearances, then goals, then points |
| `League.ListStandings` | src/app/services/league.service.ts:142 | the keys are listed each exactly once, in some order, and each row is the entry stored under its key |
| `League.PermutationKeepsOnePerTeam` | src/app/services/league.service.ts:142-147 | reordering a listing with one entry per team gives another such listing |
| `League.SortedIsRanked` | src/app/services/league.service.ts:142-147 | a sorted listing with one entry per team is strictly ranked |
| `League.TailNames` | src/app/services/league.service.ts:142-147 | the names after the first row are all the teams except the first row's |
| `League.RankedTail` | src/app/services/league.service.ts:142-147 | removing the leader leaves a leaderboard for the other teams |
| `League.RankedUnique` | src/app/services/league.service.ts:142-147 | two leaderboards of the same standings are the same sequence, so the key listing order cannot show in the output |
| `League.LeaderBoardOrderIndependent` | src/app/services/league.service.ts:113-147 | reordering the input matches does not change the leaderboard |
| `Scenarios.FirstLeg` | src/app/services/league.service.ts:116-138 | a 2-1 home win between two new teams gives the home side 1 played, 2 for, 1 against, 3 points and the away side 1, 1, 2, 0 |
| `Scenarios.SecondLeg` | src/app/services/league.service.ts:116-138 | a 1-0 return win by the other side brings both teams to 2 played, 2 for, 2 against, 3 points |
| `Scenarios.StandingsOfTwo` | src/app/services/league.service.ts:115-140 | the loop over two matches applies the first one, then the second |
| `Scenarios.TwoLegs` | src/app/services/league.service.ts:113-140 | after those two matches the dictionary holds exactly the two teams with those totals |
| `Scenarios.PairRanked` | src/app/services/league.service.ts:142-147 | two entries of different teams, the first ranked above the second, form the leaderboard of a dictionary holding just them |
| `Scenarios.TwoLegsTieBrokenByName` | src/app/services/league.service.ts:113-147 | when points, goal difference and goals for are level, the team whose name comes first leads |
| `Scenarios.UnplayedOnly` | src/app/services/league.service.ts:113-147 | a single unplayed match registers both teams at zero whatever its scores, and they are ordered by name |
| `League.LeagueService.constructor` | src/app/services/league.service.ts:24-26 | a new service holds no matches |
| `League.LeagueService.SetMatches` | src/app/services/league.service.ts:73-75 | the stored match list becomes the given one |
| `League.LeagueService.GetLeaderBoard` | src/app/services/league.service.ts:112-148 | the result has exactly one row per team named by any match; each row is that team's closed-form totals; rows are strictly ranked by points, goal difference, goals for, then name |

## Left out

- `getAccessToken`, `getHeaders`, `getMatches` and `fetchData` (league.service.ts:28-44, 82-94, 153-161): HTTP requests, bearer tokens and observables, i.e. network I/O and asynchrony.
- `String.prototype.localeCompare` (league.service.ts:146) depends on the locale. `NameCompare` replaces it with lexicographic order on code points, a strict total order on names. `localeCompare` is not strict on all names: it returns 0 for distinct but canonically equivalent strings, such as a precomposed "é" and "e" followed by a combining acute accent. When two such teams are level on points, goal difference and goals for, the stable `Array.prototype.sort` keeps them in `Object.keys` order, which is the order of first appearance in the match list. So the source's leaderboard can then depend on the order of the matches. The uniqueness (`RankedUnique`) and order independence (`LeaderBoardOrderIndependent`) of the leaderboard hold for the model's name order only.
- The JavaScript engine's own sorting algorithm: the model sorts by insertion. Only the result matters: a sorted permutation, and under `NameCompare` that result is unique.
- The order of `Object.keys` is left unspecified in `ListStandings`. Under `NameCompare`, `RankedUnique` shows it cannot show in the output; with `localeCompare` it can, for the names above.
- Keys that a plain JavaScript object already inherits (`constructor`, `toString`, `__proto__`, …) are not modelled. For such a team name `standings[name]` is already truthy, so the source would skip the zero entry. The model treats every name as a fresh key.
- Loose typing of `matchs: any` (league.service.ts:112). String scores would concatenate under `+=` and compare as text. Scores are assumed non-negative (`nat`). The doc comment's `[INTEGER]` (league.service.ts:56-57) does not itself guarantee this. Negative scores are not modelled; with them, `goalsFor` and `goalsAgainst` could decrease, and `StandingsGrow` would not hold.
- JavaScript numbers are doubles. Counters are unbounded integers, so precision loss above 2^53 is not modelled.
- `matchDate` and `stadium` are not modelled: the leaderboard never reads them.
- Match validation: `getLeaderBoard` checks nothing and raises no error, so the model has no error path. A match whose home and away team are the same name is processed like any other (`SelfMatchUpdate`).
- The Angular modules, the routing table and the two page components (`app.module.ts`, `app-routing.module.ts`, `leaderboard.component.ts`, `schedule.component.ts`) are wiring and display only. The components call `getLeaderBoard()` with no argument and a non-existent `getAllMatches`; these call-site mistakes are outside the modelled service.
