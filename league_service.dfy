/**
 * `LeagueService`: the stored match list and `getLeaderBoard`, which folds a
 * match list into a dictionary of entries (`Accumulate`), lists the
 * dictionary's values (`ListStandings`) and sorts them (`SortStandings`).
 *
 * The order in which the dictionary's keys are listed is left unspecified:
 * `ListStandings` may produce any order. `RankedUnique` shows that this
 * order cannot show through in the leaderboard.
 */
module League {
  import opened LeagueTypes
  import opened Accumulator
  import opened Ranker

  /** The loop of `getLeaderBoard` that builds the dictionary. */
  method Accumulate(matches: seq<Match>) returns (standings: Table)
    ensures standings == Standings(matches)
  {
    standings := map[];
    var i := 0;
    while i < |matches|
      invariant 0 <= i <= |matches|
      invariant standings == Standings(matches[..i])
    {
      standings := RecordMatch(standings, matches[i]);
      assert matches[..i + 1][..i] == matches[..i];
      i := i + 1;
    }
    assert matches[..i] == matches;
  }

  /** The body of that loop for one match, updating the dictionary. */
  method RecordMatch(standings: Table, m: Match) returns (updated: Table)
    ensures updated == ApplyMatch(standings, m)
  {
    var home, away := m.homeTeam, m.awayTeam;
    updated := standings;
    if home !in updated {
      updated := updated[home := Zero(home)];
    }
    if away !in updated {
      updated := updated[away := Zero(away)];
    }
    assert updated == Register(Register(standings, home), away);
    if m.matchPlayed {
      updated := RecordResult(updated, m);
    }
  }

  /** The statements of the loop body that run for a played match. */
  method RecordResult(standings: Table, m: Match) returns (updated: Table)
    requires m.homeTeam in standings && m.awayTeam in standings
    ensures updated == AwardPoints(AddGoals(AddAppearances(standings, m), m), m)
  {
    var home, away := m.homeTeam, m.awayTeam;
    updated := standings;
    updated := updated[home := updated[home].(matchesPlayed := updated[home].matchesPlayed + 1)];
    updated := updated[away := updated[away].(matchesPlayed := updated[away].matchesPlayed + 1)];
    ghost var appeared := updated;
    assert appeared == AddAppearances(standings, m);

    updated := updated[home := updated[home].(goalsFor := updated[home].goalsFor + m.homeTeamScore)];
    updated := updated[home := updated[home].(goalsAgainst := updated[home].goalsAgainst + m.awayTeamScore)];
    updated := updated[away := updated[away].(goalsFor := updated[away].goalsFor + m.awayTeamScore)];
    updated := updated[away := updated[away].(goalsAgainst := updated[away].goalsAgainst + m.homeTeamScore)];
    ghost var scored := updated;
    assert scored == AddGoals(appeared, m);

    if m.homeTeamScore > m.awayTeamScore {
      updated := updated[home := updated[home].(points := updated[home].points + 3)];
    } else if m.homeTeamScore < m.awayTeamScore {
      updated := updated[away := updated[away].(points := updated[away].points + 3)];
    } else {
      updated := updated[home := updated[home].(points := updated[home].points + 1)];
      updated := updated[away := updated[away].(points := updated[away].points + 1)];
    }
    assert updated == AwardPoints(scored, m);
  }

  /**
   * The entry stored under each of the dictionary's keys: every key once,
   * in an order the model leaves open.
   */
  method ListStandings(standings: Table) returns (teams: seq<string>, rows: seq<Entry>)
    ensures forall t :: t in teams <==> t in standings
    ensures forall i, j :: 0 <= i < j < |teams| ==> teams[i] != teams[j]
    ensures |rows| == |teams|
    ensures forall i :: 0 <= i < |rows| ==> teams[i] in standings && rows[i] == standings[teams[i]]
  {
    teams, rows := [], [];
    var rest := standings.Keys;
    while rest != {}
      invariant rest <= standings.Keys
      invariant forall t :: t in teams <==> t in standings && t !in rest
      invariant forall i, j :: 0 <= i < j < |teams| ==> teams[i] != teams[j]
      invariant |rows| == |teams|
      invariant forall i :: 0 <= i < |rows| ==> teams[i] in standings && rows[i] == standings[teams[i]]
      decreases |rest|
    {
      var team :| team in rest;
      teams := teams + [team];
      rows := rows + [standings[team]];
      rest := rest - {team};
    }
  }

  /** The team names of a sequence of entries. */
  ghost function Names(s: seq<Entry>): set<string>
  {
    set e | e in s :: e.teamName
  }

  /** Each entry is the one stored under its name, no name twice, every team present. */
  ghost predicate OnePerTeam(board: seq<Entry>, standings: Table)
  {
    && (forall i :: 0 <= i < |board| ==>
          board[i].teamName in standings && standings[board[i].teamName] == board[i])
    && (forall i, j :: 0 <= i < j < |board| ==> board[i].teamName != board[j].teamName)
    && Names(board) == standings.Keys
  }

  /** A leaderboard for `standings`: one entry per team, each ranked strictly above the next ones. */
  ghost predicate Ranked(board: seq<Entry>, standings: Table)
  {
    && OnePerTeam(board, standings)
    && forall i, j :: 0 <= i < j < |board| ==> RanksAbove(board[i], board[j])
  }

  /** An element that occurs at two positions is counted at least twice. */
  lemma DuplicateCount(s: seq<Entry>, i: nat, j: nat)
    requires i < j < |s| && s[i] == s[j]
    ensures multiset(s)[s[i]] >= 2
  {
    assert s == s[..j] + s[j..];
    assert s[i] in s[..j];
    assert s[j] in s[j..];
  }

  /** A sequence with no repeated element counts each element at most once. */
  lemma {:induction false} DistinctCount(s: seq<Entry>, x: Entry)
    requires forall i, j :: 0 <= i < j < |s| ==> s[i] != s[j]
    ensures multiset(s)[x] <= 1
  {
    if s != [] {
      var init := s[..|s| - 1];
      assert s == init + [s[|s| - 1]];
      DistinctCount(init, x);
      if x == s[|s| - 1] {
        assert x !in init;
      }
    }
  }

  /** Rearranging a one-entry-per-team listing gives another one. */
  lemma PermutationKeepsOnePerTeam(rows: seq<Entry>, board: seq<Entry>, standings: Table)
    requires OnePerTeam(rows, standings)
    requires multiset(board) == multiset(rows)
    ensures OnePerTeam(board, standings)
  {
    forall e ensures e in board <==> e in rows {
      assert e in board <==> e in multiset(board);
      assert e in rows <==> e in multiset(rows);
    }
    assert Names(board) == Names(rows);
    forall i, j | 0 <= i < j < |board| ensures board[i].teamName != board[j].teamName {
      if board[i].teamName == board[j].teamName {
        assert board[i] in rows && board[j] in rows;
        DuplicateCount(board, i, j);
        DistinctCount(rows, board[i]);
        assert false;
      }
    }
  }

  /** A sorted one-per-team listing is strictly ranked, because names break every tie. */
  lemma SortedIsRanked(board: seq<Entry>, standings: Table)
    requires OnePerTeam(board, standings) && Sorted(board)
    ensures Ranked(board, standings)
  {
    forall i, j | 0 <= i < j < |board| ensures RanksAbove(board[i], board[j]) {
      RanksAboveTotal(board[i], board[j]);
    }
  }

  /**
   * Output order is fully determined: two leaderboards for the same standings
   * are the same sequence, whatever order the dictionary was listed in.
   */
  lemma {:induction false} RankedUnique(b1: seq<Entry>, b2: seq<Entry>, standings: Table)
    requires Ranked(b1, standings) && Ranked(b2, standings)
    ensures b1 == b2
    decreases |b1|
  {
    if b1 == [] {
    } else {
      assert b1[0] in b1;
      assert b2 != [] by {
        assert b1[0].teamName in Names(b1);
      }
      assert b2[0] in b2;
      var x, y := b1[0], b2[0];
      assert y.teamName in Names(b1);
      var k :| 0 <= k < |b1| && b1[k].teamName == y.teamName;
      assert x.teamName in Names(b2);
      var k' :| 0 <= k' < |b2| && b2[k'].teamName == x.teamName;
      assert b1[k] == y && b2[k'] == x;
      if k != 0 && k' != 0 {
        RanksAboveStrict(x, y, x);
        assert false;
      }
      assert x == y;
      var rest := standings - {x.teamName};
      RankedTail(b1, standings);
      RankedTail(b2, standings);
      RankedUnique(b1[1..], b2[1..], rest);
      assert b1 == [x] + b1[1..] && b2 == [y] + b2[1..];
    }
  }

  /** Dropping the leader leaves a leaderboard for the other teams. */
  lemma RankedTail(b: seq<Entry>, standings: Table)
    requires Ranked(b, standings) && b != []
    ensures Ranked(b[1..], standings - {b[0].teamName})
  {
    var rest := standings - {b[0].teamName};
    var t := b[1..];
    forall i | 0 <= i < |t| ensures t[i].teamName in rest && rest[t[i].teamName] == t[i] {
      assert t[i] == b[i + 1];
    }
    TailNames(b, standings);
  }

  /** The names after the leader are all the names but the leader's. */
  lemma TailNames(b: seq<Entry>, standings: Table)
    requires OnePerTeam(b, standings) && b != []
    ensures Names(b[1..]) == standings.Keys - {b[0].teamName}
  {
    var t := b[1..];
    forall n | n in Names(t) ensures n in standings.Keys - {b[0].teamName} {
      var e :| e in t && e.teamName == n;
      var k :| 0 <= k < |t| && t[k] == e;
      assert b[k + 1] == e;
    }
    forall n | n in standings.Keys - {b[0].teamName} ensures n in Names(t) {
      assert n in Names(b);
      var e :| e in b && e.teamName == n;
      var k :| 0 <= k < |b| && b[k] == e;
      assert t[k - 1] == e;
    }
  }

  /** The leaderboard does not depend on the order of the input matches either. */
  lemma LeaderBoardOrderIndependent(ms: seq<Match>, ms': seq<Match>, b: seq<Entry>, b': seq<Entry>)
    requires multiset(ms) == multiset(ms')
    requires Ranked(b, Standings(ms)) && Ranked(b', Standings(ms'))
    ensures b == b'
  {
    OrderIndependent(ms, ms');
    RankedUnique(b, b', Standings(ms));
  }

  /** The service: the stored match list and the leaderboard computation. */
  class LeagueService {
    var matchesData: seq<Match>

    constructor ()
      ensures matchesData == []
    {
      matchesData := [];
    }

    /** Replaces the stored match list. */
    method SetMatches(matches: seq<Match>)
      modifies this
      ensures matchesData == matches
    {
      matchesData := matches;
    }

    /**
     * The leaderboard of `matchs`: one row per team named by any match, each
     * row the team's totals over the played matches, strictly ranked.
     */
    method GetLeaderBoard(matchs: seq<Match>) returns (board: seq<Entry>)
      ensures Ranked(board, Standings(matchs))
      ensures Names(board) == Teams(matchs)
      ensures forall i :: 0 <= i < |board| ==> board[i] == Expected(matchs, board[i].teamName)
    {
      var standings := Accumulate(matchs);
      var teams, rows := ListStandings(standings);
      board := SortStandings(rows);

      StandingsKeys(matchs);
      forall t | t in standings ensures t in Names(rows) {
        var k :| 0 <= k < |teams| && teams[k] == t;
        assert rows[k] in rows;
      }
      assert OnePerTeam(rows, standings);
      PermutationKeepsOnePerTeam(rows, board, standings);
      SortedIsRanked(board, standings);
      forall i | 0 <= i < |board| ensures board[i] == Expected(matchs, board[i].teamName) {
        StandingsEntry(matchs, board[i].teamName);
      }
    }
  }
}
