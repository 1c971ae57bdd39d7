/**
 * The accumulation stage of `getLeaderBoard`: one pass over the matches that
 * builds a dictionary from team name to leaderboard entry.
 *
 * The dictionary is a `map<string, Entry>`. `ApplyMatch` is the effect of one
 * iteration of the loop body, written as the same sequence of single-counter
 * updates the source performs, so that a match whose home and away team are
 * the same name updates one entry twice, as the source does. `Standings` is
 * the whole fold. Beside it stand two independent descriptions of the result:
 * `Expected`, a closed form built from what each match credits to each team,
 * and `Total`, the sum of a counter over the whole table.
 */
module Accumulator {
  import opened LeagueTypes

  type Table = map<string, Entry>

  /** Every entry is stored under its own team name. */
  ghost predicate Named(s: Table)
  {
    forall t :: t in s ==> s[t].teamName == t
  }

  /** The zero-initialisation of a team on first sight; a known team is left alone. */
  function Register(s: Table, team: string): (r: Table)
    ensures r.Keys == s.Keys + {team}
    ensures team in s ==> r == s
    ensures team !in s ==> r[team] == Zero(team) && forall t :: t in s ==> r[t] == s[t]
  {
    if team in s then s else s[team := Zero(team)]
  }

  /** `s[team].<f> += n`. */
  function Bump(s: Table, team: string, f: Field, n: nat): (r: Table)
    requires team in s
    ensures r.Keys == s.Keys
  {
    s[team := Add(s[team], f, n)]
  }

  /** What `Bump` does to one counter of one entry. */
  lemma BumpAt(s: Table, team: string, g: Field, n: nat, t: string, f: Field)
    requires team in s && t in s
    ensures Bump(s, team, g, n)[t].teamName == s[t].teamName
    ensures Stat(Bump(s, team, g, n)[t], f) == Stat(s[t], f) + (if t == team && f == g then n else 0)
  {
  }

  /** One iteration of the loop body, in the order of the source's statements. */
  function ApplyMatch(s: Table, m: Match): (r: Table)
    ensures r.Keys == s.Keys + {m.homeTeam, m.awayTeam}
  {
    var s1 := Register(Register(s, m.homeTeam), m.awayTeam);
    if m.matchPlayed then AwardPoints(AddGoals(AddAppearances(s1, m), m), m) else s1
  }

  /** Both teams of a played match have played one more match. */
  function AddAppearances(s: Table, m: Match): (r: Table)
    requires m.homeTeam in s && m.awayTeam in s
    ensures r.Keys == s.Keys
  {
    Bump(Bump(s, m.homeTeam, MatchesPlayed, 1), m.awayTeam, MatchesPlayed, 1)
  }

  /** Each score goes to the scorer's goals for and to the other side's goals against. */
  function AddGoals(s: Table, m: Match): (r: Table)
    requires m.homeTeam in s && m.awayTeam in s
    ensures r.Keys == s.Keys
  {
    var s1 := Bump(s, m.homeTeam, GoalsFor, m.homeTeamScore);
    var s2 := Bump(s1, m.homeTeam, GoalsAgainst, m.awayTeamScore);
    var s3 := Bump(s2, m.awayTeam, GoalsFor, m.awayTeamScore);
    Bump(s3, m.awayTeam, GoalsAgainst, m.homeTeamScore)
  }

  /** 3 points to the winner, or 1 point to each side of a draw. */
  function AwardPoints(s: Table, m: Match): (r: Table)
    requires m.homeTeam in s && m.awayTeam in s
    ensures r.Keys == s.Keys
  {
    if m.homeTeamScore > m.awayTeamScore then Bump(s, m.homeTeam, Points, 3)
    else if m.homeTeamScore < m.awayTeamScore then Bump(s, m.awayTeam, Points, 3)
    else Bump(Bump(s, m.homeTeam, Points, 1), m.awayTeam, Points, 1)
  }

  /** The dictionary after folding all of `ms`, in order, into an empty one. */
  function Standings(ms: seq<Match>): Table
  {
    if ms == [] then map[] else ApplyMatch(Standings(ms[..|ms| - 1]), ms[|ms| - 1])
  }

  /** Every name that occurs as home or away team of some match, played or not. */
  function Teams(ms: seq<Match>): set<string>
  {
    (set m | m in ms :: m.homeTeam) + (set m | m in ms :: m.awayTeam)
  }

  // ---------------------------------------------------------------------------
  // Reference definition: what one match credits to one team

  /** What one side of a played match earns: one appearance, its goals, 3/1/0 points. */
  function SideCredit(own: nat, other: nat, f: Field): nat
  {
    match f
    case MatchesPlayed => 1
    case GoalsFor => own
    case GoalsAgainst => other
    case Points => if own > other then 3 else if own == other then 1 else 0
  }

  /** What match `m` adds to counter `f` of `team`; both sides when both are `team`. */
  function Credit(m: Match, team: string, f: Field): nat
  {
    if !m.matchPlayed then 0
    else
      (if team == m.homeTeam then SideCredit(m.homeTeamScore, m.awayTeamScore, f) else 0)
      + (if team == m.awayTeam then SideCredit(m.awayTeamScore, m.homeTeamScore, f) else 0)
  }

  /** The sum of the credits of all of `ms` to counter `f` of `team`. */
  function Credits(ms: seq<Match>, team: string, f: Field): nat
  {
    if ms == [] then 0 else Credits(ms[..|ms| - 1], team, f) + Credit(ms[|ms| - 1], team, f)
  }

  /** The entry a team should have after all of `ms`. */
  function Expected(ms: seq<Match>, team: string): Entry
  {
    Entry(team, Credits(ms, team, MatchesPlayed), Credits(ms, team, GoalsFor),
          Credits(ms, team, GoalsAgainst), Credits(ms, team, Points))
  }

  // ---------------------------------------------------------------------------
  // One match

  /** The value of a counter before the match: zero for a team seen for the first time. */
  function Before(s: Table, t: string, f: Field): nat
  {
    if t in s then Stat(s[t], f) else 0
  }

  /** What `AddAppearances` does to one counter of one entry. */
  lemma AddAppearancesAt(s: Table, m: Match, t: string, f: Field)
    requires m.homeTeam in s && m.awayTeam in s && t in s
    ensures AddAppearances(s, m)[t].teamName == s[t].teamName
    ensures Stat(AddAppearances(s, m)[t], f) == Stat(s[t], f)
      + (if f == MatchesPlayed then (if t == m.homeTeam then 1 else 0) + (if t == m.awayTeam then 1 else 0) else 0)
  {
    var s1 := Bump(s, m.homeTeam, MatchesPlayed, 1);
    BumpAt(s, m.homeTeam, MatchesPlayed, 1, t, f);
    BumpAt(s1, m.awayTeam, MatchesPlayed, 1, t, f);
  }

  /** What `AddGoals` does to one counter of one entry. */
  lemma AddGoalsAt(s: Table, m: Match, t: string, f: Field)
    requires m.homeTeam in s && m.awayTeam in s && t in s
    ensures AddGoals(s, m)[t].teamName == s[t].teamName
    ensures Stat(AddGoals(s, m)[t], f) == Stat(s[t], f)
      + (if f == GoalsFor || f == GoalsAgainst
         then (if t == m.homeTeam then SideCredit(m.homeTeamScore, m.awayTeamScore, f) else 0)
            + (if t == m.awayTeam then SideCredit(m.awayTeamScore, m.homeTeamScore, f) else 0)
         else 0)
  {
    var s1 := Bump(s, m.homeTeam, GoalsFor, m.homeTeamScore);
    var s2 := Bump(s1, m.homeTeam, GoalsAgainst, m.awayTeamScore);
    var s3 := Bump(s2, m.awayTeam, GoalsFor, m.awayTeamScore);
    BumpAt(s, m.homeTeam, GoalsFor, m.homeTeamScore, t, f);
    BumpAt(s1, m.homeTeam, GoalsAgainst, m.awayTeamScore, t, f);
    BumpAt(s2, m.awayTeam, GoalsFor, m.awayTeamScore, t, f);
    BumpAt(s3, m.awayTeam, GoalsAgainst, m.homeTeamScore, t, f);
  }

  /** What `AwardPoints` does to one counter of one entry. */
  lemma AwardPointsAt(s: Table, m: Match, t: string, f: Field)
    requires m.homeTeam in s && m.awayTeam in s && t in s
    ensures AwardPoints(s, m)[t].teamName == s[t].teamName
    ensures Stat(AwardPoints(s, m)[t], f) == Stat(s[t], f)
      + (if f == Points
         then (if t == m.homeTeam then SideCredit(m.homeTeamScore, m.awayTeamScore, f) else 0)
            + (if t == m.awayTeam then SideCredit(m.awayTeamScore, m.homeTeamScore, f) else 0)
         else 0)
  {
    if m.homeTeamScore > m.awayTeamScore {
      BumpAt(s, m.homeTeam, Points, 3, t, f);
    } else if m.homeTeamScore < m.awayTeamScore {
      BumpAt(s, m.awayTeam, Points, 3, t, f);
    } else {
      BumpAt(s, m.homeTeam, Points, 1, t, f);
      BumpAt(Bump(s, m.homeTeam, Points, 1), m.awayTeam, Points, 1, t, f);
    }
  }

  /** One iteration adds to counter `f` of team `t` exactly `t`'s credit from the match. */
  lemma ApplyMatchCreditAt(s: Table, m: Match, t: string, f: Field)
    requires t in s || t == m.homeTeam || t == m.awayTeam
    ensures t in ApplyMatch(s, m)
    ensures ApplyMatch(s, m)[t].teamName == if t in s then s[t].teamName else t
    ensures Stat(ApplyMatch(s, m)[t], f) == Before(s, t, f) + Credit(m, t, f)
  {
    var s1 := Register(Register(s, m.homeTeam), m.awayTeam);
    assert s1[t].teamName == (if t in s then s[t].teamName else t);
    assert Stat(s1[t], f) == Before(s, t, f);
    if m.matchPlayed {
      var s2 := AddAppearances(s1, m);
      var s3 := AddGoals(s2, m);
      AddAppearancesAt(s1, m, t, f);
      AddGoalsAt(s2, m, t, f);
      AwardPointsAt(s3, m, t, f);
    }
  }

  /**
   * One iteration registers both teams, keeps every entry under its own name,
   * and adds to each counter of each team exactly that team's credit; other
   * teams are untouched.
   */
  lemma ApplyMatchCredit(s: Table, m: Match)
    requires Named(s)
    ensures ApplyMatch(s, m).Keys == s.Keys + {m.homeTeam, m.awayTeam}
    ensures Named(ApplyMatch(s, m))
    ensures forall t, f: Field :: t in ApplyMatch(s, m) ==>
      Stat(ApplyMatch(s, m)[t], f) == Before(s, t, f) + Credit(m, t, f)
  {
    var r := ApplyMatch(s, m);
    forall t | t in r ensures r[t].teamName == t {
      ApplyMatchCreditAt(s, m, t, Points);
    }
    forall t, f: Field | t in r ensures Stat(r[t], f) == Before(s, t, f) + Credit(m, t, f) {
      ApplyMatchCreditAt(s, m, t, f);
    }
  }

  /** An unplayed match only registers its teams, at zero; no counter of any entry changes. */
  lemma UnplayedMatchNeutral(s: Table, m: Match)
    requires !m.matchPlayed
    ensures ApplyMatch(s, m).Keys == s.Keys + {m.homeTeam, m.awayTeam}
    ensures forall t :: t in s ==> ApplyMatch(s, m)[t] == s[t]
    ensures forall t :: t in ApplyMatch(s, m) && t !in s ==> ApplyMatch(s, m)[t] == Zero(t)
  {
  }

  /** Two entries with the same name and the same counters are the same entry. */
  lemma EntryEquality(e: Entry, e': Entry)
    requires e.teamName == e'.teamName
    requires forall f: Field :: Stat(e, f) == Stat(e', f)
    ensures e == e'
  {
    assert Stat(e, MatchesPlayed) == Stat(e', MatchesPlayed);
    assert Stat(e, GoalsFor) == Stat(e', GoalsFor);
    assert Stat(e, GoalsAgainst) == Stat(e', GoalsAgainst);
    assert Stat(e, Points) == Stat(e', Points);
  }

  /** Teams not in the match keep their entries exactly. */
  lemma ApplyMatchOthersUnchanged(s: Table, m: Match)
    ensures forall t :: t in s && t != m.homeTeam && t != m.awayTeam ==> ApplyMatch(s, m)[t] == s[t]
  {
    forall t | t in s && t != m.homeTeam && t != m.awayTeam ensures ApplyMatch(s, m)[t] == s[t] {
      forall f: Field ensures Stat(ApplyMatch(s, m)[t], f) == Stat(s[t], f) {
        ApplyMatchCreditAt(s, m, t, f);
      }
      ApplyMatchCreditAt(s, m, t, Points);
      EntryEquality(ApplyMatch(s, m)[t], s[t]);
    }
  }

  /**
   * A played match between two different teams: each plays one more match,
   * the goals go to the scorer's goalsFor and the other side's goalsAgainst,
   * the winner gets 3 points and the loser none, a draw gives 1 point to each.
   */
  lemma PlayedMatchUpdate(s: Table, m: Match)
    requires m.matchPlayed && m.homeTeam != m.awayTeam
    ensures var r, h, a := ApplyMatch(s, m), m.homeTeam, m.awayTeam;
      && r[h].matchesPlayed == Before(s, h, MatchesPlayed) + 1
      && r[a].matchesPlayed == Before(s, a, MatchesPlayed) + 1
      && r[h].goalsFor == Before(s, h, GoalsFor) + m.homeTeamScore
      && r[h].goalsAgainst == Before(s, h, GoalsAgainst) + m.awayTeamScore
      && r[a].goalsFor == Before(s, a, GoalsFor) + m.awayTeamScore
      && r[a].goalsAgainst == Before(s, a, GoalsAgainst) + m.homeTeamScore
      && (m.homeTeamScore > m.awayTeamScore ==>
            r[h].points == Before(s, h, Points) + 3 && r[a].points == Before(s, a, Points))
      && (m.homeTeamScore < m.awayTeamScore ==>
            r[h].points == Before(s, h, Points) && r[a].points == Before(s, a, Points) + 3)
      && (m.homeTeamScore == m.awayTeamScore ==>
            r[h].points == Before(s, h, Points) + 1 && r[a].points == Before(s, a, Points) + 1)
  {
    var h, a := m.homeTeam, m.awayTeam;
    ApplyMatchCreditAt(s, m, h, MatchesPlayed);
    ApplyMatchCreditAt(s, m, a, MatchesPlayed);
    ApplyMatchCreditAt(s, m, h, GoalsFor);
    ApplyMatchCreditAt(s, m, a, GoalsFor);
    ApplyMatchCreditAt(s, m, h, GoalsAgainst);
    ApplyMatchCreditAt(s, m, a, GoalsAgainst);
    ApplyMatchCreditAt(s, m, h, Points);
    ApplyMatchCreditAt(s, m, a, Points);
  }

  /**
   * A played match whose home and away team are the same name: every update
   * lands on the one entry, so it plays two matches, both scores count as
   * goals for and as goals against, and it gets 3 points for a decisive score
   * or 2 for a draw.
   */
  lemma SelfMatchUpdate(s: Table, m: Match)
    requires m.matchPlayed && m.homeTeam == m.awayTeam
    ensures var r, t := ApplyMatch(s, m), m.homeTeam;
      && r[t].matchesPlayed == Before(s, t, MatchesPlayed) + 2
      && r[t].goalsFor == Before(s, t, GoalsFor) + m.homeTeamScore + m.awayTeamScore
      && r[t].goalsAgainst == Before(s, t, GoalsAgainst) + m.homeTeamScore + m.awayTeamScore
      && r[t].points == Before(s, t, Points) + (if m.homeTeamScore == m.awayTeamScore then 2 else 3)
  {
    var t := m.homeTeam;
    ApplyMatchCreditAt(s, m, t, MatchesPlayed);
    ApplyMatchCreditAt(s, m, t, GoalsFor);
    ApplyMatchCreditAt(s, m, t, GoalsAgainst);
    ApplyMatchCreditAt(s, m, t, Points);
  }

  // ---------------------------------------------------------------------------
  // The whole fold

  /** The teams of a sequence are the teams of its prefix and of its last match. */
  lemma TeamsSnoc(ms: seq<Match>)
    requires ms != []
    ensures Teams(ms) == Teams(ms[..|ms| - 1]) + {ms[|ms| - 1].homeTeam, ms[|ms| - 1].awayTeam}
  {
    var init, last := ms[..|ms| - 1], ms[|ms| - 1];
    assert ms == init + [last];
    assert forall m :: m in ms <==> m in init || m == last;
  }

  /** The fold stores every entry under its own name and has one key per team of the input. */
  lemma {:induction false} StandingsKeys(ms: seq<Match>)
    ensures Named(Standings(ms))
    ensures Standings(ms).Keys == Teams(ms)
  {
    if ms != [] {
      var init := ms[..|ms| - 1];
      StandingsKeys(init);
      ApplyMatchCredit(Standings(init), ms[|ms| - 1]);
      TeamsSnoc(ms);
    }
  }

  /** Every entry of the fold is the closed form: the sum of the credits of all matches. */
  lemma {:induction false} StandingsEntry(ms: seq<Match>, t: string)
    requires t in Standings(ms)
    ensures Standings(ms)[t] == Expected(ms, t)
  {
    var init, last := ms[..|ms| - 1], ms[|ms| - 1];
    StandingsKeys(init);
    ApplyMatchCredit(Standings(init), last);
    var e := Standings(ms)[t];
    if t in Standings(init) {
      StandingsEntry(init, t);
    } else {
      StandingsKeys(init);
      CreditsOfStranger(init, t);
    }
    assert Stat(e, MatchesPlayed) == Credits(ms, t, MatchesPlayed);
    assert Stat(e, GoalsFor) == Credits(ms, t, GoalsFor);
    assert Stat(e, GoalsAgainst) == Credits(ms, t, GoalsAgainst);
    assert Stat(e, Points) == Credits(ms, t, Points);
  }

  /** A team that no match names has been credited with nothing. */
  lemma {:induction false} CreditsOfStranger(ms: seq<Match>, t: string)
    requires t !in Teams(ms)
    ensures forall f: Field :: Credits(ms, t, f) == 0
  {
    if ms != [] {
      var init, last := ms[..|ms| - 1], ms[|ms| - 1];
      assert last in ms;
      assert forall m :: m in init ==> m in ms;
      CreditsOfStranger(init, t);
    }
  }

  /** The fold equals the closed form, entry for entry. */
  lemma StandingsClosedForm(ms: seq<Match>)
    ensures Standings(ms) == map t | t in Teams(ms) :: Expected(ms, t)
  {
    StandingsKeys(ms);
    forall t | t in Standings(ms) ensures Standings(ms)[t] == Expected(ms, t) {
      StandingsEntry(ms, t);
    }
  }

  /** Credits over a concatenation add up. */
  lemma {:induction false} CreditsAppend(a: seq<Match>, b: seq<Match>, t: string, f: Field)
    ensures Credits(a + b, t, f) == Credits(a, t, f) + Credits(b, t, f)
  {
    if b == [] {
      assert a + b == a;
    } else {
      var bi := b[..|b| - 1];
      assert (a + b)[..|a + b| - 1] == a + bi;
      CreditsAppend(a, bi, t, f);
    }
  }

  /** Taking one match out of a sequence takes its credit out of the sum. */
  lemma CreditsRemove(b: seq<Match>, j: nat, t: string, f: Field)
    requires j < |b|
    ensures Credits(b, t, f) == Credits(b[..j] + b[j + 1..], t, f) + Credit(b[j], t, f)
  {
    var x := b[j];
    assert b == (b[..j] + [x]) + b[j + 1..];
    CreditsAppend(b[..j] + [x], b[j + 1..], t, f);
    CreditsAppend(b[..j], [x], t, f);
    CreditsAppend(b[..j], b[j + 1..], t, f);
    assert [x][..0] == [];
  }

  /** Removing the same element from two sequences with equal multisets keeps them equal. */
  lemma MultisetRemove(a: seq<Match>, b: seq<Match>, j: nat)
    requires multiset(a) == multiset(b) && a != [] && j < |b| && b[j] == a[|a| - 1]
    ensures multiset(a[..|a| - 1]) == multiset(b[..j] + b[j + 1..])
  {
    var x := a[|a| - 1];
    var a', b' := a[..|a| - 1], b[..j] + b[j + 1..];
    assert a == a' + [x];
    assert b == b[..j] + [x] + b[j + 1..];
    assert multiset(a) == multiset(a') + multiset{x};
    assert multiset(b) == multiset(b[..j]) + multiset{x} + multiset(b[j + 1..]);
    assert multiset(b') == multiset(b[..j]) + multiset(b[j + 1..]);
    forall y ensures multiset(a')[y] == multiset(b')[y] {
      assert (multiset(a') + multiset{x})[y] == (multiset(b') + multiset{x})[y];
    }
  }

  /** Credits do not depend on the order of the matches. */
  lemma {:induction false} CreditsPermutation(a: seq<Match>, b: seq<Match>, t: string, f: Field)
    requires multiset(a) == multiset(b)
    ensures Credits(a, t, f) == Credits(b, t, f)
  {
    if a == [] {
      assert |b| == |multiset(b)| == 0;
    } else {
      var x := a[|a| - 1];
      assert x in multiset(b);
      var j :| 0 <= j < |b| && b[j] == x;
      MultisetRemove(a, b, j);
      CreditsPermutation(a[..|a| - 1], b[..j] + b[j + 1..], t, f);
      CreditsRemove(b, j, t, f);
    }
  }

  /** The final dictionary does not depend on the order of the input matches. */
  lemma OrderIndependent(ms: seq<Match>, ms': seq<Match>)
    requires multiset(ms) == multiset(ms')
    ensures Standings(ms) == Standings(ms')
  {
    assert forall m :: m in ms <==> m in ms' by {
      forall m ensures m in ms <==> m in ms' {
        assert m in ms <==> m in multiset(ms);
        assert m in ms' <==> m in multiset(ms');
      }
    }
    assert Teams(ms) == Teams(ms');
    forall t | t in Teams(ms) ensures Expected(ms, t) == Expected(ms', t) {
      CreditsPermutation(ms, ms', t, MatchesPlayed);
      CreditsPermutation(ms, ms', t, GoalsFor);
      CreditsPermutation(ms, ms', t, GoalsAgainst);
      CreditsPermutation(ms, ms', t, Points);
    }
    StandingsClosedForm(ms);
    StandingsClosedForm(ms');
  }

  /** Counters never decrease as the fold proceeds, and no team is forgotten. */
  lemma {:induction false} StandingsGrowAt(ms: seq<Match>, i: nat, t: string, f: Field)
    requires i <= |ms| && t in Standings(ms[..i])
    ensures t in Standings(ms) && Stat(Standings(ms[..i])[t], f) <= Stat(Standings(ms)[t], f)
  {
    if i == |ms| {
      assert ms[..i] == ms;
    } else {
      var init := ms[..|ms| - 1];
      assert init[..i] == ms[..i];
      StandingsGrowAt(init, i, t, f);
      StandingsKeys(init);
      ApplyMatchCreditAt(Standings(init), ms[|ms| - 1], t, f);
    }
  }

  /** The same, for every team and counter at once. */
  lemma StandingsGrow(ms: seq<Match>, i: nat)
    requires i <= |ms|
    ensures Standings(ms[..i]).Keys <= Standings(ms).Keys
    ensures forall t, f: Field :: t in Standings(ms[..i]) ==>
      Stat(Standings(ms[..i])[t], f) <= Stat(Standings(ms)[t], f)
  {
    var pre, all := Standings(ms[..i]), Standings(ms);
    forall t | t in pre ensures t in all {
      StandingsGrowAt(ms, i, t, Points);
    }
    forall t, f: Field | t in pre ensures Stat(pre[t], f) <= Stat(all[t], f) {
      StandingsGrowAt(ms, i, t, f);
    }
  }

  // ---------------------------------------------------------------------------
  // Totals over the table

  /** The sum of counter `f` over all entries of the table. */
  ghost function Total(s: Table, f: Field): nat
    decreases |s|
  {
    if s == map[] then 0
    else
      var k :| k in s;
      assert |(s - {k}).Keys| < |s.Keys| by { assert (s - {k}).Keys == s.Keys - {k}; }
      Stat(s[k], f) + Total(s - {k}, f)
  }

  /** The total may be taken apart at any key, whichever one `Total` happens to choose. */
  lemma {:induction false} TotalRemove(s: Table, k: string, f: Field)
    requires k in s
    ensures Total(s, f) == Stat(s[k], f) + Total(s - {k}, f)
    decreases |s|
  {
    var j :| j in s && Total(s, f) == Stat(s[j], f) + Total(s - {j}, f);
    if j != k {
      assert (s - {j}).Keys == s.Keys - {j};
      assert (s - {k}).Keys == s.Keys - {k};
      TotalRemove(s - {j}, k, f);
      TotalRemove(s - {k}, j, f);
      assert s - {j} - {k} == s - {k} - {j};
    }
  }

  /** Writing one entry changes the total by the difference of that entry's counter. */
  lemma TotalUpdate(s: Table, k: string, v: Entry, f: Field)
    ensures Total(s[k := v], f) == Total(s, f) - (if k in s then Stat(s[k], f) else 0) + Stat(v, f)
  {
    TotalRemove(s[k := v], k, f);
    assert s[k := v] - {k} == s - {k};
    if k in s {
      TotalRemove(s, k, f);
    } else {
      assert s - {k} == s;
    }
  }

  /** What one match adds to the total of counter `f` over the whole table. */
  function MatchTotal(m: Match, f: Field): nat
  {
    if !m.matchPlayed then 0
    else match f
      case MatchesPlayed => 2
      case GoalsFor => m.homeTeamScore + m.awayTeamScore
      case GoalsAgainst => m.homeTeamScore + m.awayTeamScore
      case Points => if m.homeTeamScore == m.awayTeamScore then 2 else 3
  }

  /** Registering adds a zero entry and so leaves every total unchanged. */
  lemma TotalRegister(s: Table, team: string, f: Field)
    ensures Total(Register(s, team), f) == Total(s, f)
  {
    if team !in s {
      TotalUpdate(s, team, Zero(team), f);
    }
  }

  /** `s[team].<g> += n` adds `n` to total `g` and nothing to the others. */
  lemma TotalBump(s: Table, team: string, g: Field, n: nat, f: Field)
    requires team in s
    ensures Total(Bump(s, team, g, n), f) == Total(s, f) + (if f == g then n else 0)
  {
    TotalUpdate(s, team, Add(s[team], g, n), f);
  }

  /** Two more appearances in all. */
  lemma AddAppearancesTotal(s: Table, m: Match, f: Field)
    requires m.homeTeam in s && m.awayTeam in s
    ensures Total(AddAppearances(s, m), f) == Total(s, f) + (if f == MatchesPlayed then 2 else 0)
  {
    TotalBump(s, m.homeTeam, MatchesPlayed, 1, f);
    TotalBump(Bump(s, m.homeTeam, MatchesPlayed, 1), m.awayTeam, MatchesPlayed, 1, f);
  }

  /** Both scores are added to goals for, and both to goals against. */
  lemma AddGoalsTotal(s: Table, m: Match, f: Field)
    requires m.homeTeam in s && m.awayTeam in s
    ensures Total(AddGoals(s, m), f) == Total(s, f)
      + (if f == GoalsFor || f == GoalsAgainst then m.homeTeamScore + m.awayTeamScore else 0)
  {
    var s1 := Bump(s, m.homeTeam, GoalsFor, m.homeTeamScore);
    var s2 := Bump(s1, m.homeTeam, GoalsAgainst, m.awayTeamScore);
    var s3 := Bump(s2, m.awayTeam, GoalsFor, m.awayTeamScore);
    TotalBump(s, m.homeTeam, GoalsFor, m.homeTeamScore, f);
    TotalBump(s1, m.homeTeam, GoalsAgainst, m.awayTeamScore, f);
    TotalBump(s2, m.awayTeam, GoalsFor, m.awayTeamScore, f);
    TotalBump(s3, m.awayTeam, GoalsAgainst, m.homeTeamScore, f);
  }

  /** 3 points in all for a decisive result, 2 for a draw. */
  lemma AwardPointsTotal(s: Table, m: Match, f: Field)
    requires m.homeTeam in s && m.awayTeam in s
    ensures Total(AwardPoints(s, m), f) == Total(s, f)
      + (if f == Points then (if m.homeTeamScore == m.awayTeamScore then 2 else 3) else 0)
  {
    if m.homeTeamScore > m.awayTeamScore {
      TotalBump(s, m.homeTeam, Points, 3, f);
    } else if m.homeTeamScore < m.awayTeamScore {
      TotalBump(s, m.awayTeam, Points, 3, f);
    } else {
      TotalBump(s, m.homeTeam, Points, 1, f);
      TotalBump(Bump(s, m.homeTeam, Points, 1), m.awayTeam, Points, 1, f);
    }
  }

  /**
   * Per match, the totals grow by the match's own figures: two appearances,
   * both scores as goals for and as goals against, and 3 points for a decisive
   * result or 2 for a draw; nothing for an unplayed match.
   */
  lemma ApplyMatchTotal(s: Table, m: Match, f: Field)
    ensures Total(ApplyMatch(s, m), f) == Total(s, f) + MatchTotal(m, f)
  {
    var s0 := Register(s, m.homeTeam);
    var s1 := Register(s0, m.awayTeam);
    TotalRegister(s, m.homeTeam, f);
    TotalRegister(s0, m.awayTeam, f);
    if m.matchPlayed {
      var s2 := AddAppearances(s1, m);
      var s3 := AddGoals(s2, m);
      AddAppearancesTotal(s1, m, f);
      AddGoalsTotal(s2, m, f);
      AwardPointsTotal(s3, m, f);
    }
  }

  /** Sum of `MatchTotal` over a sequence of matches. */
  function MatchTotals(ms: seq<Match>, f: Field): nat
  {
    if ms == [] then 0 else MatchTotals(ms[..|ms| - 1], f) + MatchTotal(ms[|ms| - 1], f)
  }

  /** The total of every counter over the final table is the sum of the matches' figures. */
  lemma {:induction false} StandingsTotal(ms: seq<Match>, f: Field)
    ensures Total(Standings(ms), f) == MatchTotals(ms, f)
  {
    if ms != [] {
      StandingsTotal(ms[..|ms| - 1], f);
      ApplyMatchTotal(Standings(ms[..|ms| - 1]), ms[|ms| - 1], f);
    }
  }

  /** The sum of both scores of every played match. */
  function Goals(ms: seq<Match>): nat
  {
    if ms == [] then 0
    else
      var m := ms[|ms| - 1];
      Goals(ms[..|ms| - 1]) + (if m.matchPlayed then m.homeTeamScore + m.awayTeamScore else 0)
  }

  /** The number of played matches, of played draws, and of played decisive matches. */
  function CountPlayed(ms: seq<Match>, draw: bool, decisive: bool): nat
  {
    if ms == [] then 0
    else
      var m := ms[|ms| - 1];
      var isDraw := m.homeTeamScore == m.awayTeamScore;
      CountPlayed(ms[..|ms| - 1], draw, decisive)
      + (if m.matchPlayed && ((draw && isDraw) || (decisive && !isDraw)) then 1 else 0)
  }

  /** Goal conservation: goals for and goals against both sum to the goals scored. */
  lemma {:induction false} GoalConservation(ms: seq<Match>)
    ensures Total(Standings(ms), GoalsFor) == Goals(ms)
    ensures Total(Standings(ms), GoalsAgainst) == Goals(ms)
  {
    StandingsTotal(ms, GoalsFor);
    StandingsTotal(ms, GoalsAgainst);
    GoalsAreMatchTotals(ms);
  }

  lemma {:induction false} GoalsAreMatchTotals(ms: seq<Match>)
    ensures MatchTotals(ms, GoalsFor) == Goals(ms) == MatchTotals(ms, GoalsAgainst)
  {
    if ms != [] {
      GoalsAreMatchTotals(ms[..|ms| - 1]);
    }
  }

  /**
   * Points: 3 for every decisive played match and 2 for every played draw;
   * appearances: 2 for every played match.
   */
  lemma {:induction false} PointsAndAppearances(ms: seq<Match>)
    ensures Total(Standings(ms), Points) == 3 * CountPlayed(ms, false, true) + 2 * CountPlayed(ms, true, false)
    ensures Total(Standings(ms), MatchesPlayed) == 2 * CountPlayed(ms, true, true)
  {
    StandingsTotal(ms, Points);
    StandingsTotal(ms, MatchesPlayed);
    CountsAreMatchTotals(ms);
  }

  lemma {:induction false} CountsAreMatchTotals(ms: seq<Match>)
    ensures MatchTotals(ms, Points) == 3 * CountPlayed(ms, false, true) + 2 * CountPlayed(ms, true, false)
    ensures MatchTotals(ms, MatchesPlayed) == 2 * CountPlayed(ms, true, true)
  {
    if ms != [] {
      CountsAreMatchTotals(ms[..|ms| - 1]);
    }
  }
}
