/**
 * Worked examples: small match lists whose standings and leaderboards are
 * computed in full, for any two team names `a` and `b` with `a` first in
 * name order.
 */
module Scenarios {
  import opened LeagueTypes
  import opened Accumulator
  import opened Ranker
  import opened League

  /** `a` beats `b` 2-1 at home. */
  lemma FirstLeg(a: string, b: string)
    requires a != b
    ensures ApplyMatch(map[], Match(a, b, true, 2, 1)) == map[a := Entry(a, 1, 2, 1, 3), b := Entry(b, 1, 1, 2, 0)]
  {
    var m := Match(a, b, true, 2, 1);
    var r, want := ApplyMatch(map[], m), map[a := Entry(a, 1, 2, 1, 3), b := Entry(b, 1, 1, 2, 0)];
    PlayedMatchUpdate(map[], m);
    ApplyMatchCreditAt(map[], m, a, Points);
    ApplyMatchCreditAt(map[], m, b, Points);
    assert r.Keys == want.Keys;
    EntryEquality(r[a], want[a]);
    EntryEquality(r[b], want[b]);
  }

  /** Then `b` beats `a` 1-0 at home. */
  lemma SecondLeg(a: string, b: string)
    requires a != b
    ensures ApplyMatch(map[a := Entry(a, 1, 2, 1, 3), b := Entry(b, 1, 1, 2, 0)], Match(b, a, true, 1, 0))
      == map[a := Entry(a, 2, 2, 2, 3), b := Entry(b, 2, 2, 2, 3)]
  {
    var s := map[a := Entry(a, 1, 2, 1, 3), b := Entry(b, 1, 1, 2, 0)];
    var m := Match(b, a, true, 1, 0);
    var r, want := ApplyMatch(s, m), map[a := Entry(a, 2, 2, 2, 3), b := Entry(b, 2, 2, 2, 3)];
    PlayedMatchUpdate(s, m);
    ApplyMatchCreditAt(s, m, a, Points);
    ApplyMatchCreditAt(s, m, b, Points);
    assert r.Keys == want.Keys;
    EntryEquality(r[a], want[a]);
    EntryEquality(r[b], want[b]);
  }

  /** Over both legs, `a` and `b` each end on 2 played, 2 for, 2 against and 3 points. */
  lemma TwoLegs(a: string, b: string)
    requires a != b
    ensures Standings([Match(a, b, true, 2, 1), Match(b, a, true, 1, 0)])
      == map[a := Entry(a, 2, 2, 2, 3), b := Entry(b, 2, 2, 2, 3)]
  {
    var m1, m2 := Match(a, b, true, 2, 1), Match(b, a, true, 1, 0);
    StandingsOfTwo(m1, m2);
    FirstLeg(a, b);
    SecondLeg(a, b);
  }

  /** The fold over two matches applies the first, then the second. */
  lemma StandingsOfTwo(m1: Match, m2: Match)
    ensures Standings([m1, m2]) == ApplyMatch(ApplyMatch(map[], m1), m2)
  {
    assert [m1, m2][..1] == [m1];
    assert [m1][..0] == [];
    assert Standings([m1]) == ApplyMatch(map[], m1);
  }

  /**
   * Level on points, goal difference and goals for, the name decides and
   * `a` leads.
   */
  lemma TwoLegsTieBrokenByName(a: string, b: string)
    requires NameCompare(a, b) < 0
    ensures Ranked([Entry(a, 2, 2, 2, 3), Entry(b, 2, 2, 2, 3)],
                   Standings([Match(a, b, true, 2, 1), Match(b, a, true, 1, 0)]))
  {
    NameCompareZero(a, b);
    TwoLegs(a, b);
    PairRanked(Entry(a, 2, 2, 2, 3), Entry(b, 2, 2, 2, 3),
               Standings([Match(a, b, true, 2, 1), Match(b, a, true, 1, 0)]));
  }

  /** Two entries of different teams, the first ranked above, are the leaderboard of those two teams. */
  lemma PairRanked(x: Entry, y: Entry, standings: Table)
    requires x.teamName != y.teamName && RanksAbove(x, y)
    requires standings == map[x.teamName := x, y.teamName := y]
    ensures Ranked([x, y], standings)
  {
    assert Names([x, y]) == {x.teamName, y.teamName} by {
      assert x in [x, y] && y in [x, y];
    }
  }

  /** An unplayed match only registers both teams at zero; the name decides the order. */
  lemma UnplayedOnly(a: string, b: string, h: nat, g: nat)
    requires NameCompare(a, b) < 0
    ensures var ms := [Match(b, a, false, h, g)];
      && Standings(ms) == map[a := Zero(a), b := Zero(b)]
      && Ranked([Zero(a), Zero(b)], Standings(ms))
  {
    NameCompareZero(a, b);
    var ms := [Match(b, a, false, h, g)];
    assert ms[..0] == [];
    assert Standings(ms) == ApplyMatch(map[], ms[0]);
    UnplayedMatchNeutral(map[], ms[0]);
    PairRanked(Zero(a), Zero(b), Standings(ms));
  }
}
