/**
 * The ranking stage of `getLeaderBoard`: the comparator handed to the array
 * sort, and a sort proved against it.
 *
 * `Compare` is the comparator as written: a chain of differences where the
 * first non-zero one decides, ending in a comparison of team names. The
 * team-name comparison is modelled as lexicographic order on code points
 * (`NameCompare`). `RanksAbove` is the independent reference definition of
 * the ranking: points, then goal difference, then goals for, all descending,
 * then team name ascending.
 */
module Ranker {
  import opened LeagueTypes

  // ---------------------------------------------------------------------------
  // Team names

  /** Lexicographic comparison of two names: -1, 0 or 1. */
  function NameCompare(a: string, b: string): (r: int)
    ensures -1 <= r <= 1
  {
    if a == [] then (if b == [] then 0 else -1)
    else if b == [] then 1
    else if a[0] < b[0] then -1
    else if a[0] > b[0] then 1
    else NameCompare(a[1..], b[1..])
  }

  /** Two names compare equal exactly when they are the same name. */
  lemma {:induction false} NameCompareZero(a: string, b: string)
    ensures NameCompare(a, b) == 0 <==> a == b
  {
    if a != [] && b != [] && a[0] == b[0] {
      NameCompareZero(a[1..], b[1..]);
      assert a == [a[0]] + a[1..];
      assert b == [b[0]] + b[1..];
    }
  }

  /** Swapping the names negates the comparison. */
  lemma {:induction false} NameCompareAntisymmetric(a: string, b: string)
    ensures NameCompare(a, b) == -NameCompare(b, a)
  {
    if a != [] && b != [] && a[0] == b[0] {
      NameCompareAntisymmetric(a[1..], b[1..]);
    }
  }

  /** "Comes before" on names is transitive. */
  lemma {:induction false} NameCompareTransitive(a: string, b: string, c: string)
    requires NameCompare(a, b) < 0 && NameCompare(b, c) < 0
    ensures NameCompare(a, c) < 0
  {
    if a != [] && b != [] && c != [] && a[0] == b[0] == c[0] {
      NameCompareTransitive(a[1..], b[1..], c[1..]);
    }
  }

  // ---------------------------------------------------------------------------
  // The comparator and the ranking it stands for

  /**
   * The sort comparator: negative when `a` goes first, positive when `b`
   * goes first. Each difference is `b - a` for a key ranked descending; the
   * first non-zero one decides.
   */
  function Compare(a: Entry, b: Entry): int
  {
    var byPoints := b.points - a.points;
    if byPoints != 0 then byPoints
    else
      var byDifference := GoalDifference(b) - GoalDifference(a);
      if byDifference != 0 then byDifference
      else
        var byGoals := b.goalsFor - a.goalsFor;
        if byGoals != 0 then byGoals
        else NameCompare(a.teamName, b.teamName)
  }

  /** `a` is ranked strictly above `b`. */
  predicate RanksAbove(a: Entry, b: Entry)
  {
    || a.points > b.points
    || (a.points == b.points && GoalDifference(a) > GoalDifference(b))
    || (a.points == b.points && GoalDifference(a) == GoalDifference(b) && a.goalsFor > b.goalsFor)
    || (a.points == b.points && GoalDifference(a) == GoalDifference(b) && a.goalsFor == b.goalsFor
        && NameCompare(a.teamName, b.teamName) < 0)
  }

  /** Equal on all four sort keys. */
  predicate SameKeys(a: Entry, b: Entry)
  {
    a.points == b.points && GoalDifference(a) == GoalDifference(b)
    && a.goalsFor == b.goalsFor && a.teamName == b.teamName
  }

  /** The comparator's sign is exactly the ranking. */
  lemma CompareMeaning(a: Entry, b: Entry)
    ensures Compare(a, b) < 0 <==> RanksAbove(a, b)
    ensures Compare(a, b) > 0 <==> RanksAbove(b, a)
    ensures Compare(a, b) == 0 <==> SameKeys(a, b)
  {
    NameCompareAntisymmetric(a.teamName, b.teamName);
    NameCompareZero(a.teamName, b.teamName);
  }

  /** The ranking is a strict order: irreflexive and transitive. */
  lemma RanksAboveStrict(a: Entry, b: Entry, c: Entry)
    ensures !RanksAbove(a, a)
    ensures RanksAbove(a, b) && RanksAbove(b, c) ==> RanksAbove(a, c)
  {
    NameCompareZero(a.teamName, a.teamName);
    if RanksAbove(a, b) && RanksAbove(b, c) && NameCompare(a.teamName, b.teamName) < 0
      && NameCompare(b.teamName, c.teamName) < 0
    {
      NameCompareTransitive(a.teamName, b.teamName, c.teamName);
    }
  }

  /** Of two entries with different team names, exactly one ranks above the other. */
  lemma RanksAboveTotal(a: Entry, b: Entry)
    requires a.teamName != b.teamName
    ensures RanksAbove(a, b) != RanksAbove(b, a)
  {
    NameCompareAntisymmetric(a.teamName, b.teamName);
    NameCompareZero(a.teamName, b.teamName);
  }

  /** "Not ranked above" is transitive as well, which is what sorting relies on. */
  lemma NotAboveTransitive(a: Entry, b: Entry, c: Entry)
    requires !RanksAbove(b, a) && !RanksAbove(c, b)
    ensures !RanksAbove(c, a)
  {
    CompareMeaning(a, b);
    CompareMeaning(b, c);
    CompareMeaning(a, c);
    NameCompareAntisymmetric(a.teamName, b.teamName);
    NameCompareAntisymmetric(b.teamName, c.teamName);
    NameCompareAntisymmetric(a.teamName, c.teamName);
    if RanksAbove(c, a) && NameCompare(c.teamName, a.teamName) < 0 {
      NameCompareZero(a.teamName, b.teamName);
      NameCompareZero(b.teamName, c.teamName);
      if NameCompare(a.teamName, b.teamName) < 0 {
        NameCompareTransitive(c.teamName, a.teamName, b.teamName);
      } else if NameCompare(b.teamName, c.teamName) < 0 {
        NameCompareTransitive(b.teamName, c.teamName, a.teamName);
      }
    }
  }

  // ---------------------------------------------------------------------------
  // Sorting

  /** No entry is ranked above one that comes earlier. */
  ghost predicate Sorted(s: seq<Entry>)
  {
    forall i, j :: 0 <= i < j < |s| ==> !RanksAbove(s[j], s[i])
  }

  /** Inserts `e` in front of the first entry that the comparator does not put before it. */
  function Insert(s: seq<Entry>, e: Entry): (r: seq<Entry>)
    ensures multiset(r) == multiset(s) + multiset{e}
  {
    if s == [] then [e]
    else if Compare(e, s[0]) <= 0 then [e] + s
    else
      assert s == [s[0]] + s[1..];
      [s[0]] + Insert(s[1..], e)
  }

  /** Inserting into a sorted sequence keeps it sorted. */
  lemma {:induction false} InsertSorted(s: seq<Entry>, e: Entry)
    requires Sorted(s)
    ensures Sorted(Insert(s, e))
  {
    if s == [] {
    } else if Compare(e, s[0]) <= 0 {
      CompareMeaning(e, s[0]);
      var r := Insert(s, e);
      assert r == [e] + s;
      forall j | 0 < j < |r| ensures !RanksAbove(r[j], e) {
        if j > 1 {
          NotAboveTransitive(e, s[0], s[j - 1]);
        }
      }
    } else {
      CompareMeaning(e, s[0]);
      RanksAboveStrict(s[0], e, s[0]);
      assert Sorted(s[1..]);
      InsertSorted(s[1..], e);
      var t := Insert(s[1..], e);
      forall j | 0 <= j < |t| ensures !RanksAbove(t[j], s[0]) {
        assert t[j] in multiset(t);
        if t[j] != e {
          assert t[j] in multiset(s[1..]);
          var k :| 0 <= k < |s[1..]| && s[1..][k] == t[j];
          assert s[k + 1] == t[j];
        } else {
          RanksAboveStrict(e, s[0], e);
        }
      }
      assert Insert(s, e) == [s[0]] + t;
    }
  }

  /** The standings rows, rearranged so that the ranking decides their order. */
  method SortStandings(rows: seq<Entry>) returns (sorted: seq<Entry>)
    ensures Sorted(sorted)
    ensures multiset(sorted) == multiset(rows)
  {
    sorted := [];
    var i := 0;
    while i < |rows|
      invariant 0 <= i <= |rows|
      invariant Sorted(sorted)
      invariant multiset(sorted) == multiset(rows[..i])
    {
      InsertSorted(sorted, rows[i]);
      sorted := Insert(sorted, rows[i]);
      assert rows[..i + 1] == rows[..i] + [rows[i]];
      i := i + 1;
    }
    assert rows[..i] == rows;
  }
}
