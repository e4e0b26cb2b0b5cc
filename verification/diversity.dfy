/** The diversity score of `createGroups.py`: a penalty of one for every
    unordered pair of members and every attribute (study line, gender,
    nationality) the two share. 0 is a perfectly diverse group. */
module Diversity {
  import opened Population

  /** How many of the three attributes two students share (0 to 3). */
  function Shared(a: Student, b: Student): (r: nat)
    ensures r <= 3
    ensures r == 0 <==> a.study != b.study && a.gender != b.gender && a.nationality != b.nationality
  {
    (if a.study == b.study then 1 else 0)
    + (if a.gender == b.gender then 1 else 0)
    + (if a.nationality == b.nationality then 1 else 0)
  }

  /** The attribute matches between `x` and each member of `ts`. */
  function RowMatches(x: Student, ts: seq<Student>): (r: nat)
  {
    if ts == [] then 0 else RowMatches(x, ts[..|ts| - 1]) + Shared(x, ts[|ts| - 1])
  }

  /** The number of (unordered pair, attribute) matches in `g`: each member
      is compared with every member after it. */
  function Matches(g: Group): (r: nat)
  {
    if g == [] then 0 else RowMatches(g[0], g[1..]) + Matches(g[1..])
  }

  /** The diversity score: minus the number of matches. */
  function Score(g: Group): (r: int)
    ensures r <= 0
  {
    -(Matches(g) as int)
  }

  /** No two members of `g` share any attribute. */
  predicate FullyDiverse(g: Group)
  {
    forall i, j :: 0 <= i < j < |g| ==> Shared(g[i], g[j]) == 0
  }

  lemma {:induction false} RowMatchesZero(x: Student, ts: seq<Student>)
    ensures RowMatches(x, ts) == 0 <==> forall k :: 0 <= k < |ts| ==> Shared(x, ts[k]) == 0
  {
    if ts != [] {
      var init := ts[..|ts| - 1];
      RowMatchesZero(x, init);
      assert forall k :: 0 <= k < |init| ==> init[k] == ts[k];
    }
  }

  /** A group scores 0 exactly when no two members share an attribute;
      every other group scores below 0. */
  lemma {:induction false} ScoreZeroIff(g: Group)
    ensures Score(g) == 0 <==> FullyDiverse(g)
    ensures !FullyDiverse(g) ==> Score(g) < 0
    ensures |g| <= 1 ==> Score(g) == 0
  {
    if g != [] {
      ScoreZeroIff(g[1..]);
      RowMatchesZero(g[0], g[1..]);
      if FullyDiverse(g) {
        forall i, j | 0 <= i < j < |g[1..]|
          ensures Shared(g[1..][i], g[1..][j]) == 0
        {
          assert g[1..][i] == g[i + 1] && g[1..][j] == g[j + 1];
        }
        forall k | 0 <= k < |g[1..]|
          ensures Shared(g[0], g[1..][k]) == 0
        {
          assert g[1..][k] == g[k + 1];
        }
      } else {
        var i, j :| 0 <= i < j < |g| && Shared(g[i], g[j]) != 0;
        if i == 0 {
          assert g[1..][j - 1] == g[j];
        } else {
          assert g[1..][i - 1] == g[i] && g[1..][j - 1] == g[j];
        }
      }
    }
  }

  /** The number of unordered pairs among n members. */
  function Pairs(n: nat): (r: nat)
  {
    if n == 0 then 0 else n - 1 + Pairs(n - 1)
  }

  lemma {:induction false} RowMatchesBound(x: Student, ts: seq<Student>)
    ensures RowMatches(x, ts) <= 3 * |ts|
  {
    if ts != [] {
      RowMatchesBound(x, ts[..|ts| - 1]);
    }
  }

  /** The score is at least minus three matches for every pair. */
  lemma {:induction false} ScoreLowerBound(g: Group)
    ensures Score(g) >= -3 * Pairs(|g|)
  {
    if g != [] {
      ScoreLowerBound(g[1..]);
      RowMatchesBound(g[0], g[1..]);
    }
  }

  /** `diversity_score`: the nested loops over every member and every member
      after it, subtracting one per shared attribute. */
  method DiversityScore(group: Group) returns (score: int)
    ensures score == Score(group)
  {
    score := 0;
    var i := 0;
    while i < |group|
      invariant 0 <= i <= |group|
      invariant score == Matches(group[i..]) - Matches(group)
    {
      assert group[i..][1..] == group[i + 1..];
      assert Matches(group[i..]) == RowMatches(group[i], group[i + 1..]) + Matches(group[i + 1..]);
      score := CompareLater(group, i, score);
      i := i + 1;
    }
    assert group[i..] == [];
  }

  /** The inner loop of `diversity_score`: member i against every member
      after it, one penalty per shared attribute. */
  method CompareLater(group: Group, i: nat, entry: int) returns (score: int)
    requires i < |group|
    ensures score == entry - RowMatches(group[i], group[i + 1..])
  {
    score := entry;
    var j := i + 1;
    while j < |group|
      invariant i + 1 <= j <= |group|
      invariant score == entry - RowMatches(group[i], group[i + 1..j])
    {
      RowMatchesStep(group, i, j);
      ghost var before := score;
      score := score - (if group[i].study == group[j].study then 1 else 0);
      score := score - (if group[i].gender == group[j].gender then 1 else 0);
      score := score - (if group[i].nationality == group[j].nationality then 1 else 0);
      assert score == before - Shared(group[i], group[j]);
      j := j + 1;
    }
    assert group[i + 1..j] == group[i + 1..];
  }

  /** Comparing with one more later member adds its shared attributes. */
  lemma RowMatchesStep(group: Group, i: nat, j: nat)
    requires i < j < |group|
    ensures RowMatches(group[i], group[i + 1..j + 1])
         == RowMatches(group[i], group[i + 1..j]) + Shared(group[i], group[j])
  {
    var row := group[i + 1..j + 1];
    assert row[..|row| - 1] == group[i + 1..j] && row[|row| - 1] == group[j];
  }

  /** The summed score of a list of groups (the integer counterpart of the
      mean the source reports). */
  function TotalScore(gs: seq<Group>): (r: int)
    ensures r <= 0
  {
    if gs == [] then 0 else Score(gs[0]) + TotalScore(gs[1..])
  }

  /** Replacing one group changes the total by the change in that group's
      score, and by nothing else. */
  lemma {:induction false} TotalScoreReplace(gs: seq<Group>, k: nat, y: Group)
    requires k < |gs|
    ensures TotalScore(gs[k := y]) == TotalScore(gs) - Score(gs[k]) + Score(y)
  {
    if k > 0 {
      assert gs[k := y][1..] == gs[1..][k - 1 := y];
      TotalScoreReplace(gs[1..], k - 1, y);
    } else {
      assert gs[k := y][1..] == gs[1..];
    }
  }

  /** Reordering the groups (as `greedy_assign`'s shuffle does) does not
      change the total score. */
  lemma {:induction false} TotalScoreOfReordered(xs: seq<Group>, ys: seq<Group>)
    requires multiset(xs) == multiset(ys)
    ensures TotalScore(xs) == TotalScore(ys)
  {
    if xs == [] {
      assert |ys| == |multiset(ys)| == 0;
    } else {
      var k := MatchFirst(xs, ys);
      TotalScoreOfReordered(xs[1..], ys[..k] + ys[k + 1..]);
      TotalScoreRemove(ys, k);
    }
  }

  lemma {:induction false} TotalScoreRemove(ys: seq<Group>, k: nat)
    requires k < |ys|
    ensures TotalScore(ys) == Score(ys[k]) + TotalScore(ys[..k] + ys[k + 1..])
  {
    if k > 0 {
      TotalScoreRemove(ys[1..], k - 1);
      assert (ys[..k] + ys[k + 1..])[1..] == ys[1..][..k - 1] + ys[1..][k..];
    } else {
      assert ys[..k] + ys[k + 1..] == ys[1..];
    }
  }
}
