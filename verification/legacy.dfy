/** The legacy assigner (`legacy/assigner.py`): deal the roster into
    N_GROUPS groups, score each group with a tally-based penalty, set aside
    the groups that score above MAX_SCORE ("problem groups"), and keep
    re-dealing just the problem groups' students among themselves until at
    most one problem group is left or the reshuffle budget runs out.

    The penalty for a group and attribute: count how many members carry
    each value; a value whose in-group count exceeds the value's intended
    average per group adds its relative excess. The scores are computed
    over `real`, that is, without floating-point rounding. */
module Legacy {
  import opened Population
  import opened RoundRobin

  /** How many groups to generate. */
  const N_GROUPS: nat := 24
  /** A group scoring above this is a problem group. */
  const MAX_SCORE: real := 7.0
  /** How many times the problem groups are reshuffled at most. */
  const MAX_PROBLEM_GROUP_RESHUFFLE: nat := 10000

  datatype Attribute = Study | Gender | Nationality

  function Value(s: Student, a: Attribute): (r: string)
  {
    match a
    case Study => s.study
    case Gender => s.gender
    case Nationality => s.nationality
  }

  /* ---------------- Tallies ---------------- */

  /** How many members of `g` carry value v of attribute a. */
  function Count(g: Group, a: Attribute, v: string): (r: nat)
  {
    if g == [] then 0
    else Count(g[..|g| - 1], a, v) + (if Value(g[|g| - 1], a) == v then 1 else 0)
  }

  /** The values of attribute a in `g`, each once, in order of first
      appearance (the key order of the source's dictionary). */
  function Keys(g: Group, a: Attribute): (r: seq<string>)
  {
    if g == [] then []
    else
      var ks := Keys(g[..|g| - 1], a);
      if Value(g[|g| - 1], a) in ks then ks else ks + [Value(g[|g| - 1], a)]
  }

  /** One more member: its value becomes a new key if it was not one
      yet. */
  lemma KeysStep(g: Group, i: nat, a: Attribute)
    requires i < |g|
    ensures Keys(g[..i + 1], a) == if Value(g[i], a) in Keys(g[..i], a) then Keys(g[..i], a) else Keys(g[..i], a) + [Value(g[i], a)]
  {
    assert g[..i + 1][..i] == g[..i];
  }

  /** One more member: the count of its value goes up by one, every other
      count stays. */
  lemma CountStep(g: Group, i: nat, a: Attribute, v: string)
    requires i < |g|
    ensures Count(g[..i + 1], a, v) == Count(g[..i], a, v) + (if Value(g[i], a) == v then 1 else 0)
  {
    assert g[..i + 1][..i] == g[..i];
  }

  /** The keys are exactly the values that occur, each once, and a value
      occurs iff its count is positive. */
  lemma {:induction false} KeysExact(g: Group, a: Attribute)
    ensures Distinct(Keys(g, a))
    ensures forall i :: 0 <= i < |g| ==> Value(g[i], a) in Keys(g, a)
    ensures forall v :: v in Keys(g, a) <==> Count(g, a, v) > 0
  {
    if g != [] {
      var init := g[..|g| - 1];
      KeysExact(init, a);
      assert forall i :: 0 <= i < |init| ==> g[i] == init[i];
    }
  }

  /** The sum of the counts of the values in `ks`. */
  function SumCounts(ks: seq<string>, g: Group, a: Attribute): (r: nat)
  {
    if ks == [] then 0 else SumCounts(ks[..|ks| - 1], g, a) + Count(g, a, ks[|ks| - 1])
  }

  /** Adding a member to the group raises the summed counts of a list of
      distinct values by one if its value is among them, else by nothing. */
  lemma {:induction false} SumCountsSnoc(ks: seq<string>, g: Group, x: Student, a: Attribute)
    requires Distinct(ks)
    ensures SumCounts(ks, g + [x], a) == SumCounts(ks, g, a) + (if Value(x, a) in ks then 1 else 0)
  {
    if ks != [] {
      var init := ks[..|ks| - 1];
      assert (g + [x])[..|g + [x]| - 1] == g;
      assert Distinct(init) && forall i :: 0 <= i < |init| ==> init[i] == ks[i];
      SumCountsSnoc(init, g, x, a);
      assert Value(x, a) in ks <==> Value(x, a) in init || Value(x, a) == ks[|ks| - 1];
    }
  }

  /** The per-value tallies of a group add up to the group's size. */
  lemma {:induction false} TallySum(g: Group, a: Attribute)
    ensures SumCounts(Keys(g, a), g, a) == |g|
  {
    if g != [] {
      var init, x := g[..|g| - 1], g[|g| - 1];
      assert g == init + [x];
      TallySum(init, a);
      KeysExact(init, a);
      SumCountsSnoc(Keys(init, a), init, x, a);
      if Value(x, a) !in Keys(init, a) {
        assert Keys(g, a) == Keys(init, a) + [Value(x, a)];
        assert Keys(g, a)[..|Keys(g, a)| - 1] == Keys(init, a);
      }
    }
  }

  /** The two dictionary-filling loops of `evalNationality` (and of
      `evalGender` and `evalStudies`): every value seen gets a key, in
      order of first appearance, then each member increments its value. */
  method Tally(group: Group, a: Attribute) returns (order: seq<string>, counts: map<string, nat>)
    ensures order == Keys(group, a)
    ensures forall v :: v in counts <==> v in order
    ensures forall v :: v in counts ==> counts[v] == Count(group, a, v)
  {
    order, counts := AddKeys(group, a);
    KeysExact(group, a);
    counts := CountUp(group, a, order, counts);
  }

  /** The first loop: a key with count 0 for every value, in order of
      first appearance. */
  method AddKeys(group: Group, a: Attribute) returns (order: seq<string>, counts: map<string, nat>)
    ensures order == Keys(group, a)
    ensures forall v :: v in counts <==> v in order
    ensures forall v :: v in counts ==> counts[v] == 0
  {
    order, counts := [], map[];
    for i := 0 to |group|
      invariant order == Keys(group[..i], a)
      invariant forall v :: v in counts <==> v in order
      invariant forall v :: v in counts ==> counts[v] == 0
    {
      KeysStep(group, i, a);
      var v := Value(group[i], a);
      if v !in counts {
        order := order + [v];
      }
      counts := counts[v := 0];
    }
    assert group[..|group|] == group;
  }

  /** The second loop: each member increments the count of its value. */
  method CountUp(group: Group, a: Attribute, order: seq<string>, zeros: map<string, nat>)
    returns (counts: map<string, nat>)
    requires forall i :: 0 <= i < |group| ==> Value(group[i], a) in order
    requires forall v :: v in zeros <==> v in order
    requires forall v :: v in zeros ==> zeros[v] == 0
    ensures forall v :: v in counts <==> v in order
    ensures forall v :: v in counts ==> counts[v] == Count(group, a, v)
  {
    counts := zeros;
    for i := 0 to |group|
      invariant forall v :: v in counts <==> v in order
      invariant forall v :: v in counts ==> counts[v] == Count(group[..i], a, v)
    {
      var v := Value(group[i], a);
      counts := counts[v := counts[v] + 1];
      forall w | w in counts
        ensures counts[w] == Count(group[..i + 1], a, w)
      {
        CountStep(group, i, a, w);
      }
    }
    assert group[..|group|] == group;
  }

  /* ---------------- Penalties ---------------- */

  /** The whole roster's count of every value of each attribute (the
      source's global dictionaries `nStudy`, `nGender`, `nNationality`). */
  datatype Totals = Totals(study: map<string, nat>, gender: map<string, nat>, nationality: map<string, nat>)

  function Of(t: Totals, a: Attribute): (r: map<string, nat>)
  {
    match a
    case Study => t.study
    case Gender => t.gender
    case Nationality => t.nationality
  }

  /** Every attribute value of `s` has a roster total (otherwise the source
      fails with a missing-key error). */
  predicate Covers(t: Totals, s: Student)
  {
    s.study in t.study && s.gender in t.gender && s.nationality in t.nationality
  }

  /** The totals the source builds while reading the roster. */
  function RosterTotals(students: seq<Student>): (t: Totals)
    ensures forall s :: s in students ==> Covers(t, s)
    ensures forall a, v :: v in Of(t, a) ==> Of(t, a)[v] == Count(students, a, v) > 0
  {
    KeysExact(students, Study);
    KeysExact(students, Gender);
    KeysExact(students, Nationality);
    Totals(TotalsOf(students, Study), TotalsOf(students, Gender), TotalsOf(students, Nationality))
  }

  function TotalsOf(students: seq<Student>, a: Attribute): (r: map<string, nat>)
  {
    map v | v in Keys(students, a) :: Count(students, a, v)
  }

  /** A value's intended average per group: its roster total spread over
      N_GROUPS, or 1 when the total is below N_GROUPS. */
  function IntendedAvg(total: nat): (r: real)
    ensures r >= 1.0
  {
    if total >= N_GROUPS then total as real / N_GROUPS as real else 1.0
  }

  /** The penalty a value with in-group count v adds: its relative excess
      over the intended average, and nothing when it does not exceed it. */
  function Penalty(v: nat, total: nat): (r: real)
    ensures r >= 0.0
    ensures r > 0.0 <==> v as real > IntendedAvg(total)
  {
    var avg := IntendedAvg(total);
    if v as real > avg then PositiveRatio(v as real - avg, avg); (v as real - avg) / avg else 0.0
  }

  lemma PositiveRatio(x: real, y: real)
    requires x > 0.0 && y >= 1.0
    ensures x / y > 0.0
  {
    assert (x / y) * y == x;
  }

  /** The roster total of v, 0 if v has none. */
  function TotalOf(t: Totals, a: Attribute, v: string): (r: nat)
  {
    if v in Of(t, a) then Of(t, a)[v] else 0
  }

  /** The summed penalties of the values in `ks`. */
  function SumPenalties(ks: seq<string>, g: Group, a: Attribute, t: Totals): (r: real)
  {
    if ks == [] then 0.0
    else SumPenalties(ks[..|ks| - 1], g, a, t) + Penalty(Count(g, a, ks[|ks| - 1]), TotalOf(t, a, ks[|ks| - 1]))
  }

  /** The score of one attribute for a group. */
  function AttrScore(g: Group, a: Attribute, t: Totals): (r: real)
  {
    SumPenalties(Keys(g, a), g, a, t)
  }

  /** A value is over-represented in `g` when its count exceeds its
      intended average. */
  predicate OverRepresented(g: Group, a: Attribute, t: Totals, v: string)
  {
    Count(g, a, v) as real > IntendedAvg(TotalOf(t, a, v))
  }

  lemma {:induction false} SumPenaltiesZero(ks: seq<string>, g: Group, a: Attribute, t: Totals)
    ensures SumPenalties(ks, g, a, t) >= 0.0
    ensures SumPenalties(ks, g, a, t) == 0.0 <==> forall k :: k in ks ==> !OverRepresented(g, a, t, k)
  {
    if ks != [] {
      var init, last := ks[..|ks| - 1], ks[|ks| - 1];
      SumPenaltiesZero(init, g, a, t);
      var p := Penalty(Count(g, a, last), TotalOf(t, a, last));
      assert SumPenalties(ks, g, a, t) == SumPenalties(init, g, a, t) + p;
      assert p > 0.0 <==> OverRepresented(g, a, t, last);
      assert ks == init + [last];
      if SumPenalties(ks, g, a, t) == 0.0 {
        forall k | k in ks
          ensures !OverRepresented(g, a, t, k)
        {
          if k != last {
            assert k in init;
          }
        }
      } else if p == 0.0 {
        var k :| k in init && OverRepresented(g, a, t, k);
        assert k in ks;
      } else {
        assert last in ks;
      }
    }
  }

  /** An attribute scores 0 exactly when no value occurring in the group is
      over-represented; otherwise it scores above 0. Only over-represented
      values add to the score. */
  lemma AttrScoreZeroIff(g: Group, a: Attribute, t: Totals)
    ensures AttrScore(g, a, t) >= 0.0
    ensures AttrScore(g, a, t) == 0.0 <==> forall i :: 0 <= i < |g| ==> !OverRepresented(g, a, t, Value(g[i], a))
  {
    SumPenaltiesZero(Keys(g, a), g, a, t);
    KeysExact(g, a);
    if AttrScore(g, a, t) != 0.0 {
      var k :| k in Keys(g, a) && OverRepresented(g, a, t, k);
      assert Count(g, a, k) > 0;
      CountWitness(g, a, k);
    }
  }

  /** A value with a positive count is carried by some member. */
  lemma {:induction false} CountWitness(g: Group, a: Attribute, v: string)
    requires Count(g, a, v) > 0
    ensures exists i :: 0 <= i < |g| && Value(g[i], a) == v
  {
    var init := g[..|g| - 1];
    if Value(g[|g| - 1], a) != v {
      CountWitness(init, a, v);
      var i :| 0 <= i < |init| && Value(init[i], a) == v;
      assert g[i] == init[i];
    }
  }

  /** One more key: its penalty is added. */
  lemma PenaltyStep(ks: seq<string>, i: nat, g: Group, a: Attribute, t: Totals)
    requires i < |ks|
    ensures SumPenalties(ks[..i + 1], g, a, t)
         == SumPenalties(ks[..i], g, a, t) + Penalty(Count(g, a, ks[i]), TotalOf(t, a, ks[i]))
  {
    assert ks[..i + 1][..i] == ks[..i];
  }

  /** The penalty, in the terms the source computes it in. */
  lemma PenaltyValue(v: nat, total: nat, intendedAvg: real)
    requires intendedAvg == if total >= N_GROUPS then total as real / N_GROUPS as real else 1.0
    ensures v as real > intendedAvg ==> Penalty(v, total) == (v as real - intendedAvg) / intendedAvg
    ensures !(v as real > intendedAvg) ==> Penalty(v, total) == 0.0
  {
  }

  /** Every key of a group of covered students has a roster total. */
  lemma KeysCovered(g: Group, a: Attribute, t: Totals)
    requires forall s :: s in g ==> Covers(t, s)
    ensures forall k :: k in Keys(g, a) ==> k in Of(t, a)
  {
    KeysExact(g, a);
    forall k | k in Keys(g, a)
      ensures k in Of(t, a)
    {
      CountWitness(g, a, k);
      var i :| 0 <= i < |g| && Value(g[i], a) == k;
      assert g[i] in g;
    }
  }

  /** The final loop of `evalNationality` (and its two twins): add each
      over-represented value's relative excess, in key order. */
  method EvalAttribute(group: Group, a: Attribute, totals: Totals) returns (score: real)
    requires forall s :: s in group ==> Covers(totals, s)
    ensures score == AttrScore(group, a, totals)
  {
    var order, counts := Tally(group, a);
    KeysCovered(group, a, totals);
    score := 0.0;
    for i := 0 to |order|
      invariant score == SumPenalties(order[..i], group, a, totals)
    {
      var k := order[i];
      var v := counts[k];
      var total := Of(totals, a)[k];
      PenaltyStep(order, i, group, a, totals);
      assert v == Count(group, a, order[i]) && total == TotalOf(totals, a, order[i]);
      var intendedAvg := if total >= N_GROUPS then total as real / N_GROUPS as real else 1.0;
      PenaltyValue(v, total, intendedAvg);
      if v as real > intendedAvg {
        score := score + (v as real - intendedAvg) / intendedAvg;
      }
    }
    assert order[..|order|] == order;
  }

  /** The legacy group score: study, gender and nationality penalties
      added up. 0 is the best score. */
  function GroupScore(g: Group, t: Totals): (r: real)
  {
    AttrScore(g, Study, t) + AttrScore(g, Gender, t) + AttrScore(g, Nationality, t)
  }

  /** A group scores at least 0, and 0 exactly when no value of any
      attribute is over-represented in it. */
  lemma GroupScoreZeroIff(g: Group, t: Totals)
    ensures GroupScore(g, t) >= 0.0
    ensures GroupScore(g, t) == 0.0 <==>
              forall a, i :: 0 <= i < |g| ==> !OverRepresented(g, a, t, Value(g[i], a))
  {
    AttrScoreZeroIff(g, Study, t);
    AttrScoreZeroIff(g, Gender, t);
    AttrScoreZeroIff(g, Nationality, t);
    if GroupScore(g, t) == 0.0 {
      forall a, i | 0 <= i < |g|
        ensures !OverRepresented(g, a, t, Value(g[i], a))
      {
        match a
        case Study =>
        case Gender =>
        case Nationality =>
      }
    }
  }

  /** `diversityScore`. */
  method DiversityScore(group: Group, totals: Totals) returns (score: real)
    requires forall s :: s in group ==> Covers(totals, s)
    ensures score == GroupScore(group, totals)
  {
    var studies := EvalAttribute(group, Study, totals);
    var genders := EvalAttribute(group, Gender, totals);
    var nations := EvalAttribute(group, Nationality, totals);
    score := studies + genders + nations;
  }

  /* ---------------- Splitting into problem and final groups ---------------- */

  /** A problem group scores above MAX_SCORE. */
  predicate IsProblem(g: Group, t: Totals)
  {
    GroupScore(g, t) > MAX_SCORE
  }

  /** The test `evalGroups` applies, as a function value. The list lemmas
      below hold for any such test. */
  function ProblemTest(t: Totals): (r: Group -> bool)
  {
    g => IsProblem(g, t)
  }

  /** The problem groups of `gs`, in order. */
  function Problems(gs: seq<Group>, bad: Group -> bool): (r: seq<Group>)
  {
    if gs == [] then []
    else Problems(gs[..|gs| - 1], bad) + (if bad(gs[|gs| - 1]) then [gs[|gs| - 1]] else [])
  }

  /** The acceptable groups of `gs`, in order. */
  function Accepted(gs: seq<Group>, bad: Group -> bool): (r: seq<Group>)
  {
    if gs == [] then []
    else Accepted(gs[..|gs| - 1], bad) + (if bad(gs[|gs| - 1]) then [] else [gs[|gs| - 1]])
  }

  /** Every group lands in exactly one of the two lists: together they
      hold the groups of `gs`. */
  lemma {:induction false} SplitFacts(gs: seq<Group>, bad: Group -> bool)
    ensures |Problems(gs, bad)| + |Accepted(gs, bad)| == |gs|
    ensures multiset(Problems(gs, bad)) + multiset(Accepted(gs, bad)) == multiset(gs)
  {
    if gs != [] {
      var init, g := gs[..|gs| - 1], gs[|gs| - 1];
      assert gs == init + [g];
      SplitFacts(init, bad);
    }
  }

  /** ... and so between them the students of `gs`. */
  lemma {:induction false} SplitBag(gs: seq<Group>, bad: Group -> bool)
    ensures Bag(Problems(gs, bad)) + Bag(Accepted(gs, bad)) == Bag(gs)
  {
    if gs != [] {
      var init, g := gs[..|gs| - 1], gs[|gs| - 1];
      var p, q := Problems(init, bad), Accepted(init, bad);
      assert gs == init + [g];
      SplitBag(init, bad);
      SplitSnoc(init, g, bad);
      BagSnoc(init, g);
      if bad(g) {
        calc {
          Bag(Problems(gs, bad)) + Bag(Accepted(gs, bad));
          { assert Problems(gs, bad) == p + [g] && Accepted(gs, bad) == q; }
          Bag(p + [g]) + Bag(q);
          { BagSnoc(p, g); }
          Bag(p) + multiset(g) + Bag(q);
          (Bag(p) + Bag(q)) + multiset(g);
        }
      } else {
        calc {
          Bag(Problems(gs, bad)) + Bag(Accepted(gs, bad));
          { assert Problems(gs, bad) == p && Accepted(gs, bad) == q + [g]; }
          Bag(p) + Bag(q + [g]);
          { BagSnoc(q, g); }
          Bag(p) + (Bag(q) + multiset(g));
          (Bag(p) + Bag(q)) + multiset(g);
        }
      }
    }
  }

  /** One more group joins exactly one of the two lists. */
  lemma SplitSnoc(gs: seq<Group>, g: Group, bad: Group -> bool)
    ensures Problems(gs + [g], bad) == Problems(gs, bad) + (if bad(g) then [g] else [])
    ensures Accepted(gs + [g], bad) == Accepted(gs, bad) + (if bad(g) then [] else [g])
  {
    assert (gs + [g])[..|gs|] == gs;
  }

  /** Every problem group scores above MAX_SCORE and no accepted group
      does. */
  lemma {:induction false} SplitClassified(gs: seq<Group>, bad: Group -> bool)
    ensures forall k :: 0 <= k < |Problems(gs, bad)| ==> bad(Problems(gs, bad)[k])
    ensures forall k :: 0 <= k < |Accepted(gs, bad)| ==> !bad(Accepted(gs, bad)[k])
  {
    if gs != [] {
      SplitClassified(gs[..|gs| - 1], bad);
    }
  }

  /** A list of problem groups is its own problem list. */
  lemma {:induction false} ProblemsOfAll(gs: seq<Group>, bad: Group -> bool)
    requires forall k :: 0 <= k < |gs| ==> bad(gs[k])
    ensures Problems(gs, bad) == gs
  {
    if gs != [] {
      var init := gs[..|gs| - 1];
      assert forall k :: 0 <= k < |init| ==> init[k] == gs[k];
      ProblemsOfAll(init, bad);
      assert gs == init + [gs[|gs| - 1]];
    }
  }

  /** No problem group is left exactly when every group is acceptable. */
  lemma {:induction false} ProblemsEmptyIff(gs: seq<Group>, bad: Group -> bool)
    ensures Problems(gs, bad) == [] <==> forall k :: 0 <= k < |gs| ==> !bad(gs[k])
  {
    if gs != [] {
      var init := gs[..|gs| - 1];
      ProblemsEmptyIff(init, bad);
      assert forall k :: 0 <= k < |init| ==> init[k] == gs[k];
    }
  }

  /** The problem groups of a concatenation. */
  lemma {:induction false} ProblemsAppend(xs: seq<Group>, ys: seq<Group>, bad: Group -> bool)
    ensures Problems(xs + ys, bad) == Problems(xs, bad) + Problems(ys, bad)
  {
    if ys != [] {
      var init := ys[..|ys| - 1];
      assert (xs + ys)[..|xs + ys| - 1] == xs + init;
      ProblemsAppend(xs, init, bad);
    } else {
      assert xs + ys == xs;
    }
  }

  lemma ProblemsOfAccepted(gs: seq<Group>, bad: Group -> bool)
    ensures Problems(Accepted(gs, bad), bad) == []
  {
    SplitClassified(gs, bad);
    ProblemsEmptyIff(Accepted(gs, bad), bad);
  }

  lemma ProblemsOfProblems(gs: seq<Group>, bad: Group -> bool)
    ensures Problems(Problems(gs, bad), bad) == Problems(gs, bad)
  {
    SplitClassified(gs, bad);
    ProblemsOfAll(Problems(gs, bad), bad);
  }

  /** One round of `evalGroups` in the reshuffle loop: the accepted groups
      join `before`, and the problem and accepted lists together keep the
      number of groups and the students of the round's groups. */
  lemma ReshuffleStep(before: seq<Group>, groups: seq<Group>, bad: Group -> bool)
    ensures |before + Accepted(groups, bad)| + |Problems(groups, bad)| == |before| + |groups|
    ensures Bag(before + Accepted(groups, bad)) + Bag(Problems(groups, bad)) == Bag(before) + Bag(groups)
    ensures Problems(before + Accepted(groups, bad), bad) == Problems(before, bad)
    ensures Problems(Problems(groups, bad), bad) == Problems(groups, bad)
  {
    SplitFacts(groups, bad);
    SplitBag(groups, bad);
    FlattenAppend(before, Accepted(groups, bad));
    ProblemsAppend(before, Accepted(groups, bad), bad);
    ProblemsOfAccepted(groups, bad);
    ProblemsOfProblems(groups, bad);
    assert Problems(before, bad) + [] == Problems(before, bad);
  }

  /** Appending the problem groups left at the end to the accepted ones:
      the problems of the whole list are exactly those groups, and nothing
      is appended when there are none. */
  lemma Closing(accepted: seq<Group>, problems: seq<Group>, bad: Group -> bool)
    requires Problems(accepted, bad) == [] && Problems(problems, bad) == problems
    ensures Problems(accepted + problems, bad) == problems
    ensures Bag(accepted + problems) == Bag(accepted) + Bag(problems)
    ensures problems == [] ==> accepted + problems == accepted
  {
    ProblemsAppend(accepted, problems, bad);
    FlattenAppend(accepted, problems);
    if problems == [] {
      assert accepted + problems == accepted;
    }
  }

  /** Where the reshuffle loop of `getBestGrouping` ends: the groups it
      accepts on the way (in order), the problem list it stops with, and
      the number of reshuffles done. */
  datatype Reshuffle = Reshuffle(accepted: seq<Group>, problems: seq<Group>, tries: nat)

  /** The re-deal of reshuffle c as `getBestGrouping` does it: pool the
      students of the problem groups, reorder them by `shuffle(c, _)` and
      deal them into as many groups. */
  function RedealWith(shuffle: (nat, seq<Student>) -> seq<Student>): (nat, seq<Group>) -> seq<Group>
  {
    (c: nat, problems: seq<Group>) => GenerateGroups(shuffle(c, Flatten(problems)), |problems|)
  }

  /** A re-deal that keeps the number of groups and the students they hold. */
  ghost predicate KeepsGroups(deal: (nat, seq<Group>) -> seq<Group>)
  {
    forall c, problems :: |deal(c, problems)| == |problems| && Bag(deal(c, problems)) == Bag(problems)
  }

  /** Re-dealing a reordering of the pooled students keeps the groups. */
  lemma RedealKeeps(shuffle: (nat, seq<Student>) -> seq<Student>)
    requires forall c, xs :: multiset(shuffle(c, xs)) == multiset(xs)
    ensures KeepsGroups(RedealWith(shuffle))
  {
    forall c: nat, problems: seq<Group>
      ensures Bag(RedealWith(shuffle)(c, problems)) == Bag(problems)
    {
      if problems == [] {
        assert Flatten<Student>([]) == [];
      }
    }
  }

  /** The reshuffle loop from a problem list `problems` after `tries`
      reshuffles. It runs only while more than one problem group is left
      and the budget allows; round c re-deals the problem groups by
      `deal(c, _)` and splits the new groups by `bad`. */
  function ReshuffleRun(problems: seq<Group>, tries: nat, deal: (nat, seq<Group>) -> seq<Group>,
                        bad: Group -> bool): (r: Reshuffle)
    requires tries <= MAX_PROBLEM_GROUP_RESHUFFLE
    ensures tries <= r.tries <= MAX_PROBLEM_GROUP_RESHUFFLE
    ensures r.tries < MAX_PROBLEM_GROUP_RESHUFFLE ==> |r.problems| <= 1
    ensures r.tries == tries <==> |problems| <= 1 || tries == MAX_PROBLEM_GROUP_RESHUFFLE
    ensures r.tries == tries ==> r.accepted == [] && r.problems == problems
    decreases MAX_PROBLEM_GROUP_RESHUFFLE - tries
  {
    if |problems| > 1 && tries < MAX_PROBLEM_GROUP_RESHUFFLE then
      var groups := deal(tries + 1, problems);
      var rest := ReshuffleRun(Problems(groups, bad), tries + 1, deal, bad);
      Reshuffle(Accepted(groups, bad) + rest.accepted, rest.problems, rest.tries)
    else
      Reshuffle([], problems, tries)
  }

  /** A round of the loop, seen from the state before it: with `before`
      accepted so far and `after` the list once this round's accepted
      groups joined it, what the rest of the loop accepts comes next. */
  lemma ReshuffleRound(problems: seq<Group>, tries: nat, next: nat, deal: (nat, seq<Group>) -> seq<Group>,
                       bad: Group -> bool, before: seq<Group>, after: seq<Group>, left: seq<Group>)
    requires |problems| > 1 && tries < MAX_PROBLEM_GROUP_RESHUFFLE && next == tries + 1
    requires after == before + Accepted(deal(next, problems), bad)
    requires left == Problems(deal(next, problems), bad)
    ensures var r := ReshuffleRun(problems, tries, deal, bad);
            var rest := ReshuffleRun(left, next, deal, bad);
            && after + rest.accepted == before + r.accepted
            && rest.problems == r.problems && rest.tries == r.tries
  {
    var groups := deal(next, problems);
    var rest := ReshuffleRun(left, next, deal, bad);
    assert ReshuffleRun(problems, tries, deal, bad).accepted == Accepted(groups, bad) + rest.accepted;
    assert before + Accepted(groups, bad) + rest.accepted == before + (Accepted(groups, bad) + rest.accepted);
  }

  /** The end state `r` of a reshuffle loop that started from `problems`
      holds as many groups and the same students; no accepted group is a
      problem group, and every group left is one. */
  predicate Conserved(problems: seq<Group>, r: Reshuffle, bad: Group -> bool)
  {
    && |r.accepted| + |r.problems| == |problems|
    && Bag(r.accepted) + Bag(r.problems) == Bag(problems)
    && Problems(r.accepted, bad) == []
    && Problems(r.problems, bad) == r.problems
  }

  /** The reshuffle loop loses and duplicates no group and no student. */
  lemma {:induction false} ReshuffleConserves(problems: seq<Group>, tries: nat,
                                              deal: (nat, seq<Group>) -> seq<Group>, bad: Group -> bool)
    requires tries <= MAX_PROBLEM_GROUP_RESHUFFLE
    requires KeepsGroups(deal)
    requires Problems(problems, bad) == problems
    ensures Conserved(problems, ReshuffleRun(problems, tries, deal, bad), bad)
    decreases MAX_PROBLEM_GROUP_RESHUFFLE - tries, 1
  {
    if |problems| > 1 && tries < MAX_PROBLEM_GROUP_RESHUFFLE {
      ReshuffleConservesRound(problems, tries, deal, bad);
    } else {
      var r := ReshuffleRun(problems, tries, deal, bad);
      assert r == Reshuffle([], problems, tries);
      assert Flatten<Student>([]) == [];
      assert Conserved(problems, r, bad);
    }
  }

  /** ... when at least one more round runs. */
  lemma ReshuffleConservesRound(problems: seq<Group>, tries: nat,
                                deal: (nat, seq<Group>) -> seq<Group>, bad: Group -> bool)
    requires |problems| > 1 && tries < MAX_PROBLEM_GROUP_RESHUFFLE
    requires KeepsGroups(deal)
    ensures Conserved(problems, ReshuffleRun(problems, tries, deal, bad), bad)
    decreases MAX_PROBLEM_GROUP_RESHUFFLE - tries, 0
  {
    var groups := deal(tries + 1, problems);
    var left := Problems(groups, bad);
    ProblemsOfProblems(groups, bad);
    ReshuffleConserves(left, tries + 1, deal, bad);
    ConservedRound(problems, groups, ReshuffleRun(left, tries + 1, deal, bad), bad);
  }

    /** Whatever the loop conserves carries over to `finalGroups`, which
      held acceptable groups before the loop and has the loop's accepted
      groups appended to it. */
  lemma ConservedAfter(before: seq<Group>, problems: seq<Group>, r: Reshuffle, bad: Group -> bool)
    requires Problems(before, bad) == [] && Conserved(problems, r, bad)
    ensures |before + r.accepted| + |r.problems| == |before| + |problems|
    ensures Bag(before + r.accepted) + Bag(r.problems) == Bag(before) + Bag(problems)
    ensures Problems(before + r.accepted, bad) == []
    ensures Problems(r.problems, bad) == r.problems
  {
    FlattenAppend(before, r.accepted);
    ProblemsAppend(before, r.accepted, bad);
  }

  /** One round followed by the rest of the loop conserves what the rest
      conserves. */
  lemma ConservedRound(problems: seq<Group>, groups: seq<Group>, rest: Reshuffle, bad: Group -> bool)
    requires |groups| == |problems| && Bag(groups) == Bag(problems)
    requires Conserved(Problems(groups, bad), rest, bad)
    ensures Conserved(problems, Reshuffle(Accepted(groups, bad) + rest.accepted, rest.problems, rest.tries), bad)
  {
    SplitFacts(groups, bad);
    SplitBag(groups, bad);
    FlattenAppend(Accepted(groups, bad), rest.accepted);
    ProblemsAppend(Accepted(groups, bad), rest.accepted, bad);
    ProblemsOfAccepted(groups, bad);
  }

  /** `generateGroups` after its shuffle: group i holds `sList[i::n]`,
      so every student lands in exactly one group (despite the source's
      comment), and sizes differ by at most one. */
  function GenerateGroups(shuffled: seq<Student>, n: nat): (groups: seq<Group>)
    ensures |groups| == n
    ensures n > 0 ==> Dealt(shuffled, groups, n)
  {
    if n > 0 then PartitionDealt(shuffled, n); Partition(shuffled, n) else []
  }

  /** The assigner's state: the roster totals the scores are measured
      against, and the global list of accepted groups. */
  class Assigner {
    const totals: Totals
    var finalGroups: seq<Group>

    constructor(totals: Totals)
      ensures this.totals == totals && finalGroups == []
    {
      this.totals := totals;
      finalGroups := [];
    }

    /** `evalGroups`: each group, in order, goes to the returned problem
        list when it scores above MAX_SCORE and is appended to
        `finalGroups` otherwise. */
    method EvalGroups(groups: seq<Group>) returns (problemGroups: seq<Group>)
      requires forall k, s :: 0 <= k < |groups| && s in groups[k] ==> Covers(totals, s)
      modifies this
      ensures problemGroups == Problems(groups, ProblemTest(totals))
      ensures finalGroups == old(finalGroups) + Accepted(groups, ProblemTest(totals))
    {
      problemGroups := [];
      for i := 0 to |groups|
        invariant problemGroups == Problems(groups[..i], ProblemTest(totals))
        invariant finalGroups == old(finalGroups) + Accepted(groups[..i], ProblemTest(totals))
      {
        TakeSnoc(groups, i);
        SplitSnoc(groups[..i], groups[i], ProblemTest(totals));
        var g := groups[i];
        var score := DiversityScore(g, totals);
        if score > MAX_SCORE {
          problemGroups := problemGroups + [g];
        } else {
          finalGroups := finalGroups + [g];
        }
      }
      assert groups[..|groups|] == groups;
    }

    /** `getBestGrouping`. `shuffle(c, xs)` is the order `random.shuffle`
        leaves `xs` in on its c-th call (any reordering). The returned list
        is `finalGroups`: N_GROUPS groups holding every student exactly
        once. The flag is set exactly when a problem group is among them;
        if the reshuffle budget was not used up, at most one is. */
    method GetBestGrouping(students: seq<Student>, shuffle: (nat, seq<Student>) -> seq<Student>)
      returns (result: seq<Group>, hasInvalid: bool, ghost reshuffles: nat)
      requires forall s :: s in students ==> Covers(totals, s)
      requires forall c, xs :: multiset(shuffle(c, xs)) == multiset(xs)
      modifies this
      ensures result == finalGroups
      ensures |result| == N_GROUPS && Bag(result) == multiset(students)
      ensures hasInvalid <==> Problems(result, ProblemTest(totals)) != []
      ensures reshuffles <= MAX_PROBLEM_GROUP_RESHUFFLE
      ensures reshuffles < MAX_PROBLEM_GROUP_RESHUFFLE ==> |Problems(result, ProblemTest(totals))| <= 1
      ensures var groups := GenerateGroups(shuffle(0, students), N_GROUPS);
              var run := ReshuffleRun(Problems(groups, ProblemTest(totals)), 0, RedealWith(shuffle), ProblemTest(totals));
              && result == Accepted(groups, ProblemTest(totals)) + run.accepted + run.problems
              && reshuffles == run.tries && (hasInvalid <==> run.problems != [])
    {
      var problemGroups := FirstDeal(students, shuffle);
      var tries;
      problemGroups, tries := ReshuffleProblems(students, shuffle, problemGroups);
      Closing(finalGroups, problemGroups, ProblemTest(totals));
      if |problemGroups| != 0 {
        finalGroups := finalGroups + problemGroups;
      }
      result, hasInvalid, reshuffles := finalGroups, |problemGroups| != 0, tries;
    }

    /** The start of `getBestGrouping`: clear `finalGroups`, deal the whole
        roster into `N_GROUPS` groups and evaluate them. The acceptable
        groups are in `finalGroups`, the problem groups are returned, and
        together they hold every student once. */
    method FirstDeal(students: seq<Student>, shuffle: (nat, seq<Student>) -> seq<Student>)
      returns (problemGroups: seq<Group>)
      requires forall s :: s in students ==> Covers(totals, s)
      requires forall c, xs :: multiset(shuffle(c, xs)) == multiset(xs)
      modifies this
      ensures var groups := GenerateGroups(shuffle(0, students), N_GROUPS);
              && finalGroups == Accepted(groups, ProblemTest(totals))
              && problemGroups == Problems(groups, ProblemTest(totals))
      ensures |finalGroups| + |problemGroups| == N_GROUPS
      ensures Bag(finalGroups) + Bag(problemGroups) == multiset(students)
      ensures Problems(finalGroups, ProblemTest(totals)) == []
      ensures Problems(problemGroups, ProblemTest(totals)) == problemGroups
    {
      finalGroups := [];
      var groups := GenerateGroups(shuffle(0, students), N_GROUPS);
      CoveredGroups(groups, students);
      problemGroups := EvalGroups(groups);
      ReshuffleStep([], groups, ProblemTest(totals));
      assert [] + Accepted(groups, ProblemTest(totals)) == Accepted(groups, ProblemTest(totals));
    }

    /** The reshuffle loop of `getBestGrouping`: while more than one
        problem group is left and the budget allows, pool the problem
        groups' students, deal them anew into as many groups, and evaluate
        those. It does what `ReshuffleRun` says: accepted groups join
        `finalGroups`, and the groups and students are neither lost nor
        duplicated. */
    method ReshuffleProblems(students: seq<Student>, shuffle: (nat, seq<Student>) -> seq<Student>,
                             entry: seq<Group>)
      returns (problemGroups: seq<Group>, tries: nat)
      requires forall s :: s in students ==> Covers(totals, s)
      requires forall c, xs :: multiset(shuffle(c, xs)) == multiset(xs)
      requires |finalGroups| + |entry| == N_GROUPS
      requires Bag(finalGroups) + Bag(entry) == multiset(students)
      requires Problems(finalGroups, ProblemTest(totals)) == []
      requires Problems(entry, ProblemTest(totals)) == entry
      modifies this
      ensures var run := ReshuffleRun(entry, 0, RedealWith(shuffle), ProblemTest(totals));
              && finalGroups == old(finalGroups) + run.accepted
              && problemGroups == run.problems && tries == run.tries
      ensures |finalGroups| + |problemGroups| == N_GROUPS
      ensures Bag(finalGroups) + Bag(problemGroups) == multiset(students)
      ensures Problems(finalGroups, ProblemTest(totals)) == []
      ensures Problems(problemGroups, ProblemTest(totals)) == problemGroups
      ensures tries <= MAX_PROBLEM_GROUP_RESHUFFLE
      ensures tries < MAX_PROBLEM_GROUP_RESHUFFLE ==> |problemGroups| <= 1
    {
      ghost var run := ReshuffleRun(entry, 0, RedealWith(shuffle), ProblemTest(totals));
      RedealKeeps(shuffle);
      assert Bag(entry) <= multiset(students);
      problemGroups := entry;
      tries := 0;
      while |problemGroups| > 1 && tries < MAX_PROBLEM_GROUP_RESHUFFLE
        invariant tries <= MAX_PROBLEM_GROUP_RESHUFFLE
        invariant var rest := ReshuffleRun(problemGroups, tries, RedealWith(shuffle), ProblemTest(totals));
                  && finalGroups + rest.accepted == old(finalGroups) + run.accepted
                  && rest.problems == run.problems && rest.tries == run.tries
        invariant Bag(problemGroups) <= multiset(students)
        decreases MAX_PROBLEM_GROUP_RESHUFFLE - tries
      {
        ghost var entryProblems, entryTries, before := problemGroups, tries, finalGroups;
        tries := tries + 1;
        problemGroups := Redeal(students, shuffle, tries, problemGroups);
        ReshuffleRound(entryProblems, entryTries, tries, RedealWith(shuffle), ProblemTest(totals),
                       before, finalGroups, problemGroups);
      }
      assert ReshuffleRun(problemGroups, tries, RedealWith(shuffle), ProblemTest(totals)).accepted == [];
      assert finalGroups + [] == finalGroups;
      ReshuffleConserves(entry, 0, RedealWith(shuffle), ProblemTest(totals));
      ConservedAfter(old(finalGroups), entry, run, ProblemTest(totals));
    }

    /** One pass of the reshuffle loop's body, reshuffle number `c`: pool
        the problem groups' students, deal them anew into as many groups,
        and evaluate those. */
    method Redeal(students: seq<Student>, shuffle: (nat, seq<Student>) -> seq<Student>, c: nat,
                  problems: seq<Group>)
      returns (problemGroups: seq<Group>)
      requires forall s :: s in students ==> Covers(totals, s)
      requires forall c, xs :: multiset(shuffle(c, xs)) == multiset(xs)
      requires Bag(problems) <= multiset(students)
      modifies this
      ensures var groups := RedealWith(shuffle)(c, problems);
              && problemGroups == Problems(groups, ProblemTest(totals))
              && finalGroups == old(finalGroups) + Accepted(groups, ProblemTest(totals))
      ensures Bag(problemGroups) <= multiset(students)
    {
      var newStudents := Flatten(problems);
      var newGroups := GenerateGroups(shuffle(c, newStudents), |problems|);
      assert newGroups == RedealWith(shuffle)(c, problems);
      RedealKeeps(shuffle);
      CoveredGroups(newGroups, students);
      problemGroups := EvalGroups(newGroups);
      SplitBag(newGroups, ProblemTest(totals));
    }

    /** Groups dealt from a reordering of the roster hold only students of
        the roster. */
    lemma CoveredGroups(groups: seq<Group>, students: seq<Student>)
      requires forall s :: s in students ==> Covers(totals, s)
      requires Bag(groups) <= multiset(students)
      ensures forall k, s :: 0 <= k < |groups| && s in groups[k] ==> Covers(totals, s)
    {
      forall k, s | 0 <= k < |groups| && s in groups[k]
        ensures Covers(totals, s)
      {
        InFlatten(groups, k, s);
        assert s in Bag(groups);
        assert s in multiset(students);
      }
    }
  }
}
