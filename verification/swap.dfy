/** `maybe_swap` of `createGroups.py`: try every member of the first group
    against every member of the second, by popping from the front and
    appending at the back, and keep the first exchange that raises the two
    groups' summed score. Every rejected attempt is undone, so both lists
    go through full rotations and end exactly as they started. */
module Swap {
  import opened Population
  import opened Diversity

  /** `s` rotated left by t places: what a list looks like after t rounds
      of "pop the front, append it at the back". */
  function Rot<T>(s: seq<T>, t: nat): (r: seq<T>)
    requires t <= |s|
  {
    s[t..] + s[..t]
  }

  /** The first group after its member t has been popped and the second
      group's member u appended (the order the source leaves it in). */
  function Exchanged1(g1: Group, g2: Group, t: nat, u: nat): (r: Group)
    requires t < |g1| && u < |g2|
  {
    g1[t + 1..] + g1[..t] + [g2[u]]
  }

  /** The second group after its member u has been popped and the first
      group's member t appended. */
  function Exchanged2(g1: Group, g2: Group, t: nat, u: nat): (r: Group)
    requires t < |g1| && u < |g2|
  {
    g2[u + 1..] + g2[..u] + [g1[t]]
  }

  /** Exchanging member t of g1 with member u of g2 strictly raises the sum
      of the two groups' scores. */
  predicate Improves(g1: Group, g2: Group, t: nat, u: nat)
    requires t < |g1| && u < |g2|
  {
    Score(Exchanged1(g1, g2, t, u)) + Score(Exchanged2(g1, g2, t, u)) > Score(g1) + Score(g2)
  }

  /** No 1-for-1 exchange between g1 and g2 raises their summed score. */
  predicate NoImprovingSwap(g1: Group, g2: Group)
  {
    forall t, u :: 0 <= t < |g1| && 0 <= u < |g2| ==> !Improves(g1, g2, t, u)
  }

  /** (t, u) is the first improving exchange in the source's scan order:
      t over the first group, and for each t, u over the second. */
  predicate FirstImprovement(g1: Group, g2: Group, t: nat, u: nat)
    requires t < |g1| && u < |g2|
  {
    && Improves(g1, g2, t, u)
    && (forall t', u' :: 0 <= t' < t && 0 <= u' < |g2| ==> !Improves(g1, g2, t', u'))
    && (forall u' :: 0 <= u' < u ==> !Improves(g1, g2, t, u'))
  }

  /** An exchange moves exactly one member each way and keeps both sizes. */
  lemma ExchangeFacts(g1: Group, g2: Group, t: nat, u: nat)
    requires t < |g1| && u < |g2|
    ensures |Exchanged1(g1, g2, t, u)| == |g1| && |Exchanged2(g1, g2, t, u)| == |g2|
    ensures multiset(Exchanged1(g1, g2, t, u)) == multiset(g1) - multiset{g1[t]} + multiset{g2[u]}
    ensures multiset(Exchanged2(g1, g2, t, u)) == multiset(g2) - multiset{g2[u]} + multiset{g1[t]}
  {
    assert g1 == g1[..t] + [g1[t]] + g1[t + 1..];
    assert g2 == g2[..u] + [g2[u]] + g2[u + 1..];
  }

  /** What an accepted exchange leaves behind: the same sizes, the same
      students between the two groups, and a strictly higher summed score. */
  lemma ImprovementOutcome(g1: Group, g2: Group, t: nat, u: nat)
    requires t < |g1| && u < |g2| && Improves(g1, g2, t, u)
    ensures var h1, h2 := Exchanged1(g1, g2, t, u), Exchanged2(g1, g2, t, u);
      && |h1| == |g1| && |h2| == |g2|
      && multiset(h1) + multiset(h2) == multiset(g1) + multiset(g2)
      && Score(h1) + Score(h2) > Score(g1) + Score(g2)
  {
    ExchangeFacts(g1, g2, t, u);
  }

  /** One round of "pop the front, append it at the back". */
  lemma RotStep<T>(s: seq<T>, t: nat)
    requires t < |s|
    ensures Rot(s, t)[0] == s[t]
    ensures Rot(s, t)[1..] == s[t + 1..] + s[..t]
    ensures s[t + 1..] + s[..t] + [s[t]] == Rot(s, t + 1)
  {
    assert s[..t + 1] == s[..t] + [s[t]];
  }

  /** `maybe_swap`. The returned lists are the groups as the source leaves
      them: on `false` exactly the entry lists, on `true` the first
      improving exchange, with the popped-and-appended member order. */
  method MaybeSwap(group1: Group, group2: Group) returns (swapped: bool, g1: Group, g2: Group)
    ensures !swapped ==> g1 == group1 && g2 == group2 && NoImprovingSwap(group1, group2)
    ensures swapped ==> exists t, u :: 0 <= t < |group1| && 0 <= u < |group2|
                          && FirstImprovement(group1, group2, t, u)
                          && g1 == Exchanged1(group1, group2, t, u)
                          && g2 == Exchanged2(group1, group2, t, u)
    ensures swapped <==> !NoImprovingSwap(group1, group2)
    ensures |g1| == |group1| && |g2| == |group2|
    ensures multiset(g1) + multiset(g2) == multiset(group1) + multiset(group2)
    ensures swapped ==> Score(g1) + Score(g2) > Score(group1) + Score(group2)
  {
    var diversity1 := DiversityScore(group1);
    var diversity2 := DiversityScore(group2);
    var oldSum := diversity1 + diversity2;
    g1, g2 := group1, group2;
    var n1 := |g1|;
    var t := 0;
    while t < n1
      invariant 0 <= t <= n1 == |group1|
      invariant g1 == Rot(group1, t) && g2 == group2
      invariant forall t', u' :: 0 <= t' < t && 0 <= u' < |group2| ==> !Improves(group1, group2, t', u')
    {
      RotStep(group1, t);
      var student1 := g1[0];
      g1 := g1[1..];
      var u;
      swapped, u, g1, g2 := TryPartners(group1, group2, t, oldSum, student1, g1, g2);
      if swapped {
        assert FirstImprovement(group1, group2, t, u);
        ImprovementOutcome(group1, group2, t, u);
        return;
      }
      g1 := g1 + [student1];
      t := t + 1;
    }
    assert Rot(group1, n1) == group1;
    swapped := false;
  }

  /** The inner loop of `maybe_swap`, with member t of the first group held
      out as `student1`: try each member of the second group in turn in its
      place, and undo the attempt unless the summed score rises above
      `oldSum`. */
  method TryPartners(group1: Group, group2: Group, t: nat, oldSum: int, student1: Student,
                     rest1: Group, entry2: Group)
    returns (found: bool, u: nat, g1: Group, g2: Group)
    requires t < |group1| && student1 == group1[t] && rest1 == group1[t + 1..] + group1[..t]
    requires entry2 == group2 && oldSum == Score(group1) + Score(group2)
    ensures found ==> u < |group2| && Improves(group1, group2, t, u)
                      && g1 == Exchanged1(group1, group2, t, u) && g2 == Exchanged2(group1, group2, t, u)
    ensures found ==> forall u' :: 0 <= u' < u ==> !Improves(group1, group2, t, u')
    ensures !found ==> g1 == rest1 && g2 == group2
                       && forall u' :: 0 <= u' < |group2| ==> !Improves(group1, group2, t, u')
  {
    g1, g2 := rest1, entry2;
    var n2 := |g2|;
    u := 0;
    while u < n2
      invariant 0 <= u <= n2 == |group2|
      invariant g1 == rest1
      invariant g2 == Rot(group2, u)
      invariant forall u' :: 0 <= u' < u ==> !Improves(group1, group2, t, u')
    {
      RotStep(group2, u);
      var student2 := g2[0];
      g2 := g2[1..];
      g1 := g1 + [student2];
      g2 := g2 + [student1];
      assert g1 == Exchanged1(group1, group2, t, u) && g2 == Exchanged2(group1, group2, t, u);
      var diversity1 := DiversityScore(g1);
      var diversity2 := DiversityScore(g2);
      var newSum := diversity1 + diversity2;
      if newSum > oldSum {
        found := true;
        return;
      }
      g2 := g2[..|g2| - 1];
      var back := g1[|g1| - 1];
      g1 := g1[..|g1| - 1];
      g2 := g2 + [back];
      u := u + 1;
    }
    assert Rot(group2, n2) == group2;
    found := false;
  }
}
