/** The driver of `createGroups.py`: random splits scored in batches, the
    best split kept, then refined by repeated greedy swapping.

    Randomness is supplied by the caller: every trial gets its own shuffled
    copy of the roster, and the reordering of the groups at the start of
    each `greedy_assign` call comes from `shuffleGroups`. The wall-clock
    deadline becomes the number of batches the caller supplies. */
module CreateGroups {
  import opened Population
  import opened RoundRobin
  import opened Diversity
  import opened Greedy
  import Stirling

  /** Trials submitted to the process pool per batch. */
  const BATCH_SIZE: nat := 50
  /** Rounds of greedy refinement after the search. */
  const GREEDY_ROUNDS: nat := 10000
  /** The mean score the best split is initialised with. */
  const INITIAL_BEST: int := -10000000

  /** The model keeps the sum of the group scores where the source keeps
      their mean. For a fixed group count the two order splits alike, and a
      mean beats INITIAL_BEST exactly when the sum beats this value. */
  function InitialSum(nGroups: nat): (r: int)
  {
    INITIAL_BEST * nGroups
  }

  /** A split's mean beats INITIAL_BEST exactly when its sum beats
      `InitialSum`. */
  lemma MeanBeatsInitial(sum: int, nGroups: nat)
    requires nGroups > 0
    ensures sum > InitialSum(nGroups) <==> sum as real / nGroups as real > INITIAL_BEST as real
  {
    var n := nGroups as real;
    assert (sum as real / n) * n == sum as real;
    assert InitialSum(nGroups) as real == INITIAL_BEST as real * n;
  }

  /** For a fixed group count, comparing means is comparing sums. */
  lemma MeanOrder(sum: int, other: int, nGroups: nat)
    requires nGroups > 0
    ensures sum > other <==> sum as real / nGroups as real > other as real / nGroups as real
  {
    var n := nGroups as real;
    assert (sum as real / n) * n == sum as real;
    assert (other as real / n) * n == other as real;
  }

  /** The result of one trial, as `mp_wrapper` returns it: the aggregate
      score, the split, and the score of each group. */
  datatype Trial = Trial(score: int, groups: seq<Group>, groupScores: seq<int>)

  datatype Error =
    | TooManyGroups   // `ValueError`: more groups than students
    | NoGroups        // zero groups: the source fails inside the search
    | NoSplitFound    // no trial beat INITIAL_BEST: the source fails on `None`

  datatype Outcome = Outcome(score: int, groups: seq<Group>, amountExecs: nat, combinations: nat)

  datatype Result<+T> = Ok(value: T) | Err(error: Error)

  /** `create_rand_group` after its shuffle: deal the shuffled roster
      round-robin, position i to group i mod n_groups. A function cannot
      call a method, so `MpWrapper` uses `Partition` directly; this method
      shows that the source's append loop computes exactly that. */
  method CreateRandGroup(shuffled: seq<Student>, nGroups: nat) returns (groups: seq<Group>)
    requires nGroups > 0 || shuffled == []
    ensures groups == Partition(shuffled, nGroups)
    ensures |groups| == nGroups
    ensures nGroups > 0 ==> Dealt(shuffled, groups, nGroups)
  {
    groups := seq(nGroups, _ => []);
    assert groups == Partition([], nGroups);
    for index := 0 to |shuffled|
      invariant groups == Partition(shuffled[..index], nGroups)
    {
      assert shuffled[..index + 1] == shuffled[..index] + [shuffled[index]];
      PartitionSnoc(shuffled[..index], nGroups, shuffled[index]);
      groups := groups[index % nGroups := groups[index % nGroups] + [shuffled[index]]];
    }
    assert shuffled[..|shuffled|] == shuffled;
    if nGroups > 0 {
      PartitionDealt(shuffled, nGroups);
    }
  }

  /** `mp_wrapper`: one random split and its scores. The aggregate is the
      sum of the group scores (the source takes their mean, which orders
      splits the same way for a fixed group count). */
  function MpWrapper(shuffled: seq<Student>, nGroups: nat): (r: Trial)
    requires nGroups > 0
    ensures |r.groups| == nGroups && Bag(r.groups) == multiset(shuffled)
    ensures Dealt(shuffled, r.groups, nGroups) && EvenSizes(r.groups)
    ensures |r.groupScores| == nGroups
    ensures forall k :: 0 <= k < nGroups ==> r.groupScores[k] == Score(r.groups[k])
    ensures r.score == TotalScore(r.groups) && r.score <= 0
  {
    PartitionDealt(shuffled, nGroups);
    var groups := Partition(shuffled, nGroups);
    Trial(TotalScore(groups), groups, seq(nGroups, k requires 0 <= k < nGroups => Score(groups[k])))
  }

  /** The trial results for a sequence of shuffled rosters, in order. */
  function Results(shuffles: seq<seq<Student>>, nGroups: nat): (rs: seq<Trial>)
    requires nGroups > 0
    ensures |rs| == |shuffles|
  {
    seq(|shuffles|, k requires 0 <= k < |shuffles| => MpWrapper(shuffles[k], nGroups))
  }

  /** `bestScore`/`best` are what the source's best-tracking loop holds
      after seeing `rs` in order, starting from the score `init`: nothing
      while no result beats `init`, otherwise the earliest result with the
      highest score. */
  ghost predicate FirstBest(rs: seq<Trial>, init: int, bestScore: int, best: Option<seq<Group>>)
  {
    if !SomeBeats(rs, init) then
      best == None && bestScore == init
    else
      exists k :: 0 <= k < |rs| && HeldAt(rs, k, bestScore, best)
  }

  /** The held best is result k: the earliest of those with the highest
      score. */
  predicate HeldAt(rs: seq<Trial>, k: nat, bestScore: int, best: Option<seq<Group>>)
    requires k < |rs|
  {
    && best == Some(rs[k].groups) && bestScore == rs[k].score
    && EarlierBelow(rs, k, bestScore) && AllAtMost(rs, bestScore)
  }

  /** Some result beats the score `init`. */
  predicate SomeBeats(rs: seq<Trial>, init: int)
  {
    exists k :: 0 <= k < |rs| && rs[k].score > init
  }

  /** No result scores above `score`. */
  predicate AllAtMost(rs: seq<Trial>, score: int)
  {
    forall k :: 0 <= k < |rs| ==> rs[k].score <= score
  }

  /** Every result before position k scores strictly below `score`. */
  predicate EarlierBelow(rs: seq<Trial>, k: nat, score: int)
    requires k <= |rs|
  {
    forall j :: 0 <= j < k ==> rs[j].score < score
  }

  /** One step of the best-tracking loop: a strictly greater score replaces
      the best, anything else (ties included) leaves it. */
  lemma KeepBestStep(rs: seq<Trial>, init: int, r: Trial, bestScore: int, best: Option<seq<Group>>)
    requires FirstBest(rs, init, bestScore, best)
    ensures r.score > bestScore ==> FirstBest(rs + [r], init, r.score, Some(r.groups))
    ensures r.score <= bestScore ==> FirstBest(rs + [r], init, bestScore, best)
  {
    if r.score > bestScore {
      KeepBestReplace(rs, init, r, bestScore, best);
    } else {
      KeepBestKeep(rs, init, r, bestScore, best);
    }
  }

  /** A result scoring above the held best becomes the best. */
  lemma KeepBestReplace(rs: seq<Trial>, init: int, r: Trial, bestScore: int, best: Option<seq<Group>>)
    requires FirstBest(rs, init, bestScore, best) && r.score > bestScore
    ensures FirstBest(rs + [r], init, r.score, Some(r.groups))
  {
    var rs' := rs + [r];
    FirstBestBounds(rs, init, bestScore, best);
    assert rs'[|rs|] == r;
    assert SomeBeats(rs', init);
    assert EarlierBelow(rs', |rs|, r.score) by {
      forall j | 0 <= j < |rs| ensures rs'[j].score < r.score {
        assert rs'[j] == rs[j];
      }
    }
    assert HeldAt(rs', |rs|, r.score, Some(r.groups));
  }

  /** A result scoring at most the held best leaves the best in place. */
  lemma KeepBestKeep(rs: seq<Trial>, init: int, r: Trial, bestScore: int, best: Option<seq<Group>>)
    requires FirstBest(rs, init, bestScore, best) && r.score <= bestScore
    ensures FirstBest(rs + [r], init, bestScore, best)
  {
    var rs' := rs + [r];
    FirstBestBounds(rs, init, bestScore, best);
    assert forall j :: 0 <= j < |rs| ==> rs'[j] == rs[j];
    if !SomeBeats(rs, init) {
      assert !SomeBeats(rs', init);
    } else {
      var k :| 0 <= k < |rs| && HeldAt(rs, k, bestScore, best);
      assert SomeBeats(rs', init) by {
        assert rs'[k].score > init;
      }
      assert HeldAt(rs', k, bestScore, best);
    }
  }

  /** The best score held never falls below `init`, it bounds the score of
      every result seen, and a best split is held exactly when some result
      beat `init`. */
  lemma FirstBestBounds(rs: seq<Trial>, init: int, bestScore: int, best: Option<seq<Group>>)
    requires FirstBest(rs, init, bestScore, best)
    ensures bestScore >= init
    ensures AllAtMost(rs, bestScore)
    ensures best.Some? <==> SomeBeats(rs, init)
  {
    if SomeBeats(rs, init) {
      var k :| 0 <= k < |rs| && HeldAt(rs, k, bestScore, best);
      var m :| 0 <= m < |rs| && rs[m].score > init;
    }
  }

  /** A split of `students` into `nGroups` groups whose sizes differ by at
      most one. */
  predicate IsSplit(gs: seq<Group>, students: seq<Student>, nGroups: nat)
  {
    |gs| == nGroups && Bag(gs) == multiset(students) && EvenSizes(gs)
  }

  /** Appending one shuffle appends its trial result. */
  lemma ResultsSnoc(done: seq<seq<Student>>, x: seq<Student>, nGroups: nat)
    requires nGroups > 0
    ensures Results(done + [x], nGroups) == Results(done, nGroups) + [MpWrapper(x, nGroups)]
  {
  }

  /** Extending a prefix of `ps` by one element. */
  lemma PrefixStep<T>(done: seq<T>, ps: seq<T>, p: nat)
    requires p < |ps|
    ensures done + ps[..p + 1] == done + ps[..p] + [ps[p]]
  {
    assert ps[..p + 1] == ps[..p] + [ps[p]];
  }

  /** The held best: a split of the roster, with its own score. */
  predicate BestIsSplit(bestScore: int, best: Option<seq<Group>>, students: seq<Student>, nGroups: nat)
  {
    best.Some? ==> IsSplit(best.value, students, nGroups) && bestScore == TotalScore(best.value)
  }

  /** The random search of `main`: batches of BATCH_SIZE trials, each
      result compared in order with the running best. */
  method SearchBest(students: seq<Student>, nGroups: nat, batches: seq<seq<seq<Student>>>)
    returns (bestScore: int, best: Option<seq<Group>>, amountExecs: nat)
    requires nGroups > 0
    requires forall b :: 0 <= b < |batches| ==> |batches[b]| == BATCH_SIZE
    requires forall b, t :: 0 <= b < |batches| && 0 <= t < |batches[b]| ==>
               multiset(batches[b][t]) == multiset(students)
    ensures amountExecs == BATCH_SIZE * |batches|
    ensures FirstBest(Results(Flatten(batches), nGroups), InitialSum(nGroups), bestScore, best)
    ensures BestIsSplit(bestScore, best, students, nGroups)
  {
    bestScore, best, amountExecs := InitialSum(nGroups), None, 0;
    ghost var done: seq<seq<Student>> := [];
    assert batches[..0] == [];
    for b := 0 to |batches|
      invariant amountExecs == BATCH_SIZE * b
      invariant done == Flatten(batches[..b])
      invariant FirstBest(Results(done, nGroups), InitialSum(nGroups), bestScore, best)
      invariant BestIsSplit(bestScore, best, students, nGroups)
    {
      amountExecs := amountExecs + BATCH_SIZE;
      FlattenPrefixStep(batches, b);
      bestScore, best := ScanBatch(students, nGroups, done, batches[b], bestScore, best);
      done := done + batches[b];
    }
    assert batches[..|batches|] == batches;
  }

  /** Flattening one more batch of a prefix appends that batch. */
  lemma FlattenPrefixStep<T>(batches: seq<seq<T>>, b: nat)
    requires b < |batches|
    ensures Flatten(batches[..b + 1]) == Flatten(batches[..b]) + batches[b]
  {
    assert batches[..b + 1] == batches[..b] + [batches[b]];
    FlattenSnoc(batches[..b], batches[b]);
  }

  /** The results of one batch of processes, taken in submission order:
      a result replaces the best only when it scores strictly higher. */
  method ScanBatch(students: seq<Student>, nGroups: nat, ghost done: seq<seq<Student>>,
                   processes: seq<seq<Student>>, entryScore: int, entryBest: Option<seq<Group>>)
    returns (bestScore: int, best: Option<seq<Group>>)
    requires nGroups > 0
    requires forall t :: 0 <= t < |processes| ==> multiset(processes[t]) == multiset(students)
    requires FirstBest(Results(done, nGroups), InitialSum(nGroups), entryScore, entryBest)
    requires BestIsSplit(entryScore, entryBest, students, nGroups)
    ensures FirstBest(Results(done + processes, nGroups), InitialSum(nGroups), bestScore, best)
    ensures BestIsSplit(bestScore, best, students, nGroups)
  {
    bestScore, best := entryScore, entryBest;
    ghost var seen := done;
    assert done + processes[..0] == done;
    for p := 0 to |processes|
      invariant seen == done + processes[..p]
      invariant FirstBest(Results(seen, nGroups), InitialSum(nGroups), bestScore, best)
      invariant BestIsSplit(bestScore, best, students, nGroups)
    {
      var result := MpWrapper(processes[p], nGroups);
      KeepBestStep(Results(seen, nGroups), InitialSum(nGroups), result, bestScore, best);
      ResultsSnoc(seen, processes[p], nGroups);
      PrefixStep(done, processes, p);
      seen := seen + [processes[p]];
      if result.score > bestScore {
        bestScore := result.score;
        best := Some(result.groups);
      }
    }
    assert processes[..|processes|] == processes;
  }

  /** `main` from the `n_groups` guard on: search, report the number of
      possible splits, then refine. */
  method Run(students: seq<Student>, nGroups: nat, batches: seq<seq<seq<Student>>>,
             shuffleGroups: (nat, seq<Group>) -> seq<Group>)
    returns (r: Result<Outcome>)
    requires forall b :: 0 <= b < |batches| ==> |batches[b]| == BATCH_SIZE
    requires forall b, t :: 0 <= b < |batches| && 0 <= t < |batches[b]| ==>
               multiset(batches[b][t]) == multiset(students)
    requires forall round, gs :: multiset(shuffleGroups(round, gs)) == multiset(gs)
    ensures nGroups > |students| ==> r == Err(TooManyGroups)
    ensures nGroups == 0 ==> r == Err(NoGroups)
    ensures 0 < nGroups <= |students| ==>
              (r.Ok? <==> SomeBeats(Results(Flatten(batches), nGroups), InitialSum(nGroups)))
    ensures 0 < nGroups <= |students| && !SomeBeats(Results(Flatten(batches), nGroups), InitialSum(nGroups)) ==>
              r == Err(NoSplitFound)
    ensures r.Ok? ==> IsSplit(r.value.groups, students, nGroups)
    ensures r.Ok? ==> r.value.score == TotalScore(r.value.groups) && LocalOptimum(r.value.groups)
    ensures r.Ok? ==> AllAtMost(Results(Flatten(batches), nGroups), r.value.score)
    ensures r.Ok? ==> r.value.amountExecs == BATCH_SIZE * |batches|
    ensures r.Ok? ==> r.value.combinations == Stirling.S(|students|, nGroups) >= 1
  {
    if nGroups > |students| {
      return Err(TooManyGroups);
    }
    if nGroups == 0 {
      return Err(NoGroups);
    }
    var bestScore, best, amountExecs := SearchBest(students, nGroups, batches);
    ghost var rs := Results(Flatten(batches), nGroups);
    FirstBestBounds(rs, InitialSum(nGroups), bestScore, best);
    var combinations := Stirling.StirlingSecondKind(|students|, nGroups);
    Stirling.SPositive(|students|, nGroups);
    if best == None {
      return Err(NoSplitFound);
    }
    var finalScore, groups := Refine(students, nGroups, best.value, bestScore, shuffleGroups);
    AllAtMostRaise(rs, bestScore, finalScore);
    return Ok(Outcome(finalScore, groups, amountExecs, combinations));
  }

  /** A bound on every result stays a bound when raised. */
  lemma AllAtMostRaise(rs: seq<Trial>, low: int, high: int)
    requires AllAtMost(rs, low) && low <= high
    ensures AllAtMost(rs, high)
  {
  }

  /** The refinement loop of `main`: GREEDY_ROUNDS calls of `greedy_assign`,
      each on the previous round's split, keeping a split whose score beats
      the best. `groups` and `best_group_split` are one list in the source
      (`greedy_assign` reorders it in place), so the split held at the end
      is the last round's; because `greedy_assign` never lowers the score,
      the score held is that split's own. Every round after the first starts
      from a local optimum and leaves the score where the first round put
      it; in particular a start that is already a local optimum keeps its
      score. */
  method Refine(students: seq<Student>, nGroups: nat, start: seq<Group>, startScore: int,
                shuffleGroups: (nat, seq<Group>) -> seq<Group>)
    returns (bestScore: int, bestGroupSplit: seq<Group>)
    requires IsSplit(start, students, nGroups) && startScore == TotalScore(start)
    requires forall round, gs :: multiset(shuffleGroups(round, gs)) == multiset(gs)
    ensures IsSplit(bestGroupSplit, students, nGroups)
    ensures bestScore == TotalScore(bestGroupSplit) && bestScore >= startScore
    ensures LocalOptimum(bestGroupSplit)
    ensures LocalOptimum(start) ==> bestScore == startScore && multiset(bestGroupSplit) == multiset(start)
  {
    bestScore := startScore;
    var groups := start;
    bestGroupSplit := groups;
    ghost var firstScore := startScore;
    for round := 0 to GREEDY_ROUNDS
      invariant bestGroupSplit == groups && IsSplit(groups, students, nGroups)
      invariant bestScore == TotalScore(groups) && bestScore >= startScore
      invariant round > 0 ==> LocalOptimum(groups) && bestScore == firstScore
      invariant LocalOptimum(start) ==> LocalOptimum(groups)
      invariant LocalOptimum(start) ==> bestScore == startScore && multiset(groups) == multiset(start)
    {
      groups := GreedyAssign(groups, shuffleGroups(round, groups));
      bestGroupSplit := groups;
      var score := TotalScore(groups);
      if score > bestScore {
        bestGroupSplit := groups;
        bestScore := score;
      }
      if round == 0 {
        firstScore := bestScore;
      }
    }
  }
}
