# iw-assigner, modelled in Dafny

iw-assigner splits a roster of students into groups that are as diverse as
possible in study line, gender and nationality. This project models three
parts of it and proves what they promise.

- **The optimiser of `createGroups.py`.**
  - A group's diversity score is minus the number of (unordered pair,
    attribute) matches. 0 is perfectly diverse.
  - Random splits are dealt round-robin and scored in batches of 50 trials,
    keeping the first split with the strictly highest score.
  - That split is then refined by 10000 rounds of `greedy_assign`:
    first-improvement passes of `maybe_swap` over every pair of groups.
  - The number of possible splits is reported as a Stirling number of the
    second kind.
- **The legacy assigner (`legacy/assigner.py`).**
  - It deals the roster into 24 groups and scores each with per-value
    tallies against the roster totals.
  - It sets aside groups scoring above 7 ("problem groups") and re-deals
    only their students until at most one is left or 10000 reshuffles are
    used.
- **The ticket tokens (`tickets/createTicketTokens.py`).**
  - Every distinct student number gets exactly one random token.
  - No token is handed out twice.

Modules, one per file:
- `Population` (`population.dfy`): students, groups, flattening, and the
  multiset of students a list of groups holds.
- `RoundRobin` (`round_robin.dfy`): the deal by position, shared by
  `create_rand_group` and the legacy `generateGroups`.
- `Diversity`, `Stirling`, `Swap`, `Greedy`, `CreateGroups`: `createGroups.py`.
- `Legacy`: `legacy/assigner.py`.
- `Tokens`: `tickets/createTicketTokens.py`.

How the model is built:
- Loops in the source are Dafny `method`s with loop invariants. Most are
  proved equal to a specification function: `Score`, `S`, `Partition`,
  `FirstBest`, `Keys`/`Count`, `SumPenalties`, `Problems`/`Accepted`,
  `ReshuffleRun` (the legacy reshuffle loop), `FirstFresh`, and
  `Dedup`/`Issue` (the token loop).
- The greedy passes of `greedy_assign` and the refinement rounds depend on
  every earlier exchange, so they are proved against properties instead:
  `LocalOptimum`, `SameSizes`, `EvenSizes`, the multiset of students and a
  rising score.
- Lists that the Python code changes in place are passed in and returned as
  values. The legacy module's global `finalGroups` is the field of class
  `Legacy.Assigner`.
- Randomness comes from parameters:
  - each trial's shuffled roster;
  - a reordering oracle for `np.random.shuffle` and `random.shuffle`, whose
    only promise is that it permutes;
  - the successive values of `secrets.token_urlsafe` for each call.
- The wall-clock deadline of `main` becomes the number of batches supplied.

Points where the model makes the code's own behaviour explicit:
- **Zero groups.** The code checks only `n_groups > rows`
  (createGroups.py:318-321), so a zero group count is not rejected up
  front and fails later, inside the search. The model reports `NoGroups`
  for it.
- **Coverage.** The coverage ratio (createGroups.py:379) divides the
  number of trials by S(n, k) without a cap, so it can exceed 1. The model
  returns both numbers and does not claim a bound.
- **Mean or sum.** The aggregate score is the integer sum of the group
  scores, where the code takes their mean. For a fixed group count the two
  order splits alike (`MeanOrder`). A mean beats the initial -10000000
  exactly when the sum beats -10000000 × n_groups (`MeanBeatsInitial`), so
  the search starts from that sum.

## Model

| member | source | states |
|---|---|---|
| Diversity.Shared | createGroups.py:182-184 | two students share 0 to 3 attributes, and 0 exactly when study, gender and nationality all differ |
| Diversity.Score | createGroups.py:166-185 | a group's score is never positive |
| Diversity.DiversityScore | createGroups.py:166-185 | the nested loops return exactly `Score`: minus the number of (pair, attribute) matches |
| Diversity.CompareLater | createGroups.py:179-184 | the inner loop lowers the score by the matches of member i with every later member |
| Diversity.ScoreZeroIff | createGroups.py:173-185 | a group scores 0 exactly when no two members share any attribute; otherwise below 0; groups of 0 or 1 members score 0 |
| Diversity.ScoreLowerBound | createGroups.py:177-185 | the score is at least minus three per unordered pair |
| Diversity.TotalScore | createGroups.py:197-199 | the aggregate of a split is never positive, so it is a bounded measure for the greedy search |
| Diversity.TotalScoreReplace | createGroups.py:261-263 | replacing one group changes the aggregate by exactly the change in that group's score |
| Diversity.TotalScoreOfReordered | createGroups.py:258 | reordering the groups leaves the aggregate unchanged |
| Population.BagOfReordered | createGroups.py:258 | reordering the groups leaves the students held unchanged |
| Population.EvenSizesOfReordered | createGroups.py:258 | reordering evenly sized groups (any two differ by at most one member) leaves them evenly sized |
| Population.ReorderedPair | createGroups.py:258 | two different positions of a reordered list hold elements found at two different positions of the original |
| RoundRobin.PartitionBag | createGroups.py:161-162 | dealing loses and duplicates no student |
| RoundRobin.PartitionSizes | createGroups.py:161-162 | group k gets `len / n` students plus one for the first `len % n` groups, so sizes differ by at most one |
| RoundRobin.PartitionPosition | createGroups.py:161-162 | the student at position i is member i / n of group i mod n |
| RoundRobin.PartitionDealt | legacy/assigner.py:246 | the slices `sList[i::n]` are the round-robin deal: every student in exactly one group, by position, balanced |
| CreateGroups.CreateRandGroup | createGroups.py:149-163 | the loop builds exactly n_groups groups, dealt by position, holding every student once |
| CreateGroups.MpWrapper | createGroups.py:188-199 | n_groups groups dealt from the shuffled roster by position, so every student once and sizes differing by at most one; per-group scores equal to `Score`, aggregate their sum and at most 0 |
| CreateGroups.MeanBeatsInitial | createGroups.py:356-376 | a split's mean beats -10000000 exactly when its sum beats `InitialSum` |
| CreateGroups.MeanOrder | createGroups.py:392-393 | for a fixed group count one mean beats another exactly when the sum does |
| CreateGroups.KeepBestStep | createGroups.py:371-377 | one comparison keeps the best-tracking invariant: a strictly higher score takes over, a tie or lower score leaves the earlier best |
| CreateGroups.KeepBestReplace | createGroups.py:375-377 | a result scoring strictly above the held best becomes the earliest best |
| CreateGroups.KeepBestKeep | createGroups.py:375 | a result scoring at most the held best leaves it in place |
| CreateGroups.FirstBestBounds | createGroups.py:356-377 | the held score never falls below the start, bounds every result seen, and a split is held exactly when some result beat the start |
| CreateGroups.ScanBatch | createGroups.py:371-377 | folding a batch's results in submission order yields the earliest strictly best result over everything seen, and it is a split of the roster into evenly sized groups |
| CreateGroups.SearchBest | createGroups.py:356-377 | after all batches: 50 trials counted per batch, the held best is the earliest strictly best trial, a split of the roster into groups differing in size by at most one, with its own score |
| CreateGroups.Refine | createGroups.py:389-395 | the refinement rounds keep a split of the roster with sizes differing by at most one, never lower the score, end at a local optimum, and report the held split's own score; a start that is already a local optimum keeps its score and its groups, possibly reordered (the loop invariant also shows that every round after the first leaves the score where the first round put it) |
| CreateGroups.Run | createGroups.py:317-395 | more groups than students is `TooManyGroups`; zero groups `NoGroups`; otherwise a result exists exactly when some trial beat the start, no trial beating it is `NoSplitFound`, and a result it is a locally optimal split into n_groups groups differing in size by at most one, holding every student once and scoring at least every trial, with 50 × batches trials and S(n, k) >= 1 splits reported |
| Stirling.StirlingSecondKind | createGroups.py:202-216 | the table method returns S(n, k) from the recurrence S(i, j) = j·S(i-1, j) + S(i-1, j-1), S(0, 0) = 1 |
| Stirling.FillRow | createGroups.py:212-214 | one row fills columns 1..min(i, k) by the recurrence, and the untouched entries already hold S |
| Stirling.SAboveDiagonal | createGroups.py:212-214 | entries with j > i are 0 |
| Stirling.SOne | createGroups.py:202-216 | S(n, 1) = 1 for n >= 1 |
| Stirling.SPositive | createGroups.py:379 | S(n, k) >= 1 once 1 <= k <= n, so the coverage division never divides by zero |
| Stirling.KnownValues | createGroups.py:202-216 | S(4, 2) = 7 and S(5, 3) = 25 |
| Swap.ExchangeFacts | createGroups.py:229-232 | an exchange moves exactly one member each way and keeps both sizes |
| Swap.ImprovementOutcome | createGroups.py:232-237 | an accepted exchange keeps the sizes and the two groups' students, and strictly raises their summed score |
| Swap.TryPartners | createGroups.py:228-240 | the inner loop returns the first improving partner for the held-out member; otherwise both groups come back exactly as they were |
| Swap.MaybeSwap | createGroups.py:221-242 | `False` exactly when no exchange improves, and then both groups are their entry sequences; `True` applies the first improving exchange in scan order |
| Greedy.PairUpdate | createGroups.py:262-263 | updating the two groups of a pair keeps every size and the students, and moves the aggregate by the pair's change |
| Greedy.PairStep | createGroups.py:262-263 | one `maybe_swap` call of the inner loop carries the row's invariant from partner j to j + 1 |
| Greedy.PassRow | createGroups.py:261-263 | the inner loop of a pass keeps sizes and students, raises the aggregate if anything swapped, and otherwise certifies the row |
| Greedy.SwapPass | createGroups.py:259-264 | a pass without a swap leaves the split unchanged and proves it a local optimum; a pass with one strictly raises the aggregate |
| Greedy.GreedyAssign | createGroups.py:245-265 | terminates by the strictly rising, capped aggregate; keeps the students, the group count and every size; never lowers the score; returns a local optimum; if the input is a local optimum, in any order, the shuffled order comes back unchanged with the same score; evenly sized groups stay evenly sized |
| Greedy.NoImprovingSwapSym | createGroups.py:221-242 | whether an exchange between two groups improves does not depend on which group is named first |
| Greedy.LocalOptimumOfReordered | createGroups.py:258 | a local optimum is still one after the groups are shuffled |
| Legacy.KeysExact | legacy/assigner.py:177-180 | the dictionary's keys are the group's values, each once, and a value is a key exactly when its count is positive |
| Legacy.AddKeys | legacy/assigner.py:179-180 | the first loop creates a zero entry for every value, in order of first appearance |
| Legacy.CountUp | legacy/assigner.py:181-182 | the second loop brings every entry to its value's count in the group |
| Legacy.Tally | legacy/assigner.py:177-182 | the finished dictionary maps each occurring value to its count, and holds nothing else |
| Legacy.TallySum | legacy/assigner.py:177-182 | the tallies add up to the group's size |
| Legacy.RosterTotals | legacy/assigner.py:128-136 | the roster totals cover every student's values, and each is that value's positive roster count |
| Legacy.IntendedAvg | legacy/assigner.py:184 | the intended average per group is at least 1 |
| Legacy.Penalty | legacy/assigner.py:184-186 | a value's penalty is never negative, and positive exactly when its count exceeds the intended average |
| Legacy.KeysCovered | legacy/assigner.py:184 | every key of a group of roster students has a roster total, so the lookup never fails |
| Legacy.EvalAttribute | legacy/assigner.py:168-187 | the per-attribute loop returns the sum of the penalties over the keys in order |
| Legacy.SumPenaltiesZero | legacy/assigner.py:183-186 | summed penalties are never negative, and 0 exactly when no listed value is over-represented |
| Legacy.AttrScoreZeroIff | legacy/assigner.py:183-186 | an attribute scores 0 exactly when no member's value is over-represented; only over-represented values contribute |
| Legacy.DiversityScore | legacy/assigner.py:228-238 | the group score is the sum of the study, gender and nationality scores |
| Legacy.GroupScoreZeroIff | legacy/assigner.py:228-238 | a group scores at least 0, and 0 exactly when no attribute value is over-represented |
| Legacy.GenerateGroups | legacy/assigner.py:241-247 | n groups where group i holds positions i, i + n, ...: every student in exactly one group, sizes differing by at most one |
| Legacy.SplitFacts | legacy/assigner.py:250-259 | every group goes to exactly one of the problem and accepted lists |
| Legacy.SplitBag | legacy/assigner.py:250-259 | together the two lists hold exactly the students of the input groups |
| Legacy.SplitClassified | legacy/assigner.py:255-258 | every problem group fails the threshold and no accepted group does |
| Legacy.ProblemsEmptyIff | legacy/assigner.py:277-280 | no problem group is left exactly when every group passes |
| Legacy.ProblemsAppend | legacy/assigner.py:278 | the problem groups of a concatenation are those of its parts, in order |
| Legacy.ProblemsOfAccepted | legacy/assigner.py:257-258 | the accepted groups contain no problem group |
| Legacy.ProblemsOfProblems | legacy/assigner.py:255-256 | every problem group is a problem group again |
| Legacy.ReshuffleStep | legacy/assigner.py:266-267 | one deal and evaluation keeps the group count and the students across `finalGroups` and the problem list |
| Legacy.RedealKeeps | legacy/assigner.py:272-273 | pooling the problem groups' students and dealing them anew gives as many groups holding the same students |
| Legacy.ReshuffleRun | legacy/assigner.py:269-274 | the loop's outcome: it runs only while more than one problem group is left and fewer than 10000 reshuffles were done, never exceeds 10000, stops early only with at most one problem group, and with one problem group or none it changes nothing |
| Legacy.ReshuffleRound | legacy/assigner.py:271-274 | one round followed by the rest of the loop is the whole loop: this round's accepted groups come before the rest's |
| Legacy.ReshuffleConserves | legacy/assigner.py:269-274 | the loop loses and duplicates no group and no student, accepts only passing groups and ends with only problem groups |
| Legacy.ReshuffleConservesRound | legacy/assigner.py:271-274 | the same, for a start state where the loop runs at least one round |
| Legacy.ConservedRound | legacy/assigner.py:271-274 | a round whose deal keeps the groups and students, followed by a conserving rest, conserves |
| Legacy.ConservedAfter | legacy/assigner.py:269-274 | appending the loop's accepted groups to an acceptable `finalGroups` keeps the count, the students and the split between passing and problem groups |
| Legacy.Closing | legacy/assigner.py:277-278 | appending the leftover problem groups gives a list whose problem groups are exactly those; with none left nothing changes |
| Legacy.Assigner.constructor | legacy/assigner.py:263-264 | `finalGroups` starts empty |
| Legacy.Assigner.EvalGroups | legacy/assigner.py:250-259 | returns the problem groups in order, and appends exactly the accepted groups, in order, to `finalGroups` |
| Legacy.Assigner.FirstDeal | legacy/assigner.py:263-267 | clears `finalGroups`, deals the roster into 24 groups, and leaves the passing ones in `finalGroups` and returns the problem ones, together holding every student once |
| Legacy.Assigner.Redeal | legacy/assigner.py:271-274 | one round of the loop: the new problem groups and the groups appended to `finalGroups` are those of the re-deal that `ReshuffleRun` uses |
| Legacy.Assigner.ReshuffleProblems | legacy/assigner.py:269-274 | does exactly what `ReshuffleRun` says: `finalGroups` gains the groups accepted along the way, the problem groups and the reshuffle count are the loop's end state; `finalGroups` plus the problem groups hold 24 groups and every student once |
| Legacy.Assigner.CoveredGroups | legacy/assigner.py:266-274 | groups dealt from the roster hold only roster students, so every total lookup succeeds |
| Legacy.Assigner.GetBestGrouping | legacy/assigner.py:262-280 | returns `finalGroups`: the first deal's passing groups, then the groups `ReshuffleRun` accepts, then the problem groups left; 24 groups holding every student once; the flag is set exactly when a problem group is among them; if the budget was not used up, at most one is |
| Tokens.FirstFresh | tickets/createTicketTokens.py:74-79 | the rejection loop's result: the first draw not already issued |
| Tokens.FirstFreshIsFirst | tickets/createTicketTokens.py:74-79 | the first position whose draw is fresh gives `FirstFresh` |
| Tokens.GenToken | tickets/createTicketTokens.py:58-86 | `None` exactly when the number already has a token; otherwise a token not yet issued, appended with the number at the same position; both lists stay duplicate-free |
| Tokens.DedupFacts | tickets/createTicketTokens.py:131-135 | the distinct numbers in order of first appearance: each number once, nothing else |
| Tokens.Issue | tickets/createTicketTokens.py:131-136 | the two lists after the loop, built from each number's own draws; every token is one of the draws |
| Tokens.IssueFacts | tickets/createTicketTokens.py:131-136 | `Issue` gives each distinct number, in first-appearance order, exactly one token, and no two tokens are equal |
| Tokens.IssueTokens | tickets/createTicketTokens.py:131-136 | the loop computes exactly `Issue`: every distinct student number gets exactly one token, the first fresh draw of its own call, in roster order; `None` is never unpacked, all tokens are distinct and all come from the draws |

## Left out

- Spreadsheet input, output files and console output are not modelled. This covers `check_duplicates`, `print_stats`, `Student.get_orig_data`, `getExcelInput`, `createGroupFile`, and the DataFrame rows of the token script. The roster is a parameter, and the legacy roster totals are computed from it by `RosterTotals`.
- `getExcelInput` compares `nationality == "None"` where it evidently means to assign (legacy/assigner.py:127). It belongs to input cleaning and is not modelled.
- `progressbar`, the wall-clock deadline and the `ProcessPoolExecutor` are not modelled. A batch is a given list of 50 shuffled rosters, folded in order.
- Randomness is a parameter. `np.random.shuffle`, `random.shuffle` and `secrets.token_urlsafe` become oracles. The shuffles promise only what the source relies on: they permute. The token draws promise more than the source needs; see the `Tokens.IssueTokens` line below.
- In-place aliasing is not modelled. The shuffles reorder the caller's lists in place; the model passes the reordered list on instead.
- `CreateGroups.MpWrapper`, `CreateGroups.Run`, `CreateGroups.Refine`: the aggregate is the integer sum of the group scores, not the floating-point mean. The reported score is therefore n_groups times the source's. Float rounding of the mean is not modelled.
- `Legacy.Penalty`, `Legacy.EvalAttribute`, `Legacy.DiversityScore`: the scores are exact `real` values. Floating-point rounding of the divisions is not modelled.
- The `MAX_SCORE += 0.5` tolerance loop and the `NO_INVALID_GROUP` retries in the legacy script's entry point are not modelled.
- The coverage percentage is not modelled: the rounding to 10 digits and the printed ratio. `CreateGroups.Run` returns the trial count and S(n, k) it is computed from.
- `CreateGroups.Run`: a negative group count cannot be expressed (`nGroups` is a `nat`). A zero group count is reported as `NoGroups` before the search. The source instead fails inside the search, with a division by zero or a failure on the missing best split.
- `CreateGroups.Run`: when no trial beats the start, the source fails on the missing split (`None`) at the greedy step. The model reports `NoSplitFound`.
- `Legacy.Assigner.GetBestGrouping`: requires that every student's values have roster totals. The source fails with a missing-key error otherwise, and `RosterTotals` guarantees it for the roster the totals were built from.
- `Tokens.IssueTokens`, `Tokens.Issue`: require `FreshSupply`, which is more than the source needs. The draws for each roster position must contain a value that no earlier position drew, counting draws that were rejected or never used and positions of skipped duplicates. The source's rejection loop only needs a draw that is not an already issued token; on draws meeting that weaker condition but not `FreshSupply`, the model says nothing.
- `token_len` only sets the length of the drawn tokens and is not modelled.
- `assignRest.py` and the `testing/` scripts are not part of this model. They are a random-group helper around numpy and spreadsheet fixtures.
