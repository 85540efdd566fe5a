# ARP preference model in Dafny

This project models the automatic reference point (ARP) preference logic of
jMetal's `ARP` class. ARP drives an interactive multi-objective optimiser on
the decision maker's behalf. Between iterations it keeps:

- an ideal vector and a nadir vector (the per-objective minimum and maximum
  over the latest front);
- an aspiration vector, which is always the ideal vector;
- a current reference point and the history of every reference point it has
  produced;
- a decaying `varyingProbability`;
- an evaluation counter.

The model follows the source method by method:

- `updateObjectiveVector` sorts the caller's list by each objective in turn.
  It reads the ideal value from the first member and the nadir value from the
  last.
- `generatePreferenceInformation` refreshes the vectors from one sampled
  solution. It then draws the initial reference points: each coordinate is
  the aspiration value or the nadir value, chosen by a random draw against
  `considerationProbability` times the coefficient of the point's position.
- `relevantObjectiveFunctions` refreshes the vectors from the front and ranks
  the objectives by descending coefficient (ties in index order). It finds
  the front member nearest to the current reference point, then walks the
  ranking and decides per objective whether it is relevant.
- `calculateReferencePoints` draws solutions nearest to the current
  reference point, without replacement, from a copy of the front. Each drawn
  solution becomes a new point:
  - a copy of the solution when every objective is relevant;
  - otherwise a point whose relevant coordinates lie half-way between the
    aspiration value and the solution, and whose other coordinates come from
    the prediction (the current reference point's own coordinate).
- `getSolution` returns the front member at minimal distance from a point.
  When several are equally near, the last one in list order wins.
- The run counters, the archive and the history are modelled too.

Files and modules:

- `objectives.dfy` (`Objectives`): vectors, the caller-owned list, squared
  distance, the stable sort, the ideal and nadir vectors as functions of the
  list, and what they are (minimum and maximum).
- `ranking.dfy` (`Ranking`): the default coefficients, the ranking of
  objectives and its uniqueness.
- `relevance.dfy` (`Relevance`): the relevance loop as a function of the
  ranking, the draws and the entry value of `varyingProbability`.
- `nearest.dfy` (`Nearest`): the nearest-member lookup and the draw without
  replacement from a working copy.
- `points.dfy` (`Points`): the initial and the updated reference points.
- `arp.dfy` (`ARPModel`): class `ARP`, whose methods update its fields as
  the source does.

Most loops of the source become Dafny loops whose invariants tie their local
state to a specification function. The exceptions:

- the two loops over the `TreeMap` in `relevantObjectiveFunctions` are one
  insertion loop (`RankObjectives`);
- the loops that copy a solution or a reference point into a `Point` for
  the distance (ARP.java:217-231) have no counterpart, because the distance
  is taken on the vectors directly.

Each specification function's meaning (minimum, permutation, sortedness,
distinctness, nearest) is proved in separate lemmas.

## Model

Every source path below is
`jmetal-algorithm/src/main/java/org/uma/jmetal/algorithm/multiobjective/arp/ARP.java`.

| member | source | states |
|---|---|---|
| ARPModel.ARP.constructor | jmetal-algorithm/src/main/java/org/uma/jmetal/algorithm/multiobjective/arp/ARP.java:33-49 | Stores the parameters. A null or empty coefficient list becomes m entries of 1/m. The history starts empty. |
| Ranking.DefaultRankingCoefficients | jmetal-algorithm/src/main/java/org/uma/jmetal/algorithm/multiobjective/arp/ARP.java:52-57 | Returns exactly m coefficients, each equal to 1/m. |
| Ranking.DefaultCoefficientsSumToOne | jmetal-algorithm/src/main/java/org/uma/jmetal/algorithm/multiobjective/arp/ARP.java:52-57 | The default coefficients add up to one (for m > 0). |
| ARPModel.ARP.UpdateObjectiveVector | jmetal-algorithm/src/main/java/org/uma/jmetal/algorithm/multiobjective/arp/ARP.java:59-68 | Needs a non-empty list when there is an objective. The list ends up sorted by objectives 0..m-1 in turn, and is a permutation (same multiset) of what it was. Ideal and nadir are the values read in each round, and the aspiration vector is the ideal vector. |
| Objectives.IdealNadirAreExtremes | jmetal-algorithm/src/main/java/org/uma/jmetal/algorithm/multiobjective/arp/ARP.java:59-66 | For every objective k, the ideal entry is the minimum and the nadir entry the maximum of objective k over the list. Some member attains each, so ideal[k] <= s[k] <= nadir[k] for every member s. |
| Objectives.IdealEntry | jmetal-algorithm/src/main/java/org/uma/jmetal/algorithm/multiobjective/arp/ARP.java:60-64 | Ideal entry k is objective k of the first member after round k. |
| Objectives.NadirEntry | jmetal-algorithm/src/main/java/org/uma/jmetal/algorithm/multiobjective/arp/ARP.java:60-65 | Nadir entry k is objective k of the last member after round k. |
| Objectives.RoundEndsAreExtremes | jmetal-algorithm/src/main/java/org/uma/jmetal/algorithm/multiobjective/arp/ARP.java:61-63 | After round j, the first and last members hold the minimum and maximum of objective j over the original list. |
| Objectives.MinimumUnique | jmetal-algorithm/src/main/java/org/uma/jmetal/algorithm/multiobjective/arp/ARP.java:62 | Two minima of one objective over one list are equal. |
| Objectives.MaximumUnique | jmetal-algorithm/src/main/java/org/uma/jmetal/algorithm/multiobjective/arp/ARP.java:63 | Two maxima of one objective over one list are equal. |
| Objectives.IdealNadirExample | jmetal-algorithm/src/main/java/org/uma/jmetal/algorithm/multiobjective/arp/ARP.java:59-66 | Over the front (0,10), (5,5), (10,0) the ideal vector is (0,0) and the nadir vector is (10,10). |
| Objectives.InsertPermutes | jmetal-algorithm/src/main/java/org/uma/jmetal/algorithm/multiobjective/arp/ARP.java:61 | One insertion step of the sort adds exactly the inserted member (as a multiset). |
| Objectives.SortedByObjective | jmetal-algorithm/src/main/java/org/uma/jmetal/algorithm/multiobjective/arp/ARP.java:61 | The stable sort by objective j returns a list of the same length. SortedByObjectiveIsSorted and SortedByObjectivePermutes prove that it is ordered and a permutation. |
| Objectives.SortedByObjectivePermutes | jmetal-algorithm/src/main/java/org/uma/jmetal/algorithm/multiobjective/arp/ARP.java:61 | One sort by an objective is a permutation: the multiset of members is unchanged. |
| Objectives.SortedByObjectiveKeepsMembers | jmetal-algorithm/src/main/java/org/uma/jmetal/algorithm/multiobjective/arp/ARP.java:61 | One sort keeps exactly the same members. |
| Objectives.SortThroughKeepsMembers | jmetal-algorithm/src/main/java/org/uma/jmetal/algorithm/multiobjective/arp/ARP.java:60-61 | All m sorts together keep exactly the same members. |
| Objectives.SortThroughKeepsDimension | jmetal-algorithm/src/main/java/org/uma/jmetal/algorithm/multiobjective/arp/ARP.java:60-61 | Sorting keeps every member's number of objectives. |
| Objectives.InsertKeepsLowerBound | jmetal-algorithm/src/main/java/org/uma/jmetal/algorithm/multiobjective/arp/ARP.java:61 | An insertion keeps a common lower bound on the sort key. |
| Objectives.InsertSorted | jmetal-algorithm/src/main/java/org/uma/jmetal/algorithm/multiobjective/arp/ARP.java:61 | Inserting into a list sorted on objective j keeps it sorted on j. |
| Objectives.SortedByObjectiveIsSorted | jmetal-algorithm/src/main/java/org/uma/jmetal/algorithm/multiobjective/arp/ARP.java:61 | A sort by objective j orders the list ascending on j. |
| Objectives.SortThroughOrdersLast | jmetal-algorithm/src/main/java/org/uma/jmetal/algorithm/multiobjective/arp/ARP.java:60-61 | After the sorts, the list is a permutation of its input and is ordered by the last objective sorted. |
| Objectives.SortThroughPermutes | jmetal-algorithm/src/main/java/org/uma/jmetal/algorithm/multiobjective/arp/ARP.java:60-61 | All m sorts together are a permutation: the multiset of members is unchanged. |
| Objectives.SortedEndsAreExtremes | jmetal-algorithm/src/main/java/org/uma/jmetal/algorithm/multiobjective/arp/ARP.java:62-63 | In a list sorted on j with the same members as s, the ends hold the minimum and the maximum of j over s. |
| Objectives.SortThroughSingleton | jmetal-algorithm/src/main/java/org/uma/jmetal/algorithm/multiobjective/arp/ARP.java:75-77 | The sorts leave a one-member list as it is. |
| Objectives.IdealNadirOfSingleton | jmetal-algorithm/src/main/java/org/uma/jmetal/algorithm/multiobjective/arp/ARP.java:75-77 | Over one solution, the ideal and the nadir vectors are that solution's objectives. |
| Objectives.SqDistNonNegative | jmetal-algorithm/src/main/java/org/uma/jmetal/algorithm/multiobjective/arp/ARP.java:210-211 | The (squared) distance is never negative. |
| Objectives.SqDistSelf | jmetal-algorithm/src/main/java/org/uma/jmetal/algorithm/multiobjective/arp/ARP.java:210-211 | A point is at distance zero from itself. |
| ARPModel.ARP.RefreshFromSample | jmetal-algorithm/src/main/java/org/uma/jmetal/algorithm/multiobjective/arp/ARP.java:73-78 | After the refresh from one sampled solution, the ideal, nadir and aspiration vectors all equal that solution. |
| ARPModel.ARP.GeneratePreferenceInformation | jmetal-algorithm/src/main/java/org/uma/jmetal/algorithm/multiobjective/arp/ARP.java:71-95 | Returns the initial points drawn against the refreshed vectors, and every one equals the sample. The current reference point becomes the first point, and the history is extended by exactly these points. |
| ARPModel.ARP.DrawInitialPoints | jmetal-algorithm/src/main/java/org/uma/jmetal/algorithm/multiobjective/arp/ARP.java:79-91 | Builds, through its nested loops, exactly the points defined by `InitialPoints`. |
| Points.InitialPointEntry | jmetal-algorithm/src/main/java/org/uma/jmetal/algorithm/multiobjective/arp/ARP.java:82-88 | Coordinate j of an initial point is the aspiration value iff its draw is under the threshold, and the nadir value otherwise. |
| Points.InitialPointsEntry | jmetal-algorithm/src/main/java/org/uma/jmetal/algorithm/multiobjective/arp/ARP.java:80-90 | Initial point i is drawn from row i with threshold considerationProbability times coefficient i. |
| Points.InitialPointOfEqualVectors | jmetal-algorithm/src/main/java/org/uma/jmetal/algorithm/multiobjective/arp/ARP.java:82-88 | When the aspiration and nadir vectors agree, the draws make no difference to a point. |
| Points.InitialPointsOfEqualVectors | jmetal-algorithm/src/main/java/org/uma/jmetal/algorithm/multiobjective/arp/ARP.java:80-91 | When the aspiration and nadir vectors agree, every initial point is that vector. |
| ARPModel.ARP.IsStoppingConditionReached | jmetal-algorithm/src/main/java/org/uma/jmetal/algorithm/multiobjective/arp/ARP.java:98-100 | Stop iff evaluations >= maxEvaluations. |
| ARPModel.ARP.InitProgress | jmetal-algorithm/src/main/java/org/uma/jmetal/algorithm/multiobjective/arp/ARP.java:103-106 | Resets evaluations to 0 and varyingProbability to considerationProbability, and changes nothing else. |
| ARPModel.ARP.UpdateProgress | jmetal-algorithm/src/main/java/org/uma/jmetal/algorithm/multiobjective/arp/ARP.java:109-111 | Adds exactly one to evaluations, and changes nothing else. |
| ARPModel.ARP.RelevantObjectiveFunctions | jmetal-algorithm/src/main/java/org/uma/jmetal/algorithm/multiobjective/arp/ARP.java:114-139 | Sorts the caller's front (a permutation of it) and refreshes ideal, nadir and aspiration from it. Ranks the objectives and finds the last nearest member of the sorted front. Returns the relevant objectives of the scan, and leaves varyingProbability at the scan's final value. The result has no duplicates and only indices below the number of coefficients. |
| ARPModel.ARP.SelectRelevant | jmetal-algorithm/src/main/java/org/uma/jmetal/algorithm/multiobjective/arp/ARP.java:118-138 | The order used is the unique ranking, the solution is the last nearest member, and the result is the scan's relevant list without duplicates. |
| ARPModel.ARP.ScanObjectives | jmetal-algorithm/src/main/java/org/uma/jmetal/algorithm/multiobjective/arp/ARP.java:129-138 | Its loop computes exactly `ScanRelevance`'s relevant list and final varyingProbability. |
| Ranking.RankObjectives | jmetal-algorithm/src/main/java/org/uma/jmetal/algorithm/multiobjective/arp/ARP.java:118-127 | Returns a ranking: every index below the number of coefficients, by descending coefficient, with ties in ascending index. |
| Ranking.RankingIsPermutation | jmetal-algorithm/src/main/java/org/uma/jmetal/algorithm/multiobjective/arp/ARP.java:118-127 | A ranking holds 0..n-1, each exactly once. |
| Ranking.InsertKeepsRanking | jmetal-algorithm/src/main/java/org/uma/jmetal/algorithm/multiobjective/arp/ARP.java:119-123 | Placing a new index after every index whose coefficient is at least its own keeps the ranked order. |
| Ranking.RankedListsUnique | jmetal-algorithm/src/main/java/org/uma/jmetal/algorithm/multiobjective/arp/ARP.java:124-127 | Two ranked lists with the same members are equal. |
| Ranking.HeadComesFirst | jmetal-algorithm/src/main/java/org/uma/jmetal/algorithm/multiobjective/arp/ARP.java:124-127 | The head of a ranked list is ranked before every other member. |
| Ranking.RankingUnique | jmetal-algorithm/src/main/java/org/uma/jmetal/algorithm/multiobjective/arp/ARP.java:118-127 | A coefficient list has exactly one ranking, so the order is deterministic. |
| Ranking.UniformRankingIsIndexOrder | jmetal-algorithm/src/main/java/org/uma/jmetal/algorithm/multiobjective/arp/ARP.java:118-127 | With equal coefficients (such as the default 1/m), the ranking is 0, 1, ..., n-1. |
| Relevance.Decay | jmetal-algorithm/src/main/java/org/uma/jmetal/algorithm/multiobjective/arp/ARP.java:137 | The decay leaves the probability unchanged when nothing is relevant yet, and at objective 0, where the source divides by zero. |
| Relevance.ScanRelevance | jmetal-algorithm/src/main/java/org/uma/jmetal/algorithm/multiobjective/arp/ARP.java:129-138 | The loop over the ranked objectives records one test per ranked objective. Every relevant objective is a ranked one, and there are no more of them than ranked ones. |
| Relevance.ScanRelevanceStep | jmetal-algorithm/src/main/java/org/uma/jmetal/algorithm/multiobjective/arp/ARP.java:129-137 | One more loop step tests the next ranked objective with its draw, appends it if the test fires, then decays the probability. |
| Relevance.ScanSelects | jmetal-algorithm/src/main/java/org/uma/jmetal/algorithm/multiobjective/arp/ARP.java:129-136 | The relevant list is the subsequence of the ranking whose tests fired. |
| Relevance.KeepRecordsTest | jmetal-algorithm/src/main/java/org/uma/jmetal/algorithm/multiobjective/arp/ARP.java:130-136 | The test at position p combines the tolerance test with the consideration draw, or the draw against the probability current at that step. |
| Relevance.SelectMembers | jmetal-algorithm/src/main/java/org/uma/jmetal/algorithm/multiobjective/arp/ARP.java:133-135 | Only ranked objectives are selected. |
| Relevance.SelectDistinct | jmetal-algorithm/src/main/java/org/uma/jmetal/algorithm/multiobjective/arp/ARP.java:133-135 | Selecting from a list without repetitions gives no repetitions. |
| Relevance.SelectedIffKept | jmetal-algorithm/src/main/java/org/uma/jmetal/algorithm/multiobjective/arp/ARP.java:133-135 | A member is selected iff its flag is set. |
| Relevance.RelevantIffFired | jmetal-algorithm/src/main/java/org/uma/jmetal/algorithm/multiobjective/arp/ARP.java:130-136 | Objective order[p] is relevant iff its test at position p fired. |
| Relevance.RelevantWellFormed | jmetal-algorithm/src/main/java/org/uma/jmetal/algorithm/multiobjective/arp/ARP.java:129-139 | Over a ranking, the relevant objectives have no duplicates and lie below the number of coefficients. |
| Relevance.NothingRelevantKeepsVarying | jmetal-algorithm/src/main/java/org/uma/jmetal/algorithm/multiobjective/arp/ARP.java:137 | If no objective becomes relevant, varyingProbability ends where it started. |
| Relevance.ZeroVaryingStaysZero | jmetal-algorithm/src/main/java/org/uma/jmetal/algorithm/multiobjective/arp/ARP.java:137 | A varyingProbability of zero stays zero through the loop. |
| Nearest.GetSolution | jmetal-algorithm/src/main/java/org/uma/jmetal/algorithm/multiobjective/arp/ARP.java:205-216 | Needs a non-empty front. Returns a member at minimal distance from the point, and every later member is strictly farther (the last equal one wins). |
| Nearest.LastNearestUnique | jmetal-algorithm/src/main/java/org/uma/jmetal/algorithm/multiobjective/arp/ARP.java:208-214 | At most one position meets the last-nearest rule, so the lookup is deterministic. |
| Nearest.NearestOfPresentPoint | jmetal-algorithm/src/main/java/org/uma/jmetal/algorithm/multiobjective/arp/ARP.java:205-216 | If the point is itself a member, the result is at distance zero and at or after that member. |
| Nearest.WorkingCopyStart | jmetal-algorithm/src/main/java/org/uma/jmetal/algorithm/multiobjective/arp/ARP.java:146 | The copy of the front is a working copy from which nothing is drawn. |
| Nearest.RemovePosition | jmetal-algorithm/src/main/java/org/uma/jmetal/algorithm/multiobjective/arp/ARP.java:149 | Dropping one entry of the increasing list of unused positions marks exactly that position as used. |
| Nearest.WorkingCopyRemove | jmetal-algorithm/src/main/java/org/uma/jmetal/algorithm/multiobjective/arp/ARP.java:148-149 | Removing the member at index k from the working copy records its front position as drawn and keeps the copy consistent. |
| Nearest.WorkingCopyDimension | jmetal-algorithm/src/main/java/org/uma/jmetal/algorithm/multiobjective/arp/ARP.java:146-149 | Every member of the working copy has m objectives, as every member of the front does. |
| Nearest.NearestAmongRemaining | jmetal-algorithm/src/main/java/org/uma/jmetal/algorithm/multiobjective/arp/ARP.java:148 | The nearest member within the working copy is the last nearest member of the front among the positions not yet drawn. |
| Nearest.ElementsAppend | jmetal-algorithm/src/main/java/org/uma/jmetal/algorithm/multiobjective/arp/ARP.java:149 | Drawing one more position adds exactly it to the drawn set. |
| Nearest.DrawnInOrderExtend | jmetal-algorithm/src/main/java/org/uma/jmetal/algorithm/multiobjective/arp/ARP.java:147-149 | Drawing the last nearest undrawn member extends an in-order draw. |
| Nearest.DrawnInOrderStep | jmetal-algorithm/src/main/java/org/uma/jmetal/algorithm/multiobjective/arp/ARP.java:147-149 | Draw t is the last nearest member among those not drawn before it. |
| Nearest.DrawnInOrderDistinct | jmetal-algorithm/src/main/java/org/uma/jmetal/algorithm/multiobjective/arp/ARP.java:147-149 | No position is drawn twice. |
| Nearest.DrawnInOrderUnique | jmetal-algorithm/src/main/java/org/uma/jmetal/algorithm/multiobjective/arp/ARP.java:147-149 | Two in-order draws of the same length are equal, so the drawing is deterministic. |
| ARPModel.ARP.CalculateReferencePoints | jmetal-algorithm/src/main/java/org/uma/jmetal/algorithm/multiobjective/arp/ARP.java:142-169 | Needs at least numberReferencePoints members. The positions drawn are an in-order draw from the front. The result is the new points of those positions. The current reference point becomes the first new point, and the history grows by exactly the result. The caller's front is a value and is not changed. |
| ARPModel.ARP.DrawReferencePoints | jmetal-algorithm/src/main/java/org/uma/jmetal/algorithm/multiobjective/arp/ARP.java:145-165 | The loop draws numberReferencePoints positions in order and makes exactly `NewPoints` of them. |
| ARPModel.ARP.DrawOne | jmetal-algorithm/src/main/java/org/uma/jmetal/algorithm/multiobjective/arp/ARP.java:148-164 | One turn of the loop: the working copy loses one member, the draw grows by the last nearest undrawn position, and the result grows by its point. |
| ARPModel.ARP.BuildReferencePoint | jmetal-algorithm/src/main/java/org/uma/jmetal/algorithm/multiobjective/arp/ARP.java:153-163 | Its loop builds exactly the updated point of the solution. |
| ARPModel.ARP.Prediction | jmetal-algorithm/src/main/java/org/uma/jmetal/algorithm/multiobjective/arp/ARP.java:188-194 | The prediction is the current reference point's coordinate, whatever the archive and the solution. |
| Points.Midway | jmetal-algorithm/src/main/java/org/uma/jmetal/algorithm/multiobjective/arp/ARP.java:156-157 | The value asp - (asp - s)/2 is the mean of the two, lies between them, and equals asp iff s == asp. |
| Points.UpdatedPointEntry | jmetal-algorithm/src/main/java/org/uma/jmetal/algorithm/multiobjective/arp/ARP.java:154-161 | A relevant coordinate is the midway value between aspiration and solution. Any other coordinate is the current reference point's. |
| Points.NothingRelevantKeepsPoint | jmetal-algorithm/src/main/java/org/uma/jmetal/algorithm/multiobjective/arp/ARP.java:154-161 | With no relevant objective, the updated point is the current reference point. |
| Points.NewPoint | jmetal-algorithm/src/main/java/org/uma/jmetal/algorithm/multiobjective/arp/ARP.java:150-163 | The point made of one drawn solution has m coordinates. When all m objectives are relevant, coordinate i is the solution's (getReferencePointFromSolution, ARP.java:170-174). Otherwise a relevant coordinate is the midway value and any other is the current reference point's. |
| Points.UpdatedPointEntries | jmetal-algorithm/src/main/java/org/uma/jmetal/algorithm/multiobjective/arp/ARP.java:153-161 | Every coordinate of the updated point at once: midway for relevant objectives, the current reference point's otherwise. |
| Points.NewPointsEntry | jmetal-algorithm/src/main/java/org/uma/jmetal/algorithm/multiobjective/arp/ARP.java:150-163 | New point t is made of the member drawn at turn t: a copy when every objective is relevant, the updated point otherwise. |
| Points.NewPointsExtend | jmetal-algorithm/src/main/java/org/uma/jmetal/algorithm/multiobjective/arp/ARP.java:150-163 | One more draw appends exactly the point of its member. |
| Points.NewPointsDimension | jmetal-algorithm/src/main/java/org/uma/jmetal/algorithm/multiobjective/arp/ARP.java:150-163 | Every new point has one value per objective. |
| Points.AllRelevantIffFullSize | jmetal-algorithm/src/main/java/org/uma/jmetal/algorithm/multiobjective/arp/ARP.java:150 | For distinct indices below m, the test `size == numberOfObjectives` holds iff every objective is relevant. |
| ARPModel.ARP.UpdateParetoOptimal | jmetal-algorithm/src/main/java/org/uma/jmetal/algorithm/multiobjective/arp/ARP.java:196-198 | The archive becomes its old contents followed by the whole front. |
| ARPModel.ARP.GetReferencePoints | jmetal-algorithm/src/main/java/org/uma/jmetal/algorithm/multiobjective/arp/ARP.java:200-203 | Returns the history, in which every point has one value per objective. |

## Left out

- Random draws: `JMetalRandom.nextDouble` is replaced by explicit draw
  sequences passed as parameters.
  - `generatePreferenceInformation` takes one row per point.
  - `relevantObjectiveFunctions` takes one draw per ranked position.
  - Their range [0,1) is not required, since no property needs it.
- Floating point: objective values are mathematical reals, so IEEE rounding,
  NaN and infinities are not modelled.
- Euclidean distance: `getSolution` compares squared distances. This gives
  the same nearest member, but the square root is not modelled.
- Distance keys: the `TreeMap` keyed by `Double` is modelled by its effect,
  where the last member at the minimal distance wins. NaN keys and the
  distinction between -0.0 and 0.0 are not modelled.
- Relevance.Decay: at objective index 0, the source's decay divides by zero.
  In Java doubles this turns varyingProbability into an infinity or NaN. The
  model leaves the probability unchanged at index 0 instead, and the
  properties of the scan are stated for this guarded decay.
- DecisionTreeEstimator and Weka: the estimator that `prediction` builds is
  not modelled, because its result is discarded.
  `DecisionTreeEstimator.java` is not part of this model.
- Framework: the `AutomaticReferencePoint`/`InteractiveAlgorithm` base class
  that calls these methods is not modelled. `Problem.createSolution` becomes
  the `sample` parameter.
- Point classes: `IdealPoint`, `NadirPoint` and `ReferencePoint` become
  `seq<real>`.
  - In `updateObjectiveVector` and `generatePreferenceInformation`, the
    initial values are not modelled, because every coordinate is set before
    it is read.
  - `getReferencePointFromSolution` (ARP.java:170-174) is different:
    `result.update(solution)` combines each coordinate of a fresh
    `IdealPoint` with the solution's value. The model takes the result to be
    a copy of the solution's objectives. That holds on the assumption that a
    fresh `IdealPoint` starts at +infinity in every coordinate, so that the
    update keeps the solution's value. `IdealPoint.java` is not part of this
    model.
  - Vectors are built by appending coordinates, not by `setObjective` on a
    pre-sized object.
- Aliasing: `asp = idealOjectiveVector` makes the two one object. The model
  keeps two fields and states `asp == ideal` wherever the source makes them
  aliases.
- Removal: `temporal.remove(solution)` removes by `equals`. The model
  removes the drawn index, which is the same when solutions are compared by
  identity.
- Objectives.SortedByObjective: stability (members with equal values keep
  their order) is built into the definition, since `Insert` places a member
  after every member with an equal value. It is not stated as a separate
  lemma.
- Commented-out code: `calculateComponentReferencePoint` and the two-argument
  `prediction` are not modelled.
- Java `int` overflow of `evaluations` is not modelled.
- Null coefficient list: it is modelled as the empty list, which the
  constructor treats the same way.
- Objective access: the sort key of a member lacking objective j is 0.0.
  Every list the model sorts has all objectives, so the fallback only keeps
  the sort functions total.
- Empty fronts: `updateObjectiveVector` only touches the list when there is
  at least one objective. So an empty list with zero objectives is accepted
  here, as in the code.
- Runtime exceptions of the source are not modelled as error results. They
  are excluded by preconditions that stand for them:
  - with at least one objective, an empty list makes `get(0)` at
    ARP.java:62 throw (`UpdateObjectiveVector` requires a non-empty list when
    m > 0);
  - `getSolution` reads `front.get(0)` at ARP.java:206 (`GetSolution` and
    `RelevantObjectiveFunctions` require a non-empty front);
  - `result.get(0)` at ARP.java:92 and ARP.java:166 throws when no point is
    made (`GeneratePreferenceInformation`, `CalculateReferencePoints` and
    `DrawReferencePoints` require 0 < numberReferencePoints);
  - `temporal` runs out when more points are asked for than the front has
    members (`CalculateReferencePoints` requires numberReferencePoints <=
    |front|);
  - `asp.getObjective(i)` at ARP.java:131 throws for a coefficient position
    i past the last objective (`RelevantObjectiveFunctions` and
    `SelectRelevant` require |rankingCoefficient| <= numberOfObjectives);
  - `ObjectiveComparator`, `EuclideanDistance` and `getObjective` throw on
    vectors of the wrong length (the `Dimension` preconditions require every
    solution to have exactly numberOfObjectives values).
- Positions and coefficients: `generatePreferenceInformation` indexes the
  coefficients by point number, as the code does, so it needs at least
  numberReferencePoints coefficients.
