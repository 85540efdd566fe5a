/** The ARP (automatic reference point) preference model: the state an ARP
    object keeps between the iterations of the interactive algorithm it
    drives, and the operations the driver calls on it. */
module ARPModel {
  import opened Objectives
  import opened Nearest
  import opened Ranking
  import opened Relevance
  import opened Points

  class ARP {
    const numberOfObjectives: nat
    const considerationProbability: real
    const tolerance: real
    const maxEvaluations: int
    const rankingCoefficient: seq<real>
    const numberReferencePoints: int

    /** The ideal, nadir and aspiration vectors, and the current reference
        point; `[]` stands for the null they hold until the first call of
        GeneratePreferenceInformation. */
    var ideal: Vector
    var nadir: Vector
    var asp: Vector
    var currentReferencePoint: Vector
    var varyingProbability: real
    var evaluations: int
    /** Every reference point produced so far, oldest first. */
    var allReferencePoints: seq<Vector>

    /** GeneratePreferenceInformation has run: the history holds its points. */
    ghost predicate Generated()
      reads this
    {
      allReferencePoints != []
    }

    /** Every point of the history has one value per objective, and once the
        vectors exist they have one value per objective and the aspiration
        vector is the ideal vector (the source makes `asp` an alias of it). */
    ghost predicate Valid()
      reads this
    {
      Dimension(allReferencePoints, numberOfObjectives) &&
      (Generated() ==>
        |ideal| == numberOfObjectives && |nadir| == numberOfObjectives &&
        asp == ideal && |currentReferencePoint| == numberOfObjectives)
    }

    /** The constructor. A null or empty coefficient list (both written `[]`
        here) is replaced by the default uniform coefficients. */
    constructor (numberOfObjectives: nat, considerationProbability: real, tolerance: real,
                 maxEvaluations: int, rankingCoefficient: seq<real>, numberReferencePoints: int)
      ensures Valid() && !Generated()
      ensures this.numberOfObjectives == numberOfObjectives
      ensures this.considerationProbability == considerationProbability
      ensures this.tolerance == tolerance
      ensures this.maxEvaluations == maxEvaluations
      ensures this.numberReferencePoints == numberReferencePoints
      ensures rankingCoefficient != [] ==> this.rankingCoefficient == rankingCoefficient
      ensures rankingCoefficient == [] ==>
        |this.rankingCoefficient| == numberOfObjectives &&
        forall i :: 0 <= i < numberOfObjectives ==>
          this.rankingCoefficient[i] == 1.0 / (numberOfObjectives as real)
      ensures ideal == [] && nadir == [] && asp == [] && currentReferencePoint == []
      ensures evaluations == 0 && varyingProbability == 0.0
    {
      this.numberOfObjectives := numberOfObjectives;
      this.considerationProbability := considerationProbability;
      this.tolerance := tolerance;
      this.maxEvaluations := maxEvaluations;
      if rankingCoefficient == [] {
        var uniform := DefaultRankingCoefficients(numberOfObjectives);
        this.rankingCoefficient := uniform;
      } else {
        this.rankingCoefficient := rankingCoefficient;
      }
      this.numberReferencePoints := numberReferencePoints;
      ideal, nadir, asp, currentReferencePoint := [], [], [], [];
      varyingProbability, evaluations := 0.0, 0;
      allReferencePoints := [];
    }

    /** updateObjectiveVector: sorts the caller's list by each objective in
        turn, recording the first value as the ideal and the last as the nadir
        value of that objective, and makes the aspiration vector the ideal.
        IdealNadirAreExtremes says what these values are. */
    method UpdateObjectiveVector(solutions: SolutionList)
      requires Dimension(solutions.items, numberOfObjectives)
      requires numberOfObjectives > 0 ==> |solutions.items| > 0
      modifies this`ideal, this`nadir, this`asp, solutions
      ensures solutions.items == SortThrough(old(solutions.items), numberOfObjectives)
      ensures multiset(solutions.items) == multiset(old(solutions.items))
      ensures ideal == Ideal(old(solutions.items), numberOfObjectives)
      ensures nadir == Nadir(old(solutions.items), numberOfObjectives)
      ensures asp == ideal
    {
      ghost var s0 := solutions.items;
      var items, lowest, highest := solutions.items, [], [];
      for j := 0 to numberOfObjectives
        invariant items == SortThrough(s0, j)
        invariant lowest == Ideal(s0, j) && highest == Nadir(s0, j)
      {
        items := SortedByObjective(items, j);
        SortedEndsHaveDimension(items, s0, j + 1, numberOfObjectives);
        lowest := lowest + [items[0][j]];
        highest := highest + [items[|items| - 1][j]];
      }
      SortThroughPermutes(s0, numberOfObjectives);
      solutions.items := items;
      ideal, nadir := lowest, highest;
      asp := ideal;
    }

    /** The first step of generatePreferenceInformation: the ideal and nadir
        vectors are refreshed from a list holding one new solution `sample`,
        so both are that solution, and so is the aspiration vector. */
    method RefreshFromSample(sample: Vector)
      requires |sample| == numberOfObjectives
      modifies this`ideal, this`nadir, this`asp
      ensures ideal == sample && nadir == sample && asp == sample
    {
      var solutions := new SolutionList([sample]);
      UpdateObjectiveVector(solutions);
      asp := ideal;
      IdealNadirOfSingleton(sample, numberOfObjectives);
      assert sample[..numberOfObjectives] == sample;
    }

    /** generatePreferenceInformation: the ideal and nadir vectors of a single
        new solution `sample`, then `numberReferencePoints` points whose
        coordinate j of point i is the aspiration value when the draw
        `draws[i][j]` is under considerationProbability times the coefficient
        of position i, and the nadir value otherwise. Over one solution the
        aspiration and nadir vectors coincide, so every point is `sample`. */
    method GeneratePreferenceInformation(sample: Vector, draws: seq<seq<real>>) returns (points: seq<Vector>)
      requires Valid()
      requires |sample| == numberOfObjectives
      requires 0 < numberReferencePoints <= |rankingCoefficient|
      requires |draws| == numberReferencePoints && Dimension(draws, numberOfObjectives)
      modifies this`ideal, this`nadir, this`asp, this`currentReferencePoint, this`allReferencePoints
      ensures Valid() && Generated()
      ensures ideal == sample && nadir == sample && asp == sample
      ensures points == InitialPoints(draws, considerationProbability, rankingCoefficient,
                                      asp, nadir, numberOfObjectives, numberReferencePoints)
      ensures forall i :: 0 <= i < |points| ==> points[i] == sample
      ensures currentReferencePoint == points[0]
      ensures allReferencePoints == old(allReferencePoints) + points
    {
      RefreshFromSample(sample);
      points := DrawInitialPoints(draws);
      InitialPointsOfEqualVectors(draws, considerationProbability, rankingCoefficient,
                                  sample, numberOfObjectives, numberReferencePoints);
      assert sample[..numberOfObjectives] == sample;
      DimensionAppend(allReferencePoints, points, numberOfObjectives);
      currentReferencePoint := points[0];
      allReferencePoints := allReferencePoints + points;
    }

    /** The nested loops of generatePreferenceInformation, which leave the
        object as it is: point i takes, objective by objective, the
        aspiration value when the draw is under considerationProbability
        times the coefficient of position i, and the nadir value otherwise. */
    method DrawInitialPoints(draws: seq<seq<real>>) returns (points: seq<Vector>)
      requires |asp| == numberOfObjectives && |nadir| == numberOfObjectives
      requires numberReferencePoints <= |rankingCoefficient|
      requires |draws| == numberReferencePoints && Dimension(draws, numberOfObjectives)
      ensures points == InitialPoints(draws, considerationProbability, rankingCoefficient,
                                      asp, nadir, numberOfObjectives, numberReferencePoints)
    {
      points := [];
      for i := 0 to numberReferencePoints
        invariant points == InitialPoints(draws, considerationProbability, rankingCoefficient,
                                          asp, nadir, numberOfObjectives, i)
      {
        var threshold := considerationProbability * rankingCoefficient[i];
        assert draws[i] in draws;
        var point := [];
        for j := 0 to numberOfObjectives
          invariant point == InitialPoint(draws[i], threshold, asp, nadir, j)
        {
          var rand := draws[i][j];
          if rand < threshold {
            point := point + [asp[j]];
          } else {
            point := point + [nadir[j]];
          }
        }
        assert InitialPoints(draws, considerationProbability, rankingCoefficient,
                             asp, nadir, numberOfObjectives, i + 1) == points + [point];
        points := points + [point];
      }
    }

    /** isStoppingConditionReached. */
    method IsStoppingConditionReached() returns (done: bool)
      ensures done <==> evaluations >= maxEvaluations
    {
      done := evaluations >= maxEvaluations;
    }

    /** initProgress: the only place where varyingProbability is reset. */
    method InitProgress()
      modifies this`evaluations, this`varyingProbability
      ensures evaluations == 0 && varyingProbability == considerationProbability
    {
      evaluations := 0;
      varyingProbability := considerationProbability;
    }

    /** updateProgress. */
    method UpdateProgress()
      modifies this`evaluations
      ensures evaluations == old(evaluations) + 1
    {
      evaluations := evaluations + 1;
    }

    /** relevantObjectiveFunctions: refreshes the ideal and nadir vectors from
        `front` (sorting it in place), then selects the relevant objectives
        against the sorted front. The ranking and the nearest position are
        returned as ghost results so that the contract can name them. */
    method RelevantObjectiveFunctions(front: SolutionList, draws: seq<real>)
      returns (relevant: seq<nat>, ghost order: seq<nat>, ghost nearest: nat)
      requires Valid() && Generated()
      requires |rankingCoefficient| <= numberOfObjectives
      requires |draws| == |rankingCoefficient|
      requires Dimension(front.items, numberOfObjectives) && |front.items| > 0
      modifies this`ideal, this`nadir, this`asp, this`varyingProbability, front
      ensures Valid()
      ensures front.items == SortThrough(old(front.items), numberOfObjectives)
      ensures multiset(front.items) == multiset(old(front.items))
      ensures ideal == Ideal(old(front.items), numberOfObjectives)
      ensures nadir == Nadir(old(front.items), numberOfObjectives)
      ensures Dimension(front.items, numberOfObjectives)
      ensures IsRanking(rankingCoefficient, order)
      ensures IsLastNearestAmong(front.items, currentReferencePoint, {}, nearest)
      ensures var r := ScanRelevance(order, draws, asp, front.items[nearest],
                                     tolerance, considerationProbability, old(varyingProbability));
        relevant == r.relevant && varyingProbability == r.varying
      ensures Distinct(relevant) && forall x :: x in relevant ==> x < |rankingCoefficient|
    {
      UpdateObjectiveVector(front);
      SortThroughKeepsDimension(old(front.items), numberOfObjectives, numberOfObjectives);
      relevant, order, nearest := SelectRelevant(front.items, draws);
    }

    /** The selection part of relevantObjectiveFunctions: ranks the objectives
        by coefficient, finds the member of `front` nearest to the current
        reference point, and tests the objectives in ranked order. */
    method SelectRelevant(front: seq<Vector>, draws: seq<real>)
      returns (relevant: seq<nat>, ghost order: seq<nat>, ghost nearest: nat)
      requires |asp| == numberOfObjectives && |currentReferencePoint| == numberOfObjectives
      requires |rankingCoefficient| <= numberOfObjectives
      requires |draws| == |rankingCoefficient|
      requires Dimension(front, numberOfObjectives) && |front| > 0
      modifies this`varyingProbability
      ensures IsRanking(rankingCoefficient, order)
      ensures IsLastNearestAmong(front, currentReferencePoint, {}, nearest)
      ensures var r := ScanRelevance(order, draws, asp, front[nearest],
                                     tolerance, considerationProbability, old(varyingProbability));
        relevant == r.relevant && varyingProbability == r.varying
      ensures Distinct(relevant) && forall x :: x in relevant ==> x < |rankingCoefficient|
    {
      var ranked := RankObjectives(rankingCoefficient);
      order := ranked;
      RankingIsPermutation(rankingCoefficient, ranked);
      var k := GetSolution(front, currentReferencePoint);
      nearest := k;
      assert front[k] in front;
      ghost var v0 := varyingProbability;
      relevant := ScanObjectives(ranked, draws, front[k]);
      RelevantWellFormed(rankingCoefficient, ranked, draws, asp, front[k],
                         tolerance, considerationProbability, v0);
    }

    /** The loop of relevantObjectiveFunctions over the ranked objectives
        `order`: objective `order[t]` is tested with the draw `draws[t]`
        against the nearest solution, and varyingProbability decays after
        each test. */
    method ScanObjectives(order: seq<nat>, draws: seq<real>, solution: Vector) returns (relevant: seq<nat>)
      requires |draws| == |order|
      requires forall p :: 0 <= p < |order| ==> order[p] < |asp| && order[p] < |solution|
      modifies this`varyingProbability
      ensures var r := ScanRelevance(order, draws, asp, solution,
                                     tolerance, considerationProbability, old(varyingProbability));
        relevant == r.relevant && varyingProbability == r.varying
    {
      var a, v0 := asp, varyingProbability;
      var varying := varyingProbability;
      relevant := [];
      for t := 0 to |order|
        invariant relevant == ScanRelevance(order[..t], draws[..t], a, solution,
                                            tolerance, considerationProbability, v0).relevant
        invariant varying == ScanRelevance(order[..t], draws[..t], a, solution,
                                           tolerance, considerationProbability, v0).varying
      {
        var i := order[t];
        var rand := draws[t];
        ScanRelevanceStep(order, draws, a, solution, tolerance, considerationProbability, v0, t);
        if a[i] - solution[i] < tolerance && rand < considerationProbability {
          relevant := relevant + [i];
        } else if rand < varying {
          relevant := relevant + [i];
        }
        varying := Decay(varying, i, |relevant|);
      }
      assert order[..|order|] == order && draws[..|order|] == draws;
      varyingProbability := varying;
    }

    /** prediction: builds an estimator over the archive but returns the
        current reference point's own coordinate. */
    function Prediction(index: nat, paretoOptimal: seq<Vector>, solution: Vector): (r: real)
      reads this
      requires index < |currentReferencePoint|
      ensures r == currentReferencePoint[index]
    {
      currentReferencePoint[index]
    }

    /** The point built for one chosen solution when not every objective is
        relevant: a relevant coordinate moves half-way from the aspiration
        value towards the solution, the others are predicted. */
    method BuildReferencePoint(relevant: seq<nat>, solution: Vector, paretoOptimal: seq<Vector>)
      returns (point: Vector)
      requires |asp| == numberOfObjectives && |currentReferencePoint| == numberOfObjectives
      requires |solution| == numberOfObjectives
      ensures point == UpdatedPoint(relevant, solution, asp, currentReferencePoint, numberOfObjectives)
    {
      point := [];
      for i := 0 to numberOfObjectives
        invariant point == UpdatedPoint(relevant, solution, asp, currentReferencePoint, i)
      {
        if i in relevant {
          point := point + [Midway(asp[i], solution[i])];
        } else {
          point := point + [Prediction(i, paretoOptimal, solution)];
        }
      }
    }

    /** calculateReferencePoints: draws `numberReferencePoints` solutions
        without replacement from a working copy of `front`, each the one
        nearest to the current reference point among those left, makes a new
        point of each, and makes the first of them the current reference
        point. The positions in `front` of the drawn solutions are returned
        as a ghost result; DrawnInOrderStep, DrawnInOrderDistinct and
        NewPointsEntry say what they and the points are. */
    method CalculateReferencePoints(relevant: seq<nat>, front: seq<Vector>, paretoOptimal: seq<Vector>)
      returns (result: seq<Vector>, ghost chosen: seq<nat>)
      requires Valid() && Generated()
      requires Dimension(front, numberOfObjectives)
      requires 0 < numberReferencePoints <= |front|
      modifies this`currentReferencePoint, this`allReferencePoints
      ensures Valid()
      ensures |chosen| == numberReferencePoints
      ensures DrawnInOrder(front, old(currentReferencePoint), chosen)
      ensures forall t :: 0 <= t < |chosen| ==> chosen[t] < |front|
      ensures result == NewPoints(relevant, front, chosen, asp, old(currentReferencePoint), numberOfObjectives)
      ensures currentReferencePoint == result[0]
      ensures allReferencePoints == old(allReferencePoints) + result
    {
      result, chosen := DrawReferencePoints(relevant, front, paretoOptimal);
      NewPointsDimension(relevant, front, chosen, asp, currentReferencePoint, numberOfObjectives);
      DimensionAppend(allReferencePoints, result, numberOfObjectives);
      currentReferencePoint := result[0];
      allReferencePoints := allReferencePoints + result;
    }

    /** The loop of calculateReferencePoints, which leaves the object as it
        is: the working copy `temporal` of `front` loses each drawn solution,
        and `pos` (ghost) follows the positions in `front` of the solutions
        still in it. */
    method DrawReferencePoints(relevant: seq<nat>, front: seq<Vector>, paretoOptimal: seq<Vector>)
      returns (result: seq<Vector>, ghost chosen: seq<nat>)
      requires |asp| == numberOfObjectives && |currentReferencePoint| == numberOfObjectives
      requires Dimension(front, numberOfObjectives)
      requires 0 < numberReferencePoints <= |front|
      ensures |result| == |chosen| == numberReferencePoints
      ensures DrawnInOrder(front, currentReferencePoint, chosen)
      ensures forall t :: 0 <= t < |chosen| ==> chosen[t] < |front|
      ensures result == NewPoints(relevant, front, chosen, asp, currentReferencePoint, numberOfObjectives)
    {
      var temporal := front;
      ghost var pos: seq<nat> := seq(|front|, q => q);
      WorkingCopyStart(front);
      result, chosen := [], [];
      for n := 0 to numberReferencePoints
        invariant |temporal| == |front| - n && |chosen| == n
        invariant WorkingCopy(front, temporal, pos, Elements(chosen))
        invariant DrawnInOrder(front, currentReferencePoint, chosen)
        invariant forall t :: 0 <= t < |chosen| ==> chosen[t] < |front|
        invariant result == NewPoints(relevant, front, chosen, asp, currentReferencePoint, numberOfObjectives)
      {
        temporal, pos, chosen, result := DrawOne(relevant, front, paretoOptimal, temporal, pos, chosen, result);
      }
    }

    /** One turn of the loop of calculateReferencePoints: the solution of the
        working copy nearest to the current reference point is removed from
        it and a new point is made of it. */
    method DrawOne(relevant: seq<nat>, front: seq<Vector>, paretoOptimal: seq<Vector>,
                   temporal: seq<Vector>, ghost pos: seq<nat>, ghost chosen: seq<nat>, result: seq<Vector>)
      returns (temporal': seq<Vector>, ghost pos': seq<nat>, ghost chosen': seq<nat>, result': seq<Vector>)
      requires |asp| == numberOfObjectives && |currentReferencePoint| == numberOfObjectives
      requires Dimension(front, numberOfObjectives) && |temporal| > 0
      requires WorkingCopy(front, temporal, pos, Elements(chosen))
      requires DrawnInOrder(front, currentReferencePoint, chosen)
      requires forall t :: 0 <= t < |chosen| ==> chosen[t] < |front|
      requires result == NewPoints(relevant, front, chosen, asp, currentReferencePoint, numberOfObjectives)
      ensures |temporal'| == |temporal| - 1 && |chosen'| == |chosen| + 1
      ensures WorkingCopy(front, temporal', pos', Elements(chosen'))
      ensures DrawnInOrder(front, currentReferencePoint, chosen')
      ensures forall t :: 0 <= t < |chosen'| ==> chosen'[t] < |front|
      ensures result' == NewPoints(relevant, front, chosen', asp, currentReferencePoint, numberOfObjectives)
    {
      var ref := currentReferencePoint;
      WorkingCopyDimension(front, temporal, pos, Elements(chosen), numberOfObjectives);
      var k := GetSolution(temporal, ref);
      NearestAmongRemaining(front, ref, Elements(chosen), temporal, pos, k);
      var solution := temporal[k];
      ghost var c := pos[k];
      WorkingCopyRemove(front, temporal, pos, chosen, k);
      DrawnInOrderExtend(front, ref, chosen, c);
      NewPointsExtend(relevant, front, chosen, asp, ref, numberOfObjectives, c);
      temporal' := temporal[..k] + temporal[k + 1..];
      pos' := pos[..k] + pos[k + 1..];
      chosen' := chosen + [c];
      var point;
      if |relevant| == numberOfObjectives {
        point := solution;
      } else {
        point := BuildReferencePoint(relevant, solution, paretoOptimal);
      }
      result' := result + [point];
    }

    /** updateParetoOptimal: appends the whole front to the caller's archive. */
    method UpdateParetoOptimal(front: seq<Vector>, archive: SolutionList)
      modifies archive
      ensures archive.items == old(archive.items) + front
    {
      archive.items := archive.items + front;
    }

    /** getReferencePoints: the history of reference points, each with one
        value per objective. */
    method GetReferencePoints() returns (points: seq<Vector>)
      requires Valid()
      ensures points == allReferencePoints
      ensures Dimension(points, numberOfObjectives)
    {
      points := allReferencePoints;
    }
  }
}
