/** The arithmetic of one reference-point coordinate and the facts about the
    list of relevant objectives that calculateReferencePoints relies on. */
module Points {
  import opened Objectives
  import opened Ranking

  /** A relevant coordinate of a new reference point: the aspiration value
      moved half-way towards the chosen solution's value. */
  function Midway(aspValue: real, solValue: real): (r: real)
    ensures r == (aspValue + solValue) / 2.0
    ensures aspValue <= solValue ==> aspValue <= r <= solValue
    ensures solValue <= aspValue ==> solValue <= r <= aspValue
    ensures r == aspValue <==> aspValue == solValue
  {
    aspValue - (aspValue - solValue) / 2.0
  }

  /** The first `n` coordinates of point `i` of generatePreferenceInformation,
      for the draws `row` of that point: coordinate j is the aspiration value
      when its draw is under `threshold` (considerationProbability times the
      coefficient of position i), and the nadir value otherwise. */
  function InitialPoint(row: seq<real>, threshold: real, asp: Vector, nadir: Vector, n: nat): (r: Vector)
    requires n <= |row| && n <= |asp| && n <= |nadir|
    ensures |r| == n
  {
    if n == 0 then []
    else InitialPoint(row, threshold, asp, nadir, n - 1) +
         [if row[n - 1] < threshold then asp[n - 1] else nadir[n - 1]]
  }

  /** Each coordinate of an initial point comes from the aspiration vector
      exactly when its draw is under the threshold. */
  lemma {:induction false} InitialPointEntry(row: seq<real>, threshold: real, asp: Vector, nadir: Vector, n: nat, j: nat)
    requires n <= |row| && n <= |asp| && n <= |nadir| && j < n
    ensures InitialPoint(row, threshold, asp, nadir, n)[j] ==
      if row[j] < threshold then asp[j] else nadir[j]
  {
    if j < n - 1 {
      InitialPointEntry(row, threshold, asp, nadir, n - 1, j);
    }
  }

  /** When the aspiration and the nadir vectors agree, as they do over the
      single solution generatePreferenceInformation samples, the draws make no
      difference: every initial point is that vector. */
  lemma {:induction false} InitialPointOfEqualVectors(row: seq<real>, threshold: real, v: Vector, n: nat)
    requires n <= |row| && n <= |v|
    ensures InitialPoint(row, threshold, v, v, n) == v[..n]
  {
    if n > 0 {
      InitialPointOfEqualVectors(row, threshold, v, n - 1);
      assert v[..n] == v[..n - 1] + [v[n - 1]];
    }
  }

  /** The first `count` points of generatePreferenceInformation: point i is
      drawn with `draws[i]` against considerationProbability times the
      coefficient at position i. */
  function InitialPoints(draws: seq<seq<real>>, probability: real, coef: seq<real>,
                         asp: Vector, nadir: Vector, m: nat, count: nat): (r: seq<Vector>)
    requires count <= |draws| && count <= |coef| && Dimension(draws, m)
    requires m <= |asp| && m <= |nadir|
    ensures |r| == count
  {
    if count == 0 then []
    else
      InitialPoints(draws, probability, coef, asp, nadir, m, count - 1) +
      [InitialPoint(draws[count - 1], probability * coef[count - 1], asp, nadir, m)]
  }

  /** Point i of the initial points is drawn from row i with the threshold of
      position i. */
  lemma {:induction false} InitialPointsEntry(draws: seq<seq<real>>, probability: real, coef: seq<real>,
                                              asp: Vector, nadir: Vector, m: nat, count: nat, i: nat)
    requires count <= |draws| && count <= |coef| && Dimension(draws, m)
    requires m <= |asp| && m <= |nadir| && i < count
    ensures draws[i] in draws
    ensures InitialPoints(draws, probability, coef, asp, nadir, m, count)[i] ==
      InitialPoint(draws[i], probability * coef[i], asp, nadir, m)
  {
    assert draws[i] in draws && draws[count - 1] in draws;
    var r := InitialPoints(draws, probability, coef, asp, nadir, m, count);
    var prev := InitialPoints(draws, probability, coef, asp, nadir, m, count - 1);
    var last := InitialPoint(draws[count - 1], probability * coef[count - 1], asp, nadir, m);
    assert r == prev + [last];
    if i < count - 1 {
      InitialPointsEntry(draws, probability, coef, asp, nadir, m, count - 1, i);
      assert r[i] == prev[i];
    } else {
      assert r[i] == last;
    }
  }

  /** When the aspiration and the nadir vectors agree the draws make no
      difference: every initial point is that vector. */
  lemma InitialPointsOfEqualVectors(draws: seq<seq<real>>, probability: real, coef: seq<real>,
                                    v: Vector, m: nat, count: nat)
    requires count <= |draws| && count <= |coef| && Dimension(draws, m) && m <= |v|
    ensures forall i :: 0 <= i < count ==>
      InitialPoints(draws, probability, coef, v, v, m, count)[i] == v[..m]
  {
    forall i | 0 <= i < count
      ensures InitialPoints(draws, probability, coef, v, v, m, count)[i] == v[..m]
    {
      InitialPointsEntry(draws, probability, coef, v, v, m, count, i);
      InitialPointOfEqualVectors(draws[i], probability * coef[i], v, m);
    }
  }

  /** The first `n` coordinates of the point calculateReferencePoints builds
      from `solution` when not every objective is relevant: a relevant
      coordinate moves half-way from the aspiration value towards the
      solution, any other is the prediction, which is the coordinate of the
      current reference point `current`. */
  function UpdatedPoint(relevant: seq<nat>, solution: Vector, asp: Vector, current: Vector, n: nat): (r: Vector)
    requires n <= |solution| && n <= |asp| && n <= |current|
    ensures |r| == n
  {
    if n == 0 then []
    else UpdatedPoint(relevant, solution, asp, current, n - 1) +
         [if n - 1 in relevant then Midway(asp[n - 1], solution[n - 1]) else current[n - 1]]
  }

  /** Each coordinate of an updated point: relevant ones lie half-way between
      the aspiration value and the solution, the others keep the current
      reference point's value. */
  lemma {:induction false} UpdatedPointEntry(relevant: seq<nat>, solution: Vector, asp: Vector, current: Vector, n: nat, i: nat)
    requires n <= |solution| && n <= |asp| && n <= |current| && i < n
    ensures UpdatedPoint(relevant, solution, asp, current, n)[i] ==
      if i in relevant then Midway(asp[i], solution[i]) else current[i]
  {
    if i < n - 1 {
      UpdatedPointEntry(relevant, solution, asp, current, n - 1, i);
    }
  }

  /** Every coordinate of an updated point at once. */
  lemma UpdatedPointEntries(relevant: seq<nat>, solution: Vector, asp: Vector, current: Vector, n: nat)
    requires n <= |solution| && n <= |asp| && n <= |current|
    ensures forall i :: 0 <= i < n ==>
      UpdatedPoint(relevant, solution, asp, current, n)[i] ==
        if i in relevant then Midway(asp[i], solution[i]) else current[i]
  {
    forall i | 0 <= i < n
      ensures UpdatedPoint(relevant, solution, asp, current, n)[i] ==
        if i in relevant then Midway(asp[i], solution[i]) else current[i]
    {
      UpdatedPointEntry(relevant, solution, asp, current, n, i);
    }
  }

  /** With no relevant objective the updated point is the current reference
      point, so the preference does not move. */
  lemma {:induction false} NothingRelevantKeepsPoint(solution: Vector, asp: Vector, current: Vector, n: nat)
    requires n <= |solution| && n <= |asp| && n <= |current|
    ensures UpdatedPoint([], solution, asp, current, n) == current[..n]
  {
    if n > 0 {
      NothingRelevantKeepsPoint(solution, asp, current, n - 1);
      assert current[..n] == current[..n - 1] + [current[n - 1]];
    }
  }

  /** The point calculateReferencePoints makes of one drawn `solution`: the
      solution itself when every objective is relevant, the updated point
      otherwise. */
  function NewPoint(relevant: seq<nat>, solution: Vector, asp: Vector, current: Vector, m: nat): (r: Vector)
    requires |solution| == m && m <= |asp| && m <= |current|
    ensures |r| == m
    ensures forall i :: 0 <= i < m ==>
      r[i] == if |relevant| == m then solution[i]
              else if i in relevant then Midway(asp[i], solution[i])
              else current[i]
  {
    if |relevant| == m then solution
    else
      UpdatedPointEntries(relevant, solution, asp, current, m);
      UpdatedPoint(relevant, solution, asp, current, m)
  }

  /** The points calculateReferencePoints makes of the members of `front` at
      the positions `chosen`, in drawing order. */
  ghost function NewPoints(relevant: seq<nat>, front: seq<Vector>, chosen: seq<nat>,
                           asp: Vector, current: Vector, m: nat): (r: seq<Vector>)
    requires Dimension(front, m) && m <= |asp| && m <= |current|
    requires forall t :: 0 <= t < |chosen| ==> chosen[t] < |front|
    ensures |r| == |chosen|
    decreases |chosen|
  {
    if chosen == [] then []
    else
      var n := |chosen| - 1;
      assert front[chosen[n]] in front;
      NewPoints(relevant, front, chosen[..n], asp, current, m) +
      [NewPoint(relevant, front[chosen[n]], asp, current, m)]
  }

  /** Point t of the new points is made of the member drawn at turn t. */
  lemma {:induction false} NewPointsEntry(relevant: seq<nat>, front: seq<Vector>, chosen: seq<nat>,
                                          asp: Vector, current: Vector, m: nat, t: nat)
    requires Dimension(front, m) && m <= |asp| && m <= |current|
    requires forall q :: 0 <= q < |chosen| ==> chosen[q] < |front|
    requires t < |chosen|
    ensures front[chosen[t]] in front
    ensures NewPoints(relevant, front, chosen, asp, current, m)[t] ==
      NewPoint(relevant, front[chosen[t]], asp, current, m)
    decreases |chosen|
  {
    var n := |chosen| - 1;
    var prev := NewPoints(relevant, front, chosen[..n], asp, current, m);
    assert NewPoints(relevant, front, chosen, asp, current, m) ==
      prev + [NewPoint(relevant, front[chosen[n]], asp, current, m)];
    if t < n {
      NewPointsEntry(relevant, front, chosen[..n], asp, current, m, t);
      assert chosen[..n][t] == chosen[t];
    }
  }

  /** Drawing one more position adds the point made of its member. */
  lemma NewPointsExtend(relevant: seq<nat>, front: seq<Vector>, chosen: seq<nat>,
                        asp: Vector, current: Vector, m: nat, c: nat)
    requires Dimension(front, m) && m <= |asp| && m <= |current|
    requires forall t :: 0 <= t < |chosen| ==> chosen[t] < |front|
    requires c < |front|
    ensures front[c] in front
    ensures NewPoints(relevant, front, chosen + [c], asp, current, m) ==
      NewPoints(relevant, front, chosen, asp, current, m) + [NewPoint(relevant, front[c], asp, current, m)]
  {
    assert (chosen + [c])[..|chosen|] == chosen;
  }

  /** Every new point has one value per objective. */
  lemma NewPointsDimension(relevant: seq<nat>, front: seq<Vector>, chosen: seq<nat>,
                           asp: Vector, current: Vector, m: nat)
    requires Dimension(front, m) && m <= |asp| && m <= |current|
    requires forall t :: 0 <= t < |chosen| ==> chosen[t] < |front|
    ensures Dimension(NewPoints(relevant, front, chosen, asp, current, m), m)
  {
    var r := NewPoints(relevant, front, chosen, asp, current, m);
    forall y | y in r
      ensures |y| == m
    {
      var t :| 0 <= t < |r| && r[t] == y;
      NewPointsEntry(relevant, front, chosen, asp, current, m, t);
    }
  }

  /** The objective indices 0 .. m-1. */
  ghost function Indices(m: nat): (r: set<nat>)
    ensures forall i: int :: i in r <==> 0 <= i < m
    ensures |r| == m
  {
    if m == 0 then {} else Indices(m - 1) + {m - 1}
  }

  /** A list without repetitions has as many distinct members as entries. */
  lemma {:induction false} DistinctSize(s: seq<nat>)
    requires Distinct(s)
    ensures |Elements(s)| == |s|
  {
    if s != [] {
      var n := |s| - 1;
      var t := s[..n];
      DistinctSize(t);
      assert s[n] !in Elements(t);
      assert s == t + [s[n]];
      assert Elements(s) == Elements(t) + {s[n]};
    }
  }

  /** A subset is no larger than its superset. */
  lemma {:induction false} SubsetSize(a: set<nat>, b: set<nat>)
    requires a <= b
    ensures |a| <= |b|
    decreases b
  {
    if a != {} {
      var x :| x in a;
      SubsetSize(a - {x}, b - {x});
    }
  }

  /** For a list of distinct objective indices below m, such as the result of
      the relevance step, having m entries is the same as naming every
      objective: the size test of calculateReferencePoints is exactly "all
      objectives are relevant". */
  lemma AllRelevantIffFullSize(relevant: seq<nat>, m: nat)
    requires Distinct(relevant)
    requires forall x :: x in relevant ==> x < m
    ensures |relevant| == m <==> forall i :: 0 <= i < m ==> i in relevant
  {
    var members := Elements(relevant);
    var all := Indices(m);
    DistinctSize(relevant);
    assert members <= all;
    if |relevant| == m {
      if members != all {
        var x :| x in all && x !in members;
        SubsetSize(members, all - {x});
      }
      forall i | 0 <= i < m
        ensures i in relevant
      {
        assert i in all;
      }
    }
    if forall i :: 0 <= i < m ==> i in relevant {
      forall i | i in all
        ensures i in members
      {
        assert i in relevant;
      }
      assert all == members;
    }
  }
}
