/** The loop of relevantObjectiveFunctions that walks the ranked objectives and
    decides which of them are relevant, stated as a function of the ranked
    order, the random draws and the value of varyingProbability on entry. */
module Relevance {
  import opened Objectives
  import opened Ranking

  /** What the loop has produced after a prefix of the ranked objectives: the
      relevant indices so far, the current varyingProbability, and for every
      visited position whether its objective was added. */
  datatype Scan = Scan(relevant: seq<nat>, varying: real, keep: seq<bool>)

  /** The test of one objective: its aspiration value lies less than
      `tolerance` below the nearest solution's value and the draw is under the
      consideration probability, or else the draw is under the varying
      probability. */
  predicate Fires(aspValue: real, solValue: real, tolerance: real, cp: real, rand: real, varying: real) {
    (aspValue - solValue < tolerance && rand < cp) || rand < varying
  }

  /** The decay of varyingProbability after objective `i` has been visited and
      `size` objectives are relevant. Objective 0 divides by zero in the source;
      here it leaves the probability as it is. */
  function Decay(v: real, i: nat, size: nat): (r: real)
    ensures size == 0 ==> r == v
    ensures i == 0 ==> r == v
  {
    if i == 0 then v else v - (v / (i as real)) * (size as real)
  }

  /** The loop over the ranked objectives `order`, position `p` drawing
      `draws[p]`, against the aspiration vector `asp` and the nearest solution
      `sol`, starting from varyingProbability `v0`. */
  function ScanRelevance(order: seq<nat>, draws: seq<real>, asp: Vector, sol: Vector,
                         tolerance: real, cp: real, v0: real): (r: Scan)
    requires |draws| == |order|
    requires forall p :: 0 <= p < |order| ==> order[p] < |asp| && order[p] < |sol|
    ensures |r.keep| == |order|
    ensures |r.relevant| <= |order|
    ensures forall x :: x in r.relevant ==> x in order
    decreases |order|
  {
    if order == [] then Scan([], v0, [])
    else
      var n := |order| - 1;
      var prev := ScanRelevance(order[..n], draws[..n], asp, sol, tolerance, cp, v0);
      var i := order[n];
      var fire := Fires(asp[i], sol[i], tolerance, cp, draws[n], prev.varying);
      var relevant := if fire then prev.relevant + [i] else prev.relevant;
      Scan(relevant, Decay(prev.varying, i, |relevant|), prev.keep + [fire])
  }

  /** One more step of the loop: the scan of the first `t + 1` ranked
      objectives extends the scan of the first `t`. */
  lemma ScanRelevanceStep(order: seq<nat>, draws: seq<real>, asp: Vector, sol: Vector,
                          tolerance: real, cp: real, v0: real, t: nat)
    requires |draws| == |order| && t < |order|
    requires forall p :: 0 <= p < |order| ==> order[p] < |asp| && order[p] < |sol|
    ensures order[t] < |asp| && order[t] < |sol|
    ensures var prev := ScanRelevance(order[..t], draws[..t], asp, sol, tolerance, cp, v0);
      var i := order[t];
      var fire := Fires(asp[i], sol[i], tolerance, cp, draws[t], prev.varying);
      var relevant := if fire then prev.relevant + [i] else prev.relevant;
      ScanRelevance(order[..t + 1], draws[..t + 1], asp, sol, tolerance, cp, v0) ==
        Scan(relevant, Decay(prev.varying, i, |relevant|), prev.keep + [fire])
  {
    assert order[..t + 1][..t] == order[..t];
    assert draws[..t + 1][..t] == draws[..t];
  }

  /** The members of `s` whose flag in `keep` is set, in their order in `s`. */
  function Select(s: seq<nat>, keep: seq<bool>): (r: seq<nat>)
    requires |keep| == |s|
    ensures |r| <= |s|
    decreases |s|
  {
    if s == [] then []
    else
      var n := |s| - 1;
      Select(s[..n], keep[..n]) + (if keep[n] then [s[n]] else [])
  }

  /** The relevant objectives are exactly the ranked objectives whose test
      fired, in ranked order: the result is a subsequence of `order`. */
  lemma {:induction false} ScanSelects(order: seq<nat>, draws: seq<real>, asp: Vector, sol: Vector,
                                       tolerance: real, cp: real, v0: real)
    requires |draws| == |order|
    requires forall p :: 0 <= p < |order| ==> order[p] < |asp| && order[p] < |sol|
    ensures var r := ScanRelevance(order, draws, asp, sol, tolerance, cp, v0);
      r.relevant == Select(order, r.keep)
    decreases |order|
  {
    if order != [] {
      var n := |order| - 1;
      ScanSelects(order[..n], draws[..n], asp, sol, tolerance, cp, v0);
      var r := ScanRelevance(order, draws, asp, sol, tolerance, cp, v0);
      var prev := ScanRelevance(order[..n], draws[..n], asp, sol, tolerance, cp, v0);
      assert r.keep[..n] == prev.keep;
    }
  }

  /** The flag of position `p` is the test of objective order[p], taken with
      the draw of that position and the varying probability reached after the
      positions before it. */
  lemma {:induction false} KeepRecordsTest(order: seq<nat>, draws: seq<real>, asp: Vector, sol: Vector,
                                           tolerance: real, cp: real, v0: real, p: nat)
    requires |draws| == |order| && p < |order|
    requires forall q :: 0 <= q < |order| ==> order[q] < |asp| && order[q] < |sol|
    ensures ScanRelevance(order, draws, asp, sol, tolerance, cp, v0).keep[p] ==
      Fires(asp[order[p]], sol[order[p]], tolerance, cp, draws[p],
            ScanRelevance(order[..p], draws[..p], asp, sol, tolerance, cp, v0).varying)
    decreases |order|
  {
    var n := |order| - 1;
    if p < n {
      KeepRecordsTest(order[..n], draws[..n], asp, sol, tolerance, cp, v0, p);
      assert order[..n][..p] == order[..p];
      assert draws[..n][..p] == draws[..p];
    } else {
      assert order[..p] == order[..n] && draws[..p] == draws[..n];
    }
  }

  lemma {:induction false} SelectMembers(s: seq<nat>, keep: seq<bool>, x: nat)
    requires |keep| == |s| && x in Select(s, keep)
    ensures x in s
    decreases |s|
  {
    var n := |s| - 1;
    if x in Select(s[..n], keep[..n]) {
      SelectMembers(s[..n], keep[..n], x);
      assert x in s[..n];
    } else {
      assert x == s[n];
    }
  }

  lemma {:induction false} SelectDistinct(s: seq<nat>, keep: seq<bool>)
    requires |keep| == |s| && Distinct(s)
    ensures Distinct(Select(s, keep))
    decreases |s|
  {
    if s != [] {
      var n := |s| - 1;
      var head := Select(s[..n], keep[..n]);
      SelectDistinct(s[..n], keep[..n]);
      if keep[n] {
        forall q | 0 <= q < |head|
          ensures head[q] != s[n]
        {
          SelectMembers(s[..n], keep[..n], head[q]);
          var i :| 0 <= i < n && s[..n][i] == head[q];
        }
      }
    }
  }

  /** In a list without repetitions, member `s[p]` is selected exactly when
      its flag is set. */
  lemma {:induction false} SelectedIffKept(s: seq<nat>, keep: seq<bool>, p: nat)
    requires |keep| == |s| && Distinct(s) && p < |s|
    ensures s[p] in Select(s, keep) <==> keep[p]
    decreases |s|
  {
    var n := |s| - 1;
    var head := Select(s[..n], keep[..n]);
    if p < n {
      SelectedIffKept(s[..n], keep[..n], p);
      assert s[..n][p] == s[p];
    } else {
      forall q | 0 <= q < |head|
        ensures head[q] != s[p]
      {
        SelectMembers(s[..n], keep[..n], head[q]);
        var i :| 0 <= i < n && s[..n][i] == head[q];
      }
    }
  }

  /** Objective order[p] is among the relevant ones exactly when its test
      fired at position p. */
  lemma RelevantIffFired(order: seq<nat>, draws: seq<real>, asp: Vector, sol: Vector,
                         tolerance: real, cp: real, v0: real, p: nat)
    requires |draws| == |order| && p < |order| && Distinct(order)
    requires forall q :: 0 <= q < |order| ==> order[q] < |asp| && order[q] < |sol|
    ensures order[p] in ScanRelevance(order, draws, asp, sol, tolerance, cp, v0).relevant <==>
      Fires(asp[order[p]], sol[order[p]], tolerance, cp, draws[p],
            ScanRelevance(order[..p], draws[..p], asp, sol, tolerance, cp, v0).varying)
  {
    var r := ScanRelevance(order, draws, asp, sol, tolerance, cp, v0);
    ScanSelects(order, draws, asp, sol, tolerance, cp, v0);
    SelectedIffKept(order, r.keep, p);
    KeepRecordsTest(order, draws, asp, sol, tolerance, cp, v0, p);
  }

  /** Over a ranking, the relevant objectives have no repetitions and are all
      valid objective indices. */
  lemma RelevantWellFormed(coef: seq<real>, order: seq<nat>, draws: seq<real>, asp: Vector, sol: Vector,
                           tolerance: real, cp: real, v0: real)
    requires IsRanking(coef, order) && |draws| == |order|
    requires forall q :: 0 <= q < |order| ==> order[q] < |asp| && order[q] < |sol|
    ensures var r := ScanRelevance(order, draws, asp, sol, tolerance, cp, v0);
      Distinct(r.relevant) && forall x :: x in r.relevant ==> x < |coef|
  {
    var r := ScanRelevance(order, draws, asp, sol, tolerance, cp, v0);
    RankingIsPermutation(coef, order);
    ScanSelects(order, draws, asp, sol, tolerance, cp, v0);
    SelectDistinct(order, r.keep);
    forall x | x in r.relevant
      ensures x < |coef|
    {
      SelectMembers(order, r.keep, x);
    }
  }

  /** varyingProbability moves only through the decay, and the decay is
      proportional to the number of relevant objectives: while none is
      relevant it keeps its entry value. */
  lemma {:induction false} NothingRelevantKeepsVarying(order: seq<nat>, draws: seq<real>, asp: Vector, sol: Vector,
                                                       tolerance: real, cp: real, v0: real)
    requires |draws| == |order|
    requires forall q :: 0 <= q < |order| ==> order[q] < |asp| && order[q] < |sol|
    requires ScanRelevance(order, draws, asp, sol, tolerance, cp, v0).relevant == []
    ensures ScanRelevance(order, draws, asp, sol, tolerance, cp, v0).varying == v0
    decreases |order|
  {
    if order != [] {
      var n := |order| - 1;
      NothingRelevantKeepsVarying(order[..n], draws[..n], asp, sol, tolerance, cp, v0);
    }
  }

  /** A varying probability of zero stays zero, so then only the tolerance
      test can make an objective relevant. */
  lemma {:induction false} ZeroVaryingStaysZero(order: seq<nat>, draws: seq<real>, asp: Vector, sol: Vector,
                                                tolerance: real, cp: real)
    requires |draws| == |order|
    requires forall q :: 0 <= q < |order| ==> order[q] < |asp| && order[q] < |sol|
    ensures ScanRelevance(order, draws, asp, sol, tolerance, cp, 0.0).varying == 0.0
    decreases |order|
  {
    if order != [] {
      var n := |order| - 1;
      ZeroVaryingStaysZero(order[..n], draws[..n], asp, sol, tolerance, cp);
    }
  }
}
