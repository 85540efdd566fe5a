/** The ranking coefficients of ARP and the order in which the relevance
    selection visits the objectives. */
module Ranking {
  import opened Objectives

  /** initialiceRankingCoeficient: one coefficient 1/m per objective, used when
      no coefficients are supplied. */
  method DefaultRankingCoefficients(m: nat) returns (coef: seq<real>)
    ensures |coef| == m
    ensures forall i :: 0 <= i < m ==> coef[i] == 1.0 / (m as real)
  {
    coef := [];
    for i := 0 to m
      invariant |coef| == i
      invariant forall k :: 0 <= k < i ==> coef[k] == 1.0 / (m as real)
    {
      coef := coef + [1.0 / (m as real)];
    }
  }

  function Sum(s: seq<real>): (r: real) {
    if s == [] then 0.0 else Sum(s[..|s| - 1]) + s[|s| - 1]
  }

  lemma {:induction false} SumOfConstant(s: seq<real>, c: real)
    requires forall i :: 0 <= i < |s| ==> s[i] == c
    ensures Sum(s) == (|s| as real) * c
  {
    if s != [] {
      SumOfConstant(s[..|s| - 1], c);
    }
  }

  /** The default coefficients are a uniform weighting: they add up to one. */
  lemma DefaultCoefficientsSumToOne(coef: seq<real>, m: nat)
    requires m > 0 && |coef| == m
    requires forall i :: 0 <= i < m ==> coef[i] == 1.0 / (m as real)
    ensures Sum(coef) == 1.0
  {
    SumOfConstant(coef, 1.0 / (m as real));
  }

  /** Objective `a` is visited before objective `b`: a larger coefficient comes
      first (the TreeMap keys are in reverse order), and objectives with equal
      coefficients share one key and keep ascending index order. */
  predicate RankedBefore(coef: seq<real>, a: nat, b: nat)
    requires a < |coef| && b < |coef|
  {
    coef[a] > coef[b] || (coef[a] == coef[b] && a < b)
  }

  /** `order` lists every objective index below |coef| once, ranked. */
  ghost predicate IsRanking(coef: seq<real>, order: seq<nat>) {
    |order| == |coef| &&
    (forall p :: 0 <= p < |order| ==> order[p] < |coef|) &&
    (forall i :: 0 <= i < |coef| ==> i in order) &&
    forall p, q :: 0 <= p < q < |order| ==> RankedBefore(coef, order[p], order[q])
  }


  /** A ranking is a permutation of 0 .. |coef|-1: no index appears twice. */
  lemma RankingIsPermutation(coef: seq<real>, order: seq<nat>)
    requires IsRanking(coef, order)
    ensures Distinct(order)
    ensures forall i :: i in order <==> 0 <= i < |coef|
  {
    forall i | i in order
      ensures i < |coef|
    {
      var p :| 0 <= p < |order| && order[p] == i;
    }
  }

  /** The first loops of relevantObjectiveFunctions: the objective indices
      grouped by coefficient in descending order, each group in ascending
      index order. Each new index joins the end of the group of its
      coefficient, as `aux.add(i)` does on the list the map holds for it. */
  method RankObjectives(coef: seq<real>) returns (order: seq<nat>)
    ensures IsRanking(coef, order)
  {
    order := [];
    for i := 0 to |coef|
      invariant |order| == i
      invariant forall p :: 0 <= p < i ==> order[p] < i
      invariant forall x :: 0 <= x < i ==> x in order
      invariant forall p, q :: 0 <= p < q < i ==> RankedBefore(coef, order[p], order[q])
    {
      var pos := 0;
      while pos < |order| && coef[order[pos]] >= coef[i]
        invariant 0 <= pos <= |order|
        invariant forall p :: 0 <= p < pos ==> coef[order[p]] >= coef[i]
      {
        pos := pos + 1;
      }
      InsertKeepsRanking(coef, order, i, pos);
      var next := order[..pos] + [i] + order[pos..];
      forall x | 0 <= x < i
        ensures x in next
      {
        assert x in order;
        var p :| 0 <= p < |order| && order[p] == x;
        if p < pos {
          assert next[p] == x;
        } else {
          assert next[p + 1] == x;
        }
      }
      assert next[pos] == i;
      order := next;
    }
  }

  /** Placing the new index `i` after every objective whose coefficient is at
      least coef[i] keeps the list ranked. */
  lemma InsertKeepsRanking(coef: seq<real>, order: seq<nat>, i: nat, pos: nat)
    requires i < |coef| && pos <= |order|
    requires forall p :: 0 <= p < |order| ==> order[p] < i
    requires forall p, q :: 0 <= p < q < |order| ==> RankedBefore(coef, order[p], order[q])
    requires forall p :: 0 <= p < pos ==> coef[order[p]] >= coef[i]
    requires pos < |order| ==> coef[order[pos]] < coef[i]
    ensures var r := order[..pos] + [i] + order[pos..];
      forall p, q :: 0 <= p < q < |r| ==> RankedBefore(coef, r[p], r[q])
  {
    var r := order[..pos] + [i] + order[pos..];
    forall p, q | 0 <= p < q < |r|
      ensures RankedBefore(coef, r[p], r[q])
    {
      if q < pos {
        assert r[p] == order[p] && r[q] == order[q];
      } else if q == pos {
        assert r[p] == order[p] && r[q] == i;
      } else if p == pos {
        assert r[p] == i && r[q] == order[q - 1];
        if pos < q - 1 {
          assert RankedBefore(coef, order[pos], order[q - 1]);
        }
      } else if p < pos {
        assert r[p] == order[p] && r[q] == order[q - 1];
      } else {
        assert r[p] == order[p - 1] && r[q] == order[q - 1];
      }
    }
  }

  /** Two ranked lists holding the same objectives are equal: the ranking is a
      strict total order, so the visiting order is fully determined by the
      coefficients. */
  lemma {:induction false} RankedListsUnique(coef: seq<real>, o1: seq<nat>, o2: seq<nat>)
    requires forall p :: 0 <= p < |o1| ==> o1[p] < |coef|
    requires forall p :: 0 <= p < |o2| ==> o2[p] < |coef|
    requires forall p, q :: 0 <= p < q < |o1| ==> RankedBefore(coef, o1[p], o1[q])
    requires forall p, q :: 0 <= p < q < |o2| ==> RankedBefore(coef, o2[p], o2[q])
    requires forall x :: x in o1 <==> x in o2
    ensures o1 == o2
    decreases |o1|
  {
    assert o1 != [] ==> o1[0] in o1;
    assert o2 != [] ==> o2[0] in o2;
    if o1 != [] && o2 != [] {
      HeadComesFirst(coef, o1, o2[0]);
      HeadComesFirst(coef, o2, o1[0]);
      forall x
        ensures x in o1[1..] <==> x in o2[1..]
      {
        if x in o1[1..] {
          var i :| 0 <= i < |o1| - 1 && o1[1..][i] == x;
          assert RankedBefore(coef, o1[0], o1[i + 1]);
          assert x in o2;
          var j :| 0 <= j < |o2| && o2[j] == x;
          assert j != 0;
          assert o2[1..][j - 1] == x;
        }
        if x in o2[1..] {
          var i :| 0 <= i < |o2| - 1 && o2[1..][i] == x;
          assert RankedBefore(coef, o2[0], o2[i + 1]);
          assert x in o1;
          var j :| 0 <= j < |o1| && o1[j] == x;
          assert j != 0;
          assert o1[1..][j - 1] == x;
        }
      }
      RankedListsUnique(coef, o1[1..], o2[1..]);
      assert o1 == [o1[0]] + o1[1..] && o2 == [o2[0]] + o2[1..];
    }
  }

  /** The head of a ranked list is ranked before every other member. */
  lemma HeadComesFirst(coef: seq<real>, o: seq<nat>, x: nat)
    requires forall p :: 0 <= p < |o| ==> o[p] < |coef|
    requires forall p, q :: 0 <= p < q < |o| ==> RankedBefore(coef, o[p], o[q])
    requires x in o
    ensures x < |coef| && (o[0] == x || RankedBefore(coef, o[0], x))
  {
    var p :| 0 <= p < |o| && o[p] == x;
  }

  /** There is only one ranking of a coefficient list. */
  lemma RankingUnique(coef: seq<real>, o1: seq<nat>, o2: seq<nat>)
    requires IsRanking(coef, o1) && IsRanking(coef, o2)
    ensures o1 == o2
  {
    RankedListsUnique(coef, o1, o2);
  }

  /** With equal coefficients (the default 1/m), objectives are visited in
      index order 0, 1, ..., m-1. */
  lemma UniformRankingIsIndexOrder(coef: seq<real>, order: seq<nat>)
    requires forall a, b :: 0 <= a < |coef| && 0 <= b < |coef| ==> coef[a] == coef[b]
    requires IsRanking(coef, order)
    ensures order == seq(|coef|, i => i)
  {
    var ids: seq<nat> := seq(|coef|, i => i);
    RankingIsPermutation(coef, order);
    assert forall x :: x in ids <==> 0 <= x < |coef| by {
      forall x: nat | x < |coef| ensures x in ids {
        assert ids[x] == x;
      }
    }
    RankedListsUnique(coef, order, ids);
  }
}
