/** The nearest-solution lookup of ARP (getSolution): the member of a front
    closest to a reference point. The source keys a TreeMap by distance and
    `put`s every member in list order, so of several members at the minimal
    distance the last one overwrites the others and is returned. */
module Nearest {
  import opened Objectives
  import opened Ranking

  /** Member `k` of `front`, which is not among the positions in `used`, is at
      minimal distance from `ref` among the members not in `used`, and every
      later such member is strictly farther (the last minimal one wins). */
  ghost predicate IsLastNearestAmong(front: seq<Vector>, ref: Vector, used: set<nat>, k: nat)
    requires Dimension(front, |ref|)
  {
    k < |front| && k !in used &&
    forall p :: 0 <= p < |front| && p !in used ==>
      SqDist(front[k], ref) <= SqDist(front[p], ref) &&
      (k < p ==> SqDist(front[k], ref) < SqDist(front[p], ref))
  }

  /** getSolution: the position in `front` of the member nearest to `ref`,
      the last one in list order when several are equally near. */
  method GetSolution(front: seq<Vector>, ref: Vector) returns (k: nat)
    requires |front| > 0 && Dimension(front, |ref|)
    ensures IsLastNearestAmong(front, ref, {}, k)
  {
    k := 0;
    var best := SqDist(front[0], ref);
    for p := 1 to |front|
      invariant k < p
      invariant best == SqDist(front[k], ref)
      invariant forall q :: 0 <= q < p ==>
        best <= SqDist(front[q], ref) && (k < q ==> best < SqDist(front[q], ref))
    {
      var d := SqDist(front[p], ref);
      if d <= best {
        k, best := p, d;
      }
    }
  }

  /** At most one position satisfies the nearest-member rule, so the lookup is
      deterministic: identical inputs always give the same member. */
  lemma LastNearestUnique(front: seq<Vector>, ref: Vector, used: set<nat>, k1: nat, k2: nat)
    requires Dimension(front, |ref|)
    requires IsLastNearestAmong(front, ref, used, k1) && IsLastNearestAmong(front, ref, used, k2)
    ensures k1 == k2
  {
  }

  /** When the reference point is itself a member of the front, the member
      returned is at distance zero from it, and it is that member or a later
      one. */
  lemma NearestOfPresentPoint(front: seq<Vector>, ref: Vector, k: nat, q: nat)
    requires Dimension(front, |ref|)
    requires IsLastNearestAmong(front, ref, {}, k)
    requires q < |front| && front[q] == ref
    ensures SqDist(front[k], ref) == 0.0 && q <= k
  {
    SqDistSelf(ref);
    SqDistNonNegative(front[k], ref);
  }

  /** The working copy of calculateReferencePoints after some draws: `rest`
      holds, in their original order, the members of `front` at the
      positions `pos`, which are exactly the positions not in `used`. */
  ghost predicate WorkingCopy(front: seq<Vector>, rest: seq<Vector>, pos: seq<nat>, used: set<nat>) {
    |rest| == |pos| &&
    (forall q :: 0 <= q < |pos| ==> pos[q] < |front| && rest[q] == front[pos[q]]) &&
    Increasing(pos) &&
    forall p :: 0 <= p < |front| ==> (p in pos <==> p !in used)
  }

  /** The copy `new ArrayList<>(front)` is a working copy with nothing drawn. */
  lemma WorkingCopyStart(front: seq<Vector>)
    ensures WorkingCopy(front, front, seq(|front|, q => q), {})
  {
    var pos: seq<nat> := seq(|front|, q => q);
    forall p | 0 <= p < |front|
      ensures p in pos
    {
      assert pos[p] == p;
    }
  }

  /** Positions listed in increasing order. */
  ghost predicate Increasing(pos: seq<nat>) {
    forall q1, q2 :: 0 <= q1 < q2 < |pos| ==> pos[q1] < pos[q2]
  }

  /** Dropping entry `k` of an increasing list of the unused positions below
      `size` leaves the unused positions once `pos[k]` is used too. */
  lemma RemovePosition(pos: seq<nat>, used: set<nat>, size: nat, k: nat)
    requires k < |pos| && Increasing(pos)
    requires forall p :: 0 <= p < size ==> (p in pos <==> p !in used)
    ensures Increasing(pos[..k] + pos[k + 1..])
    ensures forall p :: 0 <= p < size ==> (p in pos[..k] + pos[k + 1..] <==> p !in used + {pos[k]})
  {
    var after := pos[..k] + pos[k + 1..];
    forall q | 0 <= q < |after|
      ensures after[q] != pos[k] && after[q] in pos
    {
      if q < k {
        assert after[q] == pos[q] && pos[q] < pos[k];
      } else {
        assert after[q] == pos[q + 1] && pos[k] < pos[q + 1];
      }
    }
    forall p | 0 <= p < size && p !in used && p != pos[k]
      ensures p in after
    {
      var q :| 0 <= q < |pos| && pos[q] == p;
      if q < k {
        assert after[q] == p;
      } else {
        assert after[q - 1] == p;
      }
    }
  }

  /** Removing the member at index `k` of the working copy records its
      position in `front` as drawn. */
  lemma WorkingCopyRemove(front: seq<Vector>, rest: seq<Vector>, pos: seq<nat>, chosen: seq<nat>, k: nat)
    requires WorkingCopy(front, rest, pos, Elements(chosen)) && k < |rest|
    ensures pos[k] < |front| && pos[k] !in chosen && rest[k] == front[pos[k]]
    ensures WorkingCopy(front, rest[..k] + rest[k + 1..], pos[..k] + pos[k + 1..], Elements(chosen + [pos[k]]))
  {
    var used := Elements(chosen);
    ElementsAppend(chosen, pos[k]);
    assert pos[k] in pos;
    RemovePosition(pos, used, |front|, k);
    var after, left := pos[..k] + pos[k + 1..], rest[..k] + rest[k + 1..];
    forall q | 0 <= q < |after|
      ensures after[q] < |front| && left[q] == front[after[q]]
    {
      if q >= k {
        assert after[q] == pos[q + 1] && left[q] == rest[q + 1];
      }
    }
  }

  /** Every member of a working copy is a member of `front`. */
  lemma WorkingCopyDimension(front: seq<Vector>, rest: seq<Vector>, pos: seq<nat>, used: set<nat>, m: nat)
    requires WorkingCopy(front, rest, pos, used) && Dimension(front, m)
    ensures Dimension(rest, m)
  {
    forall y | y in rest
      ensures |y| == m
    {
      var q :| 0 <= q < |rest| && rest[q] == y;
      assert front[pos[q]] in front;
    }
  }

  /** The lookup on the working copy: the member nearest within `rest` is the
      member nearest among the unused positions of `front`. */
  lemma NearestAmongRemaining(front: seq<Vector>, ref: Vector, used: set<nat>,
                              rest: seq<Vector>, pos: seq<nat>, k: nat)
    requires Dimension(front, |ref|) && Dimension(rest, |ref|)
    requires WorkingCopy(front, rest, pos, used)
    requires IsLastNearestAmong(rest, ref, {}, k)
    ensures IsLastNearestAmong(front, ref, used, pos[k])
  {
    forall p | 0 <= p < |front| && p !in used
      ensures SqDist(front[pos[k]], ref) <= SqDist(front[p], ref)
      ensures pos[k] < p ==> SqDist(front[pos[k]], ref) < SqDist(front[p], ref)
    {
      var q :| 0 <= q < |pos| && pos[q] == p;
      assert rest[q] == front[p];
      if pos[k] < p {
        assert k < q;
      }
    }
  }

  /** Drawing one more position adds it to the drawn set. */
  lemma ElementsAppend(chosen: seq<nat>, c: nat)
    ensures Elements(chosen + [c]) == Elements(chosen) + {c}
  {
    forall x
      ensures x in chosen + [c] <==> x in chosen || x == c
    {
      if x in chosen {
        var q :| 0 <= q < |chosen| && chosen[q] == x;
        assert (chosen + [c])[q] == x;
      }
      assert (chosen + [c])[|chosen|] == c;
    }
  }

  /** The positions drawn by calculateReferencePoints, in drawing order: each
      is the last nearest member among those not drawn before it. */
  ghost predicate DrawnInOrder(front: seq<Vector>, ref: Vector, chosen: seq<nat>)
    requires Dimension(front, |ref|)
    decreases |chosen|
  {
    chosen == [] ||
    (DrawnInOrder(front, ref, chosen[..|chosen| - 1]) &&
     IsLastNearestAmong(front, ref, Elements(chosen[..|chosen| - 1]), chosen[|chosen| - 1]))
  }

  /** Drawing the last nearest member among those not drawn yet extends a
      draw in order. */
  lemma DrawnInOrderExtend(front: seq<Vector>, ref: Vector, chosen: seq<nat>, c: nat)
    requires Dimension(front, |ref|) && DrawnInOrder(front, ref, chosen)
    requires IsLastNearestAmong(front, ref, Elements(chosen), c)
    ensures DrawnInOrder(front, ref, chosen + [c])
  {
    assert (chosen + [c])[..|chosen|] == chosen;
  }

  /** Every draw in order is the last nearest member among those not
      drawn before it. */
  lemma {:induction false} DrawnInOrderStep(front: seq<Vector>, ref: Vector, chosen: seq<nat>, t: nat)
    requires Dimension(front, |ref|) && DrawnInOrder(front, ref, chosen) && t < |chosen|
    ensures IsLastNearestAmong(front, ref, Elements(chosen[..t]), chosen[t])
    decreases |chosen|
  {
    var n := |chosen| - 1;
    if t < n {
      var head := chosen[..n];
      DrawnInOrderStep(front, ref, head, t);
      assert chosen[..t] == head[..t] && chosen[t] == head[t];
    }
  }

  /** Drawing in order never draws a position twice. */
  lemma DrawnInOrderDistinct(front: seq<Vector>, ref: Vector, chosen: seq<nat>)
    requires Dimension(front, |ref|) && DrawnInOrder(front, ref, chosen)
    ensures Distinct(chosen)
  {
    forall p, q | 0 <= p < q < |chosen|
      ensures chosen[p] != chosen[q]
    {
      DrawnInOrderStep(front, ref, chosen, q);
      assert chosen[p] in chosen[..q];
    }
  }

  /** Two draws in order of the same length from the same front and point
      are the same draws: calculateReferencePoints is deterministic. */
  lemma {:induction false} DrawnInOrderUnique(front: seq<Vector>, ref: Vector, c1: seq<nat>, c2: seq<nat>)
    requires Dimension(front, |ref|)
    requires DrawnInOrder(front, ref, c1) && DrawnInOrder(front, ref, c2) && |c1| == |c2|
    ensures c1 == c2
    decreases |c1|
  {
    if c1 != [] {
      var n := |c1| - 1;
      DrawnInOrderUnique(front, ref, c1[..n], c2[..n]);
      LastNearestUnique(front, ref, Elements(c1[..n]), c1[n], c2[n]);
      assert c1 == c1[..n] + [c1[n]] && c2 == c2[..n] + [c2[n]];
    }
  }
}
