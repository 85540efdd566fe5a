/** Objective vectors, the solution lists the algorithm receives from its
    driver, and the two library services ARP relies on: sorting a list by one
    objective (Collections.sort with an ObjectiveComparator) and the Euclidean
    distance between two points (compared here through its square). */
module Objectives {

  /** The objective values of a solution, or the coordinates of a reference point. */
  type Vector = seq<real>

  /** Every vector in `s` has exactly `m` objectives. */
  ghost predicate Dimension(s: seq<Vector>, m: nat) {
    forall y :: y in s ==> |y| == m
  }

  /** Joining two lists of vectors with `m` objectives each. */
  lemma DimensionAppend(s: seq<Vector>, t: seq<Vector>, m: nat)
    requires Dimension(s, m) && Dimension(t, m)
    ensures Dimension(s + t, m)
  {
  }

  /** No index occurs twice in `s`. */
  ghost predicate Distinct(s: seq<nat>) {
    forall p, q :: 0 <= p < q < |s| ==> s[p] != s[q]
  }

  /** The indices that occur in `s`. */
  ghost function Elements(s: seq<nat>): (r: set<nat>) {
    set x | x in s
  }

  /** Every vector in `s` has an objective of index `j`. */
  ghost predicate HasObjective(s: seq<Vector>, j: nat) {
    forall y :: y in s ==> j < |y|
  }

  /** A java.util.List of solutions owned by the caller and passed by
      reference: ARP sorts it in place or appends to it. */
  class SolutionList {
    var items: seq<Vector>

    constructor (items: seq<Vector>)
      ensures this.items == items
    {
      this.items := items;
    }
  }

  function Sq(x: real): (r: real) {
    x * x
  }

  lemma SqNonNegative(x: real)
    ensures Sq(x) >= 0.0
  {
  }

  /** The square of the Euclidean distance between two points: it orders
      candidates exactly as the distance itself does. */
  function SqDist(a: Vector, b: Vector): (r: real)
    requires |a| == |b|
  {
    if |a| == 0 then 0.0 else Sq(a[0] - b[0]) + SqDist(a[1..], b[1..])
  }

  /** A distance is never negative. */
  lemma {:induction false} SqDistNonNegative(a: Vector, b: Vector)
    requires |a| == |b|
    ensures SqDist(a, b) >= 0.0
  {
    if |a| > 0 {
      SqDistNonNegative(a[1..], b[1..]);
      SqNonNegative(a[0] - b[0]);
    }
  }

  /** A point is at distance zero from itself. */
  lemma {:induction false} SqDistSelf(a: Vector)
    ensures SqDist(a, a) == 0.0
  {
    if |a| > 0 {
      SqDistSelf(a[1..]);
    }
  }

  /** Objective `j` of `x`, the value an ObjectiveComparator for `j` compares.
      Every list the model sorts by objective `j` has it in all its members,
      where this is just x[j]; the fallback keeps the sort functions total. */
  function Key(x: Vector, j: nat): (r: real) {
    if j < |x| then x[j] else 0.0
  }

  /** Objective `j` is ordered ascending along `s`. */
  ghost predicate SortedOn(s: seq<Vector>, j: nat) {
    forall p, q :: 0 <= p < q < |s| ==> Key(s[p], j) <= Key(s[q], j)
  }

  /** `v` is the least value objective `j` takes over `s`, and some member takes it. */
  ghost predicate IsMinimum(v: real, s: seq<Vector>, j: nat) {
    (forall k :: 0 <= k < |s| ==> j < |s[k]| && v <= s[k][j]) &&
    (exists k :: 0 <= k < |s| && j < |s[k]| && s[k][j] == v)
  }

  /** `v` is the greatest value objective `j` takes over `s`, and some member takes it. */
  ghost predicate IsMaximum(v: real, s: seq<Vector>, j: nat) {
    (forall k :: 0 <= k < |s| ==> j < |s[k]| && s[k][j] <= v) &&
    (exists k :: 0 <= k < |s| && j < |s[k]| && s[k][j] == v)
  }

  /** Inserts `x` into `s` before the first member whose objective `j` is
      strictly greater, so that members with equal values keep their order. */
  function Insert(s: seq<Vector>, x: Vector, j: nat): (r: seq<Vector>)
    ensures |r| == |s| + 1
  {
    if s == [] || Key(x, j) < Key(s[0], j) then [x] + s
    else
      assert s == [s[0]] + s[1..];
      [s[0]] + Insert(s[1..], x, j)
  }

  /** The list ordered ascending on objective `j` by a stable sort, which is
      what Collections.sort does with an ObjectiveComparator for `j`. */
  function SortedByObjective(s: seq<Vector>, j: nat): (r: seq<Vector>)
    ensures |r| == |s|
    decreases |s|
  {
    if s == [] then []
    else
      assert s == s[..|s| - 1] + [s[|s| - 1]];
      Insert(SortedByObjective(s[..|s| - 1], j), s[|s| - 1], j)
  }

  /** The list after it has been sorted by objective 0, then 1, ... up to `n - 1`. */
  function SortThrough(s: seq<Vector>, n: nat): (r: seq<Vector>)
    ensures |r| == |s|
  {
    if n == 0 then s else SortedByObjective(SortThrough(s, n - 1), n - 1)
  }

  /** Inserting adds `x` and loses nothing. */
  lemma {:induction false} InsertPermutes(s: seq<Vector>, x: Vector, j: nat)
    ensures multiset(Insert(s, x, j)) == multiset(s) + multiset{x}
  {
    if s == [] || Key(x, j) < Key(s[0], j) {
      assert Insert(s, x, j) == [x] + s;
    } else {
      var t := Insert(s[1..], x, j);
      InsertPermutes(s[1..], x, j);
      assert Insert(s, x, j) == [s[0]] + t;
      assert s == [s[0]] + s[1..];
      calc {
        multiset(Insert(s, x, j));
        multiset([s[0]]) + multiset(t);
        multiset([s[0]]) + multiset(s[1..]) + multiset{x};
        multiset(s) + multiset{x};
      }
    }
  }

  /** The stable sort is a permutation of its input. */
  lemma {:induction false} SortedByObjectivePermutes(s: seq<Vector>, j: nat)
    ensures multiset(SortedByObjective(s, j)) == multiset(s)
    decreases |s|
  {
    if s != [] {
      var init, x := s[..|s| - 1], s[|s| - 1];
      SortedByObjectivePermutes(init, j);
      InsertPermutes(SortedByObjective(init, j), x, j);
      assert SortedByObjective(s, j) == Insert(SortedByObjective(init, j), x, j);
      assert s == init + [x];
    }
  }

  /** The stable sort keeps exactly the members of its input. */
  lemma SortedByObjectiveKeepsMembers(s: seq<Vector>, j: nat)
    ensures forall y :: y in SortedByObjective(s, j) <==> y in s
  {
    var t := SortedByObjective(s, j);
    SortedByObjectivePermutes(s, j);
    forall y
      ensures y in t <==> y in s
    {
      assert y in t <==> y in multiset(t);
    }
  }

  /** Sorting by objectives 0 .. n-1 in turn is a permutation of the input. */
  lemma {:induction false} SortThroughPermutes(s: seq<Vector>, n: nat)
    ensures multiset(SortThrough(s, n)) == multiset(s)
  {
    if n > 0 {
      SortThroughPermutes(s, n - 1);
      SortedByObjectivePermutes(SortThrough(s, n - 1), n - 1);
    }
  }

  /** Sorting by objectives 0 .. n-1 in turn keeps exactly the members of the
      input. */
  lemma {:induction false} SortThroughKeepsMembers(s: seq<Vector>, n: nat)
    ensures forall y :: y in SortThrough(s, n) <==> y in s
  {
    if n > 0 {
      SortThroughKeepsMembers(s, n - 1);
      SortedByObjectiveKeepsMembers(SortThrough(s, n - 1), n - 1);
    }
  }

  /** Sorting keeps every member's number of objectives. */
  lemma SortThroughKeepsDimension(s: seq<Vector>, n: nat, m: nat)
    requires Dimension(s, m)
    ensures Dimension(SortThrough(s, n), m)
  {
    SortThroughKeepsMembers(s, n);
  }

  /** A lower bound on objective `j` of every member, and of `x`, bounds
      every member after the insertion. */
  lemma {:induction false} InsertKeepsLowerBound(s: seq<Vector>, x: Vector, j: nat, b: real)
    requires forall i :: 0 <= i < |s| ==> b <= Key(s[i], j)
    requires b <= Key(x, j)
    ensures forall q :: 0 <= q < |s| + 1 ==> b <= Key(Insert(s, x, j)[q], j)
  {
    if !(s == [] || Key(x, j) < Key(s[0], j)) {
      var t := Insert(s[1..], x, j);
      InsertKeepsLowerBound(s[1..], x, j, b);
      assert Insert(s, x, j) == [s[0]] + t;
      forall q | 0 < q < |s| + 1
        ensures b <= Key(Insert(s, x, j)[q], j)
      {
        assert Insert(s, x, j)[q] == t[q - 1];
      }
    }
  }

  /** Inserting into a sorted list keeps it sorted. */
  lemma {:induction false} InsertSorted(s: seq<Vector>, x: Vector, j: nat)
    requires SortedOn(s, j)
    ensures SortedOn(Insert(s, x, j), j)
  {
    if !(s == [] || Key(x, j) < Key(s[0], j)) {
      var tail := s[1..];
      InsertSorted(tail, x, j);
      var t := Insert(tail, x, j);
      InsertKeepsLowerBound(tail, x, j, Key(s[0], j));
      var r := Insert(s, x, j);
      assert r == [s[0]] + t;
      forall p, q | 0 <= p < q < |r|
        ensures Key(r[p], j) <= Key(r[q], j)
      {
        assert r[q] == t[q - 1];
        if p > 0 {
          assert r[p] == t[p - 1];
        }
      }
    }
  }

  /** The stable sort orders its output on objective `j`. */
  lemma {:induction false} SortedByObjectiveIsSorted(s: seq<Vector>, j: nat)
    ensures SortedOn(SortedByObjective(s, j), j)
  {
    if s != [] {
      SortedByObjectiveIsSorted(s[..|s| - 1], j);
      InsertSorted(SortedByObjective(s[..|s| - 1], j), s[|s| - 1], j);
    }
  }

  /** After the sorts by objectives 0 .. n-1, the list holds the members of
      its input, as often as the input does, ordered by the last objective. */
  lemma SortThroughOrdersLast(s: seq<Vector>, n: nat)
    requires n > 0
    ensures multiset(SortThrough(s, n)) == multiset(s)
    ensures forall y :: y in SortThrough(s, n) <==> y in s
    ensures SortedOn(SortThrough(s, n), n - 1)
  {
    SortThroughPermutes(s, n);
    SortThroughKeepsMembers(s, n);
    SortedByObjectiveIsSorted(SortThrough(s, n - 1), n - 1);
  }

  /** In a sorted list `t` of the same length and members as `s`, whose
      members all have objective `j`, the first and last members carry the
      minimum and the maximum of objective `j` over `s`. */
  lemma SortedEndsAreExtremes(t: seq<Vector>, s: seq<Vector>, j: nat)
    requires |s| > 0 && |t| == |s| && forall y :: y in t <==> y in s
    requires HasObjective(s, j) && SortedOn(t, j)
    ensures j < |t[0]| && j < |t[|t| - 1]|
    ensures IsMinimum(t[0][j], s, j) && IsMaximum(t[|t| - 1][j], s, j)
  {
    assert t[0] in s;
    var lo :| 0 <= lo < |s| && s[lo] == t[0];
    assert t[|t| - 1] in s;
    var hi :| 0 <= hi < |s| && s[hi] == t[|t| - 1];
    forall k | 0 <= k < |s|
      ensures j < |s[k]| && t[0][j] <= s[k][j] <= t[|t| - 1][j]
    {
      assert s[k] in t;
      var i :| 0 <= i < |t| && t[i] == s[k];
      assert Key(t[0], j) <= Key(t[i], j) <= Key(t[|t| - 1], j);
    }
  }

  /** The first and the last member of the sorted list `t` have `m` objectives. */
  lemma SortedEndsHaveDimension(t: seq<Vector>, s: seq<Vector>, n: nat, m: nat)
    requires |s| > 0 && Dimension(s, m) && t == SortThrough(s, n)
    ensures |t| > 0 && |t[0]| == m && |t[|t| - 1]| == m
  {
    SortThroughKeepsMembers(s, n);
    assert t[0] in s && t[|t| - 1] in s;
  }

  /** The ideal vector updateObjectiveVector builds over its first `n`
      rounds: entry j is objective j of the first member once the list has
      been sorted by objectives 0 .. j. */
  ghost function Ideal(s: seq<Vector>, n: nat): (r: Vector)
    requires n > 0 ==> |s| > 0
    ensures |r| == n
  {
    if n == 0 then [] else Ideal(s, n - 1) + [Key(SortThrough(s, n)[0], n - 1)]
  }

  /** The nadir vector updateObjectiveVector builds over its first `n`
      rounds: entry j is objective j of the last member once the list has
      been sorted by objectives 0 .. j. */
  ghost function Nadir(s: seq<Vector>, n: nat): (r: Vector)
    requires n > 0 ==> |s| > 0
    ensures |r| == n
  {
    if n == 0 then [] else Nadir(s, n - 1) + [Key(SortThrough(s, n)[|s| - 1], n - 1)]
  }

  /** Entry `k` of the ideal vector is read in round `k`. */
  lemma {:induction false} IdealEntry(s: seq<Vector>, n: nat, k: nat)
    requires k < n && |s| > 0
    ensures Ideal(s, n)[k] == Key(SortThrough(s, k + 1)[0], k)
  {
    var prev := Ideal(s, n - 1);
    assert Ideal(s, n) == prev + [Key(SortThrough(s, n)[0], n - 1)];
    if k < n - 1 {
      IdealEntry(s, n - 1, k);
      assert Ideal(s, n)[k] == prev[k];
    }
  }

  /** Entry `k` of the nadir vector is read in round `k`. */
  lemma {:induction false} NadirEntry(s: seq<Vector>, n: nat, k: nat)
    requires k < n && |s| > 0
    ensures Nadir(s, n)[k] == Key(SortThrough(s, k + 1)[|s| - 1], k)
  {
    var prev := Nadir(s, n - 1);
    assert Nadir(s, n) == prev + [Key(SortThrough(s, n)[|s| - 1], n - 1)];
    if k < n - 1 {
      NadirEntry(s, n - 1, k);
      assert Nadir(s, n)[k] == prev[k];
    }
  }

  /** Round j of updateObjectiveVector reads the minimum of objective j from
      the first member of the sorted list and the maximum from the last. */
  lemma RoundEndsAreExtremes(s: seq<Vector>, j: nat, m: nat)
    requires j < m && |s| > 0 && Dimension(s, m)
    ensures var t := SortThrough(s, j + 1);
      IsMinimum(Key(t[0], j), s, j) && IsMaximum(Key(t[|s| - 1], j), s, j)
  {
    var t := SortThrough(s, j + 1);
    SortThroughOrdersLast(s, j + 1);
    assert HasObjective(s, j);
    SortedEndsAreExtremes(t, s, j);
    assert Key(t[0], j) == t[0][j] && Key(t[|s| - 1], j) == t[|t| - 1][j];
  }

  /** updateObjectiveVector makes ideal the component-wise minimum and nadir
      the component-wise maximum of the list it is given. */
  lemma IdealNadirAreExtremes(s: seq<Vector>, m: nat)
    requires |s| > 0 && Dimension(s, m)
    ensures forall k :: 0 <= k < m ==> IsMinimum(Ideal(s, m)[k], s, k) && IsMaximum(Nadir(s, m)[k], s, k)
  {
    forall k | 0 <= k < m
      ensures IsMinimum(Ideal(s, m)[k], s, k) && IsMaximum(Nadir(s, m)[k], s, k)
    {
      IdealEntry(s, m, k);
      NadirEntry(s, m, k);
      RoundEndsAreExtremes(s, k, m);
    }
  }

  /** A list of one solution is left as it is by the sorts. */
  lemma {:induction false} SortThroughSingleton(x: Vector, n: nat)
    ensures SortThrough([x], n) == [x]
  {
    if n > 0 {
      SortThroughSingleton(x, n - 1);
      assert [x][..0] == [];
    }
  }

  /** Over a list of one solution, the ideal and the nadir vectors are that
      solution's own objectives. */
  lemma {:induction false} IdealNadirOfSingleton(x: Vector, n: nat)
    requires n <= |x|
    ensures Ideal([x], n) == x[..n] && Nadir([x], n) == x[..n]
  {
    if n > 0 {
      IdealNadirOfSingleton(x, n - 1);
      SortThroughSingleton(x, n);
      assert x[..n] == x[..n - 1] + [x[n - 1]];
    }
  }

  /** The minimum of an objective over a list is unique. */
  lemma MinimumUnique(v: real, w: real, s: seq<Vector>, j: nat)
    requires IsMinimum(v, s, j) && IsMinimum(w, s, j)
    ensures v == w
  {
    var p :| 0 <= p < |s| && j < |s[p]| && s[p][j] == v;
    var q :| 0 <= q < |s| && j < |s[q]| && s[q][j] == w;
  }

  /** The maximum of an objective over a list is unique. */
  lemma MaximumUnique(v: real, w: real, s: seq<Vector>, j: nat)
    requires IsMaximum(v, s, j) && IsMaximum(w, s, j)
    ensures v == w
  {
    var p :| 0 <= p < |s| && j < |s[p]| && s[p][j] == v;
    var q :| 0 <= q < |s| && j < |s[q]| && s[q][j] == w;
  }

  /** Two objectives over the front (0, 10), (5, 5), (10, 0): the ideal
      vector is (0, 0) and the nadir vector (10, 10). */
  lemma IdealNadirExample(front: seq<Vector>, m: nat)
    requires m == 2 && |front| == 3
    requires front[0] == [0.0, 10.0] && front[1] == [5.0, 5.0] && front[2] == [10.0, 0.0]
    ensures Ideal(front, m) == [0.0, 0.0] && Nadir(front, m) == [10.0, 10.0]
  {
    assert Dimension(front, m) by {
      forall y | y in front
        ensures |y| == m
      {
        var p :| 0 <= p < 3 && front[p] == y;
      }
    }
    IdealNadirAreExtremes(front, m);
    var lo, hi := Ideal(front, m), Nadir(front, m);
    assert front[0][0] == 0.0 && front[2][1] == 0.0;
    assert front[2][0] == 10.0 && front[0][1] == 10.0;
    MinimumUnique(lo[0], 0.0, front, 0);
    MinimumUnique(lo[1], 0.0, front, 1);
    MaximumUnique(hi[0], 10.0, front, 0);
    MaximumUnique(hi[1], 10.0, front, 1);
  }
}
