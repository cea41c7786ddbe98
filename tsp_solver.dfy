/**
 * Greedy nearest-neighbour tour construction over an indexed list of points
 * (solve_tsp_nearest_neighbor in aviram.py).
 *
 * Points are of an abstract type P and the distance between two of them is a
 * parameter: the solver only ever compares two distances with a strict `<`,
 * so nothing about the haversine formula is needed.
 */
module TspSolver {
  import opened Wrappers

  /** No index occurs twice in `s`. */
  predicate Distinct(s: seq<nat>) {
    forall i, j :: 0 <= i < j < |s| ==> s[i] != s[j]
  }

  /** Every index in `s` is below `n`. */
  predicate InRange(s: seq<nat>, n: nat) {
    forall i :: 0 <= i < |s| ==> s[i] < n
  }

  /** `s` lists every index 0..n-1 exactly once. */
  predicate IsIndexPermutation(s: seq<nat>, n: nat) {
    |s| == n && Distinct(s) && InRange(s, n)
  }

  function Elems(s: seq<nat>): set<nat> {
    set x | x in s
  }

  function Below(n: nat): (b: set<nat>)
    ensures forall i: nat :: i in b <==> i < n
  {
    if n == 0 then {} else Below(n - 1) + {n - 1}
  }

  lemma {:induction false} DistinctElemsCard(s: seq<nat>)
    requires Distinct(s)
    ensures |Elems(s)| == |s|
  {
    if s != [] {
      var init := s[..|s| - 1];
      DistinctElemsCard(init);
      assert Elems(s) == Elems(init) + {s[|s| - 1]};
      assert forall i :: 0 <= i < |init| ==> init[i] != s[|s| - 1];
      assert s[|s| - 1] !in Elems(init);
    }
  }

  lemma {:induction false} BelowCard(n: nat)
    ensures |Below(n)| == n
  {
    if n > 0 {
      BelowCard(n - 1);
    }
  }

  lemma SubsetCard(a: set<nat>, b: set<nat>)
    requires a <= b
    ensures |a| <= |b|
  {
    assert b == a + (b - a);
  }

  /**
   * A duplicate-free list of indices below n has at most n entries, and it
   * misses some index below n exactly when it is shorter than n.
   */
  lemma Pigeonhole(s: seq<nat>, n: nat)
    requires Distinct(s) && InRange(s, n)
    ensures |s| <= n
    ensures |s| < n <==> exists j: nat :: j < n && j !in s
  {
    DistinctElemsCard(s);
    BelowCard(n);
    var e, b := Elems(s), Below(n);
    SubsetCard(e, b);
    if j: nat :| j < n && j !in s {
      SubsetCard(e, b - {j});
    } else {
      SubsetCard(b, e);
    }
  }

  /** A permutation of 0..n-1 contains every index below n. */
  lemma PermutationCovers(s: seq<nat>, n: nat)
    requires IsIndexPermutation(s, n)
    ensures forall j: nat :: j < n ==> j in s
  {
    Pigeonhole(s, n);
  }

  /**
   * One pass of the inner scan over indices 0..k-1: the unvisited index
   * closest to `last` found so far, replaced only by a strictly closer one.
   * None when every index below k is already visited.
   */
  function Nearest<P>(coords: seq<P>, dist: (P, P) -> real, last: nat, visited: seq<nat>, k: nat): (r: Option<nat>)
    requires last < |coords| && k <= |coords|
    ensures r.Some? ==> r.value < k && r.value !in visited
    ensures r.None? <==> forall j: nat :: j < k ==> j in visited
    decreases k
  {
    if k == 0 then None
    else
      var best := Nearest(coords, dist, last, visited, k - 1);
      var i := k - 1;
      if i !in visited && (best.None? || dist(coords[last], coords[i]) < dist(coords[last], coords[best.value]))
      then Some(i)
      else best
  }

  /**
   * `b` is an unvisited index below k, no unvisited index below k is closer
   * to `last`, and every unvisited index before `b` is strictly farther
   * (ties go to the lowest index).
   */
  predicate IsFirstNearest<P>(coords: seq<P>, dist: (P, P) -> real, last: nat, visited: seq<nat>, k: nat, b: nat)
    requires last < |coords| && k <= |coords|
  {
    b < k && b !in visited &&
    forall j: nat :: j < k && j !in visited ==>
      dist(coords[last], coords[b]) <= dist(coords[last], coords[j]) &&
      (j < b ==> dist(coords[last], coords[b]) < dist(coords[last], coords[j]))
  }

  lemma FirstNearestUnique<P>(coords: seq<P>, dist: (P, P) -> real, last: nat, visited: seq<nat>, k: nat, b1: nat, b2: nat)
    requires last < |coords| && k <= |coords|
    requires IsFirstNearest(coords, dist, last, visited, k, b1)
    requires IsFirstNearest(coords, dist, last, visited, k, b2)
    ensures b1 == b2
  {
  }

  lemma {:induction false} NearestIsFirstNearest<P>(coords: seq<P>, dist: (P, P) -> real, last: nat, visited: seq<nat>, k: nat)
    requires last < |coords| && k <= |coords|
    ensures Nearest(coords, dist, last, visited, k).Some? ==>
      IsFirstNearest(coords, dist, last, visited, k, Nearest(coords, dist, last, visited, k).value)
    decreases k
  {
    if k > 0 {
      NearestIsFirstNearest(coords, dist, last, visited, k - 1);
    }
  }

  /**
   * The scan finds exactly the first-closest unvisited index: whatever it
   * returns is one, and any index that is one is what it returns.
   */
  lemma NearestCharacterization<P>(coords: seq<P>, dist: (P, P) -> real, last: nat, visited: seq<nat>, k: nat, b: nat)
    requires last < |coords| && k <= |coords|
    ensures Nearest(coords, dist, last, visited, k) == Some(b) <==> IsFirstNearest(coords, dist, last, visited, k, b)
  {
    var r := Nearest(coords, dist, last, visited, k);
    NearestIsFirstNearest(coords, dist, last, visited, k);
    if IsFirstNearest(coords, dist, last, visited, k, b) {
      assert r.Some?;
      FirstNearestUnique(coords, dist, last, visited, k, b, r.value);
    }
  }

  /** While some index is unvisited, the full scan finds one. */
  lemma NearestFindsOne<P>(coords: seq<P>, dist: (P, P) -> real, last: nat, visited: seq<nat>)
    requires last < |coords|
    requires Distinct(visited) && InRange(visited, |coords|) && |visited| < |coords|
    ensures Nearest(coords, dist, last, visited, |coords|).Some?
  {
    Pigeonhole(visited, |coords|);
  }

  /**
   * The first m entries of the greedy tour: index 0, then repeatedly the
   * first-closest unvisited index to the entry appended last.
   */
  function TourPrefix<P>(coords: seq<P>, dist: (P, P) -> real, m: nat): (t: seq<nat>)
    requires m <= |coords|
    ensures |t| == m && Distinct(t) && InRange(t, |coords|)
    ensures m > 0 ==> t[0] == 0
    decreases m
  {
    if m == 0 then []
    else if m == 1 then [0]
    else
      var p := TourPrefix(coords, dist, m - 1);
      NearestFindsOne(coords, dist, p[m - 2], p);
      p + [Nearest(coords, dist, p[m - 2], p, |coords|).value]
  }

  /** The visiting order the solver returns for `coords`. */
  function Tour<P>(coords: seq<P>, dist: (P, P) -> real): (t: seq<nat>)
    ensures IsIndexPermutation(t, |coords|)
    ensures |coords| > 0 ==> t[0] == 0
  {
    TourPrefix(coords, dist, |coords|)
  }

  /**
   * Declarative description of the solver's output: a permutation of the
   * indices that starts at 0 and in which every entry is the first-closest
   * index to its predecessor among those not yet listed.
   */
  predicate IsGreedyTour<P>(coords: seq<P>, dist: (P, P) -> real, t: seq<nat>) {
    IsIndexPermutation(t, |coords|) &&
    (|t| > 0 ==> t[0] == 0) &&
    forall k :: 1 <= k < |t| ==> IsFirstNearest(coords, dist, t[k - 1], t[..k], |coords|, t[k])
  }

  lemma {:induction false} TourPrefixExtends<P>(coords: seq<P>, dist: (P, P) -> real, k: nat, m: nat)
    requires k <= m <= |coords|
    ensures TourPrefix(coords, dist, m)[..k] == TourPrefix(coords, dist, k)
    decreases m
  {
    if k < m {
      TourPrefixExtends(coords, dist, k, m - 1);
      if m >= 2 {
        var p := TourPrefix(coords, dist, m - 1);
        assert TourPrefix(coords, dist, m)[..m - 1] == p;
      }
    }
  }

  lemma TourPrefixSnoc<P>(coords: seq<P>, dist: (P, P) -> real, k: nat)
    requires 1 <= k < |coords|
    ensures var p := TourPrefix(coords, dist, k);
      Nearest(coords, dist, p[k - 1], p, |coords|).Some? &&
      TourPrefix(coords, dist, k + 1) == p + [Nearest(coords, dist, p[k - 1], p, |coords|).value]
  {
    var p := TourPrefix(coords, dist, k);
    NearestFindsOne(coords, dist, p[k - 1], p);
  }

  lemma TourStepIsGreedy<P>(coords: seq<P>, dist: (P, P) -> real, k: nat)
    requires 1 <= k < |coords|
    ensures var t := Tour(coords, dist);
      IsFirstNearest(coords, dist, t[k - 1], t[..k], |coords|, t[k])
  {
    var t, n := Tour(coords, dist), |coords|;
    var p := TourPrefix(coords, dist, k);
    TourPrefixExtends(coords, dist, k, n);
    TourPrefixExtends(coords, dist, k + 1, n);
    TourPrefixSnoc(coords, dist, k);
    assert t[..k] == p && t[k - 1] == p[k - 1];
    assert t[k] == t[..k + 1][k] == Nearest(coords, dist, p[k - 1], p, n).value;
    NearestIsFirstNearest(coords, dist, t[k - 1], t[..k], n);
  }

  /** The tour satisfies the declarative description. */
  lemma TourIsGreedy<P>(coords: seq<P>, dist: (P, P) -> real)
    ensures IsGreedyTour(coords, dist, Tour(coords, dist))
  {
    var t, n := Tour(coords, dist), |coords|;
    forall k | 1 <= k < n
      ensures IsFirstNearest(coords, dist, t[k - 1], t[..k], n, t[k])
    {
      TourStepIsGreedy(coords, dist, k);
    }
  }

  lemma {:induction false} GreedyTourPrefix<P>(coords: seq<P>, dist: (P, P) -> real, t: seq<nat>, m: nat)
    requires IsGreedyTour(coords, dist, t) && m <= |t|
    ensures t[..m] == TourPrefix(coords, dist, m)
    decreases m
  {
    if m >= 2 {
      GreedyTourPrefix(coords, dist, t, m - 1);
      var p := t[..m - 1];
      assert p[m - 2] == t[m - 2];
      NearestCharacterization(coords, dist, t[m - 2], p, |coords|, t[m - 1]);
      assert t[..m] == p + [t[m - 1]];
    }
  }

  /**
   * The declarative description determines the solver's output: a list is a
   * greedy tour of `coords` exactly when it is the tour the solver returns.
   */
  lemma TourCharacterization<P>(coords: seq<P>, dist: (P, P) -> real, t: seq<nat>)
    ensures IsGreedyTour(coords, dist, t) <==> t == Tour(coords, dist)
  {
    TourIsGreedy(coords, dist);
    if IsGreedyTour(coords, dist, t) {
      GreedyTourPrefix(coords, dist, t, |t|);
      assert t[..|t|] == t;
    }
  }

  /** The tour lists every index of `coords` exactly once, starting at 0. */
  lemma TourVisitsEveryPoint<P>(coords: seq<P>, dist: (P, P) -> real)
    ensures var t := Tour(coords, dist);
      |t| == |coords| && Distinct(t) && (|coords| > 0 ==> t[0] == 0) &&
      forall j: nat :: j < |coords| ==> j in t
  {
    PermutationCovers(Tour(coords, dist), |coords|);
  }

  /**
   * solve_tsp_nearest_neighbor: start at index 0 and, n - 1 times, scan all
   * indices for the unvisited one strictly closest to the last appended.
   */
  method SolveNearestNeighbor<P>(coords: seq<P>, dist: (P, P) -> real) returns (order: seq<nat>)
    ensures order == Tour(coords, dist)
    ensures IsGreedyTour(coords, dist, order)
  {
    TourIsGreedy(coords, dist);
    var n := |coords|;
    if n == 0 {
      return [];
    }
    var visited := new bool[n](_ => false);
    order := [0];
    visited[0] := true;
    for step := 0 to n - 1
      invariant |order| == step + 1
      invariant order == TourPrefix(coords, dist, |order|)
      invariant forall i :: 0 <= i < n ==> (visited[i] <==> i in order)
    {
      var last := order[|order| - 1];
      var next: Option<nat> := None;
      var minDist: real := 0.0;
      for i := 0 to n
        invariant next == Nearest(coords, dist, last, order, i)
        invariant next.Some? ==> minDist == dist(coords[last], coords[next.value])
      {
        if !visited[i] {
          var d := dist(coords[last], coords[i]);
          if next.None? || d < minDist {
            minDist := d;
            next := Some(i);
          }
        }
      }
      Pigeonhole(order, n);
      order := order + [next.value];
      visited[next.value] := true;
    }
  }
}
