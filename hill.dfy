/**
 * The hill-climbing engine of hill.py: a random initial tour, the route
 * length, the swap neighbourhood, the best-neighbour selection and the
 * steepest-descent loop. Each method follows the loops of the Python code and
 * is proved against the specification functions of Tours and Neighbourhood.
 */
module Hill {
  import opened Tours
  import opened Neighbourhoods
  import opened Climbs

  /** The initial pool of cities, Python's list(range(n)). */
  function Iota(n: nat): (r: seq<nat>)
    ensures |r| == n && forall i :: 0 <= i < n ==> r[i] == i
  {
    if n == 0 then [] else Iota(n - 1) + [n - 1]
  }

  /**
   * The outcomes of random.randint(0, len(cities) - 1) for a pool of n cities
   * that loses one city per draw: draw k is an index into a pool of n - k.
   */
  predicate ValidPicks(picks: seq<nat>, n: nat) {
    |picks| <= n && forall k :: 0 <= k < |picks| ==> picks[k] < n - k
  }

  /** The pool without its entry at position p. */
  function RemoveAt(xs: seq<nat>, p: nat): (r: seq<nat>)
    requires p < |xs|
    ensures |r| == |xs| - 1
    ensures forall a :: 0 <= a < |r| ==> r[a] == if a < p then xs[a] else xs[a + 1]
  {
    xs[..p] + xs[p + 1..]
  }

  /** Python's list.remove: deletes the first occurrence of x. */
  function RemoveFirst(xs: seq<nat>, x: nat): (r: seq<nat>)
    requires x in xs
    ensures |r| == |xs| - 1
  {
    if xs[0] == x then xs[1..] else [xs[0]] + RemoveFirst(xs[1..], x)
  }

  /** Removing the first occurrence of xs[p] deletes position p when no earlier entry equals it. */
  lemma {:induction false} RemoveFirstAt(xs: seq<nat>, p: nat)
    requires p < |xs| && forall q :: 0 <= q < p ==> xs[q] != xs[p]
    ensures RemoveFirst(xs, xs[p]) == RemoveAt(xs, p)
  {
    if p > 0 {
      var t := xs[1..];
      assert t[p - 1] == xs[p];
      assert forall q :: 0 <= q < p - 1 ==> t[q] == xs[q + 1];
      RemoveFirstAt(t, p - 1);
      assert RemoveAt(xs, p) == [xs[0]] + RemoveAt(t, p - 1);
    }
  }

  lemma RemoveAtKeepsCities(xs: seq<nat>, p: nat)
    requires p < |xs|
    ensures multiset(RemoveAt(xs, p)) + multiset{xs[p]} == multiset(xs)
    ensures Distinct(xs) ==> Distinct(RemoveAt(xs, p)) && xs[p] !in RemoveAt(xs, p)
  {
    assert xs == xs[..p] + [xs[p]] + xs[p + 1..];
  }

  /** The cities drawn from pool by the given picks, in drawing order. */
  function Deal(pool: seq<nat>, picks: seq<nat>): (d: seq<nat>)
    requires ValidPicks(picks, |pool|)
    ensures |d| == |picks|
    decreases |picks|
  {
    if |picks| == 0 then []
    else [pool[picks[0]]] + Deal(RemoveAt(pool, picks[0]), picks[1..])
  }

  /** Drawing the whole pool yields its cities, each as often as in the pool. */
  lemma {:induction false} DealKeepsCities(pool: seq<nat>, picks: seq<nat>)
    requires ValidPicks(picks, |pool|) && |picks| == |pool|
    ensures multiset(Deal(pool, picks)) == multiset(pool)
  {
    if picks != [] {
      var p := picks[0];
      var rest := RemoveAt(pool, p);
      assert ValidPicks(picks[1..], |rest|);
      DealKeepsCities(rest, picks[1..]);
      RemoveAtKeepsCities(pool, p);
      assert Deal(pool, picks) == [pool[p]] + Deal(rest, picks[1..]);
    }
  }

  lemma DistinctCons(x: nat, xs: seq<nat>)
    requires Distinct(xs) && x !in xs
    ensures Distinct([x] + xs)
  {
    var d := [x] + xs;
    forall a, b | 0 <= a < b < |d|
      ensures d[a] != d[b]
    {
      assert d[b] == xs[b - 1];
      if a > 0 {
        assert d[a] == xs[a - 1];
      }
    }
  }

  /** A pool without repeated cities is drawn without repeated cities. */
  lemma {:induction false} DealKeepsDistinct(pool: seq<nat>, picks: seq<nat>)
    requires ValidPicks(picks, |pool|) && |picks| == |pool| && Distinct(pool)
    ensures Distinct(Deal(pool, picks))
  {
    if picks != [] {
      var p := picks[0];
      var rest := RemoveAt(pool, p);
      assert ValidPicks(picks[1..], |rest|);
      RemoveAtKeepsCities(pool, p);
      DealKeepsDistinct(rest, picks[1..]);
      DealKeepsCities(rest, picks[1..]);
      var tail := Deal(rest, picks[1..]);
      assert Deal(pool, picks) == [pool[p]] + tail;
      assert pool[p] !in multiset(tail);
      DistinctCons(pool[p], tail);
    }
  }

  /** A full draw from list(range(n)) is a permutation of the cities 0 .. n-1. */
  lemma DealOfIotaIsPermutation(n: nat, picks: seq<nat>)
    requires |picks| == n && ValidPicks(picks, n)
    ensures IsPermutation(Deal(Iota(n), picks), n)
    ensures forall c :: 0 <= c < n ==> c in Deal(Iota(n), picks)
  {
    var pool := Iota(n);
    var d := Deal(pool, picks);
    DealKeepsCities(pool, picks);
    DealKeepsDistinct(pool, picks);
    forall i | 0 <= i < |d|
      ensures d[i] < n
    {
      assert d[i] in multiset(pool);
    }
    forall c | 0 <= c < n
      ensures c in d
    {
      assert pool[c] == c;
      assert c in multiset(d);
    }
  }

  /**
   * One draw: taking the city at the first pick and removing it from a pool
   * without repeats leaves the rest of the deal to the remaining picks.
   */
  lemma DealStep(drawn: seq<nat>, pool: seq<nat>, picks: seq<nat>, step: nat)
    requires step < |picks| && |pool| == |picks| - step && ValidPicks(picks[step..], |pool|) && Distinct(pool)
    ensures picks[step] < |pool| && pool[picks[step]] in pool
    ensures ValidPicks(picks[step + 1..], |pool| - 1)
    ensures Distinct(RemoveFirst(pool, pool[picks[step]]))
    ensures drawn + Deal(pool, picks[step..]) ==
            (drawn + [pool[picks[step]]]) + Deal(RemoveFirst(pool, pool[picks[step]]), picks[step + 1..])
  {
    var p := picks[step];
    assert picks[step..][0] == p && picks[step..][1..] == picks[step + 1..];
    RemoveFirstAt(pool, p);
    RemoveAtKeepsCities(pool, p);
  }

  /**
   * randomSolution: draws every city once from a shrinking pool. The draws
   * of random.randint are the parameter picks.
   */
  method RandomSolution(tsp: Matrix, picks: seq<nat>) returns (solution: seq<nat>)
    requires |picks| == |tsp| && ValidPicks(picks, |tsp|)
    ensures solution == Deal(Iota(|tsp|), picks)
    ensures IsPermutation(solution, |tsp|)
    ensures forall c :: 0 <= c < |tsp| ==> c in solution
  {
    var n := |tsp|;
    var cities: seq<nat> := Iota(n);
    solution := [];
    for step := 0 to n
      invariant |cities| == n - step && |solution| == step
      invariant Distinct(cities)
      invariant solution + Deal(cities, picks[step..]) == Deal(Iota(n), picks)
    {
      var randomCity: nat := cities[picks[step]];
      DealStep(solution, cities, picks, step);
      solution := solution + [randomCity];
      cities := RemoveFirst(cities, randomCity);
    }
    DealOfIotaIsPermutation(n, picks);
  }

  /** routelength: adds up the edge entering each position, wrapping at position 0. */
  method RouteLength(tsp: Matrix, solution: seq<nat>) returns (length: nat)
    requires ValidTour(tsp, solution)
    ensures length == TourLength(tsp, solution)
  {
    ghost var edges := EdgeLengths(tsp, solution);
    length := 0;
    for i := 0 to |solution|
      invariant length == Sum(edges[..i])
    {
      length := length + tsp[solution[Prev(|solution|, i)]][solution[i]];
      assert edges[..i + 1][..i] == edges[..i];
    }
    assert edges[..|solution|] == edges;
  }

  /** The first m + 1 pairs of row i are its first m pairs and then (i, i + 1 + m). */
  lemma RowPrefixStep(n: nat, i: nat, m: nat)
    requires i < n && m < n - i - 1
    ensures Row(n, i)[..m + 1] == Row(n, i)[..m] + [(i, i + 1 + m)]
  {
    var row := Row(n, i);
    assert row[m] == (i, i + 1 + m);
    assert row[..m + 1] == row[..m] + [row[m]];
  }

  /** The inner loop's step: pair (i, j) is the next pair of row i. */
  lemma RowStep(s: seq<nat>, done: seq<(nat, nat)>, i: nat, j: nat)
    requires i < j < |s|
    ensures SwapsAlong(s, done + Row(|s|, i)[..j - i])
         == SwapsAlong(s, done + Row(|s|, i)[..j - i - 1]) + [Swap(s, i, j)]
  {
    var row := Row(|s|, i);
    RowPrefixStep(|s|, i, j - i - 1);
    assert done + row[..j - i] == (done + row[..j - i - 1]) + [(i, j)];
    SwapsAlongAppend(s, done + row[..j - i - 1], (i, j));
  }

  /** The outer loop's step: row i completes the pairs before i + 1. */
  lemma RowDone(n: nat, i: nat)
    requires i < n
    ensures PairsBefore(n, i) + Row(n, i)[..n - i - 1] == PairsBefore(n, i + 1)
  {
    assert Row(n, i)[..n - i - 1] == Row(n, i);
  }

  /** getNeighbour: one copy of the tour per position pair i < j, with i and j swapped. */
  method Neighbours(solution: seq<nat>) returns (neighbours: seq<seq<nat>>)
    ensures neighbours == Neighbourhood(solution)
    ensures |neighbours| == |solution| * (|solution| - 1) / 2
  {
    var n := |solution|;
    neighbours := [];
    for i := 0 to n
      invariant neighbours == SwapsAlong(solution, PairsBefore(n, i))
    {
      assert PairsBefore(n, i) + Row(n, i)[..0] == PairsBefore(n, i);
      for j := i + 1 to n
        invariant neighbours == SwapsAlong(solution, PairsBefore(n, i) + Row(n, i)[..j - i - 1])
      {
        var neighbour := solution;
        neighbour := neighbour[i := neighbour[j]][j := neighbour[i]];
        RowStep(solution, PairsBefore(n, i), i, j);
        neighbours := neighbours + [neighbour];
      }
      RowDone(n, i);
    }
    assert Pairs(n) == PairsBefore(n, n);
    NeighbourhoodSize(solution);
  }

  /**
   * getBestNeighbours: scans the whole list and replaces its candidate only
   * on a strictly shorter tour, so the first shortest tour wins.
   */
  method BestNeighbour(tsp: Matrix, neighbours: seq<seq<nat>>) returns (best: seq<nat>, bestLength: nat)
    requires |neighbours| > 0 && AllValidTours(tsp, neighbours)
    ensures best == neighbours[FirstMinIndex(tsp, neighbours)] && bestLength == TourLength(tsp, best)
    ensures IsFirstMinimum(tsp, neighbours, FirstMinIndex(tsp, neighbours))
  {
    bestLength := RouteLength(tsp, neighbours[0]);
    best := neighbours[0];
    ghost var k := 0;
    for idx := 0 to |neighbours|
      invariant k < |neighbours| && best == neighbours[k] && bestLength == TourLength(tsp, best)
      invariant idx == 0 ==> k == 0
      invariant idx > 0 ==> k == FirstMinIn(tsp, neighbours, idx)
    {
      var currentLength := RouteLength(tsp, neighbours[idx]);
      if currentLength < bestLength {
        bestLength := currentLength;
        best := neighbours[idx];
        k := idx;
      }
    }
    FirstMinIndexIsFirstMinimum(tsp, neighbours);
  }

  /** One round of hill_climbing's loop: getNeighbour, then getBestNeighbours on its result. */
  method BestRound(tsp: Matrix, solution: seq<nat>) returns (best: seq<nat>, bestLength: nat)
    requires ValidTour(tsp, solution) && |solution| >= 2
    ensures best == BestOf(tsp, solution) && ValidTour(tsp, best)
    ensures bestLength == TourLength(tsp, best)
  {
    var neighbours := Neighbours(solution);
    NeighbourhoodInRange(tsp, solution);
    best, bestLength := BestNeighbour(tsp, neighbours);
  }

  /**
   * hill_climbing: moves to the best neighbour while it is strictly shorter.
   * The trajectory gets the best neighbour's length once per round, also in
   * the last round, whose neighbour is not taken. The ghost result visited
   * lists the tours the loop stood on, from initial to the returned one.
   */
  method HillClimbing(tsp: Matrix, initial: seq<nat>)
    returns (solution: seq<nat>, length: nat, trajectory: seq<nat>, ghost visited: seq<seq<nat>>)
    requires ValidTour(tsp, initial) && |initial| >= 2
    ensures Finished(tsp, initial, visited, trajectory, solution, length)
    ensures length == TourLength(tsp, solution) <= TourLength(tsp, initial) && IsLocalOptimum(tsp, solution)
  {
    solution := initial;
    length := RouteLength(tsp, solution);
    trajectory := [];
    visited := [initial];
    RunningStart(tsp, initial, length);
    while true
      invariant Running(tsp, initial, visited, trajectory, solution, length)
      decreases length
    {
      var bestNeighbour, bestRouteLength := BestRound(tsp, solution);
      ghost var before := trajectory;
      trajectory := trajectory + [bestRouteLength];
      if bestRouteLength >= length {
        RunningStop(tsp, initial, visited, before, solution, length, bestRouteLength, trajectory);
        break;
      }
      RunningStep(tsp, initial, visited, before, solution, length, bestNeighbour, bestRouteLength, trajectory);
      solution := bestNeighbour;
      length := bestRouteLength;
      visited := visited + [bestNeighbour];
    }
  }
}
