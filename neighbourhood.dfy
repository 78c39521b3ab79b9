/**
 * The swap neighbourhood of a tour (hill.py, getNeighbour), the first-minimum
 * selection over a list of tours (hill.py, getBestNeighbours) and local
 * optimality.
 */
module Neighbourhoods {
  import opened Tours

  /** The tour with the cities at positions i and j exchanged. */
  function Swap(s: seq<nat>, i: nat, j: nat): (r: seq<nat>)
    requires i < |s| && j < |s|
    ensures |r| == |s| && r[i] == s[j] && r[j] == s[i]
    ensures forall k :: 0 <= k < |s| && k != i && k != j ==> r[k] == s[k]
  {
    s[i := s[j]][j := s[i]]
  }

  lemma SwapKeepsMultiset(s: seq<nat>, i: nat, j: nat)
    requires i < |s| && j < |s|
    ensures multiset(Swap(s, i, j)) == multiset(s)
  {
  }

  lemma SwapInRange(tsp: Matrix, s: seq<nat>, i: nat, j: nat)
    requires CitiesInRange(tsp, s) && i < |s| && j < |s|
    ensures CitiesInRange(tsp, Swap(s, i, j))
  {
  }

  lemma SwapPreservesPermutation(s: seq<nat>, n: nat, i: nat, j: nat)
    requires IsPermutation(s, n) && i < |s| && j < |s|
    ensures IsPermutation(Swap(s, i, j), n)
  {
  }

  /** On a tour without repeated cities, distinct position pairs give distinct swaps. */
  lemma SwapsDiffer(s: seq<nat>, a: nat, b: nat, c: nat, d: nat)
    requires a < b < |s| && c < d < |s| && (a, b) != (c, d)
    requires Distinct(s)
    ensures Swap(s, a, b) != Swap(s, c, d)
  {
    if a != c && a != d {
      assert Swap(s, a, b)[a] == s[b] != s[a] == Swap(s, c, d)[a];
    } else if b != c && b != d {
      assert Swap(s, a, b)[b] == s[a] != s[b] == Swap(s, c, d)[b];
    }
  }

  /** Lexicographic order on position pairs. */
  predicate LexLess(p: (nat, nat), q: (nat, nat)) {
    p.0 < q.0 || (p.0 == q.0 && p.1 < q.1)
  }

  /** The pairs visited by the inner loop for outer index i: (i, i+1) .. (i, n-1). */
  function Row(n: nat, i: nat): seq<(nat, nat)>
    requires i < n
  {
    seq(n - i - 1, d requires 0 <= d < n - i - 1 => (i, i + 1 + d))
  }

  /** Row i holds exactly the pairs (i, j) with i < j < n, j ascending. */
  lemma RowContents(n: nat, i: nat)
    requires i < n
    ensures |Row(n, i)| == n - i - 1
    ensures forall p :: p in Row(n, i) <==> p.0 == i && i < p.1 < n
    ensures forall a, b :: 0 <= a < b < |Row(n, i)| ==> Row(n, i)[a].1 < Row(n, i)[b].1
  {
    forall p: (nat, nat) | p.0 == i && i < p.1 < n
      ensures p in Row(n, i)
    {
      assert Row(n, i)[p.1 - i - 1] == p;
    }
  }

  /** The pairs visited while the outer index runs over 0 .. i-1. */
  function PairsBefore(n: nat, i: nat): (r: seq<(nat, nat)>)
    requires i <= n
    ensures forall k :: 0 <= k < |r| ==> r[k].0 < i && r[k].0 < r[k].1 < n
    ensures 1 <= i && 2 <= n ==> |r| > 0
  {
    if i == 0 then [] else PairsBefore(n, i - 1) + Row(n, i - 1)
  }

  /** Every position pair i < j < n, i ascending, then j ascending. */
  function Pairs(n: nat): (r: seq<(nat, nat)>)
    ensures forall k :: 0 <= k < |r| ==> r[k].0 < r[k].1 < n
    ensures 2 <= n ==> |r| > 0
  {
    PairsBefore(n, n)
  }

  /** Outer rows 0 .. i-1 hold (n-1) + (n-2) + ... + (n-i) pairs. */
  lemma {:induction false} PairsBeforeCount(n: nat, i: nat)
    requires i <= n
    ensures 2 * |PairsBefore(n, i)| == i * (2 * n - i - 1)
  {
    if i > 0 {
      PairsBeforeCount(n, i - 1);
      assert |PairsBefore(n, i)| == |PairsBefore(n, i - 1)| + (n - i);
      assert (i - 1) * (2 * n - i) == i * (2 * n - i) - (2 * n - i);
    }
  }

  /** There are n(n-1)/2 pairs. */
  lemma PairsCount(n: nat)
    ensures |Pairs(n)| == n * (n - 1) / 2
  {
    PairsBeforeCount(n, n);
    assert Pairs(n) == PairsBefore(n, n);
    assert 2 * |Pairs(n)| == n * (n - 1);
  }

  /** The first pair is (0, 1). */
  lemma PairsStart(n: nat)
    requires 2 <= n
    ensures Pairs(n)[0] == (0, 1)
  {
    var i := 1;
    while i < n
      invariant 1 <= i <= n && PairsBefore(n, i)[0] == (0, 1)
    {
      assert PairsBefore(n, i + 1)[0] == PairsBefore(n, i)[0];
      i := i + 1;
    }
    assert Pairs(n) == PairsBefore(n, n);
  }

  /** The pairs come in lexicographic order, so none is listed twice. */
  lemma {:induction false} PairsBeforeSorted(n: nat, i: nat)
    requires i <= n
    ensures forall k, l :: 0 <= k < l < |PairsBefore(n, i)| ==> LexLess(PairsBefore(n, i)[k], PairsBefore(n, i)[l])
  {
    if i > 0 {
      PairsBeforeSorted(n, i - 1);
      var prefix := PairsBefore(n, i - 1);
      var r := PairsBefore(n, i);
      forall k, l | 0 <= k < l < |r|
        ensures LexLess(r[k], r[l])
      {
        if l < |prefix| {
          assert r[k] == prefix[k] && r[l] == prefix[l];
        } else if k < |prefix| {
          assert r[k] == prefix[k];
        }
      }
    }
  }

  lemma PairsSorted(n: nat)
    ensures forall k, l :: 0 <= k < l < |Pairs(n)| ==> LexLess(Pairs(n)[k], Pairs(n)[l])
  {
    PairsBeforeSorted(n, n);
    assert Pairs(n) == PairsBefore(n, n);
  }

  lemma {:induction false} PairsBeforeComplete(n: nat, i: nat, a: nat, b: nat)
    requires a < i <= n && a < b < n
    ensures exists k :: 0 <= k < |PairsBefore(n, i)| && PairsBefore(n, i)[k] == (a, b)
  {
    var prefix := PairsBefore(n, i - 1);
    if a == i - 1 {
      var k := |prefix| + (b - a - 1);
      assert PairsBefore(n, i)[k] == Row(n, a)[b - a - 1] == (a, b);
    } else {
      PairsBeforeComplete(n, i - 1, a, b);
      var k :| 0 <= k < |prefix| && prefix[k] == (a, b);
      assert PairsBefore(n, i)[k] == (a, b);
    }
  }

  lemma PairsComplete(n: nat, a: nat, b: nat)
    requires a < b < n
    ensures exists k :: 0 <= k < |Pairs(n)| && Pairs(n)[k] == (a, b)
  {
    PairsBeforeComplete(n, n, a, b);
    assert Pairs(n) == PairsBefore(n, n);
  }

  /** One swapped copy of s per pair of ps, in the order of ps (s itself for a pair out of range). */
  function SwapsAlong(s: seq<nat>, ps: seq<(nat, nat)>): (ns: seq<seq<nat>>)
    ensures |ns| == |ps|
  {
    seq(|ps|, k requires 0 <= k < |ps| =>
      if ps[k].0 < |s| && ps[k].1 < |s| then Swap(s, ps[k].0, ps[k].1) else s)
  }

  lemma SwapsAlongAppend(s: seq<nat>, ps: seq<(nat, nat)>, p: (nat, nat))
    requires p.0 < |s| && p.1 < |s|
    ensures SwapsAlong(s, ps + [p]) == SwapsAlong(s, ps) + [Swap(s, p.0, p.1)]
  {
  }

  /** The tours one swap away from s, in the order the nested loops build them. */
  function Neighbourhood(s: seq<nat>): (ns: seq<seq<nat>>)
    ensures |ns| == |Pairs(|s|)|
    ensures |s| >= 2 ==> |ns| > 0
  {
    SwapsAlong(s, Pairs(|s|))
  }

  /** The neighbourhood has one tour per pair of positions, n(n-1)/2 in all. */
  lemma NeighbourhoodSize(s: seq<nat>)
    ensures |Neighbourhood(s)| == |s| * (|s| - 1) / 2
  {
    PairsCount(|s|);
  }

  /** Every entry of the neighbourhood is s with one pair of positions swapped. */
  lemma NeighbourIsSwap(s: seq<nat>, k: nat)
    requires k < |Neighbourhood(s)|
    ensures exists i, j :: 0 <= i < j < |s| && Neighbourhood(s)[k] == Swap(s, i, j)
  {
    var p := Pairs(|s|)[k];
    assert Neighbourhood(s)[k] == Swap(s, p.0, p.1);
  }

  /** Every swap of two positions is in the neighbourhood. */
  lemma SwapIsNeighbour(s: seq<nat>, i: nat, j: nat)
    requires i < j < |s|
    ensures Swap(s, i, j) in Neighbourhood(s)
  {
    PairsComplete(|s|, i, j);
    var k :| 0 <= k < |Pairs(|s|)| && Pairs(|s|)[k] == (i, j);
    assert Neighbourhood(s)[k] == Swap(s, i, j);
  }

  /** On a tour without repeated cities, the neighbours are pairwise different. */
  lemma NeighbourhoodDistinct(s: seq<nat>)
    requires Distinct(s)
    ensures forall k, l :: 0 <= k < l < |Neighbourhood(s)| ==> Neighbourhood(s)[k] != Neighbourhood(s)[l]
  {
    var ns := Neighbourhood(s);
    var ps := Pairs(|s|);
    PairsSorted(|s|);
    forall k, l | 0 <= k < l < |ns|
      ensures ns[k] != ns[l]
    {
      assert LexLess(ps[k], ps[l]);
      SwapsDiffer(s, ps[k].0, ps[k].1, ps[l].0, ps[l].1);
    }
  }

  lemma NeighbourhoodInRange(tsp: Matrix, s: seq<nat>)
    requires ValidTour(tsp, s)
    ensures AllValidTours(tsp, Neighbourhood(s))
    ensures forall k :: 0 <= k < |Neighbourhood(s)| ==> |Neighbourhood(s)[k]| == |s|
  {
    var ns := Neighbourhood(s);
    forall k | 0 <= k < |ns|
      ensures CitiesInRange(tsp, ns[k]) && |ns[k]| == |s|
    {
      var p := Pairs(|s|)[k];
      SwapInRange(tsp, s, p.0, p.1);
    }
  }

  lemma NeighbourhoodPreservesPermutation(s: seq<nat>, n: nat)
    requires IsPermutation(s, n)
    ensures forall k :: 0 <= k < |Neighbourhood(s)| ==> IsPermutation(Neighbourhood(s)[k], n)
  {
    var ns := Neighbourhood(s);
    forall k | 0 <= k < |ns|
      ensures IsPermutation(ns[k], n)
    {
      var p := Pairs(|s|)[k];
      SwapPreservesPermutation(s, n, p.0, p.1);
    }
  }

  /**
   * The index that a left-to-right scan of ns[..m] keeps when it replaces its
   * candidate only on a strictly shorter tour.
   */
  function FirstMinIn(tsp: Matrix, ns: seq<seq<nat>>, m: nat): (k: nat)
    requires 1 <= m <= |ns| && AllValidTours(tsp, ns)
    ensures k < m
  {
    if m == 1 then 0
    else
      var k := FirstMinIn(tsp, ns, m - 1);
      if TourLength(tsp, ns[m - 1]) < TourLength(tsp, ns[k]) then m - 1 else k
  }

  function FirstMinIndex(tsp: Matrix, ns: seq<seq<nat>>): (k: nat)
    requires |ns| > 0 && AllValidTours(tsp, ns)
    ensures k < |ns|
  {
    FirstMinIn(tsp, ns, |ns|)
  }

  /** ns[k] is a shortest tour of ns, and every earlier tour is strictly longer. */
  predicate IsFirstMinimum(tsp: Matrix, ns: seq<seq<nat>>, k: nat)
    requires AllValidTours(tsp, ns)
  {
    k < |ns| &&
    (forall m :: 0 <= m < |ns| ==> TourLength(tsp, ns[k]) <= TourLength(tsp, ns[m])) &&
    (forall m :: 0 <= m < k ==> TourLength(tsp, ns[k]) < TourLength(tsp, ns[m]))
  }

  lemma {:induction false} FirstMinInIsFirstMinimum(tsp: Matrix, ns: seq<seq<nat>>, m: nat)
    requires 1 <= m <= |ns| && AllValidTours(tsp, ns)
    ensures forall x :: 0 <= x < m ==> TourLength(tsp, ns[FirstMinIn(tsp, ns, m)]) <= TourLength(tsp, ns[x])
    ensures forall x :: 0 <= x < FirstMinIn(tsp, ns, m) ==> TourLength(tsp, ns[FirstMinIn(tsp, ns, m)]) < TourLength(tsp, ns[x])
  {
    if m > 1 {
      FirstMinInIsFirstMinimum(tsp, ns, m - 1);
    }
  }

  lemma FirstMinIndexIsFirstMinimum(tsp: Matrix, ns: seq<seq<nat>>)
    requires |ns| > 0 && AllValidTours(tsp, ns)
    ensures IsFirstMinimum(tsp, ns, FirstMinIndex(tsp, ns))
  {
    FirstMinInIsFirstMinimum(tsp, ns, |ns|);
  }

  /** The scan's choice is the only index that is a first minimum. */
  lemma FirstMinimumIsUnique(tsp: Matrix, ns: seq<seq<nat>>, k: nat)
    requires |ns| > 0 && AllValidTours(tsp, ns)
    ensures IsFirstMinimum(tsp, ns, k) <==> k == FirstMinIndex(tsp, ns)
  {
    FirstMinIndexIsFirstMinimum(tsp, ns);
  }

  /** The neighbour that the selection over the neighbourhood of s returns. */
  function BestOf(tsp: Matrix, s: seq<nat>): (b: seq<nat>)
    requires ValidTour(tsp, s) && |s| >= 2
    ensures ValidTour(tsp, b) && |b| == |s|
  {
    NeighbourhoodInRange(tsp, s);
    var ns := Neighbourhood(s);
    ns[FirstMinIndex(tsp, ns)]
  }

  /** The best neighbour is a swap of s and no swap of s is shorter. */
  lemma BestOfIsBestSwap(tsp: Matrix, s: seq<nat>)
    requires ValidTour(tsp, s) && |s| >= 2
    ensures exists i, j :: 0 <= i < j < |s| && BestOf(tsp, s) == Swap(s, i, j)
    ensures forall i, j :: 0 <= i < j < |s| ==> TourLength(tsp, BestOf(tsp, s)) <= TourLength(tsp, Swap(s, i, j))
  {
    NeighbourhoodInRange(tsp, s);
    var ns := Neighbourhood(s);
    var k := FirstMinIndex(tsp, ns);
    NeighbourIsSwap(s, k);
    FirstMinIndexIsFirstMinimum(tsp, ns);
    forall i, j | 0 <= i < j < |s|
      ensures TourLength(tsp, BestOf(tsp, s)) <= TourLength(tsp, Swap(s, i, j))
    {
      SwapIsNeighbour(s, i, j);
    }
  }

  /** Moving to the best neighbour keeps the cities of the tour. */
  lemma BestOfKeepsCities(tsp: Matrix, s: seq<nat>)
    requires ValidTour(tsp, s) && |s| >= 2
    ensures |BestOf(tsp, s)| == |s| && multiset(BestOf(tsp, s)) == multiset(s)
    ensures IsPermutation(s, |s|) ==> IsPermutation(BestOf(tsp, s), |s|)
  {
    BestOfIsBestSwap(tsp, s);
    var i, j :| 0 <= i < j < |s| && BestOf(tsp, s) == Swap(s, i, j);
    SwapKeepsMultiset(s, i, j);
    if IsPermutation(s, |s|) {
      SwapPreservesPermutation(s, |s|, i, j);
    }
  }

  /** No single swap of two positions gives a strictly shorter tour. */
  predicate IsLocalOptimum(tsp: Matrix, s: seq<nat>)
    requires ValidTour(tsp, s)
  {
    forall i, j :: 0 <= i < j < |s| ==> TourLength(tsp, s) <= TourLength(tsp, Swap(s, i, j))
  }

  /** The loop's stopping test is exactly local optimality. */
  lemma LocalOptimumIff(tsp: Matrix, s: seq<nat>)
    requires ValidTour(tsp, s) && |s| >= 2
    ensures IsLocalOptimum(tsp, s) <==> TourLength(tsp, s) <= TourLength(tsp, BestOf(tsp, s))
  {
    BestOfIsBestSwap(tsp, s);
  }
}
