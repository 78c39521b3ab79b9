/**
 * Distance matrices, tours and the closed-tour length (hill.py, routelength).
 *
 * A tour visits the cities in the order of its positions and returns from the
 * last city to the first. Its length is the sum of one edge per position i: the
 * edge that enters s[i] from the city before it, where the city before
 * position 0 is the last one (Python's s[-1]).
 */
module Tours {

  /** Row r, column c: the distance from city r to city c. */
  type Matrix = seq<seq<nat>>

  predicate IsSquare(tsp: Matrix) {
    forall r :: 0 <= r < |tsp| ==> |tsp[r]| == |tsp|
  }

  predicate IsSymmetric(tsp: Matrix) {
    IsSquare(tsp) &&
    forall a, b :: 0 <= a < |tsp| && 0 <= b < |tsp| ==> tsp[a][b] == tsp[b][a]
  }

  /** Every city of the tour is a row (and, the matrix being square, a column). */
  predicate CitiesInRange(tsp: Matrix, s: seq<nat>) {
    forall i :: 0 <= i < |s| ==> s[i] < |tsp|
  }

  predicate ValidTour(tsp: Matrix, s: seq<nat>) {
    IsSquare(tsp) && CitiesInRange(tsp, s)
  }

  predicate AllValidTours(tsp: Matrix, ns: seq<seq<nat>>) {
    IsSquare(tsp) && forall k :: 0 <= k < |ns| ==> CitiesInRange(tsp, ns[k])
  }

  /** No city occurs twice. */
  predicate Distinct(s: seq<nat>) {
    forall i, j :: 0 <= i < j < |s| ==> s[i] != s[j]
  }

  /** s holds each of the cities 0 .. n-1 exactly once. */
  predicate IsPermutation(s: seq<nat>, n: nat) {
    |s| == n &&
    (forall i :: 0 <= i < |s| ==> s[i] < n) &&
    Distinct(s)
  }

  /** The position after i on a cyclic tour of n positions. */
  function Next(n: nat, i: nat): (q: nat)
    requires i < n
    ensures q < n
    ensures q == 0 <==> i == n - 1
  {
    if i == n - 1 then 0 else i + 1
  }

  /** The position before i on a cyclic tour of n positions: Python's index i - 1. */
  function Prev(n: nat, i: nat): (p: nat)
    requires i < n
    ensures p < n && Next(n, p) == i
  {
    if i == 0 then n - 1 else i - 1
  }

  function Sum(xs: seq<nat>): nat {
    if xs == [] then 0 else Sum(xs[..|xs| - 1]) + xs[|xs| - 1]
  }

  function Reverse(s: seq<nat>): seq<nat> {
    seq(|s|, i requires 0 <= i < |s| => s[|s| - 1 - i])
  }

  /** The tour started from its second city. */
  function Rotate(s: seq<nat>): (r: seq<nat>)
    ensures |r| == |s|
    ensures forall i :: 0 <= i < |s| ==> r[i] == s[Next(|s|, i)]
  {
    if s == [] then [] else s[1..] + [s[0]]
  }

  /** Entry i is the edge entering position i, from the position before it. */
  function EdgeLengths(tsp: Matrix, s: seq<nat>): (e: seq<nat>)
    requires ValidTour(tsp, s)
    ensures |e| == |s|
  {
    seq(|s|, i requires 0 <= i < |s| => tsp[s[Prev(|s|, i)]][s[i]])
  }

  /** Entry i is the edge leaving position i, towards the position after it. */
  function LegLengths(tsp: Matrix, s: seq<nat>): (e: seq<nat>)
    requires ValidTour(tsp, s)
    ensures |e| == |s|
  {
    seq(|s|, i requires 0 <= i < |s| => tsp[s[i]][s[Next(|s|, i)]])
  }

  /** Python reads index -1 as the last position: the first city is entered
      from the last one, every other city from the one before it. */
  lemma EdgeLengthsReadPreviousCity(tsp: Matrix, s: seq<nat>)
    requires ValidTour(tsp, s)
    ensures |s| > 0 ==> EdgeLengths(tsp, s)[0] == tsp[s[|s| - 1]][s[0]]
    ensures forall i :: 1 <= i < |s| ==> EdgeLengths(tsp, s)[i] == tsp[s[i - 1]][s[i]]
  {
  }

  /** The length of the closed tour, back to its first city included. */
  function TourLength(tsp: Matrix, s: seq<nat>): nat
    requires ValidTour(tsp, s)
  {
    Sum(EdgeLengths(tsp, s))
  }

  lemma {:induction false} SumAppend(a: seq<nat>, b: seq<nat>)
    ensures Sum(a + b) == Sum(a) + Sum(b)
  {
    if b == [] {
      assert a + b == a;
    } else {
      var b' := b[..|b| - 1];
      assert (a + b)[..|a + b| - 1] == a + b';
      SumAppend(a, b');
    }
  }

  lemma {:induction false} SumReverse(xs: seq<nat>)
    ensures Sum(Reverse(xs)) == Sum(xs)
  {
    if xs != [] {
      var n := |xs|;
      var init := xs[..n - 1];
      assert Reverse(xs) == [xs[n - 1]] + Reverse(init);
      SumAppend([xs[n - 1]], Reverse(init));
      assert [xs[n - 1]][..0] == [];
      SumReverse(init);
    }
  }

  /** Moving the first element of a sequence to its end keeps its sum. */
  lemma SumRotate(xs: seq<nat>)
    ensures Sum(Rotate(xs)) == Sum(xs)
  {
    if xs != [] {
      SumAppend(xs[1..], [xs[0]]);
      SumAppend([xs[0]], xs[1..]);
      assert [xs[0]] + xs[1..] == xs;
      assert [xs[0]][..0] == [];
    }
  }

  lemma TourLengthOfEmptyTour(tsp: Matrix)
    requires IsSquare(tsp)
    ensures TourLength(tsp, []) == 0
  {
  }

  /** A one-city tour has the single edge from the city to itself. */
  lemma TourLengthOfSingleCity(tsp: Matrix, c: nat)
    requires IsSquare(tsp) && c < |tsp|
    ensures TourLength(tsp, [c]) == tsp[c][c]
  {
    var e := EdgeLengths(tsp, [c]);
    assert e == [tsp[c][c]] && e[..0] == [];
    assert Sum(e) == Sum(e[..0]) + e[0];
  }

  /** Summing the edges leaving each position gives the same length. */
  lemma TourLengthIsSumOfLegs(tsp: Matrix, s: seq<nat>)
    requires ValidTour(tsp, s)
    ensures TourLength(tsp, s) == Sum(LegLengths(tsp, s))
  {
    var e := EdgeLengths(tsp, s);
    assert LegLengths(tsp, s) == Rotate(e);
    SumRotate(e);
  }

  /** Starting the tour from another city does not change its length. */
  lemma TourLengthRotate(tsp: Matrix, s: seq<nat>)
    requires ValidTour(tsp, s)
    ensures ValidTour(tsp, Rotate(s)) && TourLength(tsp, Rotate(s)) == TourLength(tsp, s)
  {
    var r := Rotate(s);
    var e := EdgeLengths(tsp, s);
    assert CitiesInRange(tsp, r);
    forall i | 0 <= i < |s|
      ensures EdgeLengths(tsp, r)[i] == Rotate(e)[i]
    {
      assert r[Prev(|s|, i)] == s[i];
    }
    assert EdgeLengths(tsp, r) == Rotate(e);
    SumRotate(e);
  }

  /** The tour started from its city at position k. */
  function RotateBy(s: seq<nat>, k: nat): (r: seq<nat>)
    requires k <= |s|
    ensures |r| == |s|
    ensures forall i :: 0 <= i < |s| - k ==> r[i] == s[k + i]
    ensures forall i :: |s| - k <= i < |s| ==> r[i] == s[i - (|s| - k)]
  {
    s[k..] + s[..k]
  }

  /** Rotating by one more position is one more Rotate. */
  lemma RotateByStep(s: seq<nat>, k: nat)
    requires 0 < k <= |s|
    ensures RotateBy(s, k) == Rotate(RotateBy(s, k - 1))
  {
    var r := RotateBy(s, k - 1);
    assert r[1..] + [r[0]] == s[k..] + s[..k] by {
      assert r[0] == s[k - 1];
      assert r[1..] == s[k..] + s[..k - 1];
      assert s[..k] == s[..k - 1] + [s[k - 1]];
    }
  }

  /** Starting the tour from any of its cities does not change its length. */
  lemma {:induction false} TourLengthRotateBy(tsp: Matrix, s: seq<nat>, k: nat)
    requires ValidTour(tsp, s) && k <= |s|
    ensures ValidTour(tsp, RotateBy(s, k)) && TourLength(tsp, RotateBy(s, k)) == TourLength(tsp, s)
  {
    if k == 0 {
      assert RotateBy(s, 0) == s;
    } else {
      TourLengthRotateBy(tsp, s, k - 1);
      RotateByStep(s, k);
      TourLengthRotate(tsp, RotateBy(s, k - 1));
    }
  }

  /** On a symmetric matrix, a tour walked backwards has the same length. */
  lemma TourLengthReverse(tsp: Matrix, s: seq<nat>)
    requires IsSymmetric(tsp) && CitiesInRange(tsp, s)
    ensures ValidTour(tsp, Reverse(s)) && TourLength(tsp, Reverse(s)) == TourLength(tsp, s)
  {
    var n := |s|;
    var r := Reverse(s);
    assert CitiesInRange(tsp, r);
    if n > 0 {
      var e := EdgeLengths(tsp, s);
      var er := EdgeLengths(tsp, r);
      forall i | 0 <= i < n
        ensures er[i] == ([e[0]] + Reverse(e[1..]))[i]
      {
        if i == 0 {
          assert er[0] == tsp[s[0]][s[n - 1]];
        } else {
          assert er[i] == tsp[s[n - i]][s[n - 1 - i]];
          assert e[n - i] == tsp[s[n - i - 1]][s[n - i]];
        }
      }
      assert er == [e[0]] + Reverse(e[1..]);
      SumAppend([e[0]], Reverse(e[1..]));
      SumReverse(e[1..]);
      SumAppend([e[0]], e[1..]);
      assert [e[0]] + e[1..] == e;
    }
  }
}
