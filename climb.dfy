/**
 * The run of the hill-climbing controller (hill.py, hill_climbing), stated on
 * the sequence of tours it stands on and the trajectory it records.
 */
module Climbs {
  import opened Tours
  import opened Neighbourhoods

  /** Round k moved from visited[k] to its strictly shorter best neighbour, of length trajectory[k]. */
  ghost predicate StepAt(tsp: Matrix, visited: seq<seq<nat>>, trajectory: seq<nat>, k: nat)
    requires k + 1 < |visited| && k < |trajectory|
    requires ValidTour(tsp, visited[k]) && |visited[k]| >= 2
  {
    visited[k + 1] == BestOf(tsp, visited[k]) &&
    trajectory[k] == TourLength(tsp, visited[k + 1]) &&
    trajectory[k] < TourLength(tsp, visited[k])
  }

  /**
   * visited[0] is the initial tour and each later tour is the best neighbour
   * of the one before it, strictly shorter than it; trajectory[k] is the length
   * of visited[k + 1].
   */
  ghost predicate Descends(tsp: Matrix, initial: seq<nat>, visited: seq<seq<nat>>, trajectory: seq<nat>) {
    |initial| >= 2 &&
    |visited| == |trajectory| + 1 && visited[0] == initial &&
    (forall k :: 0 <= k < |visited| ==> ValidTour(tsp, visited[k]) && |visited[k]| == |initial|) &&
    (forall k :: 0 <= k < |trajectory| ==> StepAt(tsp, visited, trajectory, k))
  }

  /**
   * A finished run: it descended as above, then recorded the length of the
   * best neighbour of its last tour, which was not shorter than that tour.
   * Here visited and trajectory have the same length.
   */
  ghost predicate Climbed(tsp: Matrix, initial: seq<nat>, visited: seq<seq<nat>>, trajectory: seq<nat>) {
    |initial| >= 2 &&
    |visited| == |trajectory| >= 1 && visited[0] == initial &&
    (forall k :: 0 <= k < |visited| ==> ValidTour(tsp, visited[k]) && |visited[k]| == |initial|) &&
    (forall k :: 0 <= k < |trajectory| - 1 ==> StepAt(tsp, visited, trajectory, k)) &&
    trajectory[|trajectory| - 1] == TourLength(tsp, BestOf(tsp, visited[|visited| - 1])) &&
    TourLength(tsp, visited[|visited| - 1]) <= trajectory[|trajectory| - 1]
  }

  lemma DescendsStart(tsp: Matrix, initial: seq<nat>)
    requires ValidTour(tsp, initial) && |initial| >= 2
    ensures Descends(tsp, initial, [initial], [])
  {
  }

  /** Taking a strictly shorter best neighbour extends the descent. */
  lemma DescendsStep(tsp: Matrix, initial: seq<nat>, visited: seq<seq<nat>>, trajectory: seq<nat>, next: seq<nat>)
    requires Descends(tsp, initial, visited, trajectory)
    requires next == BestOf(tsp, visited[|visited| - 1])
    requires TourLength(tsp, next) < TourLength(tsp, visited[|visited| - 1])
    ensures Descends(tsp, initial, visited + [next], trajectory + [TourLength(tsp, next)])
  {
    var v := visited + [next];
    var t := trajectory + [TourLength(tsp, next)];
    forall k | 0 <= k < |t|
      ensures StepAt(tsp, v, t, k)
    {
      if k < |trajectory| {
        assert StepAt(tsp, visited, trajectory, k);
        assert v[k] == visited[k] && v[k + 1] == visited[k + 1] && t[k] == trajectory[k];
      }
    }
  }

  /** Recording a best neighbour that is not shorter finishes the run. */
  lemma ClimbedByStopping(tsp: Matrix, initial: seq<nat>, visited: seq<seq<nat>>, trajectory: seq<nat>, bestLength: nat)
    requires Descends(tsp, initial, visited, trajectory)
    requires bestLength == TourLength(tsp, BestOf(tsp, visited[|visited| - 1]))
    requires TourLength(tsp, visited[|visited| - 1]) <= bestLength
    ensures Climbed(tsp, initial, visited, trajectory + [bestLength])
  {
    var t := trajectory + [bestLength];
    forall k | 0 <= k < |t| - 1
      ensures StepAt(tsp, visited, t, k)
    {
      assert StepAt(tsp, visited, trajectory, k);
      assert t[k] == trajectory[k];
    }
  }

  /** Each entry of t is strictly smaller than every entry before it. */
  predicate StrictlyDecreasing(t: seq<nat>) {
    forall j, k :: 0 <= j < k < |t| ==> t[k] < t[j]
  }

  lemma DecreasingAppend(t: seq<nat>, x: nat)
    requires StrictlyDecreasing(t) && |t| > 0 && x < t[|t| - 1]
    ensures StrictlyDecreasing(t + [x])
  {
    var u := t + [x];
    forall j, k | 0 <= j < k < |u|
      ensures u[k] < u[j]
    {
      if k < |t| {
        assert u[j] == t[j] && u[k] == t[k];
      } else {
        assert u[j] == t[j];
        assert t[|t| - 1] <= t[j];
      }
    }
  }

  /**
   * What holds at the top of each round of hill_climbing's loop: the run so
   * far descended and stands on solution, of the given length; the initial
   * length followed by the trajectory strictly decreases down to length;
   * solution has the initial tour's cities; and if a move was made, the
   * initial tour was no local optimum.
   */
  ghost predicate Running(tsp: Matrix, initial: seq<nat>, visited: seq<seq<nat>>, trajectory: seq<nat>, solution: seq<nat>, length: nat) {
    Descends(tsp, initial, visited, trajectory) &&
    solution == visited[|visited| - 1] && length == TourLength(tsp, solution) &&
    StrictlyDecreasing([TourLength(tsp, initial)] + trajectory) &&
    length == ([TourLength(tsp, initial)] + trajectory)[|trajectory|] &&
    multiset(solution) == multiset(initial) &&
    (IsPermutation(initial, |initial|) ==> IsPermutation(solution, |initial|)) &&
    (|trajectory| > 0 ==> !IsLocalOptimum(tsp, initial))
  }

  lemma RunningStart(tsp: Matrix, initial: seq<nat>, length: nat)
    requires ValidTour(tsp, initial) && |initial| >= 2 && length == TourLength(tsp, initial)
    ensures Running(tsp, initial, [initial], [], initial, length)
  {
    DescendsStart(tsp, initial);
  }

  /**
   * A round whose best neighbour next is strictly shorter appends its length
   * to the trajectory, giving extended, and moves to next.
   */
  lemma RunningStep(tsp: Matrix, initial: seq<nat>, visited: seq<seq<nat>>, trajectory: seq<nat>, solution: seq<nat>, length: nat,
                    next: seq<nat>, nextLength: nat, extended: seq<nat>)
    requires Running(tsp, initial, visited, trajectory, solution, length)
    requires next == BestOf(tsp, solution) && nextLength == TourLength(tsp, next) && nextLength < length
    requires extended == trajectory + [nextLength]
    ensures Running(tsp, initial, visited + [next], extended, next, nextLength)
  {
    var lengths := [TourLength(tsp, initial)] + trajectory;
    DescendsStep(tsp, initial, visited, trajectory, next);
    BestOfKeepsCities(tsp, solution);
    DecreasingAppend(lengths, nextLength);
    assert lengths + [nextLength] == [TourLength(tsp, initial)] + extended;
    if |trajectory| == 0 {
      assert solution == initial;
      LocalOptimumIff(tsp, initial);
    }
  }

  /**
   * What hill_climbing promises on return: the finished run stands on
   * solution, of the given length; solution has the initial tour's cities and
   * is no longer than it; the initial length followed by the trajectory
   * without its last entry strictly decreases down to length; the last entry
   * is not below length; solution is a local optimum; and the run took one
   * round exactly when the initial tour was a local optimum.
   */
  ghost predicate Finished(tsp: Matrix, initial: seq<nat>, visited: seq<seq<nat>>, trajectory: seq<nat>, solution: seq<nat>, length: nat) {
    Climbed(tsp, initial, visited, trajectory) && solution == visited[|visited| - 1] &&
    ValidTour(tsp, solution) && |solution| == |initial| &&
    multiset(solution) == multiset(initial) &&
    (IsPermutation(initial, |initial|) ==> IsPermutation(solution, |initial|)) &&
    length == TourLength(tsp, solution) && length <= TourLength(tsp, initial) &&
    length <= trajectory[|trajectory| - 1] &&
    StrictlyDecreasing([TourLength(tsp, initial)] + trajectory[..|trajectory| - 1]) &&
    length == ([TourLength(tsp, initial)] + trajectory)[|trajectory| - 1] &&
    IsLocalOptimum(tsp, solution) &&
    (|trajectory| == 1 <==> IsLocalOptimum(tsp, initial)) &&
    (|trajectory| == 1 ==> solution == initial)
  }

  /**
   * The round whose best neighbour is not shorter appends that neighbour's
   * length to the trajectory, giving finished, and ends the run.
   */
  lemma RunningStop(tsp: Matrix, initial: seq<nat>, visited: seq<seq<nat>>, trajectory: seq<nat>, solution: seq<nat>, length: nat,
                    bestLength: nat, finished: seq<nat>)
    requires Running(tsp, initial, visited, trajectory, solution, length)
    requires bestLength == TourLength(tsp, BestOf(tsp, solution)) && length <= bestLength
    requires finished == trajectory + [bestLength]
    ensures Finished(tsp, initial, visited, finished, solution, length)
  {
    var lengths := [TourLength(tsp, initial)] + trajectory;
    ClimbedByStopping(tsp, initial, visited, trajectory, bestLength);
    LocalOptimumIff(tsp, solution);
    assert finished[..|finished| - 1] == trajectory;
    assert ([TourLength(tsp, initial)] + finished)[|finished| - 1] == lengths[|trajectory|];
    if |trajectory| > 0 {
      assert lengths[|trajectory|] < lengths[0];
    } else {
      assert solution == initial;
    }
  }

  /** Climbing again from a finished run's result takes one round and returns that result unchanged. */
  lemma ClimbIsIdempotent(tsp: Matrix, initial: seq<nat>, visited: seq<seq<nat>>, trajectory: seq<nat>, solution: seq<nat>, length: nat,
                          visited': seq<seq<nat>>, trajectory': seq<nat>, solution': seq<nat>, length': nat)
    requires Finished(tsp, initial, visited, trajectory, solution, length)
    requires Finished(tsp, solution, visited', trajectory', solution', length')
    ensures |trajectory'| == 1 && solution' == solution && length' == length
  {
  }
}
