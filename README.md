# Hill climbing for the travelling salesman problem

This project models the local-search engine of `hill.py`:

- `randomSolution` draws an initial tour from a shrinking pool of cities.
- `routelength` sums a closed tour over a distance matrix, with the wrap-around edge taken through Python's `solution[-1]`.
- `getNeighbour` lists every tour one position swap away, `i` ascending, then `j` from `i + 1`.
- `getBestNeighbours` keeps the first tour of strictly smallest length.
- `hill_climbing` moves to the best neighbour while it is strictly shorter, and records the best neighbour's length once per round.

Each Python function is an imperative Dafny method with the same loops. Each method is proved against pure specification functions, and lemmas state what those functions promise.

Modules:

- `Tours` (`tours.dfy`): the distance matrix, tours and the closed-tour length `TourLength`.
- `Neighbourhoods` (`neighbourhood.dfy`): the swap, the enumeration of position pairs, the neighbourhood, the first-minimum selection, the best neighbour `BestOf` and local optimality.
- `Climbs` (`climb.dfy`): the run of the controller. `Running` is the state at the top of each round, and `Finished` is what a run promises on return.
- `Hill` (`hill.dfy`): the five methods of `hill.py`.

Modelling choices:

- Distances are natural numbers, so a strictly shorter tour can be taken only finitely often. `HillClimbing` terminates by `decreases length`.
- The outcomes of `random.randint` are the parameter `picks`. Draw `k` is an index into the pool of `n - k` cities that is left at that point.
- `list.remove` is `Hill.RemoveFirst`: it deletes the first occurrence. The pool never holds a city twice, so that occurrence is the drawn position (`Hill.RemoveFirstAt`).
- Python lists are Dafny sequences, which are values. So `getNeighbour`'s `solution.copy()` and its in-place swap become a swap on a copy, and the input tour is unchanged by construction.
- The tours that `hill_climbing` stands on are the ghost result `visited`. The tour reached after `k` moves is `visited[k]`.

Two corner cases of the code are modelled as written:

- For a one-city tour, `routelength` returns `tsp[c][c]` (`Tours.TourLengthOfSingleCity`), although the tour has no real edge.
- `hill_climbing` has no guard for fewer than two cities. With one city, `getNeighbour` returns an empty list and `getBestNeighbours` fails on `neighbours[0]`. With no city, the same happens. So `HillClimbing` and `BestNeighbour` require what keeps that index valid: a tour of at least two cities, and a non-empty list.
- `randomSolution` has no error path for a negative city count, because `len` is never negative.

## Model

| member | source | states |
|---|---|---|
| Tours.Prev | hill.py:23 | the position that Python's `solution[i - 1]` reaches, the last one for `i == 0`, is in range, and `Next` leads from it back to `i` |
| Tours.Next | hill.py:22-23 | the position after `i` is in range and wraps to 0 exactly at the last position |
| Tours.TourLengthOfEmptyTour | hill.py:21-24 | the empty tour has length 0 |
| Tours.TourLengthOfSingleCity | hill.py:22-23 | a one-city tour has the single edge from the city to itself |
| Tours.TourLengthIsSumOfLegs | hill.py:22-23 | summing the edge leaving each position gives the same length as summing the edge entering it |
| Tours.TourLengthRotate | hill.py:22-23 | starting the closed tour from its second city keeps its length |
| Tours.RotateBy | hill.py:22-23 | the tour started from position `k` keeps every city: the tail from `k` comes first, then the head before `k` |
| Tours.RotateByStep | hill.py:22-23 | starting one position later is one more move of the first city to the end |
| Tours.TourLengthRotateBy | hill.py:22-23 | starting the closed tour from any of its cities keeps its length |
| Tours.EdgeLengths | hill.py:22-23 | one edge per position of the tour |
| Tours.EdgeLengthsReadPreviousCity | hill.py:22-23 | the edge added for position `i` runs from city `solution[i - 1]` to `solution[i]`, and for `i == 0` from the last city, as Python's index `-1` reads |
| Tours.TourLengthReverse | hill.py:22-23 | on a symmetric matrix, walking the tour backwards keeps its length |
| Tours.SumRotate | hill.py:22-23 | moving the first edge of the sum to its end keeps the sum |
| Tours.SumReverse | hill.py:22-23 | reversing the edges keeps the sum |
| Hill.RouteLength | hill.py:20-24 | the accumulated length is `TourLength`, the sum over every position `i` of the edge from `s[i - 1 mod n]` to `s[i]` |
| Hill.Iota | hill.py:11 | `list(range(n))` has length `n` and holds `i` at position `i` |
| Hill.RemoveAt | hill.py:16 | deleting position `p` shortens the pool by one and shifts the later entries down |
| Hill.RemoveFirst | hill.py:16 | `list.remove` deletes one entry |
| Hill.RemoveFirstAt | hill.py:14-16 | when no earlier entry equals `xs[p]`, removing the first occurrence of `xs[p]` deletes exactly position `p` |
| Hill.RemoveAtKeepsCities | hill.py:16 | the removed city plus the remaining pool is the old pool as a multiset; a pool without repeats stays without repeats and loses the city |
| Hill.Deal | hill.py:13-16 | the cities drawn by the picks, one per pick |
| Hill.DealStep | hill.py:14-16 | one draw appends the picked city and leaves the rest of the draw to the remaining picks over the reduced pool, which still has no repeats |
| Hill.DealKeepsCities | hill.py:13-16 | drawing the whole pool yields each of its cities as often as the pool holds it |
| Hill.DealKeepsDistinct | hill.py:13-16 | drawing a pool without repeats yields no repeats |
| Hill.DealOfIotaIsPermutation | hill.py:10-17 | drawing all of `list(range(n))` yields each of `0 .. n-1` exactly once |
| Hill.RandomSolution | hill.py:10-17 | for any in-range picks, the result is the draw `Deal(Iota(n), picks)`, a permutation of `0 .. n-1` that contains every city |
| Neighbourhoods.Swap | hill.py:31-32 | the copy with positions `i` and `j` exchanged keeps the length and differs from the tour at most at `i` and `j` |
| Neighbourhoods.SwapKeepsMultiset | hill.py:32 | a swap keeps the cities of the tour |
| Neighbourhoods.SwapInRange | hill.py:32 | a swap of a tour in range is in range |
| Neighbourhoods.SwapPreservesPermutation | hill.py:31-32 | a swap of a permutation of `0 .. n-1` is one |
| Neighbourhoods.SwapsDiffer | hill.py:29-32 | on a tour without repeats, two different position pairs give different swaps |
| Neighbourhoods.PairsBefore | hill.py:29-30 | the pairs listed by the outer rounds before `i` have first component below `i` and satisfy `a < b < n` |
| Neighbourhoods.Pairs | hill.py:29-30 | every listed pair satisfies `a < b < n`, and there is one when `n >= 2` |
| Neighbourhoods.PairsBeforeCount | hill.py:29-30 | the first `i` outer rounds list `(n-1) + ... + (n-i)` pairs |
| Neighbourhoods.PairsCount | hill.py:29-30 | the nested loops list `n(n-1)/2` pairs |
| Neighbourhoods.PairsStart | hill.py:29-30 | the first pair is `(0, 1)` |
| Neighbourhoods.PairsBeforeSorted | hill.py:29-30 | the rounds before `i` list their pairs in strictly increasing lexicographic order |
| Neighbourhoods.PairsSorted | hill.py:29-30 | all pairs come `i` ascending, then `j` ascending, so none is listed twice |
| Neighbourhoods.PairsBeforeComplete | hill.py:29-30 | every pair `a < b` with `a < i` is listed by the rounds before `i` |
| Neighbourhoods.PairsComplete | hill.py:29-30 | every pair `a < b < n` is listed |
| Neighbourhoods.SwapsAlong | hill.py:31-33 | one swapped copy per pair, in the order of the pairs |
| Neighbourhoods.SwapsAlongAppend | hill.py:33 | appending a pair appends its swapped copy |
| Neighbourhoods.Neighbourhood | hill.py:27-34 | one tour per pair, and a non-empty list for two or more cities |
| Neighbourhoods.NeighbourhoodSize | hill.py:27-34 | the neighbourhood has `n(n-1)/2` tours |
| Neighbourhoods.NeighbourIsSwap | hill.py:31-33 | every neighbour is the tour with two positions `i < j` swapped |
| Neighbourhoods.SwapIsNeighbour | hill.py:29-33 | every swap of two positions is a neighbour |
| Neighbourhoods.NeighbourhoodDistinct | hill.py:29-33 | on a tour without repeats, the neighbours are pairwise different |
| Neighbourhoods.NeighbourhoodInRange | hill.py:31-33 | every neighbour is a tour in range of the same length |
| Neighbourhoods.NeighbourhoodPreservesPermutation | hill.py:31-32 | every neighbour of a permutation of `0 .. n-1` is one |
| Hill.RowStep | hill.py:30-33 | one inner round appends the swap of `(i, j)`, the next pair of row `i` |
| Hill.RowDone | hill.py:29-30 | a finished inner loop completes the pairs of the outer rounds up to `i` |
| Neighbourhoods.RowContents | hill.py:29-30 | row `i` of the inner loop holds exactly the pairs `(i, j)` with `i < j < n`, `n - i - 1` of them, `j` ascending |
| Hill.RowPrefixStep | hill.py:30 | row `i` lists `(i, i + 1 + m)` after its first `m` pairs |
| Hill.Neighbours | hill.py:27-34 | the result is `Neighbourhood(solution)` and has `n(n-1)/2` entries |
| Neighbourhoods.FirstMinIn | hill.py:40-44 | the index that the first `m` steps of the scan keep lies below `m` |
| Neighbourhoods.FirstMinIndex | hill.py:37-45 | the index that the full scan keeps is in range |
| Neighbourhoods.FirstMinInIsFirstMinimum | hill.py:40-44 | after `m` steps, the kept tour is no longer than any tour seen, and strictly shorter than every one before it |
| Neighbourhoods.FirstMinIndexIsFirstMinimum | hill.py:37-45 | the kept tour is a shortest one, and every earlier tour is strictly longer |
| Neighbourhoods.FirstMinimumIsUnique | hill.py:42 | an index is a first minimum exactly when it is the one the scan keeps, since the comparison is strict |
| Hill.BestNeighbour | hill.py:37-45 | on a non-empty list, it returns the tour at the first index of minimum length, and that length; the tour is no longer than every candidate and strictly shorter than every earlier one |
| Neighbourhoods.BestOf | hill.py:53-54 | the best neighbour of a tour is a tour in range of the same size |
| Neighbourhoods.BestOfIsBestSwap | hill.py:53-54 | the best neighbour is a swap of the tour, and no swap of the tour is shorter |
| Neighbourhoods.BestOfKeepsCities | hill.py:53-54 | the best neighbour has the tour's cities, and it is a permutation when the tour is one |
| Neighbourhoods.LocalOptimumIff | hill.py:56-57 | the stopping test `bestRouteLength >= current_length` holds exactly when no swap shortens the tour |
| Hill.BestRound | hill.py:53-54 | one round returns `BestOf` of the current tour and its length |
| Climbs.DescendsStart | hill.py:49-51 | before the first round the run stands on the initial tour with an empty trajectory |
| Climbs.DescendsStep | hill.py:55-59 | accepting a strictly shorter best neighbour extends the descent by that tour and its length |
| Climbs.ClimbedByStopping | hill.py:55-57 | recording a best neighbour that is not shorter finishes the run |
| Climbs.DecreasingAppend | hill.py:56-59 | appending a value below the last keeps the lengths strictly decreasing |
| Climbs.RunningStart | hill.py:49-51 | the loop state holds on entry: initial tour, initial length, empty trajectory |
| Climbs.RunningStep | hill.py:53-59 | an accepting round keeps the loop state: the trajectory after the initial length stays strictly decreasing and ends at the new length, and the cities are kept |
| Climbs.RunningStop | hill.py:53-57 | a rejecting round turns the loop state into `Finished` |
| Climbs.ClimbIsIdempotent | hill.py:48-60 | climbing again from a finished result takes one round and returns the same tour and length |
| Hill.HillClimbing | hill.py:48-60 | `Finished`: the run stands on `solution`, of length `length == TourLength(solution) <= TourLength(initial)`, with the initial cities, and a permutation when the initial tour is one; every visited tour after the first is the best neighbour of the one before, strictly shorter; the trajectory has one entry per round; the initial length then all entries but the last strictly decrease, down to `length`; the last entry is at least `length`; `solution` is a local optimum; and exactly one round was taken iff the initial tour was already a local optimum, which is then returned |

## Left out

- The Streamlit user interface (`main`, `set_background`, the text area, button and messages; hill.py:98-150): input and output, not part of the search.
- Plotting (`plot_tsp_solution`, `plot_violin`, `plot_bar`; hill.py:63-91): foreign matplotlib and seaborn calls.
- `generate_random_coordinates` (hill.py:94-95): it only places cities for the picture.
- Parsing the matrix with `ast.literal_eval` and the shape check (hill.py:123-125): a library call. The model takes the matrix as a `seq<seq<nat>>`, and every operation that reads it requires it to be square with the tour's cities in range.
- `random.randint` becomes the parameter `picks`; the model says nothing about the uniformity of the draws.
- Floating-point distances: the interface accepts any numeric literal, and the model has natural-number distances only.
- Hill.HillClimbing: requires at least two cities. For fewer, `hill_climbing` raises an `IndexError` in `getBestNeighbours`, and the model does not represent that failure.
- Aliasing of Python lists: `hill_climbing` returns the very list object it was given when no move is made. In the model sequences are values, so only equality of contents is stated.
