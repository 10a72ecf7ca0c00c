# TSP solvers, modelled in Dafny

This project models the solver library of a small travelling-salesman
repository and proves what its algorithms promise. It covers five modules:

- **`tsp_model.dfy`** (`TspModel`) models `src/model/tsp_model.py`:
  - the instance (city count `n` and distance matrix) and `distance(i, j)`;
  - the `Solution` record;
  - `Solver.calculate_cost`, the cost of a closed tour;
  - the pure part of `TSPInstance._load_instance`: the token stream of the file, reshaped row by row into the matrix.
- **`nearest_neighbor.dfy`** (`NearestNeighbor`) models `ConstructiveSolver.solve`:
  - the greedy tour from a start city, built over an `unvisited` set.
- **`two_opt.dfy`** (`TwoOpt`) models `LocalSearchSolver.solve` and `two_opt`:
  - repeated sweeps over position pairs;
  - each improving segment is reversed in place in an `array`;
  - the running cost is updated by the delta.
- **`grasp.dfy`** (`Grasp`) models `GRASPSolver`:
  - the randomised-greedy construction with its restricted candidate list (RCL);
  - the best-of-N loop around construction plus 2-opt.
- **`prim.dfy`** (`Prim`) models `BranchAndBoundSolver._mst_cost`:
  - Prim's algorithm over a list of cities, with `min_dists` as a map and its keys in insertion order;
  - the proof that Prim's cost never exceeds the cost of a path through the same cities.
- **`branch_and_bound.dfy`** (`BranchAndBound`) models `BranchAndBoundSolver`:
  - `_bound` as a function;
  - `_dfs` as methods of a `Solver` class. The class fields are the upper bound, the incumbent, and the `visited` set and `path` list that the search mutates and restores.
  - `solve` seeds the incumbent with the nearest-neighbour tour.

What is proved, in the system's terms:
- **Tours:**
  - every constructor returns a permutation of `0..n-1` that starts at the requested city;
  - every reported cost equals `calculate_cost` of the reported tour.
- **Nearest neighbour:** the tour is determined by its start city.
- **2-opt:**
  - it never worsens a tour and never moves position 0;
  - it keeps the difference between the running cost and the true cost;
  - it stops only at a 2-opt local optimum, so a second run changes nothing.
- **GRASP:**
  - with alpha >= 0 the RCL always holds the nearest city; with alpha < 0 and distinct distances it is empty and the nearest city is taken instead;
  - a construction is determined by its start city and its random draws;
  - alpha 0 is the nearest-neighbour policy and alpha 1 keeps every candidate;
  - the result is the first of the cheapest local optima.
- **Prim:** it keeps its invariant (every key is the distance from the tree).
- **Branch and bound:**
  - `_bound` is a lower bound on every completion of the current path (symmetric matrix);
  - the search restores `path` and `visited`;
  - the upper bound only decreases and always equals the incumbent's cost;
  - with a symmetric, non-negative matrix and no time cutoff, the returned tour is optimal;
  - on the four-city demonstration matrix the result costs 80.

## Model

| member | source | states |
|---|---|---|
| TspModel.Instance.DistanceFacts | src/model/tsp_model.py:37-38 | distance(i, j) (the entry of row i, column j that `Instance.Distance` reads) is the same both ways on a symmetric matrix and at least 0 on a non-negative one; the reversal lemmas use it for the symmetric step |
| TspModel.CalculateCost | src/model/tsp_model.py:55-59 | the loop's sum is the cost of the closed tour: every edge tour[i] to tour[(i+1) mod len], the wrap edge included |
| TspModel.TourCostSmall | src/model/tsp_model.py:55-59 | an empty tour costs 0; a one-city tour costs distance(t0, t0) |
| TspModel.TourCostNonNegative | src/model/tsp_model.py:55-59 | with a non-negative matrix every tour costs at least 0 |
| TspModel.EdgeSumNonNegative | src/model/tsp_model.py:55-59 | with a non-negative matrix every partial sum of the loop is at least 0 |
| TspModel.TourCostAsPath | src/model/tsp_model.py:55-59 | the cost of a closed tour is its open path cost plus the edge from last back to first |
| TspModel.EdgeSumIsPathCost | src/model/tsp_model.py:55-59 | the first k edges of the loop are the path cost of the first k+1 cities |
| TspModel.RotationCost | src/model/tsp_model.py:55-59 | a rotation of a tour has the same calculate_cost |
| TspModel.RotationIsTour | src/exact/branch_and_bound.py:24-28 | a rotation of a permutation of 0..n-1 is one, so searching only tours from city 0 loses none |
| TspModel.PermutationOfTour | src/local_search/two_opt.py:44 | a sequence with the same cities as a permutation of 0..n-1 is one too |
| TspModel.PathCostSnoc | src/exact/branch_and_bound.py:58-61 | current_cost + dist after appending next_city is the cost of the extended path |
| TspModel.PathCostConcat | src/exact/branch_and_bound.py:67-68 | a path followed by another costs both plus the edge joining them |
| TspModel.PrefixCostBound | src/exact/branch_and_bound.py:58 | with a non-negative matrix a tour costs at least the path cost of any of its prefixes |
| TspModel.MinDist | src/exact/branch_and_bound.py:82 | the value is the distance to some candidate and at most the distance to every candidate |
| TspModel.Reversed | src/local_search/two_opt.py:44 | reversed(s) has the length of s and holds s[len-1-k] at k |
| TspModel.ReversedMultiset | src/local_search/two_opt.py:44 | reversing a segment keeps its cities |
| TspModel.ReversedPathCost | src/local_search/two_opt.py:44 | on a symmetric matrix a reversed path costs the same |
| TspModel.CityCount | src/constructive/nearest_neighbor.py:7 | set(range(n)) has n elements |
| TspModel.Ascending | src/grasp/grasp_solver.py:38 | list(unvisited) lists exactly the cities of the set, each below n, in ascending order |
| TspModel.LoadInstance | src/model/tsp_model.py:10-35 | no line is an error (the IndexError of lines[0]); a header or token that is not an integer gives (0, []); otherwise n is the header and row i is numbers[i*n:(i+1)*n] with Python's clamping, for max(n, 0) rows |
| TspModel.Slice | src/model/tsp_model.py:30 | Python slicing s[lo:hi]: its length clamps at len(s) and entry k is s[lo+k] |
| TspModel.Rows | src/model/tsp_model.py:29-30 | the loop's rows: k rows, row i the slice for i |
| TspModel.NumbersLayout | src/model/tsp_model.py:20-22 | the combined stream has as many numbers as the lines have tokens, and token m of line k sits at the count of the earlier lines' tokens plus m |
| TspModel.LineValues | src/model/tsp_model.py:22 | map(int, line.split()) keeps the line's integers in order |
| TspModel.ReshapeExact | src/model/tsp_model.py:20-30 | with exactly n*n numbers the result is n rows of n entries, a valid instance |
| TspModel.ReshapeCell | src/model/tsp_model.py:28-30 | with exactly n*n numbers matrix[i][j] is numbers[i*n+j] (row-major) |
| TspModel.RowEntry | src/model/tsp_model.py:30 | with exactly n*n numbers, entry j of the slice for row i is numbers[i*n+j] |
| TspModel.ShortStreamAccepted | src/model/tsp_model.py:24-30 | as written: header 2 with three numbers is accepted and gives the rows [[1, 2], [3]], which is not an n-by-n matrix |
| TspModel.CheckedReshape | src/model/tsp_model.py:24-30 | with the length check enforced: accepted exactly when n >= 1 and the stream has n*n numbers, and then a valid n-by-n instance in row-major order; otherwise MalformedInstance |
| TspModel.LoadChecked | src/model/tsp_model.py:10-35 | the loader with the length check: a file is accepted exactly when it is well formed, its header n is at least 1 and its body holds n*n integers; the instance returned is then valid, has that n, and holds those integers row by row |
| TspModel.DistinctCounts | src/constructive/nearest_neighbor.py:7-16 | a tour has no repeated city exactly when no city occurs twice in its multiset |
| NearestNeighbor.Nearest | src/constructive/nearest_neighbor.py:13 | min(unvisited, key=distance(current, .)): an unvisited city at minimum distance, the smallest on a tie |
| NearestNeighbor.Solve | src/constructive/nearest_neighbor.py:5-19 | a start outside 0..n-1 is an error (remove raises); otherwise a permutation of 0..n-1 from start, every step to a nearest unvisited city, cost equal to calculate_cost |
| NearestNeighbor.NearestNeighborDeterministic | src/constructive/nearest_neighbor.py:12-16 | two nearest-neighbour tours with the same start are equal |
| TwoOpt.ReverseSegment | src/local_search/two_opt.py:44 | the in-place reversal of positions i..j: the array becomes the 2-opt exchange of its old contents |
| TwoOpt.ExchangePointwise | src/local_search/two_opt.py:44 | a sequence equal to t outside i..j and mirrored inside is the exchange of t |
| TwoOpt.ExchangeShape | src/local_search/two_opt.py:44 | the exchange keeps the length, the cities and position 0 |
| TwoOpt.DeltaEdges | src/local_search/two_opt.py:36-40 | current_delta is the weight of the two tour edges leaving positions i-1 and j, and new_delta the weight of the same two edges of the exchanged tour |
| TwoOpt.ExchangeCost | src/local_search/two_opt.py:36-45 | on a symmetric matrix the exchanged tour costs exactly cost - current_delta + new_delta |
| TwoOpt.MiddleReversalCost | src/local_search/two_opt.py:36-45 | reversing an inner segment of a path swaps its two boundary edges and keeps the rest (symmetric matrix) |
| TwoOpt.FinalReversalCost | src/local_search/two_opt.py:36-45 | reversing the final segment of a path replaces its one boundary edge |
| TwoOpt.ExchangePathMiddle | src/local_search/two_opt.py:36-45 | the path cost of an exchange with j+1 < n changes by the four edges of the deltas |
| TwoOpt.ExchangePathFinal | src/local_search/two_opt.py:36-45 | the path cost of an exchange with j = n-1 changes by its one open boundary edge |
| TwoOpt.ExchangeStep | src/local_search/two_opt.py:42-46 | an improving swap keeps the running-cost bookkeeping and strictly lowers the true cost |
| TwoOpt.Sweep | src/local_search/two_opt.py:30-46 | one pass: the bookkeeping is kept; improved means the tour got strictly cheaper; no improvement means nothing changed and no pair improves |
| TwoOpt.TwoOptSearch | src/local_search/two_opt.py:24-48 | the result is a rearrangement of the input with the same first city; its cost is no higher; the running cost is as far from the true cost as the input's; it is 2-opt optimal; a 2-opt-optimal input or one of at most 3 cities comes back unchanged |
| TwoOpt.Solve | src/local_search/two_opt.py:11-22 | starts from the given solution, or else from the nearest-neighbour tour of city 0 (an error when n = 0), and then costs no more than any nearest-neighbour tour from city 0; returns a 2-opt-optimal tour with the guarantees of two_opt |
| TwoOpt.SearchTwice | src/local_search/two_opt.py:24-48 | running two_opt again on its own result returns the same tour and cost |
| Grasp.MaxDist | src/grasp/grasp_solver.py:41 | max(costs): the distance to some candidate and at least the distance to every candidate |
| Grasp.Rcl | src/grasp/grasp_solver.py:45 | the RCL holds exactly the candidates whose distance is within the threshold |
| Grasp.Candidates | src/grasp/grasp_solver.py:38 | the candidates are exactly the unvisited cities |
| Grasp.Threshold | src/grasp/grasp_solver.py:43 | min_cost + alpha*(max_cost - min_cost): between min_cost and max_cost for alpha in [0, 1], exactly min_cost at 0 and max_cost at 1, below min_cost for alpha < 0 when the costs differ |
| Grasp.RclHasNearest | src/grasp/grasp_solver.py:40-47 | with alpha >= 0 every candidate at minimum distance is in the RCL, so the RCL is never empty there |
| Grasp.RclEmptyBelowZero | src/grasp/grasp_solver.py:43-48 | with alpha < 0 and candidates at different distances no candidate is within the threshold, so the RCL is empty and the nearest unvisited city is taken |
| Grasp.Choice | src/grasp/grasp_solver.py:50 | random.choice returns an entry of the RCL |
| Grasp.RclAlphaZero | src/grasp/grasp_solver.py:43-45 | with alpha = 0 the RCL is exactly the candidates at minimum distance |
| Grasp.RclAlphaOne | src/grasp/grasp_solver.py:43-45 | with alpha = 1 the RCL is every candidate |
| Grasp.GreedyWhenAlphaZero | src/grasp/grasp_solver.py:43-52 | with alpha = 0 every chosen city is at minimum distance among the cities still unvisited (the nearest-neighbour policy) |
| Grasp.ChooseNext | src/grasp/grasp_solver.py:38-50 | the chosen city is unvisited; it is the drawn entry of the RCL when the RCL is not empty, and otherwise the nearest unvisited city (smallest on a tie) |
| Grasp.ChosenWithinThreshold | src/grasp/grasp_solver.py:43-50 | with alpha >= 0 every step takes an unvisited city from the RCL, within min_cost + alpha*(max_cost - min_cost) |
| Grasp.SameChoice | src/grasp/grasp_solver.py:47-50 | the same visited cities, current city and draw give the same next city |
| Grasp.ConstructionDeterministic | src/grasp/grasp_solver.py:30-56 | two constructions from the same start with the same draws agree on every prefix |
| Grasp.ChoiceStep | src/grasp/grasp_solver.py:52-54 | appending the city the next draw takes keeps every step of the tour the one its draw takes |
| Grasp.EarlierChoice | src/grasp/grasp_solver.py:52 | appending a city does not change what the earlier steps took |
| Grasp.LastChoice | src/grasp/grasp_solver.py:52 | the appended step itself is the city its draw takes |
| Grasp.Extend | src/grasp/grasp_solver.py:38-54 | one loop iteration adds an unvisited city, removes exactly it from the unvisited set, and keeps every step the one its draw takes |
| Grasp.ConstructRandomizedGreedy | src/grasp/grasp_solver.py:30-56 | with no city, random.randint(0, -1) fails (NoCities); otherwise a permutation of 0..n-1 from the random start, every step the city its draw takes from the RCL or the fallback |
| Grasp.Solve | src/grasp/grasp_solver.py:13-28 | with no city and at least one iteration, an error; with no iteration, None; otherwise round k is the construction from starts[k] with draws[k] followed by 2-opt, giving a 2-opt-optimal permutation with its calculate_cost and no dearer than the built tour; the result is the first of the cheapest optima |
| Prim.FirstMin | src/exact/branch_and_bound.py:111 | min(min_dists, key=min_dists.get): a smallest key, the first in insertion order on a tie |
| Prim.Without | src/exact/branch_and_bound.py:113 | deleting u from the key order removes exactly that one city |
| Prim.RemoveKey | src/exact/branch_and_bound.py:113 | del min_dists[u]: every other key keeps its value |
| Prim.Relax | src/exact/branch_and_bound.py:116-120 | each key drops to distance(u, v) when that is smaller, and otherwise stays |
| Prim.InitialKeys | src/exact/branch_and_bound.py:107 | each other city starts keyed by its distance from the start city |
| Prim.RelaxAll | src/exact/branch_and_bound.py:116-120 | the update loop over the dictionary computes the relaxed keys |
| Prim.MstCostOf | src/exact/branch_and_bound.py:91-122 | the loop computes Prim's cost: 0 for zero or one city, else the sum of the chosen keys, one city per iteration |
| Prim.PrimStep | src/exact/branch_and_bound.py:109-120 | one iteration keeps the loop state and adds the chosen key |
| Prim.InitialTreeDistances | src/exact/branch_and_bound.py:103-107 | the initial keys are the distances from the tree {start_v} |
| Prim.RelaxKeepsTreeDistances | src/exact/branch_and_bound.py:109-120 | Prim's invariant is kept: after u joins, each key is the smallest distance from a tree city, attained by one |
| Prim.RelaxAfterRemove | src/exact/branch_and_bound.py:113-120 | deleting u before the update loop does not change the relaxed keys |
| Prim.WithoutDistinct | src/exact/branch_and_bound.py:113-114 | after u leaves the key order, the order holds each remaining city once |
| Prim.MstCost | src/exact/branch_and_bound.py:91-122 | Prim's cost is 0 for zero or one city and at least 0 on a non-negative matrix |
| Prim.PrimRest | src/exact/branch_and_bound.py:109-120 | with non-negative keys and matrix the cost Prim still adds is at least 0 |
| Prim.RelaxNonNegative | src/exact/branch_and_bound.py:116-120 | relaxing keeps every key non-negative on a non-negative matrix |
| Prim.MstLowerBound | src/exact/branch_and_bound.py:77-79 | on a symmetric matrix the MST cost of the cities is at most the cost of any path through exactly those cities |
| Prim.PrimRestBound | src/exact/branch_and_bound.py:109-120 | what Prim still adds is at most the weight of any paths hanging from the tree that cover the remaining cities |
| Prim.HangAt | src/exact/branch_and_bound.py:102-103 | a path through the cities, cut at the start city, is a set of hanging paths of equal weight covering the other cities |
| Prim.SplitPath | src/exact/branch_and_bound.py:102-103 | a path cut at one city is two paths hanging from it of the same total weight |
| Prim.CutWeight | src/exact/branch_and_bound.py:111-114 | moving a city into the tree removes exactly one joining edge from the hanging paths' weight |
| Prim.CutCities | src/exact/branch_and_bound.py:111-114 | the cut hanging paths cover exactly the remaining cities |
| Prim.CutAnchors | src/exact/branch_and_bound.py:111-114 | the cut hanging paths are anchored in the grown tree |
| BranchAndBound.UnvisitedList | src/exact/branch_and_bound.py:70 | the unvisited list holds exactly the cities below n not in visited, each once |
| BranchAndBound.MinDistTo | src/exact/branch_and_bound.py:86 | the distance back to city 0 from some unvisited city, and at most that from every one |
| BranchAndBound.Bound | src/exact/branch_and_bound.py:65-89 | with every city visited _bound is current_cost + distance(current, 0); on a non-negative matrix it is never below current_cost |
| BranchAndBound.BoundIsLowerBound | src/exact/branch_and_bound.py:65-89 | on a symmetric matrix _bound never exceeds the cost of any tour that extends the current path |
| BranchAndBound.ClosedTour | src/exact/branch_and_bound.py:72-73 | with no city left the bound is exactly the cost of the closed tour |
| BranchAndBound.OpenTour | src/exact/branch_and_bound.py:75-89 | with cities left the bound is at most the cost of any completion of the path |
| BranchAndBound.ConnectionBound | src/exact/branch_and_bound.py:77-87 | MST + the cheapest edge into the unvisited cities + the cheapest edge back to 0 is at most the cost of any completion through them |
| BranchAndBound.CompletionCost | src/exact/branch_and_bound.py:67-68 | a tour is its path so far, the edge into the completion, the completion, and the edge back to 0 |
| BranchAndBound.CompletionCities | src/exact/branch_and_bound.py:70 | the rest of a tour extending the path visits exactly the unvisited cities |
| BranchAndBound.ClosedBound | src/exact/branch_and_bound.py:72-73 | with no city left _bound returns current_cost + distance(current, 0) |
| BranchAndBound.OpenBound | src/exact/branch_and_bound.py:75-89 | with cities left _bound is at most current_cost plus the cost of any completion |
| BranchAndBound.SameElements | src/exact/branch_and_bound.py:70 | two duplicate-free lists with the same cities hold the same multiset |
| BranchAndBound.CityInTour | src/exact/branch_and_bound.py:24-28 | every city below n occurs in a permutation of 0..n-1 |
| BranchAndBound.Insert | src/exact/branch_and_bound.py:54 | inserting a pair into a sorted list keeps it sorted and adds exactly that pair |
| BranchAndBound.SortPairs | src/exact/branch_and_bound.py:54 | remaining_nodes.sort(): sorted by (dist, city) and a permutation of the input |
| BranchAndBound.SortedCitiesDistinct | src/exact/branch_and_bound.py:47-54 | sorting a list of (dist, city) pairs whose cities are distinct keeps them distinct |
| BranchAndBound.SortedChildList | src/exact/branch_and_bound.py:47-54 | sorting keeps the child list: each unvisited city exactly once, with its distance from the current city |
| BranchAndBound.PushPartial | src/exact/branch_and_bound.py:59-61 | visited.add / path.append with current_cost + dist gives a valid search state for the child |
| BranchAndBound.BranchStep | src/exact/branch_and_bound.py:56-63 | one pass of the loop extends the record of incumbents: earlier passes keep their meaning, the incumbent only improves, and children already covered stay covered |
| BranchAndBound.ProgressTransitive | src/exact/branch_and_bound.py:42-44 | two successive incumbent updates amount to one: the bound only goes down, and a new incumbent extends the path |
| BranchAndBound.ProgressPrefix | src/exact/branch_and_bound.py:56-63 | an update below the child's path is an update below the parent's path |
| BranchAndBound.PrunedCovered | src/exact/branch_and_bound.py:37-38 | pruning on bound >= upper_bound loses no tour cheaper than the upper bound (symmetric matrix) |
| BranchAndBound.CoveredMonotone | src/exact/branch_and_bound.py:42-43 | lowering the upper bound keeps every covered tour covered |
| BranchAndBound.ChildCostBound | src/exact/branch_and_bound.py:58 | with a non-negative matrix, current_cost + dist is at most the cost of any tour through that child |
| BranchAndBound.CoveredByChildren | src/exact/branch_and_bound.py:56-63 | when every child is covered, so is the parent path |
| BranchAndBound.Solver.constructor | src/exact/branch_and_bound.py:8-13 | the upper bound starts at infinity, with no incumbent and an empty search state |
| BranchAndBound.Solver.BoundOf | src/exact/branch_and_bound.py:65-89 | the method computes _bound, with the MST from Prim's loop |
| BranchAndBound.Solver.Children | src/exact/branch_and_bound.py:47-54 | remaining_nodes after sorting: every unvisited city once with its distance, in ascending (dist, city) order |
| BranchAndBound.Solver.Dfs | src/exact/branch_and_bound.py:32-63 | path and visited are restored; upper_bound stays the incumbent's cost; the incumbent changes only to a strictly cheaper tour extending the path; with no cutoff (symmetric, non-negative matrix) every tour extending the path costs at least the final upper bound |
| BranchAndBound.Solver.Expand | src/exact/branch_and_bound.py:40-63 | past the pruning test: close a full path or branch on the children, with the guarantees of _dfs |
| BranchAndBound.Solver.Close | src/exact/branch_and_bound.py:40-45 | a full path is recorded only when its closed cost is strictly below the upper bound, as a permutation with its calculate_cost |
| BranchAndBound.Solver.Branch | src/exact/branch_and_bound.py:56-63 | children in order: for each, if current_cost + dist is below the upper bound on entry the child is searched and any new incumbent extends the path through it, otherwise the incumbent stays; state restored; every child covered on return |
| BranchAndBound.Solver.TryChild | src/exact/branch_and_bound.py:57-63 | one child: searched exactly when current_cost + dist < upper_bound, skipped otherwise with nothing changed; the child is covered on return |
| BranchAndBound.Solver.Visit | src/exact/branch_and_bound.py:59-63 | add, recurse, pop and remove: path and visited come back unchanged, any new incumbent extends the path through the child, and the child is covered |
| BranchAndBound.Solver.Solve | src/exact/branch_and_bound.py:15-30 | an error when n = 0; otherwise a permutation from city 0 with its true cost, never worse than the nearest-neighbour seed, and optimal when the matrix is symmetric and non-negative and the clock never cuts off |
| BranchAndBound.CoveredRotation | src/exact/branch_and_bound.py:24-28 | covering every tour from city 0 covers every tour |
| BranchAndBound.RotateToZero | src/exact/branch_and_bound.py:24-28 | every tour has a rotation that starts at city 0, of the same cost |
| BranchAndBound.DemoInstance | src/exact/branch_and_bound.py:130-135 | the four-city demonstration matrix is a valid symmetric non-negative instance |
| BranchAndBound.FourCityCost | src/model/tsp_model.py:55-59 | a four-city tour costs its four edges |
| BranchAndBound.DemoOptimum | src/exact/branch_and_bound.py:130-142 | every tour of the demonstration matrix costs at least 80 |
| BranchAndBound.DemoTour | src/exact/branch_and_bound.py:130-142 | the tour 0-1-3-2 costs 80 |
| BranchAndBound.DemoMinimum | src/exact/branch_and_bound.py:130-142 | a tour that no tour undercuts costs 80 |
| BranchAndBound.SolveDemo | src/exact/branch_and_bound.py:136-142 | the demonstration run without a cutoff returns a tour of cost 80 |

## Left out

- File I/O in `_load_instance` is not modelled: opening and reading the file, stripping lines, dropping empty lines, `int()` parsing of the tokens, and the error `print`. `LoadInstance` takes the non-empty lines already split into tokens. A token is an integer or a non-integer word.
- An empty file makes `lines[0]` raise `IndexError`, which escapes the `try`. It is modelled as the error `NoLines`.
- `TSPInstance.filepath` and `filename`, `Solution.__str__`, and the abstract `Solver.solve` are not modelled.
- `random.randint` and `random.choice` are parameters:
  - the start city is a parameter;
  - the i-th choice is `Choice(rcl, draws[i])`, the entry `rcl[draws[i] mod len(rcl)]`.
  - Any choice from the RCL is covered this way, but the distribution is not.
- `time.time()` and `time_limit` are an oracle `timedOut` applied to a counter of `_dfs` entries. Safety holds whatever it answers; optimality is proved only for an oracle that never answers true.
- `random.randint(0, n - 1)` raises `ValueError` when n = 0. `Grasp.ConstructRandomizedGreedy` and `Grasp.Solve` model it as the error `NoCities`.
- `alpha` and the threshold are exact reals. Float rounding in `min_cost + alpha * (max_cost - min_cost)` is not modelled.
- The modelled iteration orders of the source's containers:
  - Python's `min` over a set and `list(set)` are modelled as ascending city order. That is CPython's iteration order for small non-negative integers.
  - The dictionary `min_dists` is modelled in insertion order.
- TwoOpt.TwoOptSearch: requires a symmetric, non-negative matrix, and so do `TwoOpt.Solve` and `Grasp.Solve`. Termination is proved through the true tour cost, which needs both; on other matrices the source's loop is not modelled.
- BranchAndBound.Solver.Solve: optimality is claimed only for symmetric, non-negative matrices without a cutoff; the source makes no promise for asymmetric matrices. The other guarantees hold for every valid matrix:
  - a permutation with its true cost;
  - no worse than the nearest-neighbour seed;
  - state restored.
- BranchAndBound.Solver.Dfs: `visited` and `path` are fields of the solver rather than arguments that alias the caller's objects. The search mutates and restores them in the same way, but aliasing is not modelled.
- The `__main__` block builds `TSPInstance(n=4, distance_matrix=...)`, which does not match the file-path constructor. `DemoInstance` builds its matrix directly, and `print` is left out.
- Prim.MstCostOf: requires its cities to be distinct. Its one caller, `_bound`, passes the distinct unvisited list.
- The pure `Bound` function states `_bound` using `Prim.MstCost`. `Solver.BoundOf` computes the same value with Prim's loop `Prim.MstCostOf`.
- TspModel.Instance.Distance: requires both cities in 0..n-1. Python would also accept negative indices, or raise `IndexError` beyond the matrix; every caller in the core passes cities.
- Integer widths: Python integers are unbounded, and so are the model's; there is no wrap-around to model.
- The top-level scripts (CLI, benchmarks, plots, PDF extraction) are not part of this model.

## Findings

| source | as written | input that shows it | evidently intended | confidence | as-written member | corrected member |
|---|---|---|---|---|---|---|
| src/model/tsp_model.py:24-30 | the check `len(all_numbers) != n * n` runs `pass`, so the reshape goes ahead on any stream | header `2` followed by `1 2 3`: the matrix is `[[1, 2], [3]]`, and `distance(1, 1)` is out of range | reject a stream that is not exactly n*n integers | not executed | TspModel.ShortStreamAccepted | TspModel.CheckedReshape |

Every solver in this model requires `Instance.Valid()` (n rows of n entries). That is exactly what `TspModel.CheckedReshape` and `TspModel.LoadChecked` guarantee for every instance they return.
