# Warehouse picking route: nearest-neighbour tour model

A Dafny model of the `WarehousePicking` class of DAA.py. The class turns a
list of picking-point labels and a distance matrix into an undirected
weighted graph. It builds a picking route with the nearest-neighbour
heuristic: start at a given point, always walk to the nearest point not yet
visited, then return to the start. It also computes a route's total
distance.

Picking points are their positions 0..n-1 in the label list. The labels are
assumed distinct. `PointIndex` maps a label to its position.

- `graph.dfy`, module `WarehouseGraph`: the graph as a map from edge keys
  `(min, max)` to weights. `Build` replays the double loop of the
  constructor write by write. The overwrite order is therefore proved, not
  assumed: for a < b the edge holds `dist[b][a]` when row b reaches column
  a, else `dist[a][b]` when row a reaches column b, and is absent when
  neither does (`BuildEdge`). With a symmetric square matrix this is
  `dist[a][b]`.
- `nearest.dfy`, module `GreedyRoute`: `PickNearest` is the `min` over the
  unvisited set. `NearestNeighbor` is the tour loop. `NearestNeighborTour`
  is the specification the result meets. It says the tour starts and ends
  at the start point and visits every point exactly once. It also says
  every step goes to a nearest unvisited point.
- `cost.dfy`, module `TourCost`: `PathCost` is the reference sum over
  consecutive pairs. `TotalDistance` is the accumulating loop of
  `total_distance`.
- `sample.dfy`, module `SampleRoute`: the script's six-point data set. It
  gives the route the model computes, the route from the other tie choice,
  and their costs.

Behaviour of the code worth knowing:

- Python's `min` over a set breaks ties by the set's iteration order. The
  model breaks ties by the lowest index. The greedy property is also stated
  for any tie rule (`lowestTie == false`).
- The labels are strings, and Python randomises string hashes. So at the
  first step of the sample (B and E are both 10 from A) a run may take
  either. The lowest-index rule gives A, B, E, C, F, D, A with cost 102.
  Taking E gives A, E, C, F, D, B, A with cost 100.
- A, B, E, C, D, F, A (cost 109) is not a nearest-neighbour route: from C,
  point F (28) is nearer than D (30) (`NotGreedyRouteRejected`).
- A one-point tour [s, s] cannot be costed. The graph has no edges, so
  looking up (s, s) raises, and the model returns `MissingEdge`
  (`SinglePointRoute`).
- The constructor does not check that weights are non-negative, and
  neither does `Build`.
- The constructor raises IndexError exactly when there are fewer rows than
  labels, or when a point's row is longer than the label list. The model
  returns `IndexOutOfRange` in those cases (`Build`). A shorter row skips
  the writes past its end. An edge {a, b} is missing only when neither row
  reaches the other point (`BuildEdge`; `ShortRowStillComplete` shows a
  short row whose edge the other row writes). When an edge is missing the
  tour loop fails with `MissingEdge`: each step looks up the weight to every
  unvisited point, so the loop succeeds exactly on a complete graph
  (`TourImpliesComplete`).

## Model

| member | source | states |
|---|---|---|
| WarehouseGraph.Build | DAA.py:8-17 | building succeeds exactly when every point has a row no longer than the label list; the graph has n points and only edges between two different points below n |
| WarehouseGraph.WriteRowLookup | DAA.py:15-17 | one row sets edge {i, j} to row[j] for each column j other than i that it reaches, and leaves every other edge as it was |
| WarehouseGraph.WriteRowsLookup | DAA.py:14-17 | after k rows, edge (a, b) with a < b holds row b's entry if row b has been written and reaches column a; otherwise row a's entry if row a reaches column b; otherwise it is absent |
| WarehouseGraph.BuildEdge | DAA.py:14-17 | in a built graph, the weight of {a, b} with a < b is dist[b][a] (the later row overwrites), else dist[a][b], else the lookup fails |
| WarehouseGraph.SquareBuildWeight | DAA.py:14-17 | from a square matrix, a lookup of two points succeeds if and only if they differ, and yields the entry below the diagonal |
| WarehouseGraph.SymmetricBuildWeight | DAA.py:14-17 | from a symmetric square matrix, the weight between different points a and b is dist[a][b] |
| WarehouseGraph.ShortRowStillComplete | DAA.py:14-17 | with rows [0] and [7, 0], the first row writes nothing, yet the second row writes {0, 1} = 7, so the graph is complete |
| WarehouseGraph.SquareBuildComplete | DAA.py:14-17 | a square matrix yields a complete graph |
| WarehouseGraph.WeightSymmetric | DAA.py:39 | edge lookup gives the same result in both orientations (undirected graph) |
| WarehouseGraph.NoSelfEdge | DAA.py:16 | the diagonal is skipped, so looking up (a, a) fails |
| WarehouseGraph.SinglePointNoEdges | DAA.py:14-17 | with one picking point the graph holds no edges |
| WarehouseGraph.PointIndex | DAA.py:21-22 | a label resolves to a position if and only if it is a picking point, and that position holds the label; otherwise the lookup fails as the set removal does |
| GreedyRoute.PickNearest | DAA.py:27 | succeeds if and only if every unvisited point has an edge to the current point; the pick is unvisited, no farther than any other unvisited point, and strictly nearer than every unvisited point of lower index |
| GreedyRoute.NearestNeighbor | DAA.py:20-33 | fails with UnknownPoint exactly when the start is not a picking point; succeeds exactly when the start is a picking point and the graph is complete; a success is a tour of length n+1 from the start back to the start that visits each point once, with every step to the lowest-index nearest unvisited point |
| GreedyRoute.TourImpliesComplete | DAA.py:26-29 | a nearest-neighbour tour (under any tie rule) exists only on a complete graph, because together its steps look up the weight of every pair of points |
| GreedyRoute.UnvisitedStart | DAA.py:21-22 | the first candidates are all picking points but the start, n-1 of them |
| GreedyRoute.ExtendGreedy | DAA.py:26-30 | appending the nearest unvisited point removes exactly it from the unvisited set and keeps every step greedy |
| GreedyRoute.CloseTour | DAA.py:26-33 | once no point is unvisited, appending the start completes a nearest-neighbour tour |
| GreedyRoute.FirstNearestUnique | DAA.py:27 | under the lowest-index tie rule each step has exactly one admissible choice |
| GreedyRoute.TourUnique | DAA.py:20-33 | two nearest-neighbour tours with the lowest-index rule from the same start on the same graph are equal, so the construction is deterministic |
| GreedyRoute.LowestTieIsGreedy | DAA.py:27 | a lowest-index tour is also greedy under the plain "some nearest point" rule |
| GreedyRoute.MiddleIsPermutation | DAA.py:21-30 | the entries strictly between the two visits of the start are a permutation of the other picking points |
| TourCost.PathCost | DAA.py:36-40 | with non-negative edge weights the cost of a walk is non-negative |
| TourCost.TotalDistance | DAA.py:36-40 | succeeds if and only if every consecutive pair is an edge; the result is the sum of the consecutive edge weights; a failure is MissingEdge |
| TourCost.AppendCost | DAA.py:37-39 | extending a walk by one step adds exactly that step's weight |
| TourCost.ConcatCost | DAA.py:36-40 | joining two walks at a shared point adds their costs |
| TourCost.ReverseCost | DAA.py:36-40 | a reversed walk can be costed whenever the walk can, and costs the same |
| TourCost.ShortTourCost | DAA.py:37-38 | a walk of at most one point costs 0 |
| TourCost.RepeatedStopNotWalkable | DAA.py:39 | a walk with two equal consecutive points cannot be costed |
| SampleRoute.SampleMatrix | DAA.py:57-64 | the sample matrix is square and symmetric |
| SampleRoute.SampleBuild | DAA.py:67 | the sample warehouse joins every two points by their matrix entry |
| SampleRoute.LowestTieRouteIsNearestNeighbor | DAA.py:70-73 | A, B, E, C, F, D, A is the lowest-index nearest-neighbour tour from A |
| SampleRoute.OtherTieRouteIsGreedy | DAA.py:27 | A, E, C, F, D, B, A is greedy at every step but is not the lowest-index tour |
| SampleRoute.NotGreedyRouteRejected | DAA.py:27 | A, B, E, C, D, F, A is not a nearest-neighbour tour under any tie rule |
| SampleRoute.LowestTieRouteCost | DAA.py:74 | the lowest-index sample route costs 102 |
| SampleRoute.OtherTieRouteCost | DAA.py:36-40 | the other tie choice costs 100 |
| SampleRoute.RunSample | DAA.py:66-76 | under the lowest-index tie rule the script's route is A, B, E, C, F, D, A and it costs 102 |
| SampleRoute.SinglePointRoute | DAA.py:20-40 | with one picking point the tour is [s, s] and it cannot be costed |

## Left out

- `visualize_tour` (DAA.py:43-51): drawing with matplotlib and networkx, plus the randomness of `spring_layout`.
- Printing and the `:.2f` formatting of the total (DAA.py:76-77). `RunSample` returns the route labels and the total instead.
- The unused imports of `numpy` and `itertools.permutations`.
- networkx itself: the graph is an explicit map from edge keys to weights. A missing node and a missing neighbour are the same failure in the model.
- Python set iteration order: ties go to the lowest index instead.
- Duplicate labels: networkx would merge them into one node. Labels are assumed distinct and points are modelled by position.
- Weights are integers. Python would also accept floats, which the model does not cover.
- WarehouseGraph.Build: does not model the partly built graph left when IndexError is raised mid-loop. The constructor raises, so that object is never returned.
