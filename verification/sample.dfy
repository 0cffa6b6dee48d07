/**
 The script part of DAA.py: six picking points A..F, their symmetric
 distance matrix, a route from A and its cost. Points are numbered in label
 order, A = 0 through F = 5.
 */
module SampleRoute {
  import opened WarehouseGraph
  import opened GreedyRoute
  import opened TourCost

  const Labels: seq<string> := ["A", "B", "C", "D", "E", "F"]

  const Distances: seq<seq<int>> := [
    [0, 10, 15, 20, 10, 25],
    [10, 0, 35, 25, 17, 30],
    [15, 35, 0, 30, 15, 28],
    [20, 25, 30, 0, 18, 12],
    [10, 17, 15, 18, 0, 20],
    [25, 30, 28, 12, 20, 0]
  ]

  /** A -> B -> E -> C -> F -> D -> A */
  const LowestTieRoute: seq<nat> := [0, 1, 4, 2, 5, 3, 0]

  /** A -> E -> C -> F -> D -> B -> A: the other choice at the first step. */
  const OtherTieRoute: seq<nat> := [0, 4, 2, 5, 3, 1, 0]

  /** A -> B -> E -> C -> D -> F -> A: goes from C to D although F is nearer. */
  const NotGreedyRoute: seq<nat> := [0, 1, 4, 2, 3, 5, 0]

  lemma SampleMatrix()
    ensures Square(6, Distances) && Symmetric(6, Distances)
  {
  }

  /** g joins every two different sample points by their matrix entry. */
  ghost predicate IsSampleGraph(g: Graph) {
    && g.n == 6
    && Valid(g)
    && forall a: nat, b: nat :: a < 6 && b < 6 && a != b ==>
         Key(a, b) in g.edges && g.edges[Key(a, b)] == Distances[a][b]
  }

  /** The warehouse built from the sample data is that graph. */
  lemma SampleBuild()
    ensures Build(6, Distances).Ok? && IsSampleGraph(Build(6, Distances).value)
  {
    SampleMatrix();
    var g := Build(6, Distances).value;
    forall a: nat, b: nat | a < 6 && b < 6 && a != b
      ensures Key(a, b) in g.edges && g.edges[Key(a, b)] == Distances[a][b]
    {
      SymmetricBuildWeight(6, Distances, a, b);
    }
  }

  lemma SampleVisitsEachOnce(t: seq<nat>)
    requires t == LowestTieRoute || t == OtherTieRoute || t == NotGreedyRoute
    ensures VisitsEachOnce(6, 0, t)
  {
    forall p: nat | p < 6 ensures p in t[..6] {
      if t == LowestTieRoute {
        assert t[..6] == [0, 1, 4, 2, 5, 3];
      } else if t == OtherTieRoute {
        assert t[..6] == [0, 4, 2, 5, 3, 1];
      } else {
        assert t[..6] == [0, 1, 4, 2, 3, 5];
      }
    }
  }

  lemma SampleComplete(g: Graph)
    requires IsSampleGraph(g)
    ensures Complete(g)
  {
    forall a: nat, b: nat | a < g.n && b < g.n && a != b ensures Key(a, b) in g.edges {
    }
  }

  /** With ties going to the lowest index the route from A is
      A, B, E, C, F, D, A. */
  lemma LowestTieRouteIsNearestNeighbor(g: Graph)
    requires IsSampleGraph(g)
    ensures NearestNeighborTour(g, 0, LowestTieRoute, true)
  {
    var t := LowestTieRoute;
    SampleVisitsEachOnce(t);
    LowestTieStep0(g);
    LowestTieStep1(g);
    LowestTieStep2(g);
    LowestTieStep3(g);
    LowestTieStep4(g);
  }

  lemma LowestTieStep0(g: Graph)
    requires IsSampleGraph(g)
    ensures GreedyStep(g, LowestTieRoute, 0, true)
  {
    assert LowestTieRoute[..1] == [0];
    assert Unvisited(6, [0]) == {1, 2, 3, 4, 5};
  }

  lemma LowestTieStep1(g: Graph)
    requires IsSampleGraph(g)
    ensures GreedyStep(g, LowestTieRoute, 1, true)
  {
    assert LowestTieRoute[..2] == [0, 1];
    assert Unvisited(6, [0, 1]) == {2, 3, 4, 5};
  }

  lemma LowestTieStep2(g: Graph)
    requires IsSampleGraph(g)
    ensures GreedyStep(g, LowestTieRoute, 2, true)
  {
    assert LowestTieRoute[..3] == [0, 1, 4];
    assert Unvisited(6, [0, 1, 4]) == {2, 3, 5};
  }

  lemma LowestTieStep3(g: Graph)
    requires IsSampleGraph(g)
    ensures GreedyStep(g, LowestTieRoute, 3, true)
  {
    assert LowestTieRoute[..4] == [0, 1, 4, 2];
    assert Unvisited(6, [0, 1, 4, 2]) == {3, 5};
  }

  lemma LowestTieStep4(g: Graph)
    requires IsSampleGraph(g)
    ensures GreedyStep(g, LowestTieRoute, 4, true)
  {
    assert LowestTieRoute[..5] == [0, 1, 4, 2, 5];
    assert Unvisited(6, [0, 1, 4, 2, 5]) == {3};
  }

  /** Breaking the first tie (B and E, both 10 from A) the other way gives
      A, E, C, F, D, B, A, which is greedy at every step but is not the
      lowest-index choice. */
  lemma OtherTieRouteIsGreedy(g: Graph)
    requires IsSampleGraph(g)
    ensures NearestNeighborTour(g, 0, OtherTieRoute, false)
    ensures !NearestNeighborTour(g, 0, OtherTieRoute, true)
  {
    var t := OtherTieRoute;
    SampleVisitsEachOnce(t);
    OtherTieStep0(g);
    OtherTieStep1(g);
    OtherTieStep2(g);
    OtherTieStep3(g);
    OtherTieStep4(g);
    assert 1 in Unvisited(6, t[..1]);
    assert !GreedyStep(g, t, 0, true);
  }

  lemma OtherTieStep0(g: Graph)
    requires IsSampleGraph(g)
    ensures GreedyStep(g, OtherTieRoute, 0, false)
  {
    assert OtherTieRoute[..1] == [0];
    assert Unvisited(6, [0]) == {1, 2, 3, 4, 5};
  }

  lemma OtherTieStep1(g: Graph)
    requires IsSampleGraph(g)
    ensures GreedyStep(g, OtherTieRoute, 1, false)
  {
    assert OtherTieRoute[..2] == [0, 4];
    assert Unvisited(6, [0, 4]) == {1, 2, 3, 5};
  }

  lemma OtherTieStep2(g: Graph)
    requires IsSampleGraph(g)
    ensures GreedyStep(g, OtherTieRoute, 2, false)
  {
    assert OtherTieRoute[..3] == [0, 4, 2];
    assert Unvisited(6, [0, 4, 2]) == {1, 3, 5};
  }

  lemma OtherTieStep3(g: Graph)
    requires IsSampleGraph(g)
    ensures GreedyStep(g, OtherTieRoute, 3, false)
  {
    assert OtherTieRoute[..4] == [0, 4, 2, 5];
    assert Unvisited(6, [0, 4, 2, 5]) == {1, 3};
  }

  lemma OtherTieStep4(g: Graph)
    requires IsSampleGraph(g)
    ensures GreedyStep(g, OtherTieRoute, 4, false)
  {
    assert OtherTieRoute[..5] == [0, 4, 2, 5, 3];
    assert Unvisited(6, [0, 4, 2, 5, 3]) == {1};
  }

  /** From C the unvisited points are D (30 away) and F (28 away), so a
      route that goes on to D is not a nearest-neighbour route under any tie
      rule. */
  lemma NotGreedyRouteRejected(g: Graph)
    requires IsSampleGraph(g)
    ensures !NearestNeighborTour(g, 0, NotGreedyRoute, false)
  {
    var t := NotGreedyRoute;
    assert 5 in Unvisited(6, t[..4]);
    assert !GreedyStep(g, t, 3, false);
  }

  /** A, B, E, C, F, D, A costs 10 + 17 + 15 + 28 + 12 + 20 = 102. */
  lemma LowestTieRouteCost(g: Graph)
    requires IsSampleGraph(g)
    ensures Walkable(g, LowestTieRoute) && PathCost(g, LowestTieRoute) == 102
  {
    assert g.edges[Key(0, 1)] == 10;
    assert g.edges[Key(1, 4)] == 17;
    assert g.edges[Key(4, 2)] == 15;
    assert g.edges[Key(2, 5)] == 28;
    assert g.edges[Key(5, 3)] == 12;
    assert g.edges[Key(3, 0)] == 20;
    assert PathCost(g, [3, 0]) == 20;
    assert PathCost(g, [5, 3, 0]) == 32;
    assert PathCost(g, [2, 5, 3, 0]) == 60;
    assert PathCost(g, [4, 2, 5, 3, 0]) == 75;
    assert PathCost(g, [1, 4, 2, 5, 3, 0]) == 92;
  }

  /** A, E, C, F, D, B, A costs 10 + 15 + 28 + 12 + 25 + 10 = 100. */
  lemma OtherTieRouteCost(g: Graph)
    requires IsSampleGraph(g)
    ensures Walkable(g, OtherTieRoute) && PathCost(g, OtherTieRoute) == 100
  {
    assert g.edges[Key(0, 4)] == 10;
    assert g.edges[Key(4, 2)] == 15;
    assert g.edges[Key(2, 5)] == 28;
    assert g.edges[Key(5, 3)] == 12;
    assert g.edges[Key(3, 1)] == 25;
    assert g.edges[Key(1, 0)] == 10;
    assert PathCost(g, [1, 0]) == 10;
    assert PathCost(g, [3, 1, 0]) == 35;
    assert PathCost(g, [5, 3, 1, 0]) == 47;
    assert PathCost(g, [2, 5, 3, 1, 0]) == 75;
    assert PathCost(g, [4, 2, 5, 3, 1, 0]) == 90;
  }

  /** The script: build the warehouse, route from A, cost the route. */
  method RunSample() returns (route: seq<string>, cost: Result<int>)
    ensures route == ["A", "B", "E", "C", "F", "D", "A"]
    ensures cost == Ok(102)
  {
    SampleBuild();
    var built := Build(|Labels|, Distances);
    var g := built.value;
    SampleComplete(g);
    var start := PointIndex(Labels, "A");
    assert start == Ok(0);
    var tour := NearestNeighbor(g, start.value);
    LowestTieRouteIsNearestNeighbor(g);
    TourUnique(g, 0, tour.value, LowestTieRoute);
    var t := tour.value;
    route := seq(|t|, i requires 0 <= i < |t| => Labels[t[i]]);
    cost := TotalDistance(g, t);
    LowestTieRouteCost(g);
  }

  /** With a single picking point the route is [s, s], and costing it fails:
      the graph has no edges at all, so the lookup of (s, s) raises. */
  lemma {:induction false} SinglePointRoute(dist: seq<seq<int>>, t: seq<nat>)
    requires RowsFit(1, dist)
    requires NearestNeighborTour(Build(1, dist).value, 0, t, true)
    ensures t == [0, 0]
    ensures !Walkable(Build(1, dist).value, t)
  {
    assert t[1] == 0;
    assert t == [t[0], t[1]];
    RepeatedStopNotWalkable(Build(1, dist).value, t, 0);
  }
}
