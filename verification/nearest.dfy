/**
 `WarehousePicking.nearest_neighbor`: the greedy tour that always walks to
 the nearest picking point not yet visited and finally returns to the start.

 The source picks the minimum with `min` over a Python set, so among equally
 near points the winner depends on the set's iteration order. The model
 fixes the rule to the lowest index and states the greedy property both
 with that rule (`FirstNearest`) and for any minimum (`Nearest`).
 */
module GreedyRoute {
  import opened WarehouseGraph

  /** The picking points that do not occur in `visited`. */
  function Unvisited(n: nat, visited: seq<nat>): set<nat> {
    set p: nat | p < n && p !in visited
  }

  /** `p` is among the points of `candidates` nearest to `cur`, and every
      candidate can be looked up from `cur`. */
  ghost predicate Nearest(g: Graph, cur: nat, candidates: set<nat>, p: nat) {
    && p in candidates
    && Key(cur, p) in g.edges
    && forall q :: q in candidates ==>
         Key(cur, q) in g.edges && g.edges[Key(cur, p)] <= g.edges[Key(cur, q)]
  }

  /** `p` is the nearest candidate, ties going to the lowest index. */
  ghost predicate FirstNearest(g: Graph, cur: nat, candidates: set<nat>, p: nat) {
    && Nearest(g, cur, candidates, p)
    && forall q :: q in candidates && q < p ==> g.edges[Key(cur, p)] < g.edges[Key(cur, q)]
  }

  /** The tour starts and ends at `start` and its first n entries are the n
      picking points, each exactly once. */
  ghost predicate VisitsEachOnce(n: nat, start: nat, t: seq<nat>) {
    && start < n
    && |t| == n + 1
    && t[0] == start
    && t[n] == start
    && (forall i :: 0 <= i < n ==> t[i] < n)
    && (forall i, j :: 0 <= i < j < n ==> t[i] != t[j])
    && (forall p: nat :: p < n ==> p in t[..n])
  }

  /** Step k of the tour, from t[k] to t[k+1], goes to a nearest point among
      those not in t[..k+1] (with the lowest-index tie rule when `lowestTie`). */
  ghost predicate GreedyStep(g: Graph, t: seq<nat>, k: nat, lowestTie: bool)
    requires k + 1 < |t|
  {
    if lowestTie then FirstNearest(g, t[k], Unvisited(g.n, t[..k + 1]), t[k + 1])
    else Nearest(g, t[k], Unvisited(g.n, t[..k + 1]), t[k + 1])
  }

  /** A nearest-neighbour tour of g from start: every step but the closing
      return is greedy. */
  ghost predicate NearestNeighborTour(g: Graph, start: nat, t: seq<nat>, lowestTie: bool) {
    && VisitsEachOnce(g.n, start, t)
    && forall k: nat :: k + 2 < |t| ==> GreedyStep(g, t, k, lowestTie)
  }

  /** The unvisited point nearest to `cur`, found by scanning the candidates
      in index order and keeping the first strict minimum. The source looks up
      the weight from `cur` to every candidate, so the pick fails when some
      candidate has no edge to `cur`. */
  method PickNearest(g: Graph, cur: nat, unvisited: set<nat>) returns (r: Result<nat>)
    requires unvisited != {}
    requires forall p :: p in unvisited ==> p < g.n
    ensures r.Ok? <==> forall q :: q in unvisited ==> Key(cur, q) in g.edges
    ensures r.Ok? ==> FirstNearest(g, cur, unvisited, r.value)
    ensures r.Err? ==> r.error == MissingEdge
  {
    var found := false;
    var best: nat := 0;
    var q := 0;
    while q < g.n
      invariant 0 <= q <= g.n
      invariant forall x :: x in unvisited && x < q ==> Key(cur, x) in g.edges
      invariant !found ==> forall x :: x in unvisited ==> x >= q
      invariant found ==> best < q && best in unvisited && Key(cur, best) in g.edges
      invariant found ==> forall x :: x in unvisited && x < q ==>
                  Key(cur, x) in g.edges && g.edges[Key(cur, best)] <= g.edges[Key(cur, x)]
      invariant found ==> forall x :: x in unvisited && x < best ==>
                  Key(cur, x) in g.edges && g.edges[Key(cur, best)] < g.edges[Key(cur, x)]
    {
      if q in unvisited {
        if Key(cur, q) !in g.edges {
          return Err(MissingEdge);
        }
        if !found || g.edges[Key(cur, q)] < g.edges[Key(cur, best)] {
          found, best := true, q;
        }
      }
      q := q + 1;
    }
    assert found;
    return Ok(best);
  }

  /** `nearest_neighbor(start_point)`. */
  method NearestNeighbor(g: Graph, start: nat) returns (r: Result<seq<nat>>)
    ensures r.Err? && r.error == UnknownPoint <==> start >= g.n
    ensures r.Err? ==> r.error in {UnknownPoint, MissingEdge}
    ensures r.Ok? ==> NearestNeighborTour(g, start, r.value, true)
    ensures r.Ok? <==> start < g.n && Complete(g)
  {
    if start >= g.n {
      return Err(UnknownPoint);
    }
    var unvisited := Unvisited(g.n, []);
    unvisited := unvisited - {start};
    var tour: seq<nat> := [start];
    var current := start;
    UnvisitedStart(g.n, start);
    while unvisited != {}
      invariant |tour| >= 1 && tour[0] == start && current == tour[|tour| - 1]
      invariant unvisited == Unvisited(g.n, tour)
      invariant |tour| + |unvisited| == g.n
      invariant forall i :: 0 <= i < |tour| ==> tour[i] < g.n
      invariant forall i, j :: 0 <= i < j < |tour| ==> tour[i] != tour[j]
      invariant forall k: nat :: k + 1 < |tour| ==> GreedyStep(g, tour, k, true)
      decreases |unvisited|
    {
      var pick := PickNearest(g, current, unvisited);
      if pick.Err? {
        assert !Complete(g) by {
          var q :| q in unvisited && Key(current, q) !in g.edges;
          assert current != q;
        }
        return Err(pick.error);
      }
      var next := pick.value;
      ExtendGreedy(g, tour, next);
      tour := tour + [next];
      unvisited := unvisited - {next};
      current := next;
    }
    CloseTour(g, start, tour);
    tour := tour + [start];
    TourImpliesComplete(g, start, tour, true);
    return Ok(tour);
  }

  /** Every step looks up the weight from the current point to every point
      not yet visited, so between them the steps look up every pair of
      points: a nearest-neighbour tour exists only on a complete graph. */
  lemma TourImpliesComplete(g: Graph, start: nat, t: seq<nat>, lowestTie: bool)
    requires NearestNeighborTour(g, start, t, lowestTie)
    ensures Complete(g)
  {
    var n := g.n;
    forall a: nat, b: nat | a < n && b < n && a != b ensures Key(a, b) in g.edges {
      assert a in t[..n] && b in t[..n];
      var i :| 0 <= i < n && t[i] == a;
      var j :| 0 <= j < n && t[j] == b;
      var lo, hi := if i < j then i else j, if i < j then j else i;
      assert lo < hi;
      assert GreedyStep(g, t, lo, lowestTie);
      assert t[hi] !in t[..lo + 1];
      assert t[hi] in Unvisited(n, t[..lo + 1]);
      assert Key(t[lo], t[hi]) == Key(a, b);
    }
  }

  /** Appending the nearest unvisited point keeps every step greedy and the
      unvisited set in step with the tour. */
  lemma ExtendGreedy(g: Graph, tour: seq<nat>, next: nat)
    requires |tour| >= 1
    requires forall k: nat :: k + 1 < |tour| ==> GreedyStep(g, tour, k, true)
    requires FirstNearest(g, tour[|tour| - 1], Unvisited(g.n, tour), next)
    ensures Unvisited(g.n, tour + [next]) == Unvisited(g.n, tour) - {next}
    ensures forall k: nat :: k + 1 < |tour + [next]| ==> GreedyStep(g, tour + [next], k, true)
  {
    var t := tour + [next];
    assert Unvisited(g.n, t) == Unvisited(g.n, tour) - {next};
    forall k: nat | k + 1 < |t| ensures GreedyStep(g, t, k, true) {
      assert t[..k + 1] == tour[..k + 1];
      if k + 1 < |tour| {
        assert GreedyStep(g, tour, k, true);
      } else {
        assert tour[..k + 1] == tour;
      }
    }
  }

  /** Once every point is visited, the return to the start completes a
      nearest-neighbour tour. */
  lemma CloseTour(g: Graph, start: nat, tour: seq<nat>)
    requires |tour| == g.n >= 1 && tour[0] == start
    requires Unvisited(g.n, tour) == {}
    requires forall i :: 0 <= i < |tour| ==> tour[i] < g.n
    requires forall i, j :: 0 <= i < j < |tour| ==> tour[i] != tour[j]
    requires forall k: nat :: k + 1 < |tour| ==> GreedyStep(g, tour, k, true)
    ensures NearestNeighborTour(g, start, tour + [start], true)
  {
    var t := tour + [start];
    assert t[..g.n] == tour;
    forall p: nat | p < g.n ensures p in t[..g.n] {
      assert p !in Unvisited(g.n, tour);
    }
    forall k: nat | k + 2 < |t| ensures GreedyStep(g, t, k, true) {
      assert t[..k + 1] == tour[..k + 1];
      assert GreedyStep(g, tour, k, true);
    }
  }

  /** The first step's candidates: all picking points but the start. */
  lemma UnvisitedStart(n: nat, start: nat)
    requires start < n
    ensures Unvisited(n, [start]) == Unvisited(n, []) - {start}
    ensures |Unvisited(n, [start])| == n - 1
  {
    RangeSize(n);
    assert Unvisited(n, [start]) == Unvisited(n, []) - {start};
  }

  /** There are n picking points. */
  lemma {:induction false} RangeSize(n: nat)
    ensures |Unvisited(n, [])| == n
  {
    if n > 0 {
      RangeSize(n - 1);
      assert Unvisited(n, []) == Unvisited(n - 1, []) + {n - 1};
    }
  }

  /** The lowest-index tie rule leaves exactly one choice per step. */
  lemma FirstNearestUnique(g: Graph, cur: nat, candidates: set<nat>, p1: nat, p2: nat)
    requires FirstNearest(g, cur, candidates, p1) && FirstNearest(g, cur, candidates, p2)
    ensures p1 == p2
  {
  }

  /** Every lowest-tie step is also a plain greedy step. */
  lemma LowestTieIsGreedy(g: Graph, start: nat, t: seq<nat>)
    requires NearestNeighborTour(g, start, t, true)
    ensures NearestNeighborTour(g, start, t, false)
  {
    forall k: nat | k + 2 < |t| ensures GreedyStep(g, t, k, false) {
      assert GreedyStep(g, t, k, true);
    }
  }

  /** With the lowest-index tie rule the tour is determined by the graph and
      the start, so running the construction twice gives the same tour. */
  lemma {:induction false} TourUnique(g: Graph, start: nat, t1: seq<nat>, t2: seq<nat>)
    requires NearestNeighborTour(g, start, t1, true)
    requires NearestNeighborTour(g, start, t2, true)
    ensures t1 == t2
  {
    var n := g.n;
    var k := 1;
    assert t1[..1] == [start] == t2[..1];
    while k < n
      invariant 1 <= k <= n
      invariant t1[..k] == t2[..k]
    {
      assert GreedyStep(g, t1, k - 1, true) && GreedyStep(g, t2, k - 1, true);
      assert t1[k - 1] == t2[k - 1] by {
        assert t1[k - 1] == t1[..k][k - 1];
      }
      FirstNearestUnique(g, t1[k - 1], Unvisited(n, t1[..k]), t1[k], t2[k]);
      assert t1[..k + 1] == t1[..k] + [t1[k]];
      assert t2[..k + 1] == t2[..k] + [t2[k]];
      k := k + 1;
    }
    assert t1 == t1[..n] + [start];
    assert t2 == t2[..n] + [start];
  }

  /** The entries between the two visits of the start hold every other
      picking point exactly once. */
  lemma MiddleIsPermutation(n: nat, start: nat, t: seq<nat>)
    requires VisitsEachOnce(n, start, t)
    ensures multiset(t[1..n]) == multiset(Unvisited(n, [start]))
  {
    var mid := t[1..n];
    forall x: nat ensures multiset(mid)[x] == multiset(Unvisited(n, [start]))[x] {
      if x < n && x != start {
        assert x in t[..n];
        var i :| 0 <= i < n && t[i] == x;
        assert i != 0;
        assert mid[i - 1] == x;
        DistinctCount(mid, i - 1);
      } else {
        forall i | 0 <= i < |mid| ensures mid[i] != x {
          assert mid[i] == t[i + 1];
        }
      }
    }
    assert multiset(mid) == multiset(Unvisited(n, [start]));
  }

  /** In a sequence without repeats an element occurs once. */
  lemma {:induction false} DistinctCount(s: seq<nat>, i: nat)
    requires i < |s|
    requires forall a, b :: 0 <= a < b < |s| ==> s[a] != s[b]
    ensures multiset(s)[s[i]] == 1
  {
    var x := s[i];
    if i + 1 == |s| {
      assert s == s[..i] + [x];
      forall j | 0 <= j < i ensures s[..i][j] != x {
        assert s[..i][j] == s[j];
      }
    } else {
      var last := |s| - 1;
      assert s == s[..last] + [s[last]];
      DistinctCount(s[..last], i);
      assert s[..last][i] == x;
    }
  }
}
