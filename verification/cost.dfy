/**
 `WarehousePicking.total_distance`: the sum of the edge weights between
 consecutive entries of a tour. `PathCost` is the reference definition, a
 sum over the consecutive pairs; `TotalDistance` is the source's
 accumulating loop.
 */
module TourCost {
  import opened WarehouseGraph

  /** Every consecutive pair of the sequence is an edge of g. */
  ghost predicate Walkable(g: Graph, t: seq<nat>) {
    forall i :: 0 <= i < |t| - 1 ==> Key(t[i], t[i + 1]) in g.edges
  }

  /** All edge weights are at least zero. */
  ghost predicate NonNegative(g: Graph) {
    forall e :: e in g.edges ==> g.edges[e] >= 0
  }

  /** The weight of the first edge plus the cost of the rest of the walk. */
  ghost function PathCost(g: Graph, t: seq<nat>): (c: int)
    requires Walkable(g, t)
    ensures NonNegative(g) ==> c >= 0
    decreases |t|
  {
    if |t| <= 1 then 0 else g.edges[Key(t[0], t[1])] + PathCost(g, t[1..])
  }

  function Reverse(s: seq<nat>): (r: seq<nat>)
    ensures |r| == |s|
    ensures forall i :: 0 <= i < |s| ==> r[i] == s[|s| - 1 - i]
    decreases |s|
  {
    if |s| == 0 then [] else [s[|s| - 1]] + Reverse(s[..|s| - 1])
  }

  /** `total_distance(tour)`: adds the weights of the consecutive pairs from
      the front and fails at the first pair that is not an edge. */
  method TotalDistance(g: Graph, tour: seq<nat>) returns (r: Result<int>)
    ensures r.Ok? <==> Walkable(g, tour)
    ensures r.Ok? ==> r.value == PathCost(g, tour)
    ensures r.Err? ==> r.error == MissingEdge
  {
    var distance := 0;
    var i := 0;
    while i + 1 < |tour|
      invariant i == 0 || i < |tour|
      invariant |tour| > 0 ==> Walkable(g, tour[..i + 1]) && distance == PathCost(g, tour[..i + 1])
      invariant |tour| == 0 ==> distance == 0
    {
      var w := Weight(g, tour[i], tour[i + 1]);
      if w.Err? {
        return Err(MissingEdge);
      }
      assert tour[..i + 2] == tour[..i + 1] + [tour[i + 1]];
      AppendCost(g, tour[..i + 1], tour[i + 1]);
      distance := distance + w.value;
      i := i + 1;
    }
    if |tour| > 0 {
      assert tour[..i + 1] == tour;
    }
    return Ok(distance);
  }

  /** Extending a walk by one step adds the weight of that step. */
  lemma {:induction false} AppendCost(g: Graph, t: seq<nat>, x: nat)
    requires |t| >= 1 && Walkable(g, t) && Key(t[|t| - 1], x) in g.edges
    ensures Walkable(g, t + [x])
    ensures PathCost(g, t + [x]) == PathCost(g, t) + g.edges[Key(t[|t| - 1], x)]
    decreases |t|
  {
    var t' := t + [x];
    assert Walkable(g, t');
    if |t| > 1 {
      assert t'[1..] == t[1..] + [x];
      AppendCost(g, t[1..], x);
    }
  }

  /** Joining two walks that meet at a point adds their costs. */
  lemma {:induction false} ConcatCost(g: Graph, s: seq<nat>, t: seq<nat>)
    requires |s| >= 1 && |t| >= 1 && s[|s| - 1] == t[0]
    requires Walkable(g, s) && Walkable(g, t)
    ensures Walkable(g, s + t[1..])
    ensures PathCost(g, s + t[1..]) == PathCost(g, s) + PathCost(g, t)
    decreases |s|
  {
    var st := s + t[1..];
    if |s| == 1 {
      assert st == t;
    } else {
      ConcatCost(g, s[1..], t);
      assert st[1..] == s[1..] + t[1..];
      assert Walkable(g, st) by {
        forall i | 0 <= i < |st| - 1 ensures Key(st[i], st[i + 1]) in g.edges {
          if i > 0 {
            assert st[i] == st[1..][i - 1] && st[i + 1] == st[1..][i];
          }
        }
      }
    }
  }

  /** Edges are undirected, so walking a tour backwards costs the same. */
  lemma {:induction false} ReverseCost(g: Graph, t: seq<nat>)
    requires Walkable(g, t)
    ensures Walkable(g, Reverse(t))
    ensures PathCost(g, Reverse(t)) == PathCost(g, t)
    decreases |t|
  {
    var r := Reverse(t);
    assert Walkable(g, r) by {
      forall i | 0 <= i < |r| - 1 ensures Key(r[i], r[i + 1]) in g.edges {
        var j := |t| - 2 - i;
        assert r[i] == t[j + 1] && r[i + 1] == t[j];
        assert Key(t[j], t[j + 1]) in g.edges;
      }
    }
    if |t| >= 2 {
      var last := |t| - 1;
      var front := t[..last];
      assert Walkable(g, front);
      ReverseCost(g, front);
      assert r == [t[last]] + Reverse(front);
      assert r[1..] == Reverse(front);
      assert Reverse(front)[0] == t[last - 1];
      assert t == front + [t[last]];
      AppendCost(g, front, t[last]);
      assert Key(t[last], t[last - 1]) == Key(t[last - 1], t[last]);
    }
  }

  /** A walk of at most one point costs nothing. */
  lemma ShortTourCost(g: Graph, t: seq<nat>)
    requires |t| <= 1
    ensures Walkable(g, t) && PathCost(g, t) == 0
  {
  }

  /** Since no point has an edge to itself, a tour that stays put for a step
      (such as [s, s]) cannot be costed: the lookup fails. */
  lemma RepeatedStopNotWalkable(g: Graph, t: seq<nat>, i: nat)
    requires Valid(g)
    requires i + 1 < |t| && t[i] == t[i + 1]
    ensures !Walkable(g, t)
  {
    assert Key(t[i], t[i + 1]) == (t[i], t[i]);
  }
}
