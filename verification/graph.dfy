/**
 The warehouse layout as an undirected weighted graph over picking points.

 Picking points are identified by their position 0..n-1 in the list of
 labels (labels are assumed distinct). An undirected edge {a, b} is stored
 under the key (min(a, b), max(a, b)). The graph is built by replaying the
 construction loop of `WarehousePicking.__init__` write by write, so that
 the overwrite order of the source is part of the model rather than an
 assumption about it.
 */
module WarehouseGraph {

  /** The key of an undirected edge: its endpoints in ascending order. */
  type Edge = (nat, nat)

  function Key(a: nat, b: nat): (e: Edge)
    ensures e.0 <= e.1
    ensures (e.0 == a && e.1 == b) || (e.0 == b && e.1 == a)
  {
    if a <= b then (a, b) else (b, a)
  }

  /** The failures of the source, all of which are Python exceptions there:
      IndexError while building, KeyError for a point that is not a picking
      point, KeyError for a pair of points with no edge between them. */
  datatype Error = IndexOutOfRange | UnknownPoint | MissingEdge

  datatype Result<T> = Ok(value: T) | Err(error: Error)

  /** `n` picking points and the weight of every edge the graph holds. */
  datatype Graph = Graph(n: nat, edges: map<Edge, int>)

  /** Every stored edge joins two different picking points. */
  ghost predicate Valid(g: Graph) {
    forall e :: e in g.edges ==> e.0 < e.1 < g.n
  }

  /** Every two different picking points are joined by an edge. */
  ghost predicate Complete(g: Graph) {
    forall a: nat, b: nat :: a < g.n && b < g.n && a != b ==> Key(a, b) in g.edges
  }

  /** The weight stored for the edge {a, b}, read in either orientation;
      fails when the graph has no such edge. The specifications of the tour
      state the same lookup directly on `edges`: `Weight(g, a, b)` is
      `Ok(g.edges[Key(a, b)])` exactly when `Key(a, b) in g.edges`. */
  function Weight(g: Graph, a: nat, b: nat): Result<int> {
    if Key(a, b) in g.edges then Ok(g.edges[Key(a, b)]) else Err(MissingEdge)
  }

  /** The position of a label among the picking points; a label that is not
      a picking point fails, as looking it up in the source's set does. */
  function PointIndex(labels: seq<string>, x: string): (r: Result<nat>)
    ensures r.Ok? <==> x in labels
    ensures r.Ok? ==> r.value < |labels| && labels[r.value] == x
    ensures r.Err? ==> r.error == UnknownPoint
    decreases |labels|
  {
    if |labels| == 0 then Err(UnknownPoint)
    else if labels[0] == x then Ok(0)
    else
      match PointIndex(labels[1..], x)
      case Ok(i) => Ok(i + 1)
      case Err(e) => Err(e)
  }

  /** The writes row `i` makes for its first `cols` entries, in column order:
      every column j other than i sets edge {i, j} to row[j], replacing any
      weight the edge had. */
  function WriteRow(m: map<Edge, int>, row: seq<int>, i: nat, cols: nat): map<Edge, int>
    requires cols <= |row|
    decreases cols
  {
    if cols == 0 then m
    else
      var m' := WriteRow(m, row, i, cols - 1);
      if cols - 1 == i then m' else m'[Key(i, cols - 1) := row[cols - 1]]
  }

  /** The edges after rows 0..rows-1 of the matrix have been written, in order. */
  function WriteRows(dist: seq<seq<int>>, rows: nat): map<Edge, int>
    requires rows <= |dist|
    decreases rows
  {
    if rows == 0 then map[]
    else WriteRow(WriteRows(dist, rows - 1), dist[rows - 1], rows - 1, |dist[rows - 1]|)
  }

  /** The construction loop runs to the end without an IndexError: there is
      a row for every picking point, and no row of a picking point has more
      entries than there are picking points. */
  predicate RowsFit(n: nat, dist: seq<seq<int>>) {
    n <= |dist| && forall i :: 0 <= i < n ==> |dist[i]| <= n
  }

  /** Every picking point has a row of exactly n entries. */
  predicate Square(n: nat, dist: seq<seq<int>>) {
    n <= |dist| && forall i :: 0 <= i < n ==> |dist[i]| == n
  }

  predicate Symmetric(n: nat, dist: seq<seq<int>>)
    requires Square(n, dist)
  {
    forall i, j :: 0 <= i < n && 0 <= j < n ==> dist[i][j] == dist[j][i]
  }

  /** `WarehousePicking(picking_points, distances)` with n = |picking_points|. */
  function Build(n: nat, dist: seq<seq<int>>): (r: Result<Graph>)
    ensures r.Ok? <==> RowsFit(n, dist)
    ensures r.Err? ==> r.error == IndexOutOfRange
    ensures r.Ok? ==> r.value.n == n && Valid(r.value)
  {
    if RowsFit(n, dist) then
      var g := Graph(n, WriteRows(dist, n));
      assert Valid(g) by {
        forall e | e in g.edges ensures e.0 < e.1 < n {
          WriteRowsLookup(dist, n, e.0, e.1);
        }
      }
      Ok(g)
    else Err(IndexOutOfRange)
  }

  /** The effect of one row on the edge (a, b): set when the row belongs to
      one endpoint and has an entry for the other, untouched otherwise. */
  lemma {:induction false} WriteRowLookup(m: map<Edge, int>, row: seq<int>, i: nat, cols: nat, a: nat, b: nat)
    requires cols <= |row|
    ensures var w := WriteRow(m, row, i, cols);
      if a < b && ((a == i && b < cols) || (b == i && a < cols)) then
        (a, b) in w && w[(a, b)] == row[if a == i then b else a]
      else
        ((a, b) in w <==> (a, b) in m) && ((a, b) in m ==> w[(a, b)] == m[(a, b)])
    decreases cols
  {
    if cols > 0 {
      WriteRowLookup(m, row, i, cols - 1, a, b);
    }
  }

  /** After the first k rows, the edge (a, b) with a < b holds the entry of
      the later row b when that row reaches column a, and otherwise the entry
      of row a when that row reaches column b; with neither it is absent. No
      key (a, b) with a >= b is ever written. */
  lemma {:induction false} WriteRowsLookup(dist: seq<seq<int>>, k: nat, a: nat, b: nat)
    requires k <= |dist|
    ensures var w := WriteRows(dist, k);
      if a < b && b < k && a < |dist[b]| then (a, b) in w && w[(a, b)] == dist[b][a]
      else if a < b && a < k && b < |dist[a]| then (a, b) in w && w[(a, b)] == dist[a][b]
      else (a, b) !in w
    decreases k
  {
    if k > 0 {
      WriteRowsLookup(dist, k - 1, a, b);
      WriteRowLookup(WriteRows(dist, k - 1), dist[k - 1], k - 1, |dist[k - 1]|, a, b);
    }
  }

  /** The edge between points a < b of a built graph carries dist[b][a]
      (row b is written after row a and overwrites it) when row b is long
      enough, dist[a][b] when only row a is, and does not exist otherwise. */
  lemma BuildEdge(n: nat, dist: seq<seq<int>>, a: nat, b: nat)
    requires RowsFit(n, dist) && a < b < n
    ensures var g := Build(n, dist).value;
      if a < |dist[b]| then Weight(g, a, b) == Ok(dist[b][a])
      else if b < |dist[a]| then Weight(g, a, b) == Ok(dist[a][b])
      else Weight(g, a, b) == Err(MissingEdge)
  {
    WriteRowsLookup(dist, n, a, b);
  }

  /** From a square matrix every pair of different points gets an edge, whose
      weight is the entry below the diagonal. */
  lemma SquareBuildWeight(n: nat, dist: seq<seq<int>>, a: nat, b: nat)
    requires Square(n, dist) && a < n && b < n
    ensures Build(n, dist).Ok?
    ensures Weight(Build(n, dist).value, a, b).Ok? <==> a != b
    ensures a != b ==>
              Weight(Build(n, dist).value, a, b) == Ok(if a < b then dist[b][a] else dist[a][b])
  {
    if a < b {
      BuildEdge(n, dist, a, b);
    } else if b < a {
      BuildEdge(n, dist, b, a);
    }
  }

  /** With a symmetric square matrix the weight of {a, b} is dist[a][b],
      read in either orientation. */
  lemma SymmetricBuildWeight(n: nat, dist: seq<seq<int>>, a: nat, b: nat)
    requires Square(n, dist) && Symmetric(n, dist) && a < n && b < n && a != b
    ensures Build(n, dist).Ok?
    ensures Weight(Build(n, dist).value, a, b) == Ok(dist[a][b])
  {
    SquareBuildWeight(n, dist, a, b);
  }

  /** A row too short to reach the other point does not lose the edge when
      the other point's row reaches it. */
  lemma ShortRowStillComplete()
    ensures Build(2, [[0], [7, 0]]).Ok?
    ensures Complete(Build(2, [[0], [7, 0]]).value)
    ensures Weight(Build(2, [[0], [7, 0]]).value, 0, 1) == Ok(7)
  {
    var dist := [[0], [7, 0]];
    assert RowsFit(2, dist);
    BuildEdge(2, dist, 0, 1);
    var g := Build(2, dist).value;
    forall a: nat, b: nat | a < 2 && b < 2 && a != b ensures Key(a, b) in g.edges {
      assert Key(a, b) == (0, 1);
    }
  }

  lemma SquareBuildComplete(n: nat, dist: seq<seq<int>>)
    requires Square(n, dist)
    ensures Build(n, dist).Ok? && Complete(Build(n, dist).value)
  {
    var g := Build(n, dist).value;
    forall a: nat, b: nat | a < n && b < n && a != b
      ensures Key(a, b) in g.edges
    {
      SquareBuildWeight(n, dist, a, b);
    }
  }

  /** Edges are undirected: the lookup does not depend on the orientation. */
  lemma WeightSymmetric(g: Graph, a: nat, b: nat)
    ensures Weight(g, a, b) == Weight(g, b, a)
  {
  }

  /** The diagonal is skipped, so looking up a point against itself fails. */
  lemma NoSelfEdge(g: Graph, a: nat)
    requires Valid(g)
    ensures Weight(g, a, a) == Err(MissingEdge)
  {
    assert Key(a, a) == (a, a);
  }

  /** With a single picking point no edge is ever added, so the graph holds
      no edges (networkx would hold no nodes either). */
  lemma SinglePointNoEdges(dist: seq<seq<int>>)
    requires RowsFit(1, dist)
    ensures Build(1, dist).value.edges == map[]
  {
    var g := Build(1, dist).value;
    forall e | e in g.edges ensures false {
    }
  }
}
