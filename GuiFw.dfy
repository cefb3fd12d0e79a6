/** The package-private duplicate of `BSCS2_RODRIGO_fw` at the end of
    FloydWarshallGUI.java. It differs from the public class in three places:
    relaxation is written with `Math.min`, the border loop of `addNode` runs
    one step further, and the demo graph is undirected. */
module GuiFw {
  import opened Matrices
  import opened ShortestPaths
  import opened VertexOps

  /** `floydWarshall` of the duplicate class. On weights in [0, INF] it returns
      the same matrix as the public class: all-pairs shortest distances. */
  method FloydWarshall(graph: array2<int>) returns (dist: array2<int>)
    requires graph.Length0 == graph.Length1
    requires InRange(Cells(graph))
    ensures fresh(dist)
    ensures Cells(dist) == Distances(Cells(graph))
  {
    var n := graph.Length0;
    ghost var g := Cells(graph);
    dist := new int[n, n]((i, j) => 0);
    CopyBlock(graph, dist, n);
    SquareExt(Cells(dist), g);
    var k := 0;
    while k < n
      invariant 0 <= k <= n
      invariant Cells(dist) == RoundsMin(g, k)
    {
      RoundsAgree(g, k);
      RoundsInRange(g, k);
      RelaxThrough(dist, k);
      k := k + 1;
    }
    RoundsAgree(g, n);
  }

  /** One pass of the k loop with the `Math.min` update, in place. */
  method RelaxThrough(dist: array2<int>, k: nat)
    requires dist.Length0 == dist.Length1 && k < dist.Length0
    requires InRange(Cells(dist))
    modifies dist
    ensures Cells(dist) == RoundMin(old(Cells(dist)), k)
  {
    ghost var d := Cells(dist);
    PivotFixed(d, k);
    forall p | 0 <= p < |d|
      ensures RelaxMin(d, k, p, k) == d[p][k] && RelaxMin(d, k, k, p) == d[k][p]
    {
      RelaxAgrees(d, k, p, k);
      RelaxAgrees(d, k, k, p);
    }
    var i := 0;
    while i < dist.Length0
      invariant 0 <= i <= dist.Length0
      invariant forall p, q :: 0 <= p < |d| && 0 <= q < |d| ==>
        dist[p, q] == if p < i then RelaxMin(d, k, p, q) else d[p][q]
    {
      RelaxRow(dist, k, i, d);
      i := i + 1;
    }
    SquareExt(Cells(dist), RoundMin(d, k));
  }

  /** The j loop for one row i: each entry updated by `Step`, the guarded
      `Math.min` with Java's 32-bit sum. */
  method RelaxRow(dist: array2<int>, k: nat, i: nat, ghost d: Matrix)
    requires InRange(d) && dist.Length0 == |d| && dist.Length1 == |d|
    requires k < |d| && i < |d|
    requires forall p :: 0 <= p < |d| ==> RelaxMin(d, k, p, k) == d[p][k] && RelaxMin(d, k, k, p) == d[k][p]
    requires forall p, q :: 0 <= p < |d| && 0 <= q < |d| ==>
      dist[p, q] == if p < i then RelaxMin(d, k, p, q) else d[p][q]
    modifies dist
    ensures forall p, q :: 0 <= p < |d| && 0 <= q < |d| ==>
      dist[p, q] == if p <= i then RelaxMin(d, k, p, q) else d[p][q]
  {
    var j := 0;
    while j < dist.Length1
      invariant 0 <= j <= dist.Length1
      invariant forall p, q :: 0 <= p < |d| && 0 <= q < |d| ==>
        dist[p, q] == if p < i || (p == i && q < j) then RelaxMin(d, k, p, q) else d[p][q]
    {
      assert dist[i, k] == d[i][k] && dist[k, j] == d[k][j] && dist[i, j] == d[i][j];
      StepExact(d[i][j], d[i][k], d[k][j]);
      dist[i, j] := Step(dist[i, j], dist[i, k], dist[k, j]);
      j := j + 1;
    }
  }

  /** The update of one entry exactly as written, on arbitrary `int` values:
      the guard, then `Math.min` of the old entry and the wrapped sum. */
  function Step(dij: int, dik: int, dkj: int): (r: int)
    requires IsInt32(dij) && IsInt32(dik) && IsInt32(dkj)
    ensures IsInt32(r)
    ensures r <= dij
    ensures dik == INF || dkj == INF ==> r == dij
  {
    if dik != INF && dkj != INF then Min(dij, Int32Add(dik, dkj)) else dij
  }

  /** On weights in [0, INF] the sum never wraps: the step is the exact
      relaxation and its result stays in [0, INF]. */
  lemma StepExact(dij: int, dik: int, dkj: int)
    requires 0 <= dij <= INF && 0 <= dik <= INF && 0 <= dkj <= INF
    ensures IsInt32(dik + dkj)
    ensures Step(dij, dik, dkj) == if dik != INF && dkj != INF then Min(dij, dik + dkj) else dij
    ensures 0 <= Step(dij, dik, dkj) <= INF
  {
    assert dik + dkj <= 2 * INF < INT_MAX + 1;
  }

  /** On every `int`, even where the sum wraps, the `Math.min` update and the
      strict-`<` update of the public class give the same value. */
  lemma StepAgreesWithLess(dij: int, dik: int, dkj: int)
    requires IsInt32(dij) && IsInt32(dik) && IsInt32(dkj)
    ensures Step(dij, dik, dkj) ==
      if dik != INF && dkj != INF && Int32Add(dik, dkj) < dij then Int32Add(dik, dkj) else dij
  {
  }

  /** Two weights of 2000000000, each an `int` the cell reader accepts, sum to
      more than `Integer.MAX_VALUE`; the wrapped sum is negative and
      `Math.min` keeps it, so an unreachable pair gets a negative distance. */
  lemma StepOverflows()
    ensures Step(INF, 2000000000, 2000000000) == -294967296
    ensures Int32Add(2000000000, 2000000000) == -294967296 < INF
  {
    assert Int32Add(2000000000, 2000000000) == 4000000000 - 0x1_0000_0000;
  }

  /** `addNode` of the duplicate class: the border loop runs i < n + 1, so it
      writes INF at [n, n] before the final 0 overwrites it. */
  method AddNode(graph: array2<int>) returns (newGraph: array2<int>)
    requires graph.Length0 == graph.Length1
    ensures fresh(newGraph)
    ensures Cells(newGraph) == AddVertex(Cells(graph))
  {
    var n := graph.Length0;
    newGraph := new int[n + 1, n + 1]((i, j) => 0);
    CopyBlock(graph, newGraph, n);
    var i := 0;
    while i < n + 1
      invariant 0 <= i <= n + 1
      invariant forall p, q :: 0 <= p < n && 0 <= q < n ==> newGraph[p, q] == graph[p, q]
      invariant forall p :: 0 <= p < i ==> newGraph[p, n] == INF && newGraph[n, p] == INF
    {
      newGraph[i, n] := INF;
      newGraph[n, i] := INF;
      i := i + 1;
    }
    newGraph[n, n] := 0;
    ghost var added := AddVertex(Cells(graph));
    AddVertexShape(Cells(graph));
    assert forall p, q :: 0 <= p <= n && 0 <= q <= n ==> newGraph[p, q] == added[p][q];
    SquareExt(Cells(newGraph), added);
  }

  /** `removeLastNode` of the duplicate class: the same array when n <= 1,
      otherwise a fresh copy of the top-left (n-1)×(n-1) block. */
  method RemoveLastNode(graph: array2<int>) returns (newGraph: array2<int>)
    requires graph.Length0 == graph.Length1
    ensures graph.Length0 <= 1 ==> newGraph == graph
    ensures graph.Length0 > 1 ==> fresh(newGraph)
    ensures Cells(newGraph) == RemoveLastVertex(Cells(graph))
  {
    var n := graph.Length0;
    if n <= 1 {
      return graph;
    }
    newGraph := new int[n - 1, n - 1]((i, j) => 0);
    CopyBlock(graph, newGraph, n - 1);
    SquareExt(Cells(newGraph), RemoveLastVertex(Cells(graph)));
  }

  /** `getDemoGraph` of the duplicate class: the undirected demo graph with
      edges 0–1 (5), 0–3 (10), 1–2 (3), 2–3 (1). */
  function DemoGraph(): (g: Matrix)
    ensures InRange(g) && |g| == 4 && IsSymmetric(g)
    ensures forall i :: 0 <= i < 4 ==> g[i][i] == 0
  {
    [[0, 5, INF, 10],
     [5, 0, 3, INF],
     [INF, 3, 0, 1],
     [10, INF, 1, 0]]
  }

  /** On the undirected demo graph every pair is connected: 0 reaches 2 at cost
      8 and 3 at cost 9, and 3 reaches 0 at cost 9 along the reversed path. */
  lemma DemoDistances()
    ensures Distances(DemoGraph())[0][2] == 8
    ensures Distances(DemoGraph())[0][3] == 9
    ensures Distances(DemoGraph())[3][0] == 9
  {
    var g := DemoGraph();
    DemoRound1();
    DemoRound2();
    DemoRound3();
    DemoRound4();
    assert Rounds(g, 1) == DemoAfter1();
    assert Rounds(g, 2) == DemoAfter2();
    assert Rounds(g, 3) == DemoAfter3();
    assert Rounds(g, 4) == DemoAfter3();
  }

  /** The demo graph after pivot 0. */
  function DemoAfter1(): Matrix {
    [[0, 5, INF, 10],
     [5, 0, 3, 15],
     [INF, 3, 0, 1],
     [10, 15, 1, 0]]
  }

  /** The demo graph after pivots 0 and 1. */
  function DemoAfter2(): Matrix {
    [[0, 5, 8, 10],
     [5, 0, 3, 15],
     [8, 3, 0, 1],
     [10, 15, 1, 0]]
  }

  /** The demo graph after pivots 0, 1 and 2; pivot 3 changes nothing more. */
  function DemoAfter3(): Matrix {
    [[0, 5, 8, 9],
     [5, 0, 3, 4],
     [8, 3, 0, 1],
     [9, 4, 1, 0]]
  }

  /** Pivot 0 on the demo graph gives the first intermediate matrix. */
  lemma DemoRound1()
    ensures Round(DemoGraph(), 0) == DemoAfter1()
  {
    RoundIs(DemoGraph(), 0, DemoAfter1());
  }

  /** Pivot 1 on the first intermediate matrix gives the second. */
  lemma DemoRound2()
    ensures Round(DemoAfter1(), 1) == DemoAfter2()
  {
    RoundIs(DemoAfter1(), 1, DemoAfter2());
  }

  /** Pivot 2 on the second intermediate matrix gives the third. */
  lemma DemoRound3()
    ensures Round(DemoAfter2(), 2) == DemoAfter3()
  {
    RoundIs(DemoAfter2(), 2, DemoAfter3());
  }

  /** Pivot 3 changes nothing in the third intermediate matrix. */
  lemma DemoRound4()
    ensures Round(DemoAfter3(), 3) == DemoAfter3()
  {
    RoundIs(DemoAfter3(), 3, DemoAfter3());
  }

}
