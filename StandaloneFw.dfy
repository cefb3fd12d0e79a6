/** The public class `BSCS2_RODRIGO_fw` of BSCS2_RODRIGO_fw.java. The class has
    no instance fields (its one field, the constant `INF`, is `Matrices.INF`),
    so its methods are module-level methods here; each `int[][]` is an n×n
    `array2<int>`. */
module StandaloneFw {
  import opened Matrices
  import opened ShortestPaths
  import opened VertexOps
  import opened Text

  /** `floydWarshall`: copies the input, then relaxes the copy in place with k
      outermost. The input is read, never written. */
  method FloydWarshall(graph: array2<int>) returns (dist: array2<int>)
    requires graph.Length0 == graph.Length1
    requires InRange(Cells(graph))
    ensures fresh(dist)
    ensures Cells(dist) == Distances(Cells(graph))
  {
    var n := graph.Length0;
    ghost var g := Cells(graph);
    dist := new int[n, n]((i, j) => 0);
    CopyBlock(graph, dist, n);
    SquareExt(Cells(dist), g);
    var k := 0;
    while k < n
      invariant 0 <= k <= n
      invariant Cells(dist) == Rounds(g, k)
    {
      RoundsInRange(g, k);
      RelaxThrough(dist, k);
      k := k + 1;
    }
  }

  /** One pass of the k loop: every entry relaxed through pivot k, in row-major
      order, in place. Row and column k do not move during the pass, so the
      in-place sweep computes the same matrix as relaxing a frozen copy. */
  method RelaxThrough(dist: array2<int>, k: nat)
    requires dist.Length0 == dist.Length1 && k < dist.Length0
    requires InRange(Cells(dist))
    modifies dist
    ensures Cells(dist) == Round(old(Cells(dist)), k)
  {
    ghost var d := Cells(dist);
    PivotFixed(d, k);
    var i := 0;
    while i < dist.Length0
      invariant 0 <= i <= dist.Length0
      invariant forall p, q :: 0 <= p < |d| && 0 <= q < |d| ==>
        dist[p, q] == if p < i then Relax(d, k, p, q) else d[p][q]
    {
      RelaxRow(dist, k, i, d);
      i := i + 1;
    }
    SquareExt(Cells(dist), Round(d, k));
  }

  /** The j loop for one row i: the test and the update exactly as written,
      with Java's 32-bit addition. */
  method RelaxRow(dist: array2<int>, k: nat, i: nat, ghost d: Matrix)
    requires InRange(d) && dist.Length0 == |d| && dist.Length1 == |d|
    requires k < |d| && i < |d|
    requires forall p :: 0 <= p < |d| ==> Relax(d, k, p, k) == d[p][k] && Relax(d, k, k, p) == d[k][p]
    requires forall p, q :: 0 <= p < |d| && 0 <= q < |d| ==>
      dist[p, q] == if p < i then Relax(d, k, p, q) else d[p][q]
    modifies dist
    ensures forall p, q :: 0 <= p < |d| && 0 <= q < |d| ==>
      dist[p, q] == if p <= i then Relax(d, k, p, q) else d[p][q]
  {
    var j := 0;
    while j < dist.Length1
      invariant 0 <= j <= dist.Length1
      invariant forall p, q :: 0 <= p < |d| && 0 <= q < |d| ==>
        dist[p, q] == if p < i || (p == i && q < j) then Relax(d, k, p, q) else d[p][q]
    {
      assert dist[i, k] == d[i][k] && dist[k, j] == d[k][j];
      if dist[i, k] != INF && dist[k, j] != INF && Int32Add(dist[i, k], dist[k, j]) < dist[i, j] {
        dist[i, j] := Int32Add(dist[i, k], dist[k, j]);
      }
      j := j + 1;
    }
  }

  /** `formatMatrix`: "" for a null or empty matrix; otherwise one line per row,
      each the row's cells left-justified to width 6, INF shown as the
      infinity sign. */
  method FormatMatrix(matrix: array2?<int>) returns (s: string)
    requires matrix != null ==> matrix.Length0 == matrix.Length1
    ensures matrix == null ==> s == ""
    ensures matrix != null ==> s == MatrixText(Cells(matrix))
  {
    if matrix == null || matrix.Length0 == 0 {
      return "";
    }
    s := FormatLines(matrix);
  }

  /** The i loop of `formatMatrix`: each row's cells, then a line terminator. */
  method FormatLines(matrix: array2<int>) returns (text: string)
    requires matrix.Length0 == matrix.Length1
    ensures text == Lines(Cells(matrix), matrix.Length0)
  {
    ghost var m := Cells(matrix);
    text := "";
    var i := 0;
    while i < matrix.Length0
      invariant 0 <= i <= matrix.Length0
      invariant text == Lines(m, i)
    {
      var row := FormatRow(matrix, i);
      LinesStep(m, i);
      text := text + (row + "\n");
      i := i + 1;
    }
  }

  /** The j loop of `formatMatrix` for row i. */
  method FormatRow(matrix: array2<int>, i: nat) returns (text: string)
    requires i < matrix.Length0
    ensures text == RowText(Cells(matrix)[i], matrix.Length1)
  {
    ghost var row := Cells(matrix)[i];
    text := "";
    var j := 0;
    while j < matrix.Length1
      invariant 0 <= j <= matrix.Length1
      invariant text == RowText(row, j)
    {
      var cell := FormatCell(matrix[i, j]);
      text := text + cell;
      j := j + 1;
    }
  }

  /** One `append` of `formatMatrix`: `%-6s` of the infinity sign for INF,
      `%-6d` of the value otherwise. */
  method FormatCell(v: int) returns (cell: string)
    ensures |cell| == Max(|CellText(v)|, 6)
    ensures Trim(cell) == CellText(v)
    ensures cell == Cell(v)
  {
    if v == INF {
      cell := LeftJustify(INFINITY_SIGN, 6);
    } else {
      cell := LeftJustify(DecimalText(v), 6);
    }
    LeftJustifyShape(CellText(v), 6);
    CellTrims(v);
  }

  /** `addNode`: a fresh (n+1)×(n+1) array holding the input in its top-left
      block, INF in the new row and column, and 0 at [n, n]. The border loop
      runs over i < n. */
  method AddNode(graph: array2<int>) returns (newGraph: array2<int>)
    requires graph.Length0 == graph.Length1
    ensures fresh(newGraph)
    ensures Cells(newGraph) == AddVertex(Cells(graph))
  {
    var n := graph.Length0;
    newGraph := new int[n + 1, n + 1]((i, j) => 0);
    CopyBlock(graph, newGraph, n);
    var i := 0;
    while i < n
      invariant 0 <= i <= n
      invariant forall p, q :: 0 <= p < n && 0 <= q < n ==> newGraph[p, q] == graph[p, q]
      invariant forall p :: 0 <= p < i ==> newGraph[p, n] == INF && newGraph[n, p] == INF
    {
      newGraph[i, n] := INF;
      newGraph[n, i] := INF;
      i := i + 1;
    }
    newGraph[n, n] := 0;
    ghost var added := AddVertex(Cells(graph));
    AddVertexShape(Cells(graph));
    assert forall p, q :: 0 <= p <= n && 0 <= q <= n ==> newGraph[p, q] == added[p][q];
    SquareExt(Cells(newGraph), added);
  }

  /** `removeLastNode`: the very same array when n <= 1, otherwise a fresh
      (n-1)×(n-1) copy of the top-left block. */
  method RemoveLastNode(graph: array2<int>) returns (newGraph: array2<int>)
    requires graph.Length0 == graph.Length1
    ensures graph.Length0 <= 1 ==> newGraph == graph
    ensures graph.Length0 > 1 ==> fresh(newGraph)
    ensures Cells(newGraph) == RemoveLastVertex(Cells(graph))
  {
    var n := graph.Length0;
    if n <= 1 {
      return graph;
    }
    newGraph := new int[n - 1, n - 1]((i, j) => 0);
    CopyBlock(graph, newGraph, n - 1);
    SquareExt(Cells(newGraph), RemoveLastVertex(Cells(graph)));
  }

  /** `getDemoGraph`: the directed demo graph 0→1 (5), 0→3 (10), 1→2 (3),
      2→3 (1). */
  function DemoGraph(): (g: Matrix)
    ensures InRange(g) && |g| == 4
    ensures forall i :: 0 <= i < 4 ==> g[i][i] == 0
    ensures forall i, j :: 0 <= j < i < 4 ==> g[i][j] == INF
  {
    [[0, 5, INF, 10],
     [INF, 0, 3, INF],
     [INF, INF, 0, 1],
     [INF, INF, INF, 0]]
  }

  /** On the demo graph: 0 reaches 2 at cost 8 via 1, 0 reaches 3 at cost 9 via
      1 and 2 (beating the direct 10), and 3 reaches nothing. */
  lemma DemoDistances()
    ensures Distances(DemoGraph())[0][2] == 8
    ensures Distances(DemoGraph())[0][3] == 9
    ensures Distances(DemoGraph())[3][0] == INF
  {
    var g := DemoGraph();
    DemoRound1();
    DemoRound2();
    DemoRound3();
    DemoRound4();
    assert Rounds(g, 1) == DemoAfter1();
    assert Rounds(g, 2) == DemoAfter2();
    assert Rounds(g, 3) == DemoAfter3();
    assert Rounds(g, 4) == DemoAfter3();
  }

  /** The demo graph after pivot 0. */
  function DemoAfter1(): Matrix {
    [[0, 5, INF, 10],
     [INF, 0, 3, INF],
     [INF, INF, 0, 1],
     [INF, INF, INF, 0]]
  }

  /** The demo graph after pivots 0 and 1. */
  function DemoAfter2(): Matrix {
    [[0, 5, 8, 10],
     [INF, 0, 3, INF],
     [INF, INF, 0, 1],
     [INF, INF, INF, 0]]
  }

  /** The demo graph after pivots 0, 1 and 2; pivot 3 changes nothing more. */
  function DemoAfter3(): Matrix {
    [[0, 5, 8, 9],
     [INF, 0, 3, 4],
     [INF, INF, 0, 1],
     [INF, INF, INF, 0]]
  }

  /** Pivot 0 on the demo graph gives the first intermediate matrix. */
  lemma DemoRound1()
    ensures Round(DemoGraph(), 0) == DemoAfter1()
  {
    RoundIs(DemoGraph(), 0, DemoAfter1());
  }

  /** Pivot 1 on the first intermediate matrix gives the second. */
  lemma DemoRound2()
    ensures Round(DemoAfter1(), 1) == DemoAfter2()
  {
    RoundIs(DemoAfter1(), 1, DemoAfter2());
  }

  /** Pivot 2 on the second intermediate matrix gives the third. */
  lemma DemoRound3()
    ensures Round(DemoAfter2(), 2) == DemoAfter3()
  {
    RoundIs(DemoAfter2(), 2, DemoAfter3());
  }

  /** Pivot 3 changes nothing in the third intermediate matrix. */
  lemma DemoRound4()
    ensures Round(DemoAfter3(), 3) == DemoAfter3()
  {
    RoundIs(DemoAfter3(), 3, DemoAfter3());
  }

}
