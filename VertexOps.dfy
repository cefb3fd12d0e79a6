/** The value-level meaning of `addNode` and `removeLastNode`. */
module VertexOps {
  import opened Matrices

  /** The matrix with one more vertex, numbered n: the old entries in place, the
      new row and column INF, the new diagonal entry 0. */
  function AddVertex(m: Matrix): (r: Matrix)
    requires IsSquare(m)
    ensures IsSquare(r) && |r| == |m| + 1
  {
    seq(|m| + 1, i requires 0 <= i <= |m| =>
      seq(|m| + 1, j requires 0 <= j <= |m| =>
        if i < |m| && j < |m| then m[i][j] else if i == j then 0 else INF))
  }

  /** The matrix without its last vertex; a matrix of at most one vertex is
      returned as it is. */
  function RemoveLastVertex(m: Matrix): (r: Matrix)
    requires IsSquare(m)
    ensures IsSquare(r) && |r| == if |m| <= 1 then |m| else |m| - 1
  {
    if |m| <= 1 then m
    else seq(|m| - 1, i requires 0 <= i < |m| - 1 => m[i][..|m| - 1])
  }

  /** The shape promised for an added vertex. */
  lemma AddVertexShape(m: Matrix)
    requires IsSquare(m)
    ensures var r, n := AddVertex(m), |m|;
      && |r| == n + 1
      && (forall i, j :: 0 <= i < n && 0 <= j < n ==> r[i][j] == m[i][j])
      && (forall i :: 0 <= i < n ==> r[i][n] == INF && r[n][i] == INF)
      && r[n][n] == 0
  {
  }

  /** Removing keeps the top-left block, or everything when at most one vertex. */
  lemma RemoveLastVertexShape(m: Matrix)
    requires IsSquare(m)
    ensures |m| <= 1 ==> RemoveLastVertex(m) == m
    ensures |m| > 1 ==>
      && |RemoveLastVertex(m)| == |m| - 1
      && forall i, j :: 0 <= i < |m| - 1 && 0 <= j < |m| - 1 ==> RemoveLastVertex(m)[i][j] == m[i][j]
  {
  }

  /** Removing the vertex just added gives back the matrix, for n >= 1. */
  lemma RemoveUndoesAdd(m: Matrix)
    requires IsSquare(m) && |m| >= 1
    ensures RemoveLastVertex(AddVertex(m)) == m
  {
    var r := RemoveLastVertex(AddVertex(m));
    SquareExt(r, m);
  }

  /** For the empty matrix the round trip does not close: the one-vertex
      matrix survives, because removal stops at one vertex. */
  lemma RemoveAfterAddOnEmpty()
    ensures RemoveLastVertex(AddVertex([])) == [[0]]
  {
    assert AddVertex([])[0] == [0];
  }

  /** Adding a vertex back after removing one restores the matrix exactly when
      the last vertex was isolated with a zero diagonal entry. */
  lemma AddUndoesRemoveIff(m: Matrix)
    requires IsSquare(m) && |m| >= 2
    ensures AddVertex(RemoveLastVertex(m)) == m <==>
      && (forall i :: 0 <= i < |m| - 1 ==> m[i][|m| - 1] == INF && m[|m| - 1][i] == INF)
      && m[|m| - 1][|m| - 1] == 0
  {
    var n := |m| - 1;
    var r := AddVertex(RemoveLastVertex(m));
    if (forall i :: 0 <= i < n ==> m[i][n] == INF && m[n][i] == INF) && m[n][n] == 0 {
      SquareExt(r, m);
    }
    if r == m {
      var s := RemoveLastVertex(m);
      assert |s| == n;
      forall i | 0 <= i < n
        ensures m[i][n] == INF && m[n][i] == INF
      {
        assert r[i][n] == INF && r[n][i] == INF;
      }
      assert r[n][n] == 0;
    }
  }
}
