/** Dense adjacency matrices of Java `int` weights, with the "no edge" sentinel
    shared by both copies of the engine class. */
module Matrices {

  /** `Integer.MAX_VALUE / 2`: the weight that means "no edge / unreachable". */
  const INF: int := 1073741823

  const INT_MIN: int := -0x8000_0000
  const INT_MAX: int := 0x7fff_ffff

  predicate IsInt32(v: int) {
    INT_MIN <= v <= INT_MAX
  }

  /** Java's `a + b` on `int`: the exact sum wrapped into 32 bits. */
  function Int32Add(a: int, b: int): (r: int)
    ensures IsInt32(r)
    ensures IsInt32(a + b) ==> r == a + b
    ensures (r - (a + b)) % 0x1_0000_0000 == 0
  {
    (a + b - INT_MIN) % 0x1_0000_0000 + INT_MIN
  }

  function Min(a: int, b: int): int {
    if a <= b then a else b
  }

  function Max(a: int, b: int): int {
    if a <= b then b else a
  }

  /** A matrix as the value of an `int[][]`: a sequence of rows. */
  type Matrix = seq<seq<int>>

  /** n rows of n entries each. */
  predicate IsSquare(m: Matrix) {
    forall i :: 0 <= i < |m| ==> |m[i]| == |m|
  }

  /** Square, and every entry is a non-negative weight or the sentinel. */
  predicate InRange(m: Matrix) {
    && IsSquare(m)
    && forall i, j :: 0 <= i < |m| && 0 <= j < |m| ==> 0 <= m[i][j] <= INF
  }

  predicate IsSymmetric(m: Matrix)
    requires IsSquare(m)
  {
    forall i, j :: 0 <= i < |m| && 0 <= j < |m| ==> m[i][j] == m[j][i]
  }

  /** The value currently held by a two-dimensional array. */
  function Cells(a: array2<int>): (m: Matrix)
    reads a
    ensures |m| == a.Length0
    ensures forall i :: 0 <= i < |m| ==> |m[i]| == a.Length1
    ensures forall i, j :: 0 <= i < a.Length0 && 0 <= j < a.Length1 ==> m[i][j] == a[i, j]
  {
    seq(a.Length0, i requires 0 <= i < a.Length0 reads a =>
      seq(a.Length1, j requires 0 <= j < a.Length1 reads a => a[i, j]))
  }

  /** Two square matrices of one size that agree entry by entry are equal. */
  lemma {:induction false} SquareExt(m: Matrix, m': Matrix)
    requires IsSquare(m) && IsSquare(m') && |m| == |m'|
    requires forall i, j :: 0 <= i < |m| && 0 <= j < |m| ==> m[i][j] == m'[i][j]
    ensures m == m'
  {
    forall i | 0 <= i < |m|
      ensures m[i] == m'[i]
    {
      assert forall j :: 0 <= j < |m| ==> m[i][j] == m'[i][j];
    }
  }

  /** The nested copy loop the engine class uses three times: the top-left
      n×n block of src is copied into dst, the rest of dst is left alone. */
  method CopyBlock(src: array2<int>, dst: array2<int>, n: nat)
    requires src != dst
    requires n <= src.Length0 && n <= src.Length1 && n <= dst.Length0 && n <= dst.Length1
    modifies dst
    ensures forall p, q :: 0 <= p < dst.Length0 && 0 <= q < dst.Length1 ==>
      dst[p, q] == if p < n && q < n then src[p, q] else old(dst[p, q])
  {
    var i := 0;
    while i < n
      invariant 0 <= i <= n
      invariant forall p, q :: 0 <= p < dst.Length0 && 0 <= q < dst.Length1 ==>
        dst[p, q] == if p < i && q < n then src[p, q] else old(dst[p, q])
    {
      var j := 0;
      while j < n
        invariant 0 <= j <= n
        invariant forall p, q :: 0 <= p < dst.Length0 && 0 <= q < dst.Length1 ==>
          dst[p, q] == if (p < i && q < n) || (p == i && q < j) then src[p, q] else old(dst[p, q])
      {
        dst[i, j] := src[i, j];
        j := j + 1;
      }
      i := i + 1;
    }
  }
}
