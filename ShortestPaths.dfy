/** The meaning of `floydWarshall`: rounds of relaxation over a value matrix,
    and what they compute in terms of walks through the graph. */
module ShortestPaths {
  import opened Matrices

  /** Relaxation of entry (i, j) through pivot k as the strict-`<` copy writes it:
      replace only when both halves are present and their sum is smaller. */
  function Relax(d: Matrix, k: nat, i: nat, j: nat): int
    requires IsSquare(d) && k < |d| && i < |d| && j < |d|
  {
    if d[i][k] != INF && d[k][j] != INF && d[i][k] + d[k][j] < d[i][j]
    then d[i][k] + d[k][j]
    else d[i][j]
  }

  /** The same relaxation as the `Math.min` copy writes it. */
  function RelaxMin(d: Matrix, k: nat, i: nat, j: nat): int
    requires IsSquare(d) && k < |d| && i < |d| && j < |d|
  {
    if d[i][k] != INF && d[k][j] != INF
    then Min(d[i][j], d[i][k] + d[k][j])
    else d[i][j]
  }

  /** Round k: every entry relaxed through pivot k. */
  function Round(d: Matrix, k: nat): (r: Matrix)
    requires IsSquare(d) && k < |d|
    ensures |r| == |d| && IsSquare(r)
  {
    seq(|d|, i requires 0 <= i < |d| =>
      seq(|d|, j requires 0 <= j < |d| => Relax(d, k, i, j)))
  }

  function RoundMin(d: Matrix, k: nat): (r: Matrix)
    requires IsSquare(d) && k < |d|
    ensures |r| == |d| && IsSquare(r)
  {
    seq(|d|, i requires 0 <= i < |d| =>
      seq(|d|, j requires 0 <= j < |d| => RelaxMin(d, k, i, j)))
  }

  /** Rounds 0 .. k-1 applied to g, pivot 0 first. */
  function Rounds(g: Matrix, k: nat): (r: Matrix)
    requires IsSquare(g) && k <= |g|
    ensures |r| == |g| && IsSquare(r)
    decreases k
  {
    if k == 0 then g else Round(Rounds(g, k - 1), k - 1)
  }

  function RoundsMin(g: Matrix, k: nat): (r: Matrix)
    requires IsSquare(g) && k <= |g|
    ensures |r| == |g| && IsSquare(r)
    decreases k
  {
    if k == 0 then g else RoundMin(RoundsMin(g, k - 1), k - 1)
  }

  /** A round is known once each of its entries is. */
  lemma RoundIs(d: Matrix, k: nat, e: Matrix)
    requires IsSquare(d) && k < |d| && IsSquare(e) && |e| == |d|
    requires forall i, j :: 0 <= i < |d| && 0 <= j < |d| ==> Relax(d, k, i, j) == e[i][j]
    ensures Round(d, k) == e
  {
    SquareExt(Round(d, k), e);
  }

  /** The all-pairs result: every vertex used as a pivot once. */
  function Distances(g: Matrix): (r: Matrix)
    requires IsSquare(g)
    ensures |r| == |g| && IsSquare(r)
  {
    Rounds(g, |g|)
  }

  /** A relaxation never raises an entry, and it changes one only to a finite sum
      through two present halves. */
  lemma RelaxNeverIncreases(d: Matrix, k: nat, i: nat, j: nat)
    requires InRange(d) && k < |d| && i < |d| && j < |d|
    ensures 0 <= Relax(d, k, i, j) <= d[i][j]
    ensures Relax(d, k, i, j) != d[i][j] ==>
      && d[i][k] != INF && d[k][j] != INF
      && Relax(d, k, i, j) == d[i][k] + d[k][j] < INF
  {
  }

  /** The strict-`<` and the `Math.min` relaxations agree on every input. */
  lemma RelaxAgrees(d: Matrix, k: nat, i: nat, j: nat)
    requires IsSquare(d) && k < |d| && i < |d| && j < |d|
    ensures RelaxMin(d, k, i, j) == Relax(d, k, i, j)
  {
  }

  /** Both copies of `floydWarshall` specify the same matrix after every round. */
  lemma {:induction false} RoundsAgree(g: Matrix, k: nat)
    requires IsSquare(g) && k <= |g|
    ensures RoundsMin(g, k) == Rounds(g, k)
  {
    if k > 0 {
      RoundsAgree(g, k - 1);
      var d := Rounds(g, k - 1);
      var viaMin, viaLess := RoundMin(d, k - 1), Round(d, k - 1);
      forall i, j | 0 <= i < |g| && 0 <= j < |g|
        ensures viaMin[i][j] == viaLess[i][j]
      {
        RelaxAgrees(d, k - 1, i, j);
      }
      SquareExt(viaMin, viaLess);
    }
  }

  /** Rounds keep entries in [0, INF] and never raise an entry above its input. */
  lemma {:induction false} RoundsInRange(g: Matrix, k: nat)
    requires InRange(g) && k <= |g|
    ensures InRange(Rounds(g, k))
    ensures forall i, j :: 0 <= i < |g| && 0 <= j < |g| ==> Rounds(g, k)[i][j] <= g[i][j]
  {
    if k > 0 {
      RoundsInRange(g, k - 1);
      var d := Rounds(g, k - 1);
      forall i, j | 0 <= i < |g| && 0 <= j < |g|
        ensures 0 <= Round(d, k - 1)[i][j] <= d[i][j]
      {
        RelaxNeverIncreases(d, k - 1, i, j);
      }
    }
  }

  /** With non-negative entries, round k leaves row k and column k as they were;
      this is why relaxing in place computes the same matrix as `Round`. */
  lemma PivotFixed(d: Matrix, k: nat)
    requires InRange(d) && k < |d|
    ensures forall i :: 0 <= i < |d| ==> Relax(d, k, i, k) == d[i][k] && Relax(d, k, k, i) == d[k][i]
  {
  }

  // ---------------------------------------------------------------------------
  // Walks

  /** A walk of at least one edge over vertices of g, every edge present. */
  ghost predicate IsWalk(g: Matrix, p: seq<nat>)
    requires IsSquare(g)
  {
    && |p| >= 2
    && (forall t :: 0 <= t < |p| ==> p[t] < |g|)
    && (forall t :: 0 <= t < |p| - 1 ==> g[p[t]][p[t + 1]] != INF)
  }

  /** A walk from i to j whose inner vertices are all below k. */
  ghost predicate WalkVia(g: Matrix, p: seq<nat>, i: nat, j: nat, k: nat)
    requires IsSquare(g)
  {
    && IsWalk(g, p)
    && p[0] == i && p[|p| - 1] == j
    && forall t :: 0 < t < |p| - 1 ==> p[t] < k
  }

  /** Total weight of the edges along p. */
  function Weight(g: Matrix, p: seq<nat>): int
    requires IsSquare(g)
    requires forall t :: 0 <= t < |p| ==> p[t] < |g|
    decreases |p|
  {
    if |p| < 2 then 0 else g[p[0]][p[1]] + Weight(g, p[1..])
  }

  lemma {:induction false} WeightNonNegative(g: Matrix, p: seq<nat>)
    requires InRange(g)
    requires forall t :: 0 <= t < |p| ==> p[t] < |g|
    ensures Weight(g, p) >= 0
    decreases |p|
  {
    if |p| >= 2 {
      WeightNonNegative(g, p[1..]);
    }
  }

  /** Cutting a walk at position m splits its weight. */
  lemma {:induction false} WeightSplit(g: Matrix, p: seq<nat>, m: nat)
    requires IsSquare(g)
    requires forall t :: 0 <= t < |p| ==> p[t] < |g|
    requires m < |p|
    ensures Weight(g, p) == Weight(g, p[..m + 1]) + Weight(g, p[m..])
    decreases m
  {
    if m == 0 {
      assert p[0..] == p;
    } else {
      WeightSplit(g, p[1..], m - 1);
      assert p[1..][..m] == p[..m + 1][1..];
      assert p[1..][m - 1..] == p[m..];
    }
  }

  /** A piece of a walk, between two of its positions, is itself a walk whose
      inner vertices are inner vertices of the whole. */
  lemma SubWalk(g: Matrix, p: seq<nat>, i: nat, j: nat, k: nat, a: nat, b: nat)
    requires IsSquare(g) && WalkVia(g, p, i, j, k)
    requires a < b < |p|
    ensures WalkVia(g, p[a..b + 1], p[a], p[b], k)
  {
    var q := p[a..b + 1];
    assert forall t :: 0 <= t < |q| ==> q[t] == p[a + t];
  }

  /** Without inner vertices a walk is a single edge. */
  lemma SingleEdge(g: Matrix, p: seq<nat>, i: nat, j: nat)
    requires IsSquare(g) && WalkVia(g, p, i, j, 0)
    ensures Weight(g, p) == g[i][j]
  {
    var second := p[1];
    assert |p| > 2 ==> second < 0;
    assert |p| == 2;
    assert Weight(g, p[1..]) == 0;
  }

  /** Relaxing through c gives at most any total that bounds both halves. */
  lemma RelaxBelow(d: Matrix, c: nat, i: nat, j: nat, w1: int, w2: int)
    requires InRange(d) && c < |d| && i < |d| && j < |d|
    requires d[i][c] <= w1 && d[c][j] <= w2 && 0 <= w1 && 0 <= w2
    ensures Relax(d, c, i, j) <= w1 + w2
  {
  }

  /** Every walk from i to j with inner vertices below k weighs at least
      what k rounds leave in entry (i, j). */
  lemma {:induction false} LowerBound(g: Matrix, k: nat, i: nat, j: nat, p: seq<nat>)
    requires InRange(g) && k <= |g|
    requires WalkVia(g, p, i, j, k)
    ensures Rounds(g, k)[i][j] <= Weight(g, p)
    decreases k, |p|, 1
  {
    if k == 0 {
      SingleEdge(g, p, i, j);
    } else if t :| 0 < t < |p| - 1 && p[t] == k - 1 {
      LowerBoundThroughPivot(g, k, i, j, p, t);
    } else {
      var c := k - 1;
      var d := Rounds(g, c);
      assert Rounds(g, k) == Round(d, c);
      RoundsInRange(g, c);
      assert WalkVia(g, p, i, j, c);
      LowerBound(g, c, i, j, p);
      RelaxNeverIncreases(d, c, i, j);
    }
  }

  /** The case of LowerBound where the walk passes through the pivot k - 1 at
      position t: each half is bounded by round k, whose row and column k - 1
      are those of round k - 1, and relaxing through the pivot bounds the whole. */
  lemma {:induction false} LowerBoundThroughPivot(g: Matrix, k: nat, i: nat, j: nat, p: seq<nat>, t: nat)
    requires InRange(g) && 0 < k <= |g|
    requires WalkVia(g, p, i, j, k)
    requires 0 < t < |p| - 1 && p[t] == k - 1
    ensures Rounds(g, k)[i][j] <= Weight(g, p)
    decreases k, |p|, 0
  {
    var c := k - 1;
    var d := Rounds(g, c);
    assert Rounds(g, k) == Round(d, c);
    RoundsInRange(g, c);
    var p1, p2 := p[..t + 1], p[t..];
    SubWalk(g, p, i, j, k, 0, t);
    SubWalk(g, p, i, j, k, t, |p| - 1);
    assert p[t..|p|] == p2;
    LowerBound(g, k, i, c, p1);
    LowerBound(g, k, c, j, p2);
    PivotFixed(d, c);
    assert Round(d, c)[i][c] == d[i][c] && Round(d, c)[c][j] == d[c][j];
    WeightSplit(g, p, t);
    WeightNonNegative(g, p1);
    WeightNonNegative(g, p2);
    RelaxBelow(d, c, i, j, Weight(g, p1), Weight(g, p2));
  }

  /** Two walks meeting at c join into one walk whose weight is the sum; c
      becomes an inner vertex, so the bound on inner vertices must exceed c. */
  lemma JoinWalks(g: Matrix, p1: seq<nat>, p2: seq<nat>, i: nat, c: nat, j: nat, k: nat, k': nat)
    requires IsSquare(g) && WalkVia(g, p1, i, c, k) && WalkVia(g, p2, c, j, k)
    requires k <= k' && c < k'
    ensures WalkVia(g, p1 + p2[1..], i, j, k')
    ensures Weight(g, p1 + p2[1..]) == Weight(g, p1) + Weight(g, p2)
  {
    var p := p1 + p2[1..];
    assert forall t :: 0 <= t < |p| ==> p[t] == if t < |p1| then p1[t] else p2[t - |p1| + 1];
    assert p[..|p1|] == p1;
    assert p[|p1| - 1..] == p2;
    WeightSplit(g, p, |p1| - 1);
  }

  /** A finite entry after k rounds is the weight of an actual walk from i to j
      with inner vertices below k. */
  lemma {:induction false} Witness(g: Matrix, k: nat, i: nat, j: nat) returns (p: seq<nat>)
    requires InRange(g) && k <= |g| && i < |g| && j < |g|
    requires Rounds(g, k)[i][j] != INF
    ensures WalkVia(g, p, i, j, k) && Weight(g, p) == Rounds(g, k)[i][j]
  {
    if k == 0 {
      p := [i, j];
      assert Weight(g, p[1..]) == 0;
    } else {
      var c := k - 1;
      var d := Rounds(g, c);
      RoundsInRange(g, c);
      if d[i][c] != INF && d[c][j] != INF && d[i][c] + d[c][j] < d[i][j] {
        var p1 := Witness(g, c, i, c);
        var p2 := Witness(g, c, c, j);
        p := p1 + p2[1..];
        JoinWalks(g, p1, p2, i, c, j, c, k);
      } else {
        p := Witness(g, c, i, j);
      }
    }
  }

  /** The path characterisation of k rounds: entry (i, j) is at most the weight of
      every walk with inner vertices below k, and unless it is INF some such walk
      weighs exactly that much. */
  lemma RoundsAreShortestWalks(g: Matrix, k: nat, i: nat, j: nat)
    requires InRange(g) && k <= |g| && i < |g| && j < |g|
    ensures forall p :: WalkVia(g, p, i, j, k) ==> Rounds(g, k)[i][j] <= Weight(g, p)
    ensures Rounds(g, k)[i][j] == INF
      || exists p :: WalkVia(g, p, i, j, k) && Weight(g, p) == Rounds(g, k)[i][j]
  {
    forall p | WalkVia(g, p, i, j, k)
      ensures Rounds(g, k)[i][j] <= Weight(g, p)
    {
      LowerBound(g, k, i, j, p);
    }
    if Rounds(g, k)[i][j] != INF {
      var p := Witness(g, k, i, j);
    }
  }

  /** A walk from i to j in g, with any inner vertices. */
  ghost predicate WalkFromTo(g: Matrix, p: seq<nat>, i: nat, j: nat)
    requires IsSquare(g)
  {
    IsWalk(g, p) && p[0] == i && p[|p| - 1] == j
  }

  /** After all n rounds, entry (i, j) is the least weight of a walk from i to j;
      it is INF exactly when no walk from i to j weighs less than INF. */
  lemma DistancesAreShortest(g: Matrix, i: nat, j: nat)
    requires InRange(g) && i < |g| && j < |g|
    ensures 0 <= Distances(g)[i][j] <= INF
    ensures forall p :: WalkFromTo(g, p, i, j) ==> Distances(g)[i][j] <= Weight(g, p)
    ensures Distances(g)[i][j] != INF ==>
      exists p :: WalkFromTo(g, p, i, j) && Weight(g, p) == Distances(g)[i][j]
    ensures Distances(g)[i][j] == INF <==>
      forall p :: WalkFromTo(g, p, i, j) ==> Weight(g, p) >= INF
  {
    var n := |g|;
    RoundsInRange(g, n);
    forall p | WalkFromTo(g, p, i, j)
      ensures Distances(g)[i][j] <= Weight(g, p)
    {
      assert WalkVia(g, p, i, j, n);
      LowerBound(g, n, i, j, p);
    }
    if Distances(g)[i][j] != INF {
      var p := Witness(g, n, i, j);
      assert WalkFromTo(g, p, i, j);
    }
  }

  /** A pair with no walk between them is reported INF. */
  lemma UnreachableIsInf(g: Matrix, i: nat, j: nat)
    requires InRange(g) && i < |g| && j < |g|
    requires forall p :: !WalkFromTo(g, p, i, j)
    ensures Distances(g)[i][j] == INF
  {
    DistancesAreShortest(g, i, j);
  }

  /** A graph of at most one vertex comes back unchanged. */
  lemma SmallGraphUnchanged(g: Matrix)
    requires InRange(g) && |g| <= 1
    ensures Distances(g) == g
  {
    if |g| == 1 {
      SquareExt(Round(g, 0), g);
    }
  }

  /** A zero diagonal entry stays zero. */
  lemma DiagonalStaysZero(g: Matrix, i: nat)
    requires InRange(g) && i < |g| && g[i][i] == 0
    ensures Distances(g)[i][i] == 0
  {
    RoundsInRange(g, |g|);
  }

  /** A blank (INF) diagonal entry is not turned into zero: a lone vertex
      without a self-loop keeps INF. */
  lemma BlankDiagonalKept()
    ensures Distances([[INF]]) == [[INF]]
  {
    SmallGraphUnchanged([[INF]]);
  }

  /** The result satisfies the triangle inequality through every vertex. */
  lemma TriangleInequality(g: Matrix, i: nat, k: nat, j: nat)
    requires InRange(g) && i < |g| && k < |g| && j < |g|
    ensures Distances(g)[i][j] <= Distances(g)[i][k] + Distances(g)[k][j]
  {
    var n := |g|;
    RoundsInRange(g, n);
    if Distances(g)[i][k] != INF && Distances(g)[k][j] != INF {
      var p1 := Witness(g, n, i, k);
      var p2 := Witness(g, n, k, j);
      var p := p1 + p2[1..];
      JoinWalks(g, p1, p2, i, k, j, n, n);
      LowerBound(g, n, i, j, p);
    }
  }

  /** Closed under relaxation: no entry can be improved through any pivot. */
  ghost predicate Closed(d: Matrix)
    requires IsSquare(d)
  {
    forall i, k, j :: 0 <= i < |d| && 0 <= k < |d| && 0 <= j < |d| ==>
      Relax(d, k, i, j) == d[i][j]
  }

  lemma DistancesClosed(g: Matrix)
    requires InRange(g)
    ensures Closed(Distances(g))
  {
    var d := Distances(g);
    forall i, k, j | 0 <= i < |d| && 0 <= k < |d| && 0 <= j < |d|
      ensures Relax(d, k, i, j) == d[i][j]
    {
      if d[i][k] != INF && d[k][j] != INF {
        TriangleInequality(g, i, k, j);
      }
    }
  }

  lemma {:induction false} ClosedIsFixed(d: Matrix, k: nat)
    requires IsSquare(d) && Closed(d) && k <= |d|
    ensures Rounds(d, k) == d
  {
    if k > 0 {
      ClosedIsFixed(d, k - 1);
      SquareExt(Round(d, k - 1), d);
    }
  }

  /** Running the algorithm on its own output changes nothing. */
  lemma Idempotent(g: Matrix)
    requires InRange(g)
    ensures Distances(Distances(g)) == Distances(g)
  {
    DistancesClosed(g);
    ClosedIsFixed(Distances(g), |g|);
  }
}
