/** The matrix routines of `FloydWarshallGUI` itself: filling a matrix to make
    it symmetric, and turning the text of a table cell or of the edge-weight
    prompt into a weight. */
module Gui {
  import opened Matrices
  import opened Text
  import GuiFw

  // ---------------------------------------------------------------------------
  // makeGraphSymmetric

  /** The weight an undirected pair {lo, hi}, lo < hi, ends up with: the entry
      above the diagonal when it is finite, otherwise the one below. */
  function PairValue(m: Matrix, lo: nat, hi: nat): int
    requires IsSquare(m) && lo < |m| && hi < |m|
  {
    if m[lo][hi] != INF then m[lo][hi] else m[hi][lo]
  }

  /** What `makeGraphSymmetric` leaves in a matrix: the diagonal as it was, and
      both entries of each pair set to the pair's value. */
  function Symmetrized(m: Matrix): (r: Matrix)
    requires IsSquare(m)
    ensures IsSquare(r) && |r| == |m|
  {
    seq(|m|, p requires 0 <= p < |m| =>
      seq(|m|, q requires 0 <= q < |m| =>
        if p == q then m[p][p] else PairValue(m, Min(p, q), Max(p, q))))
  }

  /** Whether the pair holding cell (p, q) has been visited once the row-major
      scan has reached (i, j): its upper cell comes first in that order. */
  predicate PairDone(p: int, q: int, i: int, j: int) {
    var lo, hi := Min(p, q), Max(p, q);
    lo < i || (lo == i && hi < j)
  }

  /** `makeGraphSymmetric`: a row-major scan over every (i, j); a finite
      `graph[i][j]` is copied to `graph[j][i]`, otherwise a finite
      `graph[j][i]` is copied back. */
  method MakeGraphSymmetric(graph: array2<int>)
    requires graph.Length0 == graph.Length1
    modifies graph
    ensures Cells(graph) == Symmetrized(old(Cells(graph)))
  {
    ghost var m := Cells(graph);
    var i := 0;
    while i < graph.Length0
      invariant 0 <= i <= graph.Length0
      invariant forall p, q :: 0 <= p < |m| && 0 <= q < |m| ==>
        graph[p, q] == if PairDone(p, q, i, 0) then Symmetrized(m)[p][q] else m[p][q]
    {
      SymmetrizeRow(graph, i, m);
      i := i + 1;
    }
    SquareExt(Cells(graph), Symmetrized(m));
  }

  /** The j loop for row i of the scan. Visiting (i, j) with i < j settles the
      pair; visiting (i, j) with j < i finds both cells already equal and
      changes nothing; visiting (i, i) rewrites the diagonal with itself. */
  method SymmetrizeRow(graph: array2<int>, i: nat, ghost m: Matrix)
    requires IsSquare(m) && graph.Length0 == |m| && graph.Length1 == |m| && i < |m|
    requires forall p, q :: 0 <= p < |m| && 0 <= q < |m| ==>
      graph[p, q] == if PairDone(p, q, i, 0) then Symmetrized(m)[p][q] else m[p][q]
    modifies graph
    ensures forall p, q :: 0 <= p < |m| && 0 <= q < |m| ==>
      graph[p, q] == if PairDone(p, q, i + 1, 0) then Symmetrized(m)[p][q] else m[p][q]
  {
    ghost var s := Symmetrized(m);
    var j := 0;
    while j < graph.Length1
      invariant 0 <= j <= graph.Length1
      invariant forall p, q :: 0 <= p < |m| && 0 <= q < |m| ==>
        graph[p, q] == if PairDone(p, q, i, j) then s[p][q] else m[p][q]
    {
      if graph[i, j] != INF {
        graph[j, i] := graph[i, j];
      } else if graph[j, i] != INF {
        graph[i, j] := graph[j, i];
      }
      j := j + 1;
    }
  }

  /** Every pair ends up equal in both directions. */
  lemma SymmetrizedIsSymmetric(m: Matrix)
    requires IsSquare(m)
    ensures IsSymmetric(Symmetrized(m))
  {
  }

  /** The diagonal is never changed, and no value is invented: each entry
      comes from one of the two cells of its pair. */
  lemma SymmetrizedEntries(m: Matrix, p: nat, q: nat)
    requires IsSquare(m) && p < |m| && q < |m|
    ensures p == q ==> Symmetrized(m)[p][q] == m[p][q]
    ensures Symmetrized(m)[p][q] == m[p][q] || Symmetrized(m)[p][q] == m[q][p]
  {
  }

  /** The three outcomes for a pair lo < hi: a finite upper entry wins, else
      a finite lower entry is copied up, else both stay INF. */
  lemma PairOutcomes(m: Matrix, lo: nat, hi: nat)
    requires IsSquare(m) && lo < hi < |m|
    ensures m[lo][hi] != INF ==>
      Symmetrized(m)[lo][hi] == m[lo][hi] && Symmetrized(m)[hi][lo] == m[lo][hi]
    ensures m[lo][hi] == INF && m[hi][lo] != INF ==>
      Symmetrized(m)[lo][hi] == m[hi][lo] && Symmetrized(m)[hi][lo] == m[hi][lo]
    ensures m[lo][hi] == INF && m[hi][lo] == INF ==>
      Symmetrized(m)[lo][hi] == INF && Symmetrized(m)[hi][lo] == INF
  {
  }

  /** A symmetric matrix is left as it is, and only a symmetric one is. */
  lemma SymmetricIsFixed(m: Matrix)
    requires IsSquare(m)
    ensures Symmetrized(m) == m <==> IsSymmetric(m)
  {
    if IsSymmetric(m) {
      SquareExt(Symmetrized(m), m);
    }
    if Symmetrized(m) == m {
      SymmetrizedIsSymmetric(m);
    }
  }

  /** Running the routine twice is the same as running it once. */
  lemma Idempotent(m: Matrix)
    requires IsSquare(m)
    ensures Symmetrized(Symmetrized(m)) == Symmetrized(m)
  {
    SymmetrizedIsSymmetric(m);
    SymmetricIsFixed(Symmetrized(m));
  }

  /** Weights in [0, INF] stay in [0, INF], so the engine can take the result. */
  lemma SymmetrizedInRange(m: Matrix)
    requires InRange(m)
    ensures InRange(Symmetrized(m))
  {
    forall p, q | 0 <= p < |m| && 0 <= q < |m|
      ensures 0 <= Symmetrized(m)[p][q] <= INF
    {
      SymmetrizedEntries(m, p, q);
    }
  }

  /** A one-way edge entered in either direction becomes two-way; with two
      different finite weights the one above the diagonal is kept. */
  lemma SymmetrizedExamples()
    ensures Symmetrized([[0, 5], [INF, 0]]) == [[0, 5], [5, 0]]
    ensures Symmetrized([[0, INF], [5, 0]]) == [[0, 5], [5, 0]]
    ensures Symmetrized([[0, 5], [7, 0]]) == [[0, 5], [5, 0]]
  {
    SquareExt(Symmetrized([[0, 5], [INF, 0]]), [[0, 5], [5, 0]]);
    SquareExt(Symmetrized([[0, INF], [5, 0]]), [[0, 5], [5, 0]]);
    SquareExt(Symmetrized([[0, 5], [7, 0]]), [[0, 5], [5, 0]]);
  }

  /** The undirected demo graph is already symmetric, so loading it and then
      symmetrizing changes nothing. */
  lemma DemoGraphUnchanged()
    ensures Symmetrized(GuiFw.DemoGraph()) == GuiFw.DemoGraph()
  {
    SymmetricIsFixed(GuiFw.DemoGraph());
  }

  // ---------------------------------------------------------------------------
  // Reading weights from text

  /** `Character.toUpperCase` / `toLowerCase` agreement with one letter of
      "INF", as `equalsIgnoreCase` tests it: the letter in either case, and
      for I also the dotted capital I and the dotless small i, whose case
      mappings reach 'i' and 'I'. */
  predicate MatchesIgnoreCase(c: char, upper: char)
    requires upper == 'I' || upper == 'N' || upper == 'F'
  {
    match upper
    case 'I' => c == 'I' || c == 'i' || c == 'İ' || c == 'ı'
    case 'N' => c == 'N' || c == 'n'
    case _ => c == 'F' || c == 'f'
  }

  /** `s.equalsIgnoreCase("INF")`. */
  predicate IsInfWord(s: string) {
    && |s| == 3
    && MatchesIgnoreCase(s[0], 'I')
    && MatchesIgnoreCase(s[1], 'N')
    && MatchesIgnoreCase(s[2], 'F')
  }

  /** The test both table readers apply to the untrimmed text of a cell: blank,
      exactly the infinity sign, or "INF" in any case. */
  predicate SpellsInfinity(s: string) {
    |Trim(s)| == 0 || s == INFINITY_SIGN || IsInfWord(s)
  }

  /** `value != null ? value.toString() : ""`. */
  function CellString(value: Option<string>): string {
    match value
    case None => ""
    case Some(s) => s
  }

  /** The cell reader of `getCurrentGraph`: INF for text that spells infinity
      and for text `parseInt` rejects, otherwise the parsed trimmed text. */
  function ReadCell(value: Option<string>): (w: int)
    ensures IsInt32(w)
    ensures SpellsInfinity(CellString(value)) ==> w == INF
  {
    var s := CellString(value);
    if SpellsInfinity(s) then INF
    else match ParseInt(Trim(s))
      case None => INF
      case Some(v) => v
  }

  /** The cell reader of `computeFloydWarshall`: the same test, but text that
      `parseInt` rejects raises `NumberFormatException`, here None. */
  function ReadCellStrict(value: Option<string>): (w: Option<int>)
    ensures SpellsInfinity(CellString(value)) ==> w == Some(INF)
  {
    var s := CellString(value);
    if SpellsInfinity(s) then Some(INF) else ParseInt(Trim(s))
  }

  /** Text that does not spell infinity and that `parseInt` rejects once
      trimmed makes the strict reader throw, and the lenient one read INF. */
  lemma UnparseableCell(s: string)
    requires !SpellsInfinity(s) && ParseInt(Trim(s)) == None
    ensures ReadCellStrict(Some(s)) == None
    ensures ReadCell(Some(s)) == INF
  {
  }

  /** "5x" stops the engine run under the strict reader, but reads as INF
      under the lenient one. */
  lemma MalformedCellExample()
    ensures ReadCellStrict(Some("5x")) == None
    ensures ReadCell(Some("5x")) == INF
  {
    var s := "5x";
    assert !IsSpace(s[0]) && !IsSpace(s[1]);
    TrimPadded(s, 0);
    assert s + Spaces(0) == s;
    ParseRejectsNonNumeric(Trim(s));
    assert !IsInfWord(s) && s != INFINITY_SIGN;
    UnparseableCell(s);
  }

  /** The readers test the infinity spellings on the untrimmed text but parse
      the trimmed text, so the infinity sign followed by a space makes the
      strict reader throw; the prompt trims first and reads it as INF. */
  lemma PaddedInfinitySign()
    ensures ReadCellStrict(Some(INFINITY_SIGN + " ")) == None
    ensures ReadCell(Some(INFINITY_SIGN + " ")) == INF
    ensures PromptWeight(Some(INFINITY_SIGN + " ")) == INF
  {
    var s := INFINITY_SIGN + " ";
    assert !IsSpace(INFINITY_SIGN[0]);
    TrimPadded(INFINITY_SIGN, 1);
    assert Trim(s) == INFINITY_SIGN;
    assert !IsInfWord(s) && s != INFINITY_SIGN;
    assert ParseInt(INFINITY_SIGN) == None;
    UnparseableCell(s);
  }

  /** The two readers agree wherever the strict one succeeds, and the lenient
      one gives INF exactly where the strict one fails. */
  lemma ReadersAgree(value: Option<string>)
    ensures ReadCellStrict(value) == Some(ReadCell(value)) || ReadCellStrict(value) == None
    ensures ReadCellStrict(value) == None ==> ReadCell(value) == INF
    ensures ReadCell(value) != INF ==> ReadCellStrict(value) == Some(ReadCell(value))
  {
  }

  /** What a table cell shows for a weight: the infinity sign or decimal text. */
  lemma CellTextReadsBack(v: int)
    requires IsInt32(v)
    ensures ReadCellStrict(Some(CellText(v))) == Some(v)
    ensures ReadCell(Some(CellText(v))) == v
  {
    if v != INF {
      var s := DecimalText(v);
      assert !IsInfWord(s) by {
        if |s| == 3 {
          assert !MatchesIgnoreCase(s[0], 'I') by {
            assert s[0] == '-' || IsDigit(s[0]);
          }
        }
      }
      assert s != INFINITY_SIGN by {
        assert s[0] == '-' || IsDigit(s[0]);
      }
      TrimPadded(s, 0);
      assert s + Spaces(0) == s;
      ParseDecimal(v);
    }
  }

  /** A cell of `formatMatrix`'s output, padding included, reads back as the
      weight it shows under the lenient reader. */
  lemma FormattedCellReadsBack(v: int)
    requires IsInt32(v)
    ensures ReadCell(Some(Cell(v))) == v
  {
    var s := Cell(v);
    LeftJustifyShape(CellText(v), 6);
    CellTrims(v);
    assert |s| >= 6 && |Trim(s)| > 0;
    assert !SpellsInfinity(s);
    if v == INF {
      assert ParseInt(INFINITY_SIGN) == None;
    } else {
      ParseDecimal(v);
    }
  }

  /** `promptNewWeight`: -1 when the dialog is cancelled; otherwise the trimmed
      answer, where the infinity sign, "INF" in any case, a negative number and
      text `parseInt` rejects all give INF. */
  function PromptWeight(input: Option<string>): (w: int)
    ensures w == -1 <==> input == None
    ensures input != None ==> 0 <= w <= INT_MAX
    ensures input != None && (Trim(input.value) == INFINITY_SIGN || IsInfWord(Trim(input.value))) ==> w == INF
  {
    match input
    case None => -1
    case Some(raw) =>
      var s := Trim(raw);
      if s == INFINITY_SIGN || IsInfWord(s) then INF
      else match ParseInt(s)
        case None => INF
        case Some(weight) => if weight >= 0 then weight else INF
  }

  /** Decimal text of a non-negative `int` gives that weight, of a negative
      `int` gives INF; blank text gives INF too. */
  lemma PromptDecimal(v: int)
    requires IsInt32(v)
    ensures PromptWeight(Some(DecimalText(v))) == if v >= 0 then v else INF
    ensures PromptWeight(Some("")) == INF
  {
    var s := DecimalText(v);
    assert !IsInfWord(s) by {
      if |s| == 3 {
        assert s[0] == '-' || IsDigit(s[0]);
      }
    }
    assert s != INFINITY_SIGN by {
      assert s[0] == '-' || IsDigit(s[0]);
    }
    TrimPadded(s, 0);
    assert s + Spaces(0) == s;
    ParseDecimal(v);
  }

  // ---------------------------------------------------------------------------
  // The table as a whole

  /** `getCurrentGraph` before symmetrizing: every cell read leniently. */
  function ReadTable(table: seq<seq<Option<string>>>): (m: Matrix)
    requires forall i :: 0 <= i < |table| ==> |table[i]| == |table|
    ensures IsSquare(m) && |m| == |table|
    ensures forall i, j :: 0 <= i < |m| && 0 <= j < |m| ==> m[i][j] == ReadCell(table[i][j])
  {
    seq(|table|, i requires 0 <= i < |table| =>
      seq(|table|, j requires 0 <= j < |table| => ReadCell(table[i][j])))
  }

  /** The table reading of `computeFloydWarshall`, which feeds the engine:
      every cell read strictly, None when any cell makes `parseInt` throw.
      When it succeeds it is the lenient reading of the same table. */
  function ReadTableStrict(table: seq<seq<Option<string>>>): (r: Option<Matrix>)
    requires forall i :: 0 <= i < |table| ==> |table[i]| == |table|
    ensures r == None <==> !AllAccepted(table)
    ensures r != None ==> r.value == ReadTable(table)
  {
    if !AllAccepted(table) then
      None
    else
      var m := seq(|table|, i requires 0 <= i < |table| =>
        seq(|table|, j requires 0 <= j < |table| => StrictValue(table, i, j)));
      StrictCellsAreLenient(table, m);
      Some(m)
  }

  /** Whether the strict reader accepts every cell of the table. */
  predicate AllAccepted(table: seq<seq<Option<string>>>)
    requires forall i :: 0 <= i < |table| ==> |table[i]| == |table|
  {
    forall i, j :: 0 <= i < |table| && 0 <= j < |table| ==> !Throws(table, i, j)
  }

  /** Whether the strict reader throws on cell (i, j). */
  predicate Throws(table: seq<seq<Option<string>>>, i: nat, j: nat)
    requires i < |table| && j < |table[i]|
  {
    ReadCellStrict(table[i][j]) == None
  }

  /** The weight the strict reader gives cell (i, j) when it does not throw. */
  function StrictValue(table: seq<seq<Option<string>>>, i: nat, j: nat): (w: int)
    requires i < |table| && j < |table[i]| && !Throws(table, i, j)
    ensures ReadCellStrict(table[i][j]) == Some(w)
  {
    ReadCellStrict(table[i][j]).value
  }

  /** A matrix of successful strict readings is the lenient reading. */
  lemma StrictCellsAreLenient(table: seq<seq<Option<string>>>, m: Matrix)
    requires forall i :: 0 <= i < |table| ==> |table[i]| == |table|
    requires IsSquare(m) && |m| == |table|
    requires forall i, j :: 0 <= i < |table| && 0 <= j < |table| ==>
      ReadCellStrict(table[i][j]) == Some(m[i][j])
    ensures m == ReadTable(table)
  {
    forall i, j | 0 <= i < |table| && 0 <= j < |table|
      ensures m[i][j] == ReadTable(table)[i][j]
    {
      ReadersAgree(table[i][j]);
    }
    SquareExt(m, ReadTable(table));
  }

  /** The weight a cell should stand for, given that the engine expects
      weights in [0, INF] and the prompt already maps negatives to INF: any
      value the lenient reader yields outside [0, INF] is read as INF. */
  function ReadWeight(value: Option<string>): (w: int)
    ensures 0 <= w <= INF
    ensures 0 <= ReadCell(value) <= INF ==> w == ReadCell(value)
  {
    var v := ReadCell(value);
    if 0 <= v <= INF then v else INF
  }

  /** `getCurrentGraph` with the bounded reader. */
  function ReadTableBounded(table: seq<seq<Option<string>>>): (m: Matrix)
    requires forall i :: 0 <= i < |table| ==> |table[i]| == |table|
    ensures IsSquare(m) && |m| == |table|
    ensures forall i, j :: 0 <= i < |m| && 0 <= j < |m| ==> m[i][j] == ReadWeight(table[i][j])
  {
    seq(|table|, i requires 0 <= i < |table| =>
      seq(|table|, j requires 0 <= j < |table| => ReadWeight(table[i][j])))
  }

  /** The bounded reader always hands the engine a matrix it accepts, even
      after symmetrizing: every sum the engine forms fits in an `int`. */
  lemma BoundedTableInRange(table: seq<seq<Option<string>>>)
    requires forall i :: 0 <= i < |table| ==> |table[i]| == |table|
    ensures InRange(ReadTableBounded(table))
    ensures InRange(Symmetrized(ReadTableBounded(table)))
  {
    SymmetrizedInRange(ReadTableBounded(table));
  }

  /** The table reader as written lets a weight above INF through: the text
      "2000000000" is read as that number, and a one-cell table holding it is
      not a matrix the engine's no-overflow argument covers. */
  lemma LargeWeightAccepted()
    ensures ReadCell(Some("2000000000")) == 2000000000
    ensures !InRange(ReadTable([[Some("2000000000")]]))
    ensures ReadWeight(Some("2000000000")) == INF
  {
    var s := "2000000000";
    TwoBillionDigits();
    TrimPadded(s, 0);
    assert s + Spaces(0) == s;
    assert |Trim(s)| == 10;
    assert ParseInt(Trim(s)) == Some(2000000000);
    assert ReadTable([[Some(s)]])[0][0] == ReadCell(Some(s));
  }

  /** The reading that feeds the engine in `computeFloydWarshall` also
      accepts the cell, so the engine is handed the weight 2000000000. */
  lemma LargeWeightReachesEngine()
    ensures ReadTableStrict([[Some("2000000000")]]) == Some([[2000000000]])
  {
    LargeWeightAccepted();
    ReadersAgree(Some("2000000000"));
    OneCellStrict(Some("2000000000"));
  }

  /** A one-cell table the strict reader accepts reads as that one weight. */
  lemma OneCellStrict(c: Option<string>)
    requires ReadCellStrict(c) != None
    ensures ReadTableStrict([[c]]) == Some([[ReadCell(c)]])
  {
    var t := [[c]];
    forall i, j | 0 <= i < |t| && 0 <= j < |t|
      ensures !Throws(t, i, j)
    {
      assert i == 0 && j == 0;
    }
    OneCellTable(c);
  }

  /** A one-cell table reads leniently as that cell's weight. */
  lemma OneCellTable(c: Option<string>)
    ensures ReadTable([[c]]) == [[ReadCell(c)]]
  {
    SquareExt(ReadTable([[c]]), [[ReadCell(c)]]);
  }

  /** The digits of two billion denote two billion. */
  lemma TwoBillionDigits()
    ensures AllDigits("2000000000") && DigitsValue("2000000000") == 2000000000
  {
    assert "20"[..1] == "2";
    assert "200"[..2] == "20";
    assert "2000"[..3] == "200";
    assert "20000"[..4] == "2000";
    assert "200000"[..5] == "20000";
    assert "2000000"[..6] == "200000";
    assert "20000000"[..7] == "2000000";
    assert "200000000"[..8] == "20000000";
    assert "2000000000"[..9] == "200000000";
  }
}
