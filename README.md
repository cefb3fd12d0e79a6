# Floyd–Warshall engine of engr-julia/Floyd-Warshall, in Dafny

This project models the matrix engine behind the Floyd–Warshall visualiser and
proves what it computes. The engine is the class `BSCS2_RODRIGO_fw`, which the
repository has twice:

- a public class in `BSCS2_RODRIGO_fw.java`, which relaxes with a strict `<`;
- a package-private duplicate at the end of `FloydWarshallGUI.java`, which
  relaxes with `Math.min`, runs the border loop of `addNode` one step further,
  and has an undirected demo graph.

The project also models the small matrix routines of `FloydWarshallGUI`
itself:
- `makeGraphSymmetric`;
- how a table cell's text becomes a weight, both in the lenient reader of
  `getCurrentGraph` and in the strict one of `computeFloydWarshall`;
- how the answer to the edge-weight prompt becomes a weight (`promptNewWeight`).

Modules:

- `Matrices`: the shared vocabulary.
  - The sentinel `INF` (`Integer.MAX_VALUE / 2` = 1073741823).
  - Java's wrapping 32-bit `+`, as `Int32Add`.
  - The abstract matrix `Cells(a)` of an n×n `array2<int>`, which stands for an `int[][]`.
  - `CopyBlock`, the copy loop every operation starts with.
- `ShortestPaths`: the specification of the engine.
  - One round of relaxation through pivot k (`Round` for the `<` copy, `RoundMin` for the `Math.min` copy) and k rounds (`Rounds`). `Distances(g)` is `Rounds(g, n)`.
  - Walks, their weights, and the theorem that `Distances` is the least weight of a walk.
- `VertexOps`: what `addNode` and `removeLastNode` mean on values.
- `Text`: `String.trim`, `String.valueOf`, `Integer.parseInt` and the
  `%-6s`/`%-6d` formatting, and the text `formatMatrix` produces.
- `StandaloneFw` and `GuiFw`: the two copies of the class.
  - Their methods work on arrays in place, as the Java does.
  - Each is proved against the `ShortestPaths`, `VertexOps` and `Text` functions.
- `Gui`: `makeGraphSymmetric` in place, with the specification `Symmetrized`; and the cell and prompt readers.

Each method of the class is a module-level method, because the class has no instance fields; its one field, the constant `INF`, is `Matrices.INF`. Each `floydWarshall` copies its input into a fresh array and then relaxes the copy in place, with k as the outermost loop. The proof shows that this equals the pure `Rounds`. The reason is that round k never changes row k or column k when weights are in [0, INF] (`ShortestPaths.PivotFixed`). Both copies compute the same matrix (`ShortestPaths.RoundsAgree`).

## Model

| member | source | states |
|---|---|---|
| StandaloneFw.FloydWarshall | BSCS2_RODRIGO_fw.java:4-26 | returns a fresh array equal to `Distances` of the input, for square input with weights in [0, INF]; the input is not modified |
| StandaloneFw.RelaxThrough | BSCS2_RODRIGO_fw.java:14-23 | one pass of the k loop, relaxing in place in row-major order, leaves exactly `Round(old, k)` |
| StandaloneFw.FormatMatrix | BSCS2_RODRIGO_fw.java:28-44 | "" for a null or empty matrix; otherwise `MatrixText`: for each row, its cells, then a newline |
| StandaloneFw.FormatCell | BSCS2_RODRIGO_fw.java:33-37 | a cell is at least 6 characters wide and trims back to its text: the infinity sign for INF, the decimal text otherwise |
| StandaloneFw.AddNode | BSCS2_RODRIGO_fw.java:46-63 | returns a fresh (n+1)×(n+1) array equal to `AddVertex` of the input: old entries kept, INF in the new row and column, 0 at [n][n] |
| StandaloneFw.RemoveLastNode | BSCS2_RODRIGO_fw.java:65-78 | returns the same array when n <= 1, and otherwise a fresh copy of the top-left (n-1)×(n-1) block (`RemoveLastVertex`) |
| StandaloneFw.DemoGraph | BSCS2_RODRIGO_fw.java:80-87 | the directed demo graph is 4×4, with weights in [0, INF], a zero diagonal and nothing but INF below the diagonal |
| StandaloneFw.DemoDistances | BSCS2_RODRIGO_fw.java:80-87 | on the demo graph, 0 reaches 2 at cost 8 and 3 at cost 9, and 3 reaches 0 not at all |
| GuiFw.FloydWarshall | FloydWarshallGUI.java:569-590 | the `Math.min` copy returns a fresh array equal to the same `Distances` as the public copy |
| GuiFw.RelaxThrough | FloydWarshallGUI.java:579-587 | one in-place pass, updating each entry by `Step`, leaves exactly `RoundMin(old, k)` |
| GuiFw.Step | FloydWarshallGUI.java:582-583 | on any `int` entries, the guarded `Math.min` update yields an `int` that is never above the old entry, and leaves the entry as it was when an operand is INF |
| GuiFw.StepExact | FloydWarshallGUI.java:582-583 | for entries in [0, INF], the sum never wraps, so the update is the exact relaxation and stays in [0, INF] |
| GuiFw.AddNode | FloydWarshallGUI.java:592-610 | the border loop `i < n + 1` also writes INF at [n][n] before the final 0; the result still equals `AddVertex` of the input |
| GuiFw.RemoveLastNode | FloydWarshallGUI.java:612-625 | the same array when n <= 1; otherwise a fresh copy of the top-left block |
| GuiFw.DemoGraph | FloydWarshallGUI.java:627-635 | the demo graph is 4×4, symmetric, with weights in [0, INF] and a zero diagonal |
| GuiFw.DemoDistances | FloydWarshallGUI.java:627-635 | on the undirected demo graph, 0 reaches 2 at cost 8 and 3 at cost 9, and 3 reaches 0 at cost 9 |
| ShortestPaths.RelaxNeverIncreases | BSCS2_RODRIGO_fw.java:17-19 | a relaxation keeps an entry in [0, INF] and never raises it; an entry changes only to the finite sum of two finite halves |
| ShortestPaths.RelaxAgrees | FloydWarshallGUI.java:582-583 | the guarded `Math.min` update and the guarded strict-`<` update give the same value on every square matrix |
| ShortestPaths.RoundsAgree | FloydWarshallGUI.java:579-587 | after every number of rounds, the two copies specify the same matrix |
| ShortestPaths.RoundsInRange | BSCS2_RODRIGO_fw.java:14-23 | rounds keep every entry in [0, INF] and never raise an entry above the input's |
| ShortestPaths.PivotFixed | BSCS2_RODRIGO_fw.java:14-23 | round k leaves row k and column k unchanged, so relaxing in place agrees with relaxing a frozen copy |
| ShortestPaths.RoundsAreShortestWalks | BSCS2_RODRIGO_fw.java:14-23 | after k rounds, each entry is at most the weight of every walk whose inner vertices are below k; unless the entry is INF, some such walk has exactly that weight |
| ShortestPaths.DistancesAreShortest | BSCS2_RODRIGO_fw.java:4-26 | the result is at most the weight of every walk from i to j, and is the weight of one such walk unless it is INF; it is INF exactly when every walk weighs at least INF |
| ShortestPaths.UnreachableIsInf | BSCS2_RODRIGO_fw.java:4-26 | a pair with no walk between them stays INF |
| ShortestPaths.DiagonalStaysZero | BSCS2_RODRIGO_fw.java:4-26 | a zero diagonal entry is still zero in the result |
| ShortestPaths.SmallGraphUnchanged | BSCS2_RODRIGO_fw.java:4-26 | a graph of 0 or 1 vertices comes back unchanged |
| ShortestPaths.BlankDiagonalKept | BSCS2_RODRIGO_fw.java:4-26 | a blank (INF) diagonal entry is not set to zero: `Distances([[INF]]) == [[INF]]` |
| ShortestPaths.TriangleInequality | BSCS2_RODRIGO_fw.java:4-26 | in the result, d[i][j] <= d[i][k] + d[k][j] for every i, k, j |
| ShortestPaths.DistancesClosed | BSCS2_RODRIGO_fw.java:14-23 | no relaxation through any pivot can improve the result |
| ShortestPaths.ClosedIsFixed | BSCS2_RODRIGO_fw.java:14-23 | rounds leave a matrix that is closed under relaxation unchanged |
| ShortestPaths.Idempotent | BSCS2_RODRIGO_fw.java:4-26 | running the algorithm on its own output changes nothing |
| VertexOps.AddVertexShape | BSCS2_RODRIGO_fw.java:46-63 | the added-vertex matrix has the old block, an INF border and a 0 corner |
| VertexOps.RemoveLastVertexShape | BSCS2_RODRIGO_fw.java:65-78 | removal is the identity for n <= 1, and otherwise keeps exactly the top-left (n-1)×(n-1) block |
| VertexOps.RemoveUndoesAdd | BSCS2_RODRIGO_fw.java:46-78 | removing the vertex just added gives back the matrix when n >= 1 |
| VertexOps.RemoveAfterAddOnEmpty | BSCS2_RODRIGO_fw.java:46-78 | for n = 0 the round trip yields [[0]], not the empty matrix |
| VertexOps.AddUndoesRemoveIff | BSCS2_RODRIGO_fw.java:46-78 | adding back after removing restores the matrix if and only if the last vertex had an INF border and a 0 diagonal entry |
| Matrices.Int32Add | BSCS2_RODRIGO_fw.java:18-19 | Java `int` addition: the result is an `int`, equals the exact sum when that fits, and is congruent to it modulo 2^32 |
| Matrices.CopyBlock | BSCS2_RODRIGO_fw.java:8-12 | copies the top-left n×n block of one array into another, and leaves every other cell of the target as it was |
| Text.DigitsRoundTrip | BSCS2_RODRIGO_fw.java:36 | the decimal digits of n denote n |
| Text.ParseDecimal | FloydWarshallGUI.java:233 | `parseInt` of an `int`'s decimal text gives that `int` back |
| Text.ParseRejectsNonNumeric | FloydWarshallGUI.java:232-236 | `parseInt` rejects empty text and text with a non-digit after the first character |
| Text.TrimPadded | FloydWarshallGUI.java:233 | trimming text that is not blank at either end, followed by spaces, gives the text back |
| Text.LeftJustifyShape | BSCS2_RODRIGO_fw.java:34-36 | `%-6s` gives the text followed only by spaces, with length max(text length, 6) |
| Text.CellHasNoNewline | BSCS2_RODRIGO_fw.java:33-37 | a formatted cell holds no newline |
| Text.RowTextNoNewline | BSCS2_RODRIGO_fw.java:32-38 | a formatted row holds no newline |
| Text.LinesShape | BSCS2_RODRIGO_fw.java:31-40 | the first i lines hold exactly i newlines, and the last character is a newline |
| Text.MatrixText | BSCS2_RODRIGO_fw.java:28-44 | the formatted text holds exactly n newlines, ends with one, and is empty exactly when n = 0 |
| Text.CellTrims | BSCS2_RODRIGO_fw.java:33-37 | a formatted cell, trimmed, is the cell's text again |
| Gui.MakeGraphSymmetric | FloydWarshallGUI.java:138-149 | the in-place row-major fill leaves exactly `Symmetrized(old)` |
| Gui.Symmetrized | FloydWarshallGUI.java:138-149 | the filled matrix is square and of the same size |
| Gui.SymmetrizedIsSymmetric | FloydWarshallGUI.java:138-149 | the filled matrix is symmetric |
| Gui.SymmetrizedEntries | FloydWarshallGUI.java:138-149 | the diagonal is untouched, and each entry comes from one of the two cells of its pair |
| Gui.PairOutcomes | FloydWarshallGUI.java:142-146 | for i < j: a finite [i][j] wins; otherwise a finite [j][i] is copied; otherwise both stay INF |
| Gui.SymmetricIsFixed | FloydWarshallGUI.java:138-149 | the fill leaves a matrix unchanged if and only if the matrix is symmetric |
| Gui.Idempotent | FloydWarshallGUI.java:138-149 | filling twice is the same as filling once |
| Gui.SymmetrizedInRange | FloydWarshallGUI.java:138-149 | filling keeps weights in [0, INF] |
| Gui.SymmetrizedExamples | FloydWarshallGUI.java:142-146 | [[0,5],[INF,0]], [[0,INF],[5,0]] and [[0,5],[7,0]] all become [[0,5],[5,0]] |
| Gui.DemoGraphUnchanged | FloydWarshallGUI.java:627-635 | the undirected demo graph is left unchanged by the fill |
| Gui.ReadCell | FloydWarshallGUI.java:227-236 | the lenient reader always yields an `int`; blank text, the infinity sign or "INF" in any case yields INF |
| Gui.ReadCellStrict | FloydWarshallGUI.java:283-289 | the strict reader yields INF for blank text, the infinity sign or "INF" in any case; `Gui.ReadersAgree` relates its other results to the lenient reader |
| Gui.ReadTableStrict | FloydWarshallGUI.java:279-291 | the table reading that feeds the engine fails exactly when some cell makes `parseInt` throw; when it succeeds it equals the lenient reading of the same table |
| Gui.StrictCellsAreLenient | FloydWarshallGUI.java:279-291 | a table whose every cell the strict reader accepts reads the same as under the lenient reader |
| Gui.OneCellStrict | FloydWarshallGUI.java:279-291 | a one-cell table whose cell the strict reader accepts reads as that one weight |
| Gui.OneCellTable | FloydWarshallGUI.java:222-239 | a one-cell table reads leniently as that cell's weight |
| Gui.UnparseableCell | FloydWarshallGUI.java:229-236 | text that does not spell infinity and that `parseInt` rejects once trimmed makes the strict reader (line 288) throw, and the lenient reader (lines 234-235) read INF |
| Gui.MalformedCellExample | FloydWarshallGUI.java:229-236 | "5x" stops the strict reader but reads as INF under the lenient one |
| Gui.PaddedInfinitySign | FloydWarshallGUI.java:229-233 | "∞ " (with a trailing space) makes the strict reader throw and the lenient one read INF, while the prompt, which trims first, reads it as INF |
| Gui.ReadersAgree | FloydWarshallGUI.java:229-236 | where the strict reader succeeds the two readers agree; where it throws the lenient one gives INF |
| Gui.CellTextReadsBack | FloydWarshallGUI.java:229-236 | what a table cell shows for an `int` weight reads back as that weight under both readers |
| Gui.FormattedCellReadsBack | FloydWarshallGUI.java:229-236 | a padded `formatMatrix` cell reads back as its weight under the lenient reader |
| Gui.PromptWeight | FloydWarshallGUI.java:471-482 | the prompt gives -1 exactly when it is cancelled, and otherwise a weight in [0, `Integer.MAX_VALUE`]; an answer that trims to the infinity sign or to "INF" in any case gives INF |
| Gui.PromptDecimal | FloydWarshallGUI.java:471-482 | a non-negative number is taken as is; a negative number or blank text gives INF |
| Gui.ReadTable | FloydWarshallGUI.java:222-239 | the table read as written is square, with each entry read leniently from its cell |
| Gui.ReadWeight | FloydWarshallGUI.java:229-236 | corrected reader: the result is in [0, INF] and agrees with the lenient reader wherever that is in range |
| Gui.ReadTableBounded | FloydWarshallGUI.java:222-239 | corrected table reader: square, with each entry read through `ReadWeight` |
| Gui.BoundedTableInRange | FloydWarshallGUI.java:222-240 | the corrected table, symmetrized or not, is always a matrix the engine's no-overflow argument covers |
| Gui.LargeWeightAccepted | FloydWarshallGUI.java:229-236 | as written, "2000000000" is read as 2000000000, a table holding it is outside [0, INF], and the corrected reader gives INF |
| Gui.LargeWeightReachesEngine | FloydWarshallGUI.java:279-293 | as written, the strict table reading that feeds the engine accepts "2000000000" and yields [[2000000000]] |
| GuiFw.StepAgreesWithLess | BSCS2_RODRIGO_fw.java:17-19 | on every `int`, with Java's wrapping sum, the `Math.min` update of the GUI copy and the strict-`<` update of the public class give the same value |
| GuiFw.StepOverflows | FloydWarshallGUI.java:582-583 | as written, two weights of 2000000000 sum to -294967296, which `Math.min` keeps; it is also below INF, so the public class's `<` update stores it too |

## Left out

- Swing: all of the window, the table widgets, `GraphPanel` drawing, dragging and animation are left out. They are presentation, not engine.
- The console output of `formatMatrix` (`System.out.println`) is left out. The returned text is modelled.
- Dialogs: the text of the `JOptionPane` prompt is a parameter of `Gui.PromptWeight`, with None standing for a cancelled dialog.
- The table: the table model is a parameter, a square sequence of optional cell texts, with None standing for a null cell.
- Gui.ReadTable: the nested loops of `getCurrentGraph` and `computeFloydWarshall` are modelled as functions over the whole table. Their outcome is the same. The in-place write order is not modelled.
- The strict reader's exception is modelled as None. How the GUI then reports the error is left out.
- `Integer.parseInt` is modelled for ASCII digits only. Java also accepts other Unicode decimal digits.
- `String.format` is modelled without locale-specific digits.
- Matrices are n×n `array2<int>`. A jagged `int[][]` and rows shared between two `int[][]` objects cannot be expressed. Every method requires a square array, which is what every caller passes.
- StandaloneFw.FloydWarshall and GuiFw.FloydWarshall require every weight to be in [0, INF]. Negative weights and negative cycles are out of scope for the engine. Weights above INF are the subject of the finding below.
- StandaloneFw.FormatMatrix requires a square matrix. The Java loops `j` up to `matrix.length`, which is the same thing only for square input.
- In the GUI, `getDemoGraph`, `addNode` and `removeLastNode` are reached only through the duplicate class. Their callers in `FloydWarshallGUI` are Swing code and are left out.

Two behaviours of the code that one might not expect:

- `makeGraphSymmetric` does not let the later-visited direction win. When both cells of a pair (i, j), i < j, hold finite values, the row-major scan visits [i][j] first and copies it to [j][i]. The later visit to [j][i] then finds it finite and copies it back unchanged. So the entry above the diagonal wins (`Gui.PairOutcomes`, `Gui.SymmetrizedExamples`).
- The table readers test for "∞" and "INF" on the untrimmed text but parse the trimmed text. So "∞ " with a trailing space makes `computeFloydWarshall` throw `NumberFormatException`, while the prompt, which trims first, reads it as INF (`Gui.PaddedInfinitySign`).
- Removing the vertex just added does not give the matrix back for every matrix. For the empty matrix the result is [[0]] (`VertexOps.RemoveAfterAddOnEmpty`).

## Findings

| source | as written | input that shows it | evidently intended | confidence | as-written member | corrected member |
|---|---|---|---|---|---|---|
| FloydWarshallGUI.java:285-293, 582-583 | Both cell readers accept any `int`, including weights above INF, and `computeFloydWarshall` passes the result to the engine. The engine's sum `dist[i][k] + dist[k][j]` then wraps in 32 bits, and `Math.min` keeps the negative result. | Cells [0][1] and [1][2] hold "2000000000", and every other cell off the diagonal is blank: the update through pivot 1 computes `Math.min(INF, 2000000000 + 2000000000)` = -294967296 for [0][2] | Weights outside [0, INF] are read as INF, as the prompt already does for negatives; the engine then never wraps and returns shortest distances | not executed | GuiFw.StepOverflows, Gui.LargeWeightAccepted, Gui.LargeWeightReachesEngine | Gui.ReadWeight, Gui.BoundedTableInRange, GuiFw.StepExact |
