# matrix_solver in Dafny

A model of the `Matrix` class of `matrix.py`, a small teaching tool for
Gaussian elimination. A matrix is a rectangular grid of numbers held as a
list of rows. The class offers the three elementary row operations and two
drivers built on them:

- swap two rows;
- multiply a row by a nonzero scalar (a zero scalar is refused with a warning);
- add a multiple of one row to another;
- `row_echelon_form` (REF) and `reduced_row_echelon_form` (RREF).

Both drivers walk the diagonal positions (i, i) for i < min(rows, cols).
When (i, i) holds 0, they swap in the first lower row that is nonzero in
column i. When there is no such row, they warn that the column contains only
zeros and skip it. Otherwise they scale row i by 1/pivot and clear column i:
below the pivot for REF, in every other row for RREF.

The project has five modules:

- `RowOps` (`row_ops.dfy`): the row operations as functions on values, with their inverse laws.
- `Elimination` (`elimination.dfy`): one pass of a driver (`Step`), the passes
  folded over the diagonal (`ReduceUpTo`, `Reduce`), and what the drivers
  establish. This covers the per-column result of REF and RREF, which columns
  are skipped, idempotence and the all-zero matrix.
- `MatrixSolver` (`matrix.dfy`): the class `Matrix` with a `rows` field that
  its methods reassign in place. Each method is proved to leave exactly the
  grid that the value functions describe. The drivers return the skipped
  columns, one per "Skipping pivot" warning.
- `WorkedExamples` (`examples_worked.dfy`): the two examples that the program
  prints, computed pass by pass, and the degenerate cases of the pivot search.
- `CorrectedEchelon` (`corrected_echelon.dfy`): row echelon form and reduced
  row echelon form as the program itself defines them (matrix.py:104-105). It
  contains the inputs on which `row_echelon_form` misses its form or skips a
  pivot column and on which `reduced_row_echelon_form` misses its form. It also
  holds a corrected reduction, in both modes, proved to reach the right form on
  every input with one pivot per nonzero row, and to agree with the driver
  whenever that skips nothing (see "## Findings").

Entries are exact `real` numbers. The code looks for the pivot of column i
at row i only (matrix.py:39-43), so a skipped column still uses up row i. As a
result the output can miss the forms defined at matrix.py:104 and
matrix.py:105 (and promised by the docstrings at matrix.py:36 and 55), and a
column can be skipped although it holds a leading entry (see "## Findings"). The model
does what the code does, and `CorrectedEchelon` shows what that costs.

## Model

| member | source | states |
|---|---|---|
| `RowOps.Swapped` | matrix.py:17-19 | rows a and b are exchanged, every other row is unchanged, and the number of rows is kept |
| `RowOps.Multiplied` | matrix.py:21-26 | a zero scalar leaves the grid as it is; otherwise every entry of row r is multiplied by s; row lengths and all other rows are kept |
| `RowOps.AddedMultiple` | matrix.py:28-33 | row t becomes entrywise row t plus c times row src over the first n columns, and has length n; all other rows are kept |
| `RowOps.SwapTwice` | matrix.py:17-19 | swapping the same two rows twice restores the grid |
| `RowOps.MultiplyUndone` | matrix.py:21-26 | scaling a row by s != 0 and then by 1/s restores the grid |
| `RowOps.AddMultipleUndone` | matrix.py:28-33 | adding c times another row and then -c times it restores the grid |
| `Elimination.FirstNonzeroBelow` | matrix.py:40-43 | the result is the first row at or after `from` that is nonzero in the column; None exactly when the column is zero from `from` down |
| `Elimination.Seek` | matrix.py:39-46 | a successful pivot search keeps the shape of the grid and leaves a nonzero entry at (p, p) |
| `Elimination.SeekCases` | matrix.py:39-46 | the column is skipped exactly when it is zero from row p down; a nonzero (p, p) is kept in place; otherwise row p is swapped with the first lower row that is nonzero in column p |
| `Elimination.EliminatedBefore` | matrix.py:49-51 | clearing rows one by one keeps the number of rows |
| `Elimination.EliminatedBeforeRow` | matrix.py:49-51 | after clearing the rows below `upto`, each targeted row is itself plus minus its column-p entry times the pivot row, and every other row is unchanged |
| `Elimination.EliminatedBeforeRectangular` | matrix.py:30-33 | clearing keeps every row `nc` entries long |
| `Elimination.EliminatedBeforeUntouched` | matrix.py:49 | before the first targeted row (row p + 1 for REF), clearing has changed nothing |
| `Elimination.Step` | matrix.py:38-51 | one pass keeps the number of rows and the rectangular shape |
| `Elimination.Advance` | matrix.py:38-51 | one pass, with its skip recorded, keeps the number of rows and the rectangular shape |
| `Elimination.ReduceUpTo` | matrix.py:38-51 | the first n passes keep the number of rows and the rectangular shape |
| `Elimination.ReduceUpToSettles` | matrix.py:38-51 | after n passes every column before n is reduced, and the skipped columns are exactly, and in order, those with 0 on the diagonal |
| `Elimination.ReduceUpToSettlesNext` | matrix.py:38-51 | the pass at n carries that invariant from n to n + 1 |
| `Elimination.ZeroDiagonalMembers` | matrix.py:44-46 | the listed columns are exactly those below n with a zero diagonal entry |
| `Elimination.SettledEach` | matrix.py:38-51 | the recursive "columns before n are reduced" holds exactly when every column before n is reduced |
| `Elimination.NormalizedIsMultiplied` | matrix.py:47-48 | scaling the pivot row by the inverse of the pivot is `multiply_row(i, 1 / pivot)`, that is `Multiplied` with scalar 1/pivot |
| `Elimination.NormalizedEntries` | matrix.py:47-48 | scaling by 1/pivot puts exactly 1 at (p, p), keeps the zeros of the pivot row and changes no other row |
| `Elimination.EliminatedClearsColumn` | matrix.py:49-51 | with a unit pivot, clearing keeps the pivot row and leaves 0 in column p of every targeted row |
| `Elimination.EliminatedKeepsColumn` | matrix.py:49-51 | clearing changes no column in which the pivot row holds 0 |
| `Elimination.SeekKeepsZeroTailColumn` | matrix.py:39-43 | the pivot search changes no column that is zero from row p down |
| `Elimination.StepReducesColumn` | matrix.py:39-51 | a pass skips exactly when column p is zero from row p down (and then (p, p) is 0); otherwise it leaves 1 at (p, p) and 0 in every targeted row of column p |
| `Elimination.StepKeepsZeroTailColumn` | matrix.py:39-51 | a pass changes no column that is zero from row p down |
| `Elimination.ZeroDiagonalAgree` | matrix.py:44-46 | grids with the same diagonal before n have the same skipped columns |
| `Elimination.StepKeepsSettledColumns` | matrix.py:38-51 | a pass at p changes no column before p once those columns are reduced |
| `Elimination.AdvanceSettles` | matrix.py:38-51 | a pass at p keeps the columns before p reduced and reduces column p |
| `Elimination.AdvanceTracksZeroDiagonal` | matrix.py:44-46 | the pass at p records a skip exactly when it leaves 0 at (p, p) |
| `Elimination.RowEchelonResult` | matrix.py:35-52 | after REF, column c is skipped exactly when (c, c) is 0; a pivot column has 1 at (c, c) and 0 below; a skipped column is 0 from row c down |
| `Elimination.ReducedRowEchelonResult` | matrix.py:54-72 | after RREF, column c is skipped exactly when (c, c) is 0; a pivot column has 1 at (c, c) and 0 in every other row; a skipped column is 0 from row c down |
| `Elimination.AdvanceFixes` | matrix.py:38-51 | a pass over an already reduced column changes nothing: it scales by 1 and clears with factor 0, or skips |
| `Elimination.SettledIsFixedPoint` | matrix.py:38-51 | a grid whose first n columns are reduced is left unchanged by the first n passes, which skip its zero-diagonal columns |
| `Elimination.ReduceIdempotent` | matrix.py:35-72 | running REF or RREF again on its own result changes nothing and skips the same columns |
| `Elimination.ZeroMatrixUnchanged` | matrix.py:44-46 | the all-zero matrix comes back unchanged, with every column skipped |
| `MatrixSolver.Matrix.constructor` | matrix.py:4-8 | the rows are stored as given; the row count is their number and the column count is the length of the first row, or 0 when there are no rows |
| `MatrixSolver.Matrix.SwapRows` | matrix.py:17-19 | the grid becomes `Swapped` of the old grid, and stays rectangular |
| `MatrixSolver.Matrix.MultiplyRow` | matrix.py:21-26 | `ok` is false exactly for a zero scalar; the grid becomes `Multiplied` of the old grid (unchanged for a zero scalar) |
| `MatrixSolver.Matrix.AddMultipleOfRow` | matrix.py:28-33 | the grid becomes `AddedMultiple` of the old grid over `numCols` columns |
| `MatrixSolver.Matrix.SeekPivot` | matrix.py:39-46 | `found` holds exactly when the pivot search succeeds; the grid is then its result, and otherwise unchanged |
| `MatrixSolver.Matrix.ClearBelow` | matrix.py:49-51 | the loop leaves the grid with column p cleared below the pivot row (`Eliminated` for REF) |
| `MatrixSolver.Matrix.ClearOthers` | matrix.py:68-71 | the loop leaves the grid with column p cleared in every other row (`Eliminated` for RREF) |
| `MatrixSolver.Matrix.RowEchelonPass` | matrix.py:39-51 | from the state after i passes of REF, one loop iteration leaves the state after i + 1, with a skipped column added to the list |
| `MatrixSolver.Matrix.ReducedRowEchelonPass` | matrix.py:58-71 | from the state after i passes of RREF, one loop iteration leaves the state after i + 1 |
| `MatrixSolver.Matrix.RowEchelonForm` | matrix.py:35-52 | the final grid and skipped columns are those of `Reduce` in REF mode, so `RowEchelonResult` and `ReduceIdempotent` apply |
| `MatrixSolver.Matrix.ReducedRowEchelonForm` | matrix.py:54-72 | the final grid and skipped columns are those of `Reduce` in RREF mode, so `ReducedRowEchelonResult` and `ReduceIdempotent` apply |
| `WorkedExamples.SampleFirstPass` | matrix.py:47-51 | on the example system, pass 0 of either driver gives [[1,2,3,9],[0,-3,-6,-12],[0,-5,-11,-23]] |
| `WorkedExamples.SampleSecondPass` | matrix.py:47-51 | pass 1 of REF gives [[1,2,3,9],[0,1,2,4],[0,0,-1,-3]] |
| `WorkedExamples.SampleThirdPass` | matrix.py:47-51 | pass 2 of REF gives [[1,2,3,9],[0,1,2,4],[0,0,1,3]] |
| `WorkedExamples.SampleRowEchelon` | matrix.py:112 | REF of [[2,4,6,18],[4,5,6,24],[3,1,-2,4]] is [[1,2,3,9],[0,1,2,4],[0,0,1,3]] with no column skipped |
| `WorkedExamples.SampleReducedSecondPass` | matrix.py:66-71 | pass 1 of RREF gives [[1,0,-1,1],[0,1,2,4],[0,0,-1,-3]] |
| `WorkedExamples.SampleReducedThirdPass` | matrix.py:66-71 | pass 2 of RREF gives [[1,0,0,4],[0,1,0,-2],[0,0,1,3]] |
| `WorkedExamples.SampleReducedRowEchelon` | matrix.py:114 | RREF of the same system is [[1,0,0,4],[0,1,0,-2],[0,0,1,3]] with no column skipped |
| `WorkedExamples.ZeroPivotSwapsFirst` | matrix.py:39-43 | a zero at (0, 0) is replaced by the first lower row that is nonzero in column 0, not a later one |
| `WorkedExamples.ZeroTwoByTwo` | matrix.py:44-46 | the 2x2 zero matrix comes back unchanged from both drivers, with columns 0 and 1 skipped |
| `CorrectedEchelon.PlaceColumn` | matrix.py:38-71 | one column of the corrected reduction, in either mode, keeps the shape and never places more pivots than rows |
| `CorrectedEchelon.CorrectedUpTo` | matrix.py:38-71 | the corrected reduction over the first c columns, in either mode, keeps the shape |
| `CorrectedEchelon.NormalizedPivotRow` | matrix.py:42-48 | swapping the pivot row up to the next free row and scaling it puts 1 in column c, keeps the rows above and keeps the zeros below in the earlier columns |
| `CorrectedEchelon.ClearedEntries` | matrix.py:49-51 | clearing with a unit pivot whose row is zero before column c keeps the pivot row and every entry before column c, zeroes column c in every targeted row and leaves the other rows as they are |
| `CorrectedEchelon.ClearingExtendsEchelon` | matrix.py:49-51 | clearing below (REF) or around (RREF) a unit pivot at the next free row extends echelon form by one column |
| `CorrectedEchelon.ClearingKeepsPivotsAlone` | matrix.py:68-71 | for RREF, that clearing also leaves every pivot column, the new one included, zero outside its pivot row |
| `CorrectedEchelon.PivotExtendsEchelon` | matrix.py:39-51 | placing a pivot in column c extends echelon form by one column |
| `CorrectedEchelon.PivotKeepsPivotsAlone` | matrix.py:58-71 | for RREF, placing a pivot in column c keeps every pivot column zero outside its pivot row |
| `CorrectedEchelon.ZeroColumnExtendsEchelon` | matrix.py:44-46 | a column that is zero from the next free row down extends echelon form without a pivot |
| `CorrectedEchelon.PlaceColumnExtends` | matrix.py:38-71 | each column of the corrected reduction, in either mode, extends echelon form by that column |
| `CorrectedEchelon.PlaceColumnKeepsPivotsAlone` | matrix.py:57-71 | for RREF, each column of the corrected reduction keeps every pivot column zero outside its pivot row |
| `CorrectedEchelon.CorrectedStepEchelon` | matrix.py:38-51 | column c of the corrected reduction carries echelon form from c columns to c + 1 |
| `CorrectedEchelon.CorrectedUpToEchelon` | matrix.py:38-71 | after the first c columns the corrected grid is in echelon form over them |
| `CorrectedEchelon.CorrectedStepPivotsAlone` | matrix.py:57-71 | for RREF, column c carries echelon form and pivot columns zero outside their rows from c columns to c + 1 |
| `CorrectedEchelon.CorrectedUpToPivotsAlone` | matrix.py:57-71 | for RREF, after the first c columns the grid is in echelon form over them and every pivot column is zero outside its pivot row |
| `CorrectedEchelon.EchelonHasShape` | matrix.py:104 | echelon form with explicit pivots has the staircase shape and leading ones that the program's definition of REF asks for |
| `CorrectedEchelon.CorrectedIsRowEchelon` | matrix.py:104 | the corrected reduction gives row echelon form with leading ones on every input |
| `CorrectedEchelon.PivotsAloneHasLeadingAlone` | matrix.py:105 | in echelon form with every pivot column zero outside its pivot row, each leading entry is the only nonzero entry of its column |
| `CorrectedEchelon.CorrectedIsReducedRowEchelon` | matrix.py:105 | the corrected reduced reduction gives, on every input, echelon shape with leading ones in which each leading one is the only nonzero entry of its column |
| `CorrectedEchelon.AsWrittenMissesEchelon` | matrix.py:35-52 | `row_echelon_form` returns [[0,1],[0,1]] unchanged with column 0 skipped, and that grid is not in row echelon form |
| `CorrectedEchelon.CorrectedFixesExample` | matrix.py:104 | the corrected reduction turns [[0,1],[0,1]] into [[0,1],[0,0]], with its pivot in column 1 |
| `CorrectedEchelon.EchelonNonzeroRows` | matrix.py:104 | in echelon form the nonzero rows are exactly the pivot rows, so the number of pivots is the number of nonzero rows |
| `CorrectedEchelon.CorrectedUpToCounts` | matrix.py:38-65 | after c columns the corrected reduction has placed or skipped at most c columns, and exactly c while some row has no pivot |
| `CorrectedEchelon.CorrectedPivotsCount` | matrix.py:38-65 | in either mode, the corrected result has one pivot per nonzero row; it skips at most nc - pivots columns, and exactly that many when some row has no pivot |
| `CorrectedEchelon.StaircaseSkipped` | matrix.py:38-46 | `row_echelon_form` skips all three columns of [[0,1,0],[0,0,1],[0,0,0]] |
| `CorrectedEchelon.StaircaseEchelon` | matrix.py:104 | [[0,1,0],[0,0,1],[0,0,0]] is in echelon form with pivots in columns 1 and 2 |
| `CorrectedEchelon.AsWrittenSkipsPivots` | matrix.py:38-46 | `row_echelon_form` returns [[0,1,0],[0,0,1],[0,0,0]] unchanged with columns 0, 1 and 2 skipped ("contains only zeros"), although that grid is in row echelon form, has two nonzero rows and holds nonzero entries in columns 1 and 2 |
| `CorrectedEchelon.StaircasePivotOne` | matrix.py:39-51 | the corrected column 1 of that grid places its pivot in row 0 and changes nothing |
| `CorrectedEchelon.StaircasePivotTwo` | matrix.py:39-51 | the corrected column 2 of that grid places its pivot in row 1 and changes nothing |
| `CorrectedEchelon.CorrectedKeepsStaircase` | matrix.py:38-51 | the corrected reduction returns [[0,1,0],[0,0,1],[0,0,0]] unchanged with pivots in columns 1 and 2 and only column 0 skipped |
| `CorrectedEchelon.OverlapSkipped` | matrix.py:57-65 | `reduced_row_echelon_form` skips all three columns of [[0,1,1],[0,0,1],[0,0,0]] |
| `CorrectedEchelon.AsWrittenMissesReduced` | matrix.py:54-72 | `reduced_row_echelon_form` returns [[0,1,1],[0,0,1],[0,0,0]] unchanged with every column skipped; that grid has echelon shape and leading ones, but row 0 keeps a 1 in column 2, the leading column of row 1, so it is not in reduced row echelon form |
| `CorrectedEchelon.OverlapPivotOne` | matrix.py:58-71 | the corrected reduced column 1 of that grid places its pivot in row 0 and changes nothing |
| `CorrectedEchelon.OverlapPivotTwo` | matrix.py:58-71 | the corrected reduced column 2 places its pivot in row 1 and clears the 1 above it, giving [[0,1,0],[0,0,1],[0,0,0]] |
| `CorrectedEchelon.CorrectedReducesOverlap` | matrix.py:105 | the corrected reduced reduction turns [[0,1,1],[0,0,1],[0,0,0]] into [[0,1,0],[0,0,1],[0,0,0]], with pivots in columns 1 and 2 and only column 0 skipped |
| `CorrectedEchelon.ClearedIsEliminated` | matrix.py:49-71 | clearing with a pivot on the diagonal is the clearing loop of the driver in the same mode |
| `CorrectedEchelon.StepIsPlaceColumn` | matrix.py:39-51 | while every earlier column holds a pivot, a pass of either driver that does not skip is one column of the corrected reduction in the same mode |
| `CorrectedEchelon.AgreeUpTo` | matrix.py:38-71 | while either driver has skipped nothing, it and the corrected reduction give the same grid, with one pivot per pass |
| `CorrectedEchelon.FullRowsStay` | matrix.py:38-57 | once every row holds a pivot, the corrected reduction changes nothing in later columns, as the loop bound min(rows, cols) does |
| `CorrectedEchelon.CorrectedAgreesWithoutSkips` | matrix.py:35-72 | when either driver skips no column, the corrected reduction in the same mode gives the same grid, with min(rows, cols) pivots and no skip |
| `CorrectedEchelon.EchelonEntryRight` | matrix.py:104 | in a grid of echelon shape, every nonzero entry lies on or to the right of the diagonal |
| `CorrectedEchelon.FormColumnReduced` | matrix.py:104-105 | a grid in row echelon form has each diagonal column reduced for REF, and one also in reduced form has it reduced for RREF |
| `CorrectedEchelon.FormSettled` | matrix.py:104-105 | a grid in the form of its mode is settled up to any column within min(rows, cols) |
| `CorrectedEchelon.RowEchelonFormIsFixed` | matrix.py:35-52 | a grid already in row echelon form (matrix.py:104) comes back unchanged from `row_echelon_form`, skipping exactly its zero-diagonal columns |
| `CorrectedEchelon.ReducedRowEchelonFormIsFixed` | matrix.py:54-72 | a grid already in reduced row echelon form (matrix.py:105) comes back unchanged from `reduced_row_echelon_form`, skipping exactly its zero-diagonal columns |

## Left out

- `display` and every `print` (matrix.py:10-15, 24, 37, 45, 52, 56, 64, 72): console output only. The "Skipping pivot" warnings become the returned list of skipped columns. The zero-scalar warning becomes `MultiplyRow`'s `ok` result.
- `get_matrix_input` (matrix.py:75-98): interactive input and `float` parsing. Only its guarantee that all rows have the same length (matrix.py:94-96) is kept, as the constructor's precondition and the class invariant `Valid`.
- `show_definitions`, `show_examples`, `get_valid_choice`, `main` (matrix.py:101-164): menu loop and fixed text. The two printed examples are proved as `WorkedExamples` lemmas, the definition of REF becomes `CorrectedEchelon.EchelonShape` together with `CorrectedEchelon.LeadingOnes`, and that of RREF adds `CorrectedEchelon.LeadingAlone`.
- Floating point: entries are exact reals, so a scaled pivot is exactly 1 and a cleared entry exactly 0. Python's float rounding and division of an int by a float are not modelled.
- Aliasing: Python's `Matrix` keeps the caller's list and its row lists, so changes are visible through other references, and a swap moves row objects. The model holds the grid as a value (`seq<seq<real>>`) that the methods reassign, so it does not capture this sharing.
- MatrixSolver.Matrix.constructor: requires all rows to have the length of the first one, which Python does not check itself. The only caller, `get_matrix_input`, ensures it.
- MatrixSolver.Matrix.SwapRows: requires both indices in 0 .. numRows - 1. Python's negative indices and its IndexError on other values are not modelled.
- MatrixSolver.Matrix.MultiplyRow: requires 0 <= row < numRows even for a zero scalar, although Python returns before indexing then, so `multiply_row(k, 0)` never raises for any k. Both callers (matrix.py:48, 67) pass a valid row. Negative indices are not modelled.
- MatrixSolver.Matrix.AddMultipleOfRow: requires both indices in 0 .. numRows - 1. Negative indices are not modelled.
- The drivers' inner loops appear as separate methods (`SeekPivot`, `ClearBelow`, `ClearOthers`, and the two pass methods). The Python has them inline, in the same order and with the same effect.

## Findings

| source | as written | input that shows it | evidently intended | confidence | as-written member | corrected member |
|---|---|---|---|---|---|---|
| matrix.py:38-51 | the pivot of column i is looked for at row i only, so each pivot lands one row lower than echelon form needs for every column skipped before it | [[0,1],[0,1]]: column 0 is skipped, row 1 already holds 1 in column 1, and the result is the input unchanged, with a nonzero entry below the leading 1 of row 0 | row echelon form as matrix.py:104 defines it: leading entries 1, zeros below them | not executed | `CorrectedEchelon.AsWrittenMissesEchelon` | `CorrectedEchelon.CorrectedIsRowEchelon` |
| matrix.py:38-46 | a column is skipped, with the warning that it contains only zeros, whenever it is zero from row i down, even if it holds the leading entry of a higher row; the number of pivots can then fall below the number of nonzero rows of an input already in echelon form | [[0,1,0],[0,0,1],[0,0,0]], already in echelon form with two nonzero rows: all three columns are skipped and no pivot is placed | a column is skipped only when it has no nonzero entry at or below the next free pivot row, so there is one pivot per nonzero row of the result and at most cols - pivots skipped columns | not executed | `CorrectedEchelon.AsWrittenSkipsPivots` | `CorrectedEchelon.CorrectedPivotsCount` |
| matrix.py:57-71 | `reduced_row_echelon_form` runs the same search at row i only, so after a skipped column a pivot can be missed and the entries above it are never cleared | [[0,1,1],[0,0,1],[0,0,0]], already in echelon form: all three columns are skipped, the result is the input, and row 0 keeps a 1 above the leading 1 of row 1 | reduced row echelon form as matrix.py:105 defines it: echelon form with leading ones, each leading one the only nonzero entry of its column | not executed | `CorrectedEchelon.AsWrittenMissesReduced` | `CorrectedEchelon.CorrectedIsReducedRowEchelon` |
