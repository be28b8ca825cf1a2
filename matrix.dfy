/** The `Matrix` class of matrix.py: a rectangular grid of exact reals that
    the three elementary row operations and the two elimination drivers
    update in place. Each method is proved to leave the grid that the value
    functions of RowOps and Elimination describe. */
module MatrixSolver {
  import opened RowOps
  import opened Elimination

  class Matrix {
    var rows: Grid
    var numRows: nat
    var numCols: nat

    /** The shape the input routine guarantees: `numRows` rows of `numCols` entries each. */
    ghost predicate Valid()
      reads this
    {
      numRows == |rows| && Rectangular(rows, numCols)
    }

    /** Takes the rows as they are; the column count is that of the first row, or 0 when there are no rows. */
    constructor (rows: Grid)
      requires forall i :: 0 <= i < |rows| ==> |rows[i]| == |rows[0]|
      ensures Valid() && this.rows == rows && numRows == |rows|
      ensures numCols == if |rows| == 0 then 0 else |rows[0]|
    {
      this.rows := rows;
      numRows := |rows|;
      numCols := if |rows| == 0 then 0 else |rows[0]|;
    }

    /** Exchanges rows `row1` and `row2`; every other row stays where it is. */
    method SwapRows(row1: nat, row2: nat)
      requires Valid() && row1 < numRows && row2 < numRows
      modifies this`rows
      ensures Valid()
      ensures rows == Swapped(old(rows), row1, row2)
    {
      rows := rows[row1 := rows[row2]][row2 := rows[row1]];
    }

    /** Multiplies row `row` by `scalar`. A zero scalar is refused with a
        warning (`ok` is false) and the grid is left unchanged. */
    method MultiplyRow(row: nat, scalar: real) returns (ok: bool)
      requires Valid() && row < numRows
      modifies this`rows
      ensures Valid()
      ensures ok <==> scalar != 0.0
      ensures rows == Multiplied(old(rows), row, scalar)
    {
      if scalar == 0.0 {
        return false;
      }
      rows := rows[row := Scale(rows[row], scalar)];
      ok := true;
    }

    /** Replaces row `targetRow` by itself plus `scalar` times row `sourceRow`, over `numCols` columns. */
    method AddMultipleOfRow(targetRow: nat, sourceRow: nat, scalar: real)
      requires Valid() && targetRow < numRows && sourceRow < numRows
      modifies this`rows
      ensures Valid()
      ensures rows == AddedMultiple(old(rows), targetRow, sourceRow, scalar, numCols)
    {
      rows := rows[targetRow := Combine(rows[targetRow], rows[sourceRow], scalar, numCols)];
    }

    /** The pivot search shared by both drivers: when (i, i) holds 0, swap in
        the first lower row that is nonzero in column i; `found` is false when
        there is none, and then nothing has changed. */
    method SeekPivot(i: nat) returns (found: bool)
      requires Valid() && i < numRows && i < numCols
      modifies this`rows
      ensures Valid()
      ensures found <==> Seek(old(rows), i, numCols).Some?
      ensures found ==> rows == Seek(old(rows), i, numCols).value
      ensures !found ==> rows == old(rows)
    {
      if rows[i][i] != 0.0 {
        return true;
      }
      for j := i + 1 to numRows
        invariant Valid() && rows == old(rows)
        invariant forall k :: i + 1 <= k < j ==> rows[k][i] == 0.0
      {
        if rows[j][i] != 0.0 {
          assert FirstNonzeroBelow(rows, i, i + 1) == Some(j);
          SwapRows(i, j);
          return true;
        }
      }
      return false;
    }

    /** Clears column `p` below the pivot row `p`, one row at a time, by
        adding the negated entry times the pivot row. */
    method ClearBelow(p: nat)
      requires Valid() && p < numRows && p < numCols
      modifies this`rows
      ensures Valid()
      ensures rows == Eliminated(old(rows), p, Ref, numCols)
    {
      ghost var start := rows;
      EliminatedBeforeUntouched(start, p, Ref, numCols, p + 1);
      for j := p + 1 to numRows
        invariant Valid()
        invariant rows == EliminatedBefore(start, p, Ref, numCols, j)
      {
        EliminatedBeforeRow(start, p, Ref, numCols, j, j);
        EliminatedBeforeRow(start, p, Ref, numCols, j, p);
        var factor := -rows[j][p];
        AddMultipleOfRow(j, p, factor);
      }
    }

    /** Clears column `p` in every row other than the pivot row `p`. */
    method ClearOthers(p: nat)
      requires Valid() && p < numRows && p < numCols
      modifies this`rows
      ensures Valid()
      ensures rows == Eliminated(old(rows), p, Rref, numCols)
    {
      ghost var start := rows;
      for j := 0 to numRows
        invariant Valid()
        invariant rows == EliminatedBefore(start, p, Rref, numCols, j)
      {
        if j != p {
          EliminatedBeforeRow(start, p, Rref, numCols, j, j);
          EliminatedBeforeRow(start, p, Rref, numCols, j, p);
          var factor := -rows[j][p];
          AddMultipleOfRow(j, p, factor);
        }
      }
    }

    /** One pass of `row_echelon_form` at diagonal position i: find and
        normalise the pivot of column i, then clear the entries below it. A
        column without a pivot is added to the skipped ones and changes nothing.
        Starting from the state after i passes, it leaves the state after i + 1. */
    method RowEchelonPass(i: nat, ghost start: Grid, skipped: seq<nat>) returns (skipped': seq<nat>)
      requires Valid() && Rectangular(start, numCols) && |start| == numRows && i < numRows && i < numCols
      requires Reduction(rows, skipped) == ReduceUpTo(start, numCols, Ref, i)
      modifies this`rows
      ensures Valid()
      ensures Reduction(rows, skipped') == ReduceUpTo(start, numCols, Ref, i + 1)
    {
      var found := SeekPivot(i);
      if !found {
        return skipped + [i];
      }
      var pivot := rows[i][i];
      var ok := MultiplyRow(i, 1.0 / pivot);
      assert ok;  // the pivot is nonzero, so the scalar 1 / pivot is never refused
      ClearBelow(i);
      return skipped;
    }

    /** One pass of `reduced_row_echelon_form` at diagonal position i: as
        RowEchelonPass, but the pivot clears its column in every other row. */
    method ReducedRowEchelonPass(i: nat, ghost start: Grid, skipped: seq<nat>) returns (skipped': seq<nat>)
      requires Valid() && Rectangular(start, numCols) && |start| == numRows && i < numRows && i < numCols
      requires Reduction(rows, skipped) == ReduceUpTo(start, numCols, Rref, i)
      modifies this`rows
      ensures Valid()
      ensures Reduction(rows, skipped') == ReduceUpTo(start, numCols, Rref, i + 1)
    {
      var found := SeekPivot(i);
      if !found {
        return skipped + [i];
      }
      var pivot := rows[i][i];
      var ok := MultiplyRow(i, 1.0 / pivot);
      assert ok;  // the pivot is nonzero, so the scalar 1 / pivot is never refused
      ClearOthers(i);
      return skipped;
    }

    /** Row Echelon Form: one pass per diagonal position. Returns the
        skipped columns, one warning each. */
    method RowEchelonForm() returns (skipped: seq<nat>)
      requires Valid()
      modifies this`rows
      ensures Valid()
      ensures Reduction(rows, skipped) == Reduce(old(rows), numCols, Ref)
    {
      ghost var start := rows;
      skipped := [];
      for i := 0 to Min(numRows, numCols)
        invariant Valid()
        invariant Reduction(rows, skipped) == ReduceUpTo(start, numCols, Ref, i)
      {
        skipped := RowEchelonPass(i, start, skipped);
      }
    }

    /** Reduced Row Echelon Form: one pass per diagonal position. Returns
        the skipped columns, one warning each. */
    method ReducedRowEchelonForm() returns (skipped: seq<nat>)
      requires Valid()
      modifies this`rows
      ensures Valid()
      ensures Reduction(rows, skipped) == Reduce(old(rows), numCols, Rref)
    {
      ghost var start := rows;
      skipped := [];
      for i := 0 to Min(numRows, numCols)
        invariant Valid()
        invariant Reduction(rows, skipped) == ReduceUpTo(start, numCols, Rref, i)
      {
        skipped := ReducedRowEchelonPass(i, start, skipped);
      }
    }
  }
}
