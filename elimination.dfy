/** The Gaussian-elimination drivers of matrix.py (`row_echelon_form` and
    `reduced_row_echelon_form`) as functions on values, and what they establish.

    Both drivers walk the diagonal positions (p, p) for p < min(rows, cols).
    Each position is one `Step`: find a nonzero pivot at (p, p), swapping in
    the first lower row with a nonzero entry in column p when (p, p) holds 0;
    skip the column when there is none; otherwise scale row p by 1/pivot and
    clear column p in the targeted rows. */
module Elimination {
  import opened RowOps

  datatype Option<T> = None | Some(value: T)

  /** REF clears the rows below each pivot; RREF clears every other row. */
  datatype Mode = Ref | Rref

  /** The result of a reduction: the final grid and, in order, the columns
      whose pivot was skipped because the column held only zeros. */
  datatype Reduction = Reduction(grid: Grid, skipped: seq<nat>)

  /** Whether row `k` is cleared in column `p` once row `p` holds the pivot. */
  predicate Targeted(mode: Mode, p: nat, k: nat) {
    match mode
    case Ref => k > p
    case Rref => k != p
  }

  /** The first row at or after `from` whose entry in column `col` is nonzero. */
  function FirstNonzeroBelow(m: Grid, col: nat, from: nat): (r: Option<nat>)
    requires forall k :: from <= k < |m| ==> col < |m[k]|
    ensures r.Some? ==> from <= r.value < |m| && m[r.value][col] != 0.0
    ensures r.Some? ==> forall k :: from <= k < r.value ==> m[k][col] == 0.0
    ensures r.None? <==> forall k :: from <= k < |m| ==> m[k][col] == 0.0
    decreases |m| - from
  {
    if from >= |m| then None
    else if m[from][col] != 0.0 then Some(from)
    else FirstNonzeroBelow(m, col, from + 1)
  }

  /** The pivot search of one step: `m` itself when (p, p) is nonzero, else `m`
      with row p swapped with the first lower row that is nonzero in column p,
      and None (the column is skipped) when there is no such row. */
  function Seek(m: Grid, p: nat, nc: nat): (r: Option<Grid>)
    requires Rectangular(m, nc) && p < |m| && p < nc
    ensures r.Some? ==> |r.value| == |m| && Rectangular(r.value, nc) && r.value[p][p] != 0.0
  {
    if m[p][p] != 0.0 then Some(m)
    else match FirstNonzeroBelow(m, p, p + 1)
      case None => None
      case Some(j) => Some(Swapped(m, p, j))
  }

  /** The three outcomes of the pivot search: None exactly when column p is
      zero from row p down; `m` itself when (p, p) is nonzero; otherwise `m`
      with row p exchanged with the first lower row that is nonzero in column p. */
  lemma SeekCases(m: Grid, p: nat, nc: nat)
    requires Rectangular(m, nc) && p < |m| && p < nc
    ensures Seek(m, p, nc).None? <==> forall k :: p <= k < |m| ==> m[k][p] == 0.0
    ensures m[p][p] != 0.0 ==> Seek(m, p, nc) == Some(m)
    ensures m[p][p] == 0.0 && Seek(m, p, nc).Some? ==>
      exists j :: p < j < |m| && m[j][p] != 0.0 && (forall k :: p < k < j ==> m[k][p] == 0.0)
                  && Seek(m, p, nc).value == Swapped(m, p, j)
  {
  }

  /** `m` after the rows of `mode` below index `upto` have had their entry in
      column p cancelled by adding a multiple of pivot row p; the rows are
      independent of each other, since row p itself is never a target. */
  function EliminatedBefore(m: Grid, p: nat, mode: Mode, nc: nat, upto: nat): (r: Grid)
    requires Rectangular(m, nc) && p < |m| && p < nc && upto <= |m|
    ensures |r| == |m|
  {
    if upto == 0 then m
    else
      var e := EliminatedBefore(m, p, mode, nc, upto - 1);
      if Targeted(mode, p, upto - 1) then e[upto - 1 := Combine(m[upto - 1], m[p], -m[upto - 1][p], nc)]
      else e
  }

  /** Row k of EliminatedBefore: the combination for a targeted row below
      `upto`, the row of `m` otherwise. */
  lemma {:induction false} EliminatedBeforeRow(m: Grid, p: nat, mode: Mode, nc: nat, upto: nat, k: nat)
    requires Rectangular(m, nc) && p < |m| && p < nc && upto <= |m| && k < |m|
    ensures EliminatedBefore(m, p, mode, nc, upto)[k] ==
      if k < upto && Targeted(mode, p, k) then Combine(m[k], m[p], -m[k][p], nc) else m[k]
  {
    if upto > 0 {
      EliminatedBeforeRow(m, p, mode, nc, upto - 1, k);
    }
  }

  /** Clearing keeps every row `nc` entries long. */
  lemma {:induction false} EliminatedBeforeRectangular(m: Grid, p: nat, mode: Mode, nc: nat, upto: nat)
    requires Rectangular(m, nc) && p < |m| && p < nc && upto <= |m|
    ensures Rectangular(EliminatedBefore(m, p, mode, nc, upto), nc)
  {
    if upto > 0 {
      EliminatedBeforeRectangular(m, p, mode, nc, upto - 1);
    }
  }

  /** With no targeted row below `upto`, nothing has been cleared yet. */
  lemma {:induction false} EliminatedBeforeUntouched(m: Grid, p: nat, mode: Mode, nc: nat, upto: nat)
    requires Rectangular(m, nc) && p < |m| && p < nc && upto <= |m|
    requires forall k :: 0 <= k < upto ==> !Targeted(mode, p, k)
    ensures EliminatedBefore(m, p, mode, nc, upto) == m
  {
    if upto > 0 {
      EliminatedBeforeUntouched(m, p, mode, nc, upto - 1);
    }
  }

  /** `m` with column p cleared in every targeted row. */
  function Eliminated(m: Grid, p: nat, mode: Mode, nc: nat): Grid
    requires Rectangular(m, nc) && p < |m| && p < nc
  {
    EliminatedBefore(m, p, mode, nc, |m|)
  }

  /** `m` with row p scaled by the inverse of its entry at (p, p). */
  function Normalized(m: Grid, p: nat): Grid
    requires p < |m| && p < |m[p]| && m[p][p] != 0.0
  {
    m[p := Scale(m[p], 1.0 / m[p][p])]
  }

  /** Normalising is `multiply_row` of the pivot row by the inverse of the pivot. */
  lemma NormalizedIsMultiplied(m: Grid, p: nat)
    requires p < |m| && p < |m[p]| && m[p][p] != 0.0
    ensures Normalized(m, p) == Multiplied(m, p, 1.0 / m[p][p])
  {
    assert 1.0 / m[p][p] != 0.0;
  }

  /** One pass of the drivers' outer loop at diagonal position p:
      None when the column is skipped, otherwise the new grid. */
  function Step(m: Grid, p: nat, mode: Mode, nc: nat): (r: Option<Grid>)
    requires Rectangular(m, nc) && p < |m| && p < nc
    ensures r.Some? ==> |r.value| == |m| && Rectangular(r.value, nc)
  {
    SeekCases(m, p, nc);
    match Seek(m, p, nc)
    case None => None
    case Some(s) =>
      EliminatedBeforeRectangular(Normalized(s, p), p, mode, nc, |s|);
      Some(Eliminated(Normalized(s, p), p, mode, nc))
  }

  /** One pass recorded on a reduction: a skipped column is appended to the
      list of skipped columns and leaves the grid as it is. */
  function Advance(r: Reduction, p: nat, mode: Mode, nc: nat): (r': Reduction)
    requires Rectangular(r.grid, nc) && p < |r.grid| && p < nc
    ensures |r'.grid| == |r.grid| && Rectangular(r'.grid, nc)
  {
    match Step(r.grid, p, mode, nc)
    case None => Reduction(r.grid, r.skipped + [p])
    case Some(g) => Reduction(g, r.skipped)
  }

  /** The first `n` passes of the outer loop, at positions 0 .. n - 1 in order. */
  function ReduceUpTo(m: Grid, nc: nat, mode: Mode, n: nat): (r: Reduction)
    requires Rectangular(m, nc) && n <= Min(|m|, nc)
    ensures |r.grid| == |m| && Rectangular(r.grid, nc)
    decreases n
  {
    if n == 0 then Reduction(m, [])
    else
      Advance(ReduceUpTo(m, nc, mode, n - 1), n - 1, mode, nc)
  }

  /** After the first n passes every column before n is reduced, and the
      skipped columns are exactly those with a zero on the diagonal. */
  lemma {:induction false} ReduceUpToSettles(m: Grid, nc: nat, mode: Mode, n: nat)
    requires Rectangular(m, nc) && n <= Min(|m|, nc)
    ensures var r := ReduceUpTo(m, nc, mode, n);
      Settled(r.grid, nc, mode, n) && r.skipped == ZeroDiagonal(r.grid, n)
  {
    if n > 0 {
      ReduceUpToSettles(m, nc, mode, n - 1);
      ReduceUpToSettlesNext(m, nc, mode, n - 1);
    }
  }

  /** The pass at n carries the invariant of ReduceUpToSettles from n to n + 1. */
  lemma ReduceUpToSettlesNext(m: Grid, nc: nat, mode: Mode, n: nat)
    requires Rectangular(m, nc) && n < Min(|m|, nc)
    requires var r := ReduceUpTo(m, nc, mode, n);
      Settled(r.grid, nc, mode, n) && r.skipped == ZeroDiagonal(r.grid, n)
    ensures var r := ReduceUpTo(m, nc, mode, n + 1);
      Settled(r.grid, nc, mode, n + 1) && r.skipped == ZeroDiagonal(r.grid, n + 1)
  {
    var prev := ReduceUpTo(m, nc, mode, n);
    AdvanceSettles(prev, n, mode, nc);
    AdvanceTracksZeroDiagonal(prev, n, mode, nc);
  }

  /** The whole reduction: one pass for each diagonal position. */
  function Reduce(m: Grid, nc: nat, mode: Mode): Reduction
    requires Rectangular(m, nc)
  {
    ReduceUpTo(m, nc, mode, Min(|m|, nc))
  }

  /** The columns c < n whose diagonal entry (c, c) is zero, in order. */
  function ZeroDiagonal(g: Grid, n: nat): seq<nat>
    requires n <= |g| && forall c :: 0 <= c < n ==> c < |g[c]|
  {
    if n == 0 then []
    else ZeroDiagonal(g, n - 1) + (if g[n - 1][n - 1] == 0.0 then [n - 1] else [])
  }

  /** ZeroDiagonal lists exactly the columns below n with a zero on the diagonal. */
  lemma {:induction false} ZeroDiagonalMembers(g: Grid, n: nat)
    requires n <= |g| && forall c :: 0 <= c < n ==> c < |g[c]|
    ensures forall c :: c in ZeroDiagonal(g, n) <==> 0 <= c < n && g[c][c] == 0.0
  {
    if n > 0 {
      ZeroDiagonalMembers(g, n - 1);
    }
  }

  /** Column c after its pass, read off the diagonal entry: a zero at (c, c)
      means the column was skipped and is zero from row c down; otherwise
      (c, c) holds 1 and every targeted row is 0 in column c. */
  predicate ColumnReduced(g: Grid, nc: nat, c: nat, mode: Mode)
    requires Rectangular(g, nc) && c < |g| && c < nc
  {
    if g[c][c] == 0.0 then forall k :: c <= k < |g| ==> g[k][c] == 0.0
    else g[c][c] == 1.0 && forall k :: 0 <= k < |g| && Targeted(mode, c, k) ==> g[k][c] == 0.0
  }

  /** Every column before n is reduced, stated column by column. */
  predicate Settled(g: Grid, nc: nat, mode: Mode, n: nat)
    requires Rectangular(g, nc) && n <= Min(|g|, nc)
  {
    n == 0 || (Settled(g, nc, mode, n - 1) && ColumnReduced(g, nc, n - 1, mode))
  }

  /** Settled means that each column before n is reduced. */
  lemma {:induction false} SettledEach(g: Grid, nc: nat, mode: Mode, n: nat)
    requires Rectangular(g, nc) && n <= Min(|g|, nc)
    ensures Settled(g, nc, mode, n) <==> forall c :: 0 <= c < n ==> ColumnReduced(g, nc, c, mode)
  {
    if n > 0 {
      SettledEach(g, nc, mode, n - 1);
    }
  }

  /** The normalised pivot row holds 1 at (p, p) and still 0 wherever it
      held 0; every other row is as it was. */
  lemma NormalizedEntries(m: Grid, p: nat)
    requires p < |m| && p < |m[p]| && m[p][p] != 0.0
    ensures var s := Normalized(m, p);
      |s| == |m| && |s[p]| == |m[p]| && s[p][p] == 1.0 &&
      (forall k :: 0 <= k < |m| && k != p ==> s[k] == m[k]) &&
      (forall c :: 0 <= c < |m[p]| && m[p][c] == 0.0 ==> s[p][c] == 0.0)
  {
    var v := m[p][p];
    assert Normalized(m, p)[p][p] == (1.0 / v) * v == 1.0;
  }

  /** Clearing with a unit pivot keeps row p and leaves 0 in column p of every targeted row. */
  lemma EliminatedClearsColumn(g: Grid, p: nat, mode: Mode, nc: nat)
    requires Rectangular(g, nc) && p < |g| && p < nc && g[p][p] == 1.0
    ensures var e := Eliminated(g, p, mode, nc);
      Rectangular(e, nc) && e[p] == g[p] &&
      forall k :: 0 <= k < |g| && Targeted(mode, p, k) ==> e[k][p] == 0.0
  {
    var e := Eliminated(g, p, mode, nc);
    EliminatedBeforeRectangular(g, p, mode, nc, |g|);
    EliminatedBeforeRow(g, p, mode, nc, |g|, p);
    forall k | 0 <= k < |g| && Targeted(mode, p, k)
      ensures e[k][p] == 0.0
    {
      EliminatedBeforeRow(g, p, mode, nc, |g|, k);
    }
  }

  /** Clearing leaves alone every column in which the pivot row holds 0. */
  lemma EliminatedKeepsColumn(g: Grid, p: nat, mode: Mode, nc: nat, c: nat)
    requires Rectangular(g, nc) && p < |g| && p < nc && c < nc && g[p][c] == 0.0
    ensures var e := Eliminated(g, p, mode, nc);
      Rectangular(e, nc) && forall k :: 0 <= k < |g| ==> e[k][c] == g[k][c]
  {
    var e := Eliminated(g, p, mode, nc);
    EliminatedBeforeRectangular(g, p, mode, nc, |g|);
    forall k | 0 <= k < |g|
      ensures e[k][c] == g[k][c]
    {
      EliminatedBeforeRow(g, p, mode, nc, |g|, k);
    }
  }

  /** The pivot search only exchanges row p with a lower row, so a column that
      is zero from row p down comes through it unchanged. */
  lemma SeekKeepsZeroTailColumn(m: Grid, p: nat, nc: nat, c: nat)
    requires Rectangular(m, nc) && p < |m| && p < nc && c < nc
    requires forall k :: p <= k < |m| ==> m[k][c] == 0.0
    ensures Seek(m, p, nc).Some? ==> forall k :: 0 <= k < |m| ==> Seek(m, p, nc).value[k][c] == m[k][c]
  {
    SeekCases(m, p, nc);
  }

  /** A pass skips exactly when column p is zero from row p down; one that
      does not skip leaves 1 at (p, p) and column p reduced. */
  lemma StepReducesColumn(m: Grid, p: nat, mode: Mode, nc: nat)
    requires Rectangular(m, nc) && p < |m| && p < nc
    ensures Step(m, p, mode, nc).None? <==> forall k :: p <= k < |m| ==> m[k][p] == 0.0
    ensures Step(m, p, mode, nc).None? ==> m[p][p] == 0.0 && ColumnReduced(m, nc, p, mode)
    ensures Step(m, p, mode, nc).Some? ==>
      Step(m, p, mode, nc).value[p][p] == 1.0 && ColumnReduced(Step(m, p, mode, nc).value, nc, p, mode)
  {
    SeekCases(m, p, nc);
    match Seek(m, p, nc)
    case None =>
    case Some(s) =>
      NormalizedEntries(s, p);
      EliminatedClearsColumn(Normalized(s, p), p, mode, nc);
  }

  /** A pass at p leaves alone every column that is already zero from row p down. */
  lemma StepKeepsZeroTailColumn(m: Grid, p: nat, mode: Mode, nc: nat, c: nat)
    requires Rectangular(m, nc) && p < |m| && p < nc && c < nc
    requires forall k :: p <= k < |m| ==> m[k][c] == 0.0
    ensures Step(m, p, mode, nc).Some? ==>
      forall k :: 0 <= k < |m| ==> Step(m, p, mode, nc).value[k][c] == m[k][c]
  {
    SeekKeepsZeroTailColumn(m, p, nc, c);
    match Seek(m, p, nc)
    case None =>
    case Some(s) =>
      NormalizedEntries(s, p);
      EliminatedKeepsColumn(Normalized(s, p), p, mode, nc, c);
  }

  /** Two grids that agree on the diagonal before n have the same zero diagonal. */
  lemma {:induction false} ZeroDiagonalAgree(g: Grid, h: Grid, n: nat)
    requires n <= |g| && n <= |h|
    requires forall c :: 0 <= c < n ==> c < |g[c]| && c < |h[c]| && g[c][c] == h[c][c]
    ensures ZeroDiagonal(g, n) == ZeroDiagonal(h, n)
  {
    if n > 0 {
      ZeroDiagonalAgree(g, h, n - 1);
    }
  }

  /** A pass at p changes no column before p: each is zero from row p down. */
  lemma StepKeepsSettledColumns(m: Grid, p: nat, mode: Mode, nc: nat)
    requires Rectangular(m, nc) && p < |m| && p < nc && Settled(m, nc, mode, p)
    ensures Step(m, p, mode, nc).Some? ==>
      forall k, c :: 0 <= k < |m| && 0 <= c < p ==> Step(m, p, mode, nc).value[k][c] == m[k][c]
  {
    SettledEach(m, nc, mode, p);
    if Step(m, p, mode, nc).Some? {
      var g := Step(m, p, mode, nc).value;
      forall k, c | 0 <= k < |m| && 0 <= c < p
        ensures g[k][c] == m[k][c]
      {
        assert ColumnReduced(m, nc, c, mode);
        assert forall k' :: p <= k' < |m| ==> Targeted(mode, c, k');
        StepKeepsZeroTailColumn(m, p, mode, nc, c);
      }
    }
  }

  /** A pass at p keeps the columns before p reduced and reduces column p. */
  lemma AdvanceSettles(r: Reduction, p: nat, mode: Mode, nc: nat)
    requires Rectangular(r.grid, nc) && p < |r.grid| && p < nc
    requires Settled(r.grid, nc, mode, p)
    ensures Settled(Advance(r, p, mode, nc).grid, nc, mode, p + 1)
  {
    StepReducesColumn(r.grid, p, mode, nc);
    match Step(r.grid, p, mode, nc)
    case None =>
    case Some(g) =>
      StepKeepsSettledColumns(r.grid, p, mode, nc);
      SettledEach(r.grid, nc, mode, p);
      forall c | 0 <= c < p
        ensures ColumnReduced(g, nc, c, mode)
      {
        assert ColumnReduced(r.grid, nc, c, mode);
        assert g[c][c] == r.grid[c][c];
      }
      SettledEach(g, nc, mode, p + 1);
  }

  /** Over settled columns, a pass at p records a skip exactly when it leaves
      a zero at (p, p), and it keeps the diagonal before p. */
  lemma AdvanceTracksZeroDiagonal(r: Reduction, p: nat, mode: Mode, nc: nat)
    requires Rectangular(r.grid, nc) && p < |r.grid| && p < nc
    requires Settled(r.grid, nc, mode, p)
    requires r.skipped == ZeroDiagonal(r.grid, p)
    ensures Advance(r, p, mode, nc).skipped == ZeroDiagonal(Advance(r, p, mode, nc).grid, p + 1)
  {
    StepReducesColumn(r.grid, p, mode, nc);
    match Step(r.grid, p, mode, nc)
    case None =>
    case Some(g) =>
      StepKeepsSettledColumns(r.grid, p, mode, nc);
      ZeroDiagonalAgree(g, r.grid, p);
  }

  /** After REF every pivot column holds 1 on the diagonal and 0 below it,
      and every skipped column is 0 from the diagonal down. */
  lemma RowEchelonResult(m: Grid, nc: nat)
    requires Rectangular(m, nc)
    ensures var r := Reduce(m, nc, Ref);
      forall c :: 0 <= c < Min(|m|, nc) ==>
        (c in r.skipped <==> r.grid[c][c] == 0.0) &&
        (c !in r.skipped ==> r.grid[c][c] == 1.0 && forall k :: c < k < |m| ==> r.grid[k][c] == 0.0) &&
        (c in r.skipped ==> forall k :: c <= k < |m| ==> r.grid[k][c] == 0.0)
  {
    var n := Min(|m|, nc);
    var r := Reduce(m, nc, Ref);
    ReduceUpToSettles(m, nc, Ref, n);
    ZeroDiagonalMembers(r.grid, n);
    SettledEach(r.grid, nc, Ref, n);
    forall c | 0 <= c < n
      ensures c in r.skipped <==> r.grid[c][c] == 0.0
      ensures c !in r.skipped ==> r.grid[c][c] == 1.0 && forall k :: c < k < |m| ==> r.grid[k][c] == 0.0
      ensures c in r.skipped ==> forall k :: c <= k < |m| ==> r.grid[k][c] == 0.0
    {
      assert ColumnReduced(r.grid, nc, c, Ref);
      assert forall k :: c < k < |m| ==> Targeted(Ref, c, k);
    }
  }

  /** After RREF every pivot column holds 1 on the diagonal and 0 in every
      other row, and every skipped column is 0 from the diagonal down. */
  lemma ReducedRowEchelonResult(m: Grid, nc: nat)
    requires Rectangular(m, nc)
    ensures var r := Reduce(m, nc, Rref);
      forall c :: 0 <= c < Min(|m|, nc) ==>
        (c in r.skipped <==> r.grid[c][c] == 0.0) &&
        (c !in r.skipped ==> r.grid[c][c] == 1.0 && forall k :: 0 <= k < |m| && k != c ==> r.grid[k][c] == 0.0) &&
        (c in r.skipped ==> forall k :: c <= k < |m| ==> r.grid[k][c] == 0.0)
  {
    var n := Min(|m|, nc);
    var r := Reduce(m, nc, Rref);
    ReduceUpToSettles(m, nc, Rref, n);
    ZeroDiagonalMembers(r.grid, n);
    SettledEach(r.grid, nc, Rref, n);
    forall c | 0 <= c < n
      ensures c in r.skipped <==> r.grid[c][c] == 0.0
      ensures c !in r.skipped ==> r.grid[c][c] == 1.0 && forall k :: 0 <= k < |m| && k != c ==> r.grid[k][c] == 0.0
      ensures c in r.skipped ==> forall k :: c <= k < |m| ==> r.grid[k][c] == 0.0
    {
      assert ColumnReduced(r.grid, nc, c, Rref);
      assert forall k :: 0 <= k < |m| && k != c ==> Targeted(Rref, c, k);
    }
  }

  /** A pass over a grid whose column p is already reduced changes nothing:
      a zero column is skipped, and a unit pivot column is scaled by 1 and
      cleared with factors 0. */
  lemma AdvanceFixes(g: Grid, nc: nat, mode: Mode, p: nat)
    requires Rectangular(g, nc) && p < |g| && p < nc
    requires ColumnReduced(g, nc, p, mode)
    ensures Advance(Reduction(g, ZeroDiagonal(g, p)), p, mode, nc) == Reduction(g, ZeroDiagonal(g, p + 1))
  {
    if g[p][p] != 0.0 {
      assert 1.0 / g[p][p] == 1.0;
      assert Normalized(g, p)[p] == g[p];
      assert Normalized(g, p) == g;
      var e := Eliminated(g, p, mode, nc);
      forall k | 0 <= k < |g|
        ensures e[k] == g[k]
      {
        EliminatedBeforeRow(g, p, mode, nc, |g|, k);
        if Targeted(mode, p, k) {
          assert forall j :: 0 <= j < nc ==> e[k][j] == g[k][j];
        }
      }
      assert e == g;
    }
  }

  /** A grid whose columns before n are all reduced is left unchanged by the
      first n passes, which skip exactly its zero-diagonal columns. */
  lemma {:induction false} SettledIsFixedPoint(g: Grid, nc: nat, mode: Mode, n: nat)
    requires Rectangular(g, nc) && n <= Min(|g|, nc)
    requires Settled(g, nc, mode, n)
    ensures ReduceUpTo(g, nc, mode, n) == Reduction(g, ZeroDiagonal(g, n))
  {
    if n > 0 {
      SettledIsFixedPoint(g, nc, mode, n - 1);
      AdvanceFixes(g, nc, mode, n - 1);
    }
  }

  /** Running a reduction a second time on its own result changes nothing and
      skips the same columns. */
  lemma ReduceIdempotent(m: Grid, nc: nat, mode: Mode)
    requires Rectangular(m, nc)
    ensures var r := Reduce(m, nc, mode); Reduce(r.grid, nc, mode) == r
  {
    var n := Min(|m|, nc);
    var r := Reduce(m, nc, mode);
    ReduceUpToSettles(m, nc, mode, n);
    SettledIsFixedPoint(r.grid, nc, mode, n);
  }

  /** The all-zero matrix is returned unchanged, with every column skipped. */
  lemma {:induction false} ZeroMatrixUnchanged(m: Grid, nc: nat, mode: Mode, n: nat)
    requires Rectangular(m, nc) && n <= Min(|m|, nc)
    requires forall i, j :: 0 <= i < |m| && 0 <= j < nc ==> m[i][j] == 0.0
    ensures ReduceUpTo(m, nc, mode, n).grid == m
    ensures ReduceUpTo(m, nc, mode, n).skipped == seq(n, c => c)
  {
    if n > 0 {
      ZeroMatrixUnchanged(m, nc, mode, n - 1);
      assert Step(m, n - 1, mode, nc).None?;
      assert seq(n - 1, c => c) + [n - 1] == seq(n, c => c);
    }
  }
}
