/** Row echelon form and reduced row echelon form as the definitions of
    matrix.py describe them, the inputs on which `row_echelon_form` and
    `reduced_row_echelon_form` miss them, and a corrected reduction that
    reaches them on every input.

    The drivers of matrix.py look for the pivot of column i only at row i.
    Each later pivot therefore lands one row lower for every column skipped
    before it, and the rows left above it can be nonzero in later columns. The
    corrected reduction keeps the next pivot row apart from the column and
    advances it only when a pivot is placed. Like the drivers, it clears the
    rows below the pivot for REF and every other row for RREF. */
module CorrectedEchelon {
  import opened RowOps
  import opened Elimination

  /** Echelon shape: whenever row l is nonzero in column c2, every earlier
      row has a nonzero entry strictly left of c2 (so zero rows come last
      and leading entries move strictly right going down). */
  ghost predicate EchelonShape(g: Grid, nc: nat)
    requires Rectangular(g, nc)
  {
    forall k, l, c2 :: 0 <= k < l < |g| && 0 <= c2 < nc && g[l][c2] != 0.0 ==>
      NonzeroBefore(g[k], c2)
  }

  /** `row` has a nonzero entry strictly left of column `c`. */
  ghost predicate NonzeroBefore(row: seq<real>, c: nat)
    requires c <= |row|
  {
    exists c1 :: 0 <= c1 < c && row[c1] != 0.0
  }

  /** Every row's leading entry is 1. */
  ghost predicate LeadingOnes(g: Grid, nc: nat)
    requires Rectangular(g, nc)
  {
    forall k, c :: 0 <= k < |g| && 0 <= c < nc && g[k][c] != 0.0 ==>
      NonzeroBefore(g[k], c) || g[k][c] == 1.0
  }

  /** Every row's leading entry is the only nonzero entry of its column, as
      reduced row echelon form asks on top of echelon shape and leading ones. */
  ghost predicate LeadingAlone(g: Grid, nc: nat)
    requires Rectangular(g, nc)
  {
    forall k, l, c ::
      (0 <= k < |g| && 0 <= l < |g| && l != k && 0 <= c < nc && g[k][c] != 0.0 && !NonzeroBefore(g[k], c))
      ==> g[l][c] == 0.0
  }

  /** The progress of the corrected reduction: the grid, the pivot column of
      each row placed so far (row k holds the pivot of column pivots[k]), and
      in order the columns skipped while rows were left, for which it warns. */
  datatype Progress = Progress(grid: Grid, pivots: seq<nat>, skipped: seq<nat>)

  /** `g` is in row echelon form over the columns before `c`, with pivot
      columns `piv`: increasing, each pivot 1 with only zeros left of it, and
      every row below the pivots zero in the columns before `c`. */
  ghost predicate EchelonBefore(g: Grid, nc: nat, piv: seq<nat>, c: nat)
    requires Rectangular(g, nc) && c <= nc
  {
    && |piv| <= |g|
    && (forall a :: 0 <= a < |piv| ==> piv[a] < c)
    && (forall a, b :: 0 <= a < b < |piv| ==> piv[a] < piv[b])
    && (forall k :: 0 <= k < |piv| ==> g[k][piv[k]] == 1.0)
    && (forall k, col :: 0 <= k < |piv| && 0 <= col < piv[k] ==> g[k][col] == 0.0)
    && (forall k, col :: |piv| <= k < |g| && 0 <= col < c ==> g[k][col] == 0.0)
  }

  /** Every pivot column `piv[a]` is zero outside its pivot row a. */
  ghost predicate PivotsAlone(g: Grid, piv: seq<nat>) {
    forall a, k :: 0 <= a < |piv| && 0 <= k < |g| && k != a && piv[a] < |g[k]| ==>
      g[k][piv[a]] == 0.0
  }

  /** `m` with column `c` cleared, using pivot row `r`, in every row that
      `mode` targets: the rows below `r` for REF, every other row for RREF. */
  function Cleared(m: Grid, r: nat, c: nat, mode: Mode, nc: nat): Grid
    requires Rectangular(m, nc) && r < |m| && c < nc
  {
    seq(|m|, k requires 0 <= k < |m| =>
      if Targeted(mode, r, k) then Combine(m[k], m[r], -m[k][c], nc) else m[k])
  }

  /** One column of the corrected reduction: the next pivot row is the number
      of pivots placed so far; a column with no nonzero entry from that row
      down is skipped without using up a row. */
  function PlaceColumn(p: Progress, c: nat, mode: Mode, nc: nat): (r: Progress)
    requires Rectangular(p.grid, nc) && |p.pivots| <= |p.grid| && c < nc
    ensures |r.grid| == |p.grid| && Rectangular(r.grid, nc) && |r.pivots| <= |r.grid|
  {
    var row := |p.pivots|;
    if row == |p.grid| then p
    else match FirstNonzeroBelow(p.grid, c, row)
      case None => Progress(p.grid, p.pivots, p.skipped + [c])
      case Some(j) =>
        var s := Swapped(p.grid, row, j);
        var scaled := Multiplied(s, row, 1.0 / s[row][c]);
        Progress(Cleared(scaled, row, c, mode, nc), p.pivots + [c], p.skipped)
  }

  /** The corrected reduction over the columns before `c`. */
  function CorrectedUpTo(m: Grid, nc: nat, mode: Mode, c: nat): (r: Progress)
    requires Rectangular(m, nc) && c <= nc
    ensures |r.grid| == |m| && Rectangular(r.grid, nc) && |r.pivots| <= |r.grid|
  {
    if c == 0 then Progress(m, [], [])
    else PlaceColumn(CorrectedUpTo(m, nc, mode, c - 1), c - 1, mode, nc)
  }

  /** The corrected Row Echelon Form. */
  function CorrectedRowEchelon(m: Grid, nc: nat): Progress
    requires Rectangular(m, nc)
  {
    CorrectedUpTo(m, nc, Ref, nc)
  }

  /** The corrected Reduced Row Echelon Form. */
  function CorrectedReducedRowEchelon(m: Grid, nc: nat): Progress
    requires Rectangular(m, nc)
  {
    CorrectedUpTo(m, nc, Rref, nc)
  }

  /** Swapping row j up to the next free row and scaling it by the inverse
      of its entry in column c puts a 1 there and disturbs neither the rows
      above nor the zeros of the rows below in the columns before c. */
  lemma NormalizedPivotRow(g: Grid, nc: nat, piv: seq<nat>, c: nat, j: nat)
    requires Rectangular(g, nc) && c < nc && EchelonBefore(g, nc, piv, c)
    requires |piv| <= j < |g| && g[j][c] != 0.0
    ensures var row := |piv|;
      var s := Swapped(g, row, j);
      var scaled := Multiplied(s, row, 1.0 / s[row][c]);
      && (forall k :: 0 <= k < row ==> scaled[k] == g[k])
      && scaled[row][c] == 1.0
      && (forall k, col :: row <= k < |g| && 0 <= col < c ==> scaled[k][col] == 0.0)
  {
    var row := |piv|;
    var s := Swapped(g, row, j);
    var v := s[row][c];
    var scaled := Multiplied(s, row, 1.0 / v);
    assert 1.0 / v != 0.0;
    assert scaled[row][c] == 1.0 by {
      calc {
        scaled[row][c];
        (1.0 / v) * v;
        1.0;
      }
    }
  }

  /** Clearing with a unit pivot at `row` whose row is zero before column c:
      every other row keeps its entries before column c, and every targeted
      row gets 0 in column c. */
  lemma ClearedEntries(scaled: Grid, row: nat, c: nat, mode: Mode, nc: nat)
    requires Rectangular(scaled, nc) && row < |scaled| && c < nc && scaled[row][c] == 1.0
    requires forall col :: 0 <= col < c ==> scaled[row][col] == 0.0
    ensures var e := Cleared(scaled, row, c, mode, nc);
      && e[row] == scaled[row]
      && (forall k, col :: 0 <= k < |scaled| && 0 <= col < c ==> e[k][col] == scaled[k][col])
      && (forall k :: 0 <= k < |scaled| && Targeted(mode, row, k) ==> e[k][c] == 0.0)
      && (forall k :: 0 <= k < |scaled| && !Targeted(mode, row, k) ==> e[k] == scaled[k])
  {
    var e := Cleared(scaled, row, c, mode, nc);
    forall k, col | 0 <= k < |scaled| && 0 <= col < c
      ensures e[k][col] == scaled[k][col]
    {
      if Targeted(mode, row, k) {
        assert e[k] == Combine(scaled[k], scaled[row], -scaled[k][c], nc);
      }
    }
    forall k | 0 <= k < |scaled| && Targeted(mode, row, k)
      ensures e[k][c] == 0.0
    {
      assert e[k] == Combine(scaled[k], scaled[row], -scaled[k][c], nc);
    }
  }

  /** Clearing column c with a normalised pivot at the next free row extends
      the echelon form by one column, with c as the new pivot column. */
  lemma ClearingExtendsEchelon(g: Grid, scaled: Grid, nc: nat, piv: seq<nat>, c: nat, mode: Mode)
    requires Rectangular(g, nc) && c < nc && EchelonBefore(g, nc, piv, c) && |piv| < |g|
    requires Rectangular(scaled, nc) && |scaled| == |g|
    requires forall k :: 0 <= k < |piv| ==> scaled[k] == g[k]
    requires scaled[|piv|][c] == 1.0
    requires forall k, col :: |piv| <= k < |g| && 0 <= col < c ==> scaled[k][col] == 0.0
    ensures EchelonBefore(Cleared(scaled, |piv|, c, mode, nc), nc, piv + [c], c + 1)
  {
    var row := |piv|;
    var e := Cleared(scaled, row, c, mode, nc);
    var piv' := piv + [c];
    ClearedEntries(scaled, row, c, mode, nc);
    forall k | 0 <= k < |piv'|
      ensures e[k][piv'[k]] == 1.0
      ensures forall col :: 0 <= col < piv'[k] ==> e[k][col] == 0.0
    {
      if k < row {
        assert e[k][piv[k]] == g[k][piv[k]];
      }
    }
  }

  /** For RREF, clearing column c with a normalised pivot at the next free
      row also leaves every pivot column, the new one included, zero outside
      its pivot row. */
  lemma ClearingKeepsPivotsAlone(g: Grid, scaled: Grid, nc: nat, piv: seq<nat>, c: nat)
    requires Rectangular(g, nc) && c < nc && EchelonBefore(g, nc, piv, c) && |piv| < |g|
    requires PivotsAlone(g, piv)
    requires Rectangular(scaled, nc) && |scaled| == |g|
    requires forall k :: 0 <= k < |piv| ==> scaled[k] == g[k]
    requires scaled[|piv|][c] == 1.0
    requires forall k, col :: |piv| <= k < |g| && 0 <= col < c ==> scaled[k][col] == 0.0
    ensures PivotsAlone(Cleared(scaled, |piv|, c, Rref, nc), piv + [c])
  {
    var row := |piv|;
    var e := Cleared(scaled, row, c, Rref, nc);
    var piv' := piv + [c];
    ClearedEntries(scaled, row, c, Rref, nc);
    forall a, k | 0 <= a < |piv'| && 0 <= k < |e| && k != a && piv'[a] < |e[k]|
      ensures e[k][piv'[a]] == 0.0
    {
      if a < row {
        assert e[k][piv[a]] == scaled[k][piv[a]];
        if k < row {
          assert scaled[k][piv[a]] == g[k][piv[a]];
        }
      }
    }
  }

  /** Placing a pivot in column c, at the next free row, extends the echelon
      form by one column. */
  lemma PivotExtendsEchelon(g: Grid, nc: nat, piv: seq<nat>, c: nat, j: nat, mode: Mode)
    requires Rectangular(g, nc) && c < nc && EchelonBefore(g, nc, piv, c)
    requires |piv| <= j < |g| && g[j][c] != 0.0
    ensures var row := |piv|;
      var s := Swapped(g, row, j);
      var scaled := Multiplied(s, row, 1.0 / s[row][c]);
      EchelonBefore(Cleared(scaled, row, c, mode, nc), nc, piv + [c], c + 1)
  {
    var row := |piv|;
    var s := Swapped(g, row, j);
    var scaled := Multiplied(s, row, 1.0 / s[row][c]);
    NormalizedPivotRow(g, nc, piv, c, j);
    ClearingExtendsEchelon(g, scaled, nc, piv, c, mode);
  }

  /** For RREF, placing a pivot in column c keeps every pivot column zero
      outside its pivot row. */
  lemma PivotKeepsPivotsAlone(g: Grid, nc: nat, piv: seq<nat>, c: nat, j: nat)
    requires Rectangular(g, nc) && c < nc && EchelonBefore(g, nc, piv, c) && PivotsAlone(g, piv)
    requires |piv| <= j < |g| && g[j][c] != 0.0
    ensures var row := |piv|;
      var s := Swapped(g, row, j);
      var scaled := Multiplied(s, row, 1.0 / s[row][c]);
      PivotsAlone(Cleared(scaled, row, c, Rref, nc), piv + [c])
  {
    var row := |piv|;
    var s := Swapped(g, row, j);
    var scaled := Multiplied(s, row, 1.0 / s[row][c]);
    NormalizedPivotRow(g, nc, piv, c, j);
    ClearingKeepsPivotsAlone(g, scaled, nc, piv, c);
  }

  /** A column with no nonzero entry from the next free row down extends the
      echelon form by one column without a pivot. */
  lemma ZeroColumnExtendsEchelon(g: Grid, nc: nat, piv: seq<nat>, c: nat)
    requires Rectangular(g, nc) && c < nc && EchelonBefore(g, nc, piv, c)
    requires forall k :: |piv| <= k < |g| ==> g[k][c] == 0.0
    ensures EchelonBefore(g, nc, piv, c + 1)
  {
  }

  /** One column of the corrected reduction extends the echelon form by that column. */
  lemma PlaceColumnExtends(p: Progress, c: nat, mode: Mode, nc: nat)
    requires Rectangular(p.grid, nc) && c < nc && EchelonBefore(p.grid, nc, p.pivots, c)
    ensures var r := PlaceColumn(p, c, mode, nc); EchelonBefore(r.grid, nc, r.pivots, c + 1)
  {
    var row := |p.pivots|;
    if row < |p.grid| {
      match FirstNonzeroBelow(p.grid, c, row)
      case None =>
        ZeroColumnExtendsEchelon(p.grid, nc, p.pivots, c);
      case Some(j) =>
        PivotExtendsEchelon(p.grid, nc, p.pivots, c, j, mode);
    }
  }

  /** For RREF, one column of the corrected reduction keeps every pivot
      column zero outside its pivot row. */
  lemma PlaceColumnKeepsPivotsAlone(p: Progress, c: nat, nc: nat)
    requires Rectangular(p.grid, nc) && c < nc && EchelonBefore(p.grid, nc, p.pivots, c)
    requires PivotsAlone(p.grid, p.pivots)
    ensures var r := PlaceColumn(p, c, Rref, nc); PivotsAlone(r.grid, r.pivots)
  {
    var row := |p.pivots|;
    if row < |p.grid| {
      match FirstNonzeroBelow(p.grid, c, row)
      case None =>
      case Some(j) =>
        PivotKeepsPivotsAlone(p.grid, nc, p.pivots, c, j);
    }
  }

  /** One more column of the corrected reduction extends the echelon form by that column. */
  lemma CorrectedStepEchelon(m: Grid, nc: nat, mode: Mode, c: nat)
    requires Rectangular(m, nc) && c < nc
    requires var r := CorrectedUpTo(m, nc, mode, c); EchelonBefore(r.grid, nc, r.pivots, c)
    ensures var r := CorrectedUpTo(m, nc, mode, c + 1); EchelonBefore(r.grid, nc, r.pivots, c + 1)
  {
    PlaceColumnExtends(CorrectedUpTo(m, nc, mode, c), c, mode, nc);
  }

  /** After the columns before c, the grid is in echelon form over them. */
  lemma {:induction false} CorrectedUpToEchelon(m: Grid, nc: nat, mode: Mode, c: nat)
    requires Rectangular(m, nc) && c <= nc
    ensures var r := CorrectedUpTo(m, nc, mode, c); EchelonBefore(r.grid, nc, r.pivots, c)
  {
    if c > 0 {
      CorrectedUpToEchelon(m, nc, mode, c - 1);
      CorrectedStepEchelon(m, nc, mode, c - 1);
    }
  }

  /** For RREF, one more column extends the echelon form by that column and
      keeps every pivot column zero outside its pivot row. */
  lemma CorrectedStepPivotsAlone(m: Grid, nc: nat, c: nat)
    requires Rectangular(m, nc) && c < nc
    requires var r := CorrectedUpTo(m, nc, Rref, c);
      EchelonBefore(r.grid, nc, r.pivots, c) && PivotsAlone(r.grid, r.pivots)
    ensures var r := CorrectedUpTo(m, nc, Rref, c + 1);
      EchelonBefore(r.grid, nc, r.pivots, c + 1) && PivotsAlone(r.grid, r.pivots)
  {
    PlaceColumnExtends(CorrectedUpTo(m, nc, Rref, c), c, Rref, nc);
    PlaceColumnKeepsPivotsAlone(CorrectedUpTo(m, nc, Rref, c), c, nc);
  }

  /** For RREF, after the columns before c the grid is in echelon form over
      them and every pivot column is zero outside its pivot row. */
  lemma {:induction false} CorrectedUpToPivotsAlone(m: Grid, nc: nat, c: nat)
    requires Rectangular(m, nc) && c <= nc
    ensures var r := CorrectedUpTo(m, nc, Rref, c);
      EchelonBefore(r.grid, nc, r.pivots, c) && PivotsAlone(r.grid, r.pivots)
  {
    if c > 0 {
      CorrectedUpToPivotsAlone(m, nc, c - 1);
      CorrectedStepPivotsAlone(m, nc, c - 1);
    }
  }

  /** Echelon form with explicit pivots has the echelon shape and leading ones. */
  lemma EchelonHasShape(g: Grid, nc: nat, piv: seq<nat>)
    requires Rectangular(g, nc) && EchelonBefore(g, nc, piv, nc)
    ensures EchelonShape(g, nc) && LeadingOnes(g, nc)
  {
    forall k, l, c2 | 0 <= k < l < |g| && 0 <= c2 < nc && g[l][c2] != 0.0
      ensures NonzeroBefore(g[k], c2)
    {
      assert l < |piv|;
      assert piv[k] < piv[l] <= c2;
      assert g[k][piv[k]] == 1.0;
    }
    forall k, c | 0 <= k < |g| && 0 <= c < nc && g[k][c] != 0.0
      ensures NonzeroBefore(g[k], c) || g[k][c] == 1.0
    {
      assert k < |piv| && piv[k] <= c;
      assert piv[k] < c ==> g[k][piv[k]] == 1.0;
    }
  }

  /** In echelon form with pivot columns zero outside their pivot rows, each
      leading entry is the only nonzero entry of its column. */
  lemma PivotsAloneHasLeadingAlone(g: Grid, nc: nat, piv: seq<nat>)
    requires Rectangular(g, nc) && EchelonBefore(g, nc, piv, nc) && PivotsAlone(g, piv)
    ensures LeadingAlone(g, nc)
  {
    forall k, l, c | 0 <= k < |g| && 0 <= l < |g| && l != k && 0 <= c < nc &&
      g[k][c] != 0.0 && !NonzeroBefore(g[k], c)
      ensures g[l][c] == 0.0
    {
      assert k < |piv|;
      assert c == piv[k];
    }
  }

  /** The corrected reduction always produces row echelon form with leading ones. */
  lemma CorrectedIsRowEchelon(m: Grid, nc: nat)
    requires Rectangular(m, nc)
    ensures var r := CorrectedRowEchelon(m, nc);
      EchelonShape(r.grid, nc) && LeadingOnes(r.grid, nc) && |r.grid| == |m|
  {
    CorrectedUpToEchelon(m, nc, Ref, nc);
    var r := CorrectedRowEchelon(m, nc);
    EchelonHasShape(r.grid, nc, r.pivots);
  }

  /** The corrected reduced reduction always produces reduced row echelon
      form: echelon shape, leading ones, and each leading one alone in its column. */
  lemma CorrectedIsReducedRowEchelon(m: Grid, nc: nat)
    requires Rectangular(m, nc)
    ensures var r := CorrectedReducedRowEchelon(m, nc);
      && EchelonShape(r.grid, nc) && LeadingOnes(r.grid, nc) && LeadingAlone(r.grid, nc)
      && |r.grid| == |m|
  {
    CorrectedUpToPivotsAlone(m, nc, nc);
    var r := CorrectedReducedRowEchelon(m, nc);
    EchelonHasShape(r.grid, nc, r.pivots);
    PivotsAloneHasLeadingAlone(r.grid, nc, r.pivots);
  }

  /** As written, `row_echelon_form` returns [[0,1],[0,1]] unchanged (column 0
      skipped, row 1 already holding its pivot 1), which is not in echelon form. */
  lemma AsWrittenMissesEchelon()
    ensures Reduce([[0.0, 1.0], [0.0, 1.0]], 2, Ref) == Reduction([[0.0, 1.0], [0.0, 1.0]], [0])
    ensures !EchelonShape([[0.0, 1.0], [0.0, 1.0]], 2)
  {
    var m: Grid := [[0.0, 1.0], [0.0, 1.0]];
    assert ReduceUpTo(m, 2, Ref, 1) == Reduction(m, [0]) by {
      assert FirstNonzeroBelow(m, 0, 1).None?;
    }
    assert Step(m, 1, Ref, 2) == Some(m) by {
      var scaled := Multiplied(m, 1, 1.0 / m[1][1]);
      assert scaled[1] == Scale(m[1], 1.0) == m[1];
      assert scaled == m;
      assert Eliminated(m, 1, Ref, 2) == m;
    }
    assert !NonzeroBefore(m[0], 1);
  }

  /** The corrected reduction turns [[0,1],[0,1]] into [[0,1],[0,0]], with its one pivot in column 1. */
  lemma CorrectedFixesExample()
    ensures CorrectedRowEchelon([[0.0, 1.0], [0.0, 1.0]], 2) == Progress([[0.0, 1.0], [0.0, 0.0]], [1], [0])
  {
    var m: Grid := [[0.0, 1.0], [0.0, 1.0]];
    assert FirstNonzeroBelow(m, 0, 0).None?;
    assert CorrectedUpTo(m, 2, Ref, 1) == Progress(m, [], [0]);
    assert FirstNonzeroBelow(m, 1, 0) == Some(0);
    var scaled := Multiplied(Swapped(m, 0, 0), 0, 1.0 / m[0][1]);
    assert scaled[0] == Scale(m[0], 1.0) == m[0];
    assert scaled == m;
    var e := Cleared(m, 0, 1, Ref, 2);
    assert e[1] == Combine(m[1], m[0], -1.0, 2) == [0.0, 0.0];
    assert e == [[0.0, 1.0], [0.0, 0.0]];
  }

  /** `row` has a nonzero entry. */
  ghost predicate NonzeroRow(row: seq<real>) {
    exists c :: 0 <= c < |row| && row[c] != 0.0
  }

  /** In echelon form over every column, the nonzero rows are exactly the
      pivot rows, so the number of pivots is the number of nonzero rows. */
  lemma EchelonNonzeroRows(g: Grid, nc: nat, piv: seq<nat>)
    requires Rectangular(g, nc) && EchelonBefore(g, nc, piv, nc)
    ensures forall k :: 0 <= k < |g| ==> (NonzeroRow(g[k]) <==> k < |piv|)
  {
    forall k | 0 <= k < |g|
      ensures NonzeroRow(g[k]) <==> k < |piv|
    {
      if k < |piv| {
        assert g[k][piv[k]] == 1.0;
      }
    }
  }

  /** Each column of the corrected reduction either places a pivot or is
      skipped, as long as rows are left; once every row holds a pivot the
      remaining columns are neither. */
  lemma {:induction false} CorrectedUpToCounts(m: Grid, nc: nat, mode: Mode, c: nat)
    requires Rectangular(m, nc) && c <= nc
    ensures var r := CorrectedUpTo(m, nc, mode, c);
      && |r.pivots| + |r.skipped| <= c
      && (|r.pivots| < |m| ==> |r.pivots| + |r.skipped| == c)
  {
    if c > 0 {
      CorrectedUpToCounts(m, nc, mode, c - 1);
    }
  }

  /** The corrected reduction places one pivot for each nonzero row of its
      result, and skips no more than the columns left over: exactly
      nc - |pivots| of them when some row has no pivot. */
  lemma CorrectedPivotsCount(m: Grid, nc: nat, mode: Mode)
    requires Rectangular(m, nc)
    ensures var r := CorrectedUpTo(m, nc, mode, nc);
      && (forall k :: 0 <= k < |r.grid| ==> (NonzeroRow(r.grid[k]) <==> k < |r.pivots|))
      && |r.skipped| <= nc - |r.pivots|
      && (|r.pivots| < |m| ==> |r.skipped| == nc - |r.pivots|)
  {
    CorrectedUpToEchelon(m, nc, mode, nc);
    CorrectedUpToCounts(m, nc, mode, nc);
    var r := CorrectedUpTo(m, nc, mode, nc);
    EchelonNonzeroRows(r.grid, nc, r.pivots);
  }

  /** A grid already in echelon form with two nonzero rows: leading 1s in columns 1 and 2. */
  const Staircase: Grid := [[0.0, 1.0, 0.0], [0.0, 0.0, 1.0], [0.0, 0.0, 0.0]]

  /** The three passes of `row_echelon_form` on `Staircase` all skip. */
  lemma StaircaseSkipped()
    ensures Reduce(Staircase, 3, Ref) == Reduction(Staircase, [0, 1, 2])
  {
    var m := Staircase;
    assert ReduceUpTo(m, 3, Ref, 1) == Reduction(m, [0]) by {
      assert FirstNonzeroBelow(m, 0, 1).None?;
    }
    assert ReduceUpTo(m, 3, Ref, 2) == Reduction(m, [0, 1]) by {
      assert FirstNonzeroBelow(m, 1, 2).None?;
    }
    assert FirstNonzeroBelow(m, 2, 3).None?;
  }

  /** `Staircase` is in echelon form with pivots in columns 1 and 2. */
  lemma StaircaseEchelon()
    ensures EchelonBefore(Staircase, 3, [1, 2], 3)
  {
  }

  /** As written, `row_echelon_form` skips all three columns of `Staircase`,
      warning each time that the column contains only zeros, although
      columns 1 and 2 hold the leading entries of its two nonzero rows. */
  lemma AsWrittenSkipsPivots()
    ensures Reduce(Staircase, 3, Ref) == Reduction(Staircase, [0, 1, 2])
    ensures Staircase[0][1] != 0.0 && Staircase[1][2] != 0.0
    ensures EchelonShape(Staircase, 3) && LeadingOnes(Staircase, 3)
    ensures NonzeroRow(Staircase[0]) && NonzeroRow(Staircase[1]) && !NonzeroRow(Staircase[2])
  {
    StaircaseSkipped();
    StaircaseEchelon();
    EchelonHasShape(Staircase, 3, [1, 2]);
    EchelonNonzeroRows(Staircase, 3, [1, 2]);
  }

  /** Column 1 of the corrected reduction of `Staircase` finds its pivot in row 0,
      which is already 1 with zeros below it. */
  lemma StaircasePivotOne()
    ensures PlaceColumn(Progress(Staircase, [], [0]), 1, Ref, 3) == Progress(Staircase, [1], [0])
  {
    var m := Staircase;
    assert FirstNonzeroBelow(m, 1, 0) == Some(0);
    var scaled := Multiplied(Swapped(m, 0, 0), 0, 1.0 / m[0][1]);
    assert scaled[0] == Scale(m[0], 1.0) == m[0];
    assert scaled == m;
    var e := Cleared(m, 0, 1, Ref, 3);
    assert e[1] == Combine(m[1], m[0], -0.0, 3) == m[1];
    assert e[2] == Combine(m[2], m[0], -0.0, 3) == m[2];
    assert e == m;
  }

  /** Column 2 of the corrected reduction of `Staircase` finds its pivot in row 1,
      which is already 1 with zeros below it. */
  lemma StaircasePivotTwo()
    ensures PlaceColumn(Progress(Staircase, [1], [0]), 2, Ref, 3) == Progress(Staircase, [1, 2], [0])
  {
    var m := Staircase;
    assert FirstNonzeroBelow(m, 2, 1) == Some(1);
    var scaled := Multiplied(Swapped(m, 1, 1), 1, 1.0 / m[1][2]);
    assert scaled[1] == Scale(m[1], 1.0) == m[1];
    assert scaled == m;
    var e := Cleared(m, 1, 2, Ref, 3);
    assert e[2] == Combine(m[2], m[1], -0.0, 3) == m[2];
    assert e == m;
  }

  /** The corrected reduction keeps `Staircase` as it is, with pivots in
      columns 1 and 2 and only column 0 skipped. */
  lemma CorrectedKeepsStaircase()
    ensures CorrectedRowEchelon(Staircase, 3) == Progress(Staircase, [1, 2], [0])
  {
    assert FirstNonzeroBelow(Staircase, 0, 0).None?;
    assert CorrectedUpTo(Staircase, 3, Ref, 1) == Progress(Staircase, [], [0]);
    StaircasePivotOne();
    StaircasePivotTwo();
  }

  /** A grid in echelon form whose row 0 still holds a 1 in column 2, the
      leading column of row 1. */
  const Overlap: Grid := [[0.0, 1.0, 1.0], [0.0, 0.0, 1.0], [0.0, 0.0, 0.0]]

  /** The three passes of `reduced_row_echelon_form` on `Overlap` all skip. */
  lemma OverlapSkipped()
    ensures Reduce(Overlap, 3, Rref) == Reduction(Overlap, [0, 1, 2])
  {
    var m := Overlap;
    assert ReduceUpTo(m, 3, Rref, 1) == Reduction(m, [0]) by {
      assert FirstNonzeroBelow(m, 0, 1).None?;
    }
    assert ReduceUpTo(m, 3, Rref, 2) == Reduction(m, [0, 1]) by {
      assert FirstNonzeroBelow(m, 1, 2).None?;
    }
    assert FirstNonzeroBelow(m, 2, 3).None?;
  }

  /** As written, `reduced_row_echelon_form` returns `Overlap` unchanged with
      every column skipped, so row 0 keeps its 1 above the leading 1 of row 1
      and the result is not in reduced row echelon form. */
  lemma AsWrittenMissesReduced()
    ensures Reduce(Overlap, 3, Rref) == Reduction(Overlap, [0, 1, 2])
    ensures EchelonShape(Overlap, 3) && LeadingOnes(Overlap, 3)
    ensures !LeadingAlone(Overlap, 3)
  {
    OverlapSkipped();
    assert EchelonBefore(Overlap, 3, [1, 2], 3);
    EchelonHasShape(Overlap, 3, [1, 2]);
    assert !NonzeroBefore(Overlap[1], 2);
    assert Overlap[1][2] != 0.0 && Overlap[0][2] != 0.0;
  }

  /** Column 1 of the corrected reduced reduction of `Overlap` finds its
      pivot in row 0, already 1 with zeros in the other rows. */
  lemma OverlapPivotOne()
    ensures PlaceColumn(Progress(Overlap, [], [0]), 1, Rref, 3) == Progress(Overlap, [1], [0])
  {
    var m := Overlap;
    assert FirstNonzeroBelow(m, 1, 0) == Some(0);
    var scaled := Multiplied(Swapped(m, 0, 0), 0, 1.0 / m[0][1]);
    assert scaled[0] == Scale(m[0], 1.0) == m[0];
    assert scaled == m;
    var e := Cleared(m, 0, 1, Rref, 3);
    assert e[1] == Combine(m[1], m[0], -0.0, 3) == m[1];
    assert e[2] == Combine(m[2], m[0], -0.0, 3) == m[2];
    assert e == m;
  }

  /** Column 2 of the corrected reduced reduction of `Overlap` finds its
      pivot in row 1 and clears the 1 above it in row 0. */
  lemma OverlapPivotTwo()
    ensures PlaceColumn(Progress(Overlap, [1], [0]), 2, Rref, 3)
      == Progress([[0.0, 1.0, 0.0], [0.0, 0.0, 1.0], [0.0, 0.0, 0.0]], [1, 2], [0])
  {
    var m := Overlap;
    assert FirstNonzeroBelow(m, 2, 1) == Some(1);
    var scaled := Multiplied(Swapped(m, 1, 1), 1, 1.0 / m[1][2]);
    assert scaled[1] == Scale(m[1], 1.0) == m[1];
    assert scaled == m;
    var e := Cleared(m, 1, 2, Rref, 3);
    assert e[0] == Combine(m[0], m[1], -1.0, 3) == [0.0, 1.0, 0.0];
    assert e[2] == Combine(m[2], m[1], -0.0, 3) == m[2];
    assert e == [[0.0, 1.0, 0.0], [0.0, 0.0, 1.0], [0.0, 0.0, 0.0]];
  }

  /** The corrected reduced reduction turns `Overlap` into
      [[0,1,0],[0,0,1],[0,0,0]], with pivots in columns 1 and 2 and only
      column 0 skipped. */
  lemma CorrectedReducesOverlap()
    ensures CorrectedReducedRowEchelon(Overlap, 3)
      == Progress([[0.0, 1.0, 0.0], [0.0, 0.0, 1.0], [0.0, 0.0, 0.0]], [1, 2], [0])
  {
    assert FirstNonzeroBelow(Overlap, 0, 0).None?;
    assert CorrectedUpTo(Overlap, 3, Rref, 1) == Progress(Overlap, [], [0]);
    OverlapPivotOne();
    OverlapPivotTwo();
  }

  /** Clearing with a pivot on the diagonal is the clearing loop of the
      drivers (`Eliminated`) in the same mode. */
  lemma ClearedIsEliminated(m: Grid, p: nat, mode: Mode, nc: nat)
    requires Rectangular(m, nc) && p < |m| && p < nc
    ensures Cleared(m, p, p, mode, nc) == Eliminated(m, p, mode, nc)
  {
    forall k | 0 <= k < |m|
      ensures Cleared(m, p, p, mode, nc)[k] == Eliminated(m, p, mode, nc)[k]
    {
      EliminatedBeforeRow(m, p, mode, nc, |m|, k);
    }
  }

  /** While every earlier column holds a pivot, a pass of the drivers that
      does not skip is one column of the corrected reduction. */
  lemma StepIsPlaceColumn(g: Grid, nc: nat, mode: Mode, piv: seq<nat>, sk: seq<nat>, p: nat)
    requires Rectangular(g, nc) && p < |g| && p < nc && |piv| == p
    requires Step(g, p, mode, nc).Some?
    ensures PlaceColumn(Progress(g, piv, sk), p, mode, nc) == Progress(Step(g, p, mode, nc).value, piv + [p], sk)
  {
    SeekCases(g, p, nc);
    var s := Seek(g, p, nc).value;
    var j := FirstNonzeroBelow(g, p, p).value;
    assert Swapped(g, p, j) == s by {
      if g[p][p] != 0.0 {
        assert j == p;
        assert Swapped(g, p, p) == g;
      } else {
        assert FirstNonzeroBelow(g, p, p) == FirstNonzeroBelow(g, p, p + 1);
      }
    }
    NormalizedIsMultiplied(s, p);
    assert Rectangular(Normalized(s, p), nc);
    ClearedIsEliminated(Normalized(s, p), p, mode, nc);
  }

  /** As long as the driver has skipped nothing, it and the corrected
      reduction agree pass by pass, with one pivot per pass. */
  lemma {:induction false} AgreeUpTo(m: Grid, nc: nat, mode: Mode, n: nat)
    requires Rectangular(m, nc) && n <= Min(|m|, nc)
    requires ReduceUpTo(m, nc, mode, n).skipped == []
    ensures var c := CorrectedUpTo(m, nc, mode, n);
      c.grid == ReduceUpTo(m, nc, mode, n).grid && |c.pivots| == n && c.skipped == []
  {
    if n > 0 {
      var prev := ReduceUpTo(m, nc, mode, n - 1);
      assert Step(prev.grid, n - 1, mode, nc).Some? && prev.skipped == [];
      AgreeUpTo(m, nc, mode, n - 1);
      var c := CorrectedUpTo(m, nc, mode, n - 1);
      StepIsPlaceColumn(prev.grid, nc, mode, c.pivots, c.skipped, n - 1);
    }
  }

  /** Once every row holds a pivot, further columns change nothing. */
  lemma {:induction false} FullRowsStay(m: Grid, nc: nat, mode: Mode, c0: nat, c: nat)
    requires Rectangular(m, nc) && c0 <= c <= nc
    requires |CorrectedUpTo(m, nc, mode, c0).pivots| == |m|
    ensures CorrectedUpTo(m, nc, mode, c) == CorrectedUpTo(m, nc, mode, c0)
    decreases c - c0
  {
    if c > c0 {
      FullRowsStay(m, nc, mode, c0, c - 1);
    }
  }

  /** The correction changes the result only after a skip: when the driver
      skips no column, the corrected reduction in the same mode gives the
      same grid, with a pivot in every one of the min(rows, cols) passes. */
  lemma CorrectedAgreesWithoutSkips(m: Grid, nc: nat, mode: Mode)
    requires Rectangular(m, nc) && Reduce(m, nc, mode).skipped == []
    ensures var r := CorrectedUpTo(m, nc, mode, nc);
      r.grid == Reduce(m, nc, mode).grid && |r.pivots| == Min(|m|, nc) && r.skipped == []
  {
    var n := Min(|m|, nc);
    AgreeUpTo(m, nc, mode, n);
    if n < nc {
      FullRowsStay(m, nc, mode, n, nc);
    }
  }

  /** In echelon shape, a nonzero entry (k, c) lies on or right of the diagonal. */
  lemma {:induction false} EchelonEntryRight(g: Grid, nc: nat, k: nat, c: nat)
    requires Rectangular(g, nc) && EchelonShape(g, nc)
    requires k < |g| && c < nc && g[k][c] != 0.0
    ensures k <= c
  {
    if k > 0 {
      assert NonzeroBefore(g[k - 1], c);
      var c1 :| 0 <= c1 < c && g[k - 1][c1] != 0.0;
      EchelonEntryRight(g, nc, k - 1, c1);
    }
  }

  /** A grid in the form of matrix.py:104 (and, for RREF, of matrix.py:105)
      already has column p reduced for its mode. */
  lemma FormColumnReduced(g: Grid, nc: nat, mode: Mode, p: nat)
    requires Rectangular(g, nc) && EchelonShape(g, nc) && LeadingOnes(g, nc)
    requires mode == Rref ==> LeadingAlone(g, nc)
    requires p < |g| && p < nc
    ensures ColumnReduced(g, nc, p, mode)
  {
    forall k | p < k < |g|
      ensures g[k][p] == 0.0
    {
      if g[k][p] != 0.0 {
        EchelonEntryRight(g, nc, k, p);
      }
    }
    if g[p][p] != 0.0 {
      assert !NonzeroBefore(g[p], p) by {
        forall c1 | 0 <= c1 < p && g[p][c1] != 0.0
          ensures false
        {
          EchelonEntryRight(g, nc, p, c1);
        }
      }
    }
  }

  /** A grid in the form of matrix.py:104 (and, for RREF, of matrix.py:105)
      has every column before n reduced for its mode. */
  lemma FormSettled(g: Grid, nc: nat, mode: Mode, n: nat)
    requires Rectangular(g, nc) && EchelonShape(g, nc) && LeadingOnes(g, nc)
    requires mode == Rref ==> LeadingAlone(g, nc)
    requires n <= Min(|g|, nc)
    ensures Settled(g, nc, mode, n)
  {
    forall c | 0 <= c < n
      ensures ColumnReduced(g, nc, c, mode)
    {
      FormColumnReduced(g, nc, mode, c);
    }
    SettledEach(g, nc, mode, n);
  }

  /** `row_echelon_form` leaves a grid already in row echelon form unchanged,
      skipping exactly its zero-diagonal columns. */
  lemma RowEchelonFormIsFixed(g: Grid, nc: nat)
    requires Rectangular(g, nc) && EchelonShape(g, nc) && LeadingOnes(g, nc)
    ensures Reduce(g, nc, Ref) == Reduction(g, ZeroDiagonal(g, Min(|g|, nc)))
  {
    FormSettled(g, nc, Ref, Min(|g|, nc));
    SettledIsFixedPoint(g, nc, Ref, Min(|g|, nc));
  }

  /** `reduced_row_echelon_form` leaves a grid already in reduced row echelon
      form unchanged, skipping exactly its zero-diagonal columns. */
  lemma ReducedRowEchelonFormIsFixed(g: Grid, nc: nat)
    requires Rectangular(g, nc) && EchelonShape(g, nc) && LeadingOnes(g, nc) && LeadingAlone(g, nc)
    ensures Reduce(g, nc, Rref) == Reduction(g, ZeroDiagonal(g, Min(|g|, nc)))
  {
    FormSettled(g, nc, Rref, Min(|g|, nc));
    SettledIsFixedPoint(g, nc, Rref, Min(|g|, nc));
  }
}
