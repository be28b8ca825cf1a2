/** The worked examples that matrix.py shows its users, and the degenerate
    cases of the pivot search, computed exactly on the model. */
module WorkedExamples {
  import opened RowOps
  import opened Elimination

  /** The example system of `show_examples`. */
  function Sample(): Grid {
    [[2.0, 4.0, 6.0, 18.0], [4.0, 5.0, 6.0, 24.0], [3.0, 1.0, -2.0, 4.0]]
  }

  /** Pass 0 of both drivers on Sample: pivot 2 scaled to 1, rows below cleared. */
  lemma SampleFirstPass(mode: Mode)
    ensures Step(Sample(), 0, mode, 4) ==
      Some([[1.0, 2.0, 3.0, 9.0], [0.0, -3.0, -6.0, -12.0], [0.0, -5.0, -11.0, -23.0]])
  {
    var m := Sample();
    assert Seek(m, 0, 4) == Some(m);
    var s := Normalized(m, 0);
    assert s[0] == Scale(m[0], 1.0 / 2.0) == [1.0, 2.0, 3.0, 9.0];
    var e := Eliminated(s, 0, mode, 4);
    EliminatedBeforeRow(s, 0, mode, 4, 3, 0);
    EliminatedBeforeRow(s, 0, mode, 4, 3, 1);
    EliminatedBeforeRow(s, 0, mode, 4, 3, 2);
    assert e[1] == Combine(m[1], s[0], -4.0, 4) == [0.0, -3.0, -6.0, -12.0];
    assert e[2] == Combine(m[2], s[0], -3.0, 4) == [0.0, -5.0, -11.0, -23.0];
    assert e == [[1.0, 2.0, 3.0, 9.0], [0.0, -3.0, -6.0, -12.0], [0.0, -5.0, -11.0, -23.0]];
  }

  /** Pass 1 of REF on Sample: pivot -3 scaled to 1, row 2 cleared. */
  lemma SampleSecondPass()
    ensures Step([[1.0, 2.0, 3.0, 9.0], [0.0, -3.0, -6.0, -12.0], [0.0, -5.0, -11.0, -23.0]], 1, Ref, 4) ==
      Some([[1.0, 2.0, 3.0, 9.0], [0.0, 1.0, 2.0, 4.0], [0.0, 0.0, -1.0, -3.0]])
  {
    var g1: Grid := [[1.0, 2.0, 3.0, 9.0], [0.0, -3.0, -6.0, -12.0], [0.0, -5.0, -11.0, -23.0]];
    assert Seek(g1, 1, 4) == Some(g1);
    var s := Normalized(g1, 1);
    assert s[1] == Scale(g1[1], 1.0 / -3.0) == [0.0, 1.0, 2.0, 4.0];
    var e := Eliminated(s, 1, Ref, 4);
    EliminatedBeforeRow(s, 1, Ref, 4, 3, 0);
    EliminatedBeforeRow(s, 1, Ref, 4, 3, 1);
    EliminatedBeforeRow(s, 1, Ref, 4, 3, 2);
    assert e[2] == Combine(g1[2], s[1], 5.0, 4) == [0.0, 0.0, -1.0, -3.0];
    assert e == [[1.0, 2.0, 3.0, 9.0], [0.0, 1.0, 2.0, 4.0], [0.0, 0.0, -1.0, -3.0]];
  }

  /** Pass 2 of REF on Sample: pivot -1 scaled to 1, nothing below to clear. */
  lemma SampleThirdPass()
    ensures Step([[1.0, 2.0, 3.0, 9.0], [0.0, 1.0, 2.0, 4.0], [0.0, 0.0, -1.0, -3.0]], 2, Ref, 4) ==
      Some([[1.0, 2.0, 3.0, 9.0], [0.0, 1.0, 2.0, 4.0], [0.0, 0.0, 1.0, 3.0]])
  {
    var g2: Grid := [[1.0, 2.0, 3.0, 9.0], [0.0, 1.0, 2.0, 4.0], [0.0, 0.0, -1.0, -3.0]];
    assert Seek(g2, 2, 4) == Some(g2);
    var s := Normalized(g2, 2);
    assert s[2] == Scale(g2[2], -1.0) == [0.0, 0.0, 1.0, 3.0];
    EliminatedBeforeUntouched(s, 2, Ref, 4, 3);
    assert s == [[1.0, 2.0, 3.0, 9.0], [0.0, 1.0, 2.0, 4.0], [0.0, 0.0, 1.0, 3.0]];
  }

  /** REF of Sample is [[1,2,3,9],[0,1,2,4],[0,0,1,3]], with no column skipped. */
  lemma SampleRowEchelon()
    ensures Reduce(Sample(), 4, Ref) ==
      Reduction([[1.0, 2.0, 3.0, 9.0], [0.0, 1.0, 2.0, 4.0], [0.0, 0.0, 1.0, 3.0]], [])
  {
    var g1: Grid := [[1.0, 2.0, 3.0, 9.0], [0.0, -3.0, -6.0, -12.0], [0.0, -5.0, -11.0, -23.0]];
    var g2: Grid := [[1.0, 2.0, 3.0, 9.0], [0.0, 1.0, 2.0, 4.0], [0.0, 0.0, -1.0, -3.0]];
    var g3: Grid := [[1.0, 2.0, 3.0, 9.0], [0.0, 1.0, 2.0, 4.0], [0.0, 0.0, 1.0, 3.0]];
    SampleFirstPass(Ref);
    assert ReduceUpTo(Sample(), 4, Ref, 1) == Reduction(g1, []);
    SampleSecondPass();
    assert ReduceUpTo(Sample(), 4, Ref, 2) == Reduction(g2, []);
    SampleThirdPass();
    assert ReduceUpTo(Sample(), 4, Ref, 3) == Reduction(g3, []);
  }

  /** Pass 1 of RREF on Sample: pivot -3 scaled to 1, rows 0 and 2 cleared. */
  lemma SampleReducedSecondPass()
    ensures Step([[1.0, 2.0, 3.0, 9.0], [0.0, -3.0, -6.0, -12.0], [0.0, -5.0, -11.0, -23.0]], 1, Rref, 4) ==
      Some([[1.0, 0.0, -1.0, 1.0], [0.0, 1.0, 2.0, 4.0], [0.0, 0.0, -1.0, -3.0]])
  {
    var g1: Grid := [[1.0, 2.0, 3.0, 9.0], [0.0, -3.0, -6.0, -12.0], [0.0, -5.0, -11.0, -23.0]];
    assert Seek(g1, 1, 4) == Some(g1);
    var s := Normalized(g1, 1);
    assert s[1] == Scale(g1[1], 1.0 / -3.0) == [0.0, 1.0, 2.0, 4.0];
    var e := Eliminated(s, 1, Rref, 4);
    EliminatedBeforeRow(s, 1, Rref, 4, 3, 0);
    EliminatedBeforeRow(s, 1, Rref, 4, 3, 1);
    EliminatedBeforeRow(s, 1, Rref, 4, 3, 2);
    assert e[0] == Combine(g1[0], s[1], -2.0, 4) == [1.0, 0.0, -1.0, 1.0];
    assert e[2] == Combine(g1[2], s[1], 5.0, 4) == [0.0, 0.0, -1.0, -3.0];
    assert e == [[1.0, 0.0, -1.0, 1.0], [0.0, 1.0, 2.0, 4.0], [0.0, 0.0, -1.0, -3.0]];
  }

  /** Pass 2 of RREF on Sample: pivot -1 scaled to 1, rows 0 and 1 cleared. */
  lemma SampleReducedThirdPass()
    ensures Step([[1.0, 0.0, -1.0, 1.0], [0.0, 1.0, 2.0, 4.0], [0.0, 0.0, -1.0, -3.0]], 2, Rref, 4) ==
      Some([[1.0, 0.0, 0.0, 4.0], [0.0, 1.0, 0.0, -2.0], [0.0, 0.0, 1.0, 3.0]])
  {
    var g2: Grid := [[1.0, 0.0, -1.0, 1.0], [0.0, 1.0, 2.0, 4.0], [0.0, 0.0, -1.0, -3.0]];
    assert Seek(g2, 2, 4) == Some(g2);
    var s := Normalized(g2, 2);
    assert s[2] == Scale(g2[2], -1.0) == [0.0, 0.0, 1.0, 3.0];
    var e := Eliminated(s, 2, Rref, 4);
    EliminatedBeforeRow(s, 2, Rref, 4, 3, 0);
    EliminatedBeforeRow(s, 2, Rref, 4, 3, 1);
    EliminatedBeforeRow(s, 2, Rref, 4, 3, 2);
    assert e[0] == Combine(g2[0], s[2], 1.0, 4) == [1.0, 0.0, 0.0, 4.0];
    assert e[1] == Combine(g2[1], s[2], -2.0, 4) == [0.0, 1.0, 0.0, -2.0];
    assert e == [[1.0, 0.0, 0.0, 4.0], [0.0, 1.0, 0.0, -2.0], [0.0, 0.0, 1.0, 3.0]];
  }

  /** RREF of Sample is [[1,0,0,4],[0,1,0,-2],[0,0,1,3]], with no column skipped. */
  lemma SampleReducedRowEchelon()
    ensures Reduce(Sample(), 4, Rref) ==
      Reduction([[1.0, 0.0, 0.0, 4.0], [0.0, 1.0, 0.0, -2.0], [0.0, 0.0, 1.0, 3.0]], [])
  {
    var g1: Grid := [[1.0, 2.0, 3.0, 9.0], [0.0, -3.0, -6.0, -12.0], [0.0, -5.0, -11.0, -23.0]];
    var g2: Grid := [[1.0, 0.0, -1.0, 1.0], [0.0, 1.0, 2.0, 4.0], [0.0, 0.0, -1.0, -3.0]];
    var g3: Grid := [[1.0, 0.0, 0.0, 4.0], [0.0, 1.0, 0.0, -2.0], [0.0, 0.0, 1.0, 3.0]];
    SampleFirstPass(Rref);
    assert ReduceUpTo(Sample(), 4, Rref, 1) == Reduction(g1, []);
    SampleReducedSecondPass();
    assert ReduceUpTo(Sample(), 4, Rref, 2) == Reduction(g2, []);
    SampleReducedThirdPass();
    assert ReduceUpTo(Sample(), 4, Rref, 3) == Reduction(g3, []);
  }

  /** A zero at (0, 0) is replaced by swapping in the first lower row with a
      nonzero entry in column 0, before any scaling. */
  lemma ZeroPivotSwapsFirst()
    ensures Seek([[0.0, 2.0], [3.0, 4.0]], 0, 2) == Some([[3.0, 4.0], [0.0, 2.0]])
    ensures Seek([[0.0, 1.0], [0.0, 2.0], [5.0, 0.0], [6.0, 0.0]], 0, 2) ==
      Some([[5.0, 0.0], [0.0, 2.0], [0.0, 1.0], [6.0, 0.0]])
  {
    var a: Grid := [[0.0, 2.0], [3.0, 4.0]];
    assert FirstNonzeroBelow(a, 0, 1) == Some(1);
    assert Swapped(a, 0, 1) == [[3.0, 4.0], [0.0, 2.0]];
    var m: Grid := [[0.0, 1.0], [0.0, 2.0], [5.0, 0.0], [6.0, 0.0]];
    assert FirstNonzeroBelow(m, 0, 3) == Some(3);
    assert FirstNonzeroBelow(m, 0, 2) == Some(2);
    assert FirstNonzeroBelow(m, 0, 1) == Some(2);
    assert Swapped(m, 0, 2) == [[5.0, 0.0], [0.0, 2.0], [0.0, 1.0], [6.0, 0.0]];
  }

  /** The 2x2 zero matrix comes back unchanged from both drivers, with both columns skipped. */
  lemma ZeroTwoByTwo(mode: Mode)
    ensures Reduce([[0.0, 0.0], [0.0, 0.0]], 2, mode) == Reduction([[0.0, 0.0], [0.0, 0.0]], [0, 1])
  {
    var m: Grid := [[0.0, 0.0], [0.0, 0.0]];
    ZeroMatrixUnchanged(m, 2, mode, 2);
    assert seq(2, c => c) == [0, 1];
  }
}
