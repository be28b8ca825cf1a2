/** The three elementary row operations of matrix.py, stated on values.
    A matrix is its list of rows; entries are exact reals. */
module RowOps {

  /** A matrix, row-major: `m[i][j]` is the entry in row `i`, column `j`. */
  type Grid = seq<seq<real>>

  function Min(a: nat, b: nat): nat {
    if a < b then a else b
  }

  /** Every row of `m` has exactly `cols` entries. */
  predicate Rectangular(m: Grid, cols: nat) {
    forall i :: 0 <= i < |m| ==> |m[i]| == cols
  }

  /** `row` with every entry multiplied by `s` (the list comprehension of `multiply_row`). */
  function Scale(row: seq<real>, s: real): seq<real> {
    seq(|row|, k requires 0 <= k < |row| => s * row[k])
  }

  /** The first `n` entries of `target` plus `c` times those of `source`
      (the list comprehension of `add_multiple_of_row`). */
  function Combine(target: seq<real>, source: seq<real>, c: real, n: nat): seq<real>
    requires n <= |target| && n <= |source|
  {
    seq(n, k requires 0 <= k < n => target[k] + c * source[k])
  }

  /** `m` with rows `a` and `b` exchanged. */
  function Swapped(m: Grid, a: nat, b: nat): (r: Grid)
    requires a < |m| && b < |m|
    ensures |r| == |m| && r[a] == m[b] && r[b] == m[a]
    ensures forall k :: 0 <= k < |m| && k != a && k != b ==> r[k] == m[k]
  {
    m[a := m[b]][b := m[a]]
  }

  /** `m` with row `r` multiplied by `s`; a zero scalar is refused and leaves `m` as it is. */
  function Multiplied(m: Grid, r: nat, s: real): (res: Grid)
    requires r < |m|
    ensures |res| == |m| && forall i :: 0 <= i < |m| ==> |res[i]| == |m[i]|
    ensures s == 0.0 ==> res == m
    ensures s != 0.0 ==> forall k :: 0 <= k < |m[r]| ==> res[r][k] == s * m[r][k]
    ensures forall i :: 0 <= i < |m| && i != r ==> res[i] == m[i]
  {
    if s == 0.0 then m else m[r := Scale(m[r], s)]
  }

  /** `m` with row `t` replaced by row `t` plus `c` times row `src`, over the first `n` columns. */
  function AddedMultiple(m: Grid, t: nat, src: nat, c: real, n: nat): (res: Grid)
    requires t < |m| && src < |m| && n <= |m[t]| && n <= |m[src]|
    ensures |res| == |m| && |res[t]| == n
    ensures forall k :: 0 <= k < n ==> res[t][k] == m[t][k] + c * m[src][k]
    ensures forall i :: 0 <= i < |m| && i != t ==> res[i] == m[i]
  {
    m[t := Combine(m[t], m[src], c, n)]
  }

  /** Swapping the same two rows twice restores the matrix. */
  lemma SwapTwice(m: Grid, a: nat, b: nat)
    requires a < |m| && b < |m|
    ensures Swapped(Swapped(m, a, b), a, b) == m
  {
    var r := Swapped(Swapped(m, a, b), a, b);
    assert forall k :: 0 <= k < |m| ==> r[k] == m[k];
  }

  /** Scaling a row by a nonzero `s` is undone by scaling it by `1/s`. */
  lemma MultiplyUndone(m: Grid, r: nat, s: real)
    requires r < |m| && s != 0.0
    ensures Multiplied(Multiplied(m, r, s), r, 1.0 / s) == m
  {
    var once := Multiplied(m, r, s);
    var twice := Multiplied(once, r, 1.0 / s);
    assert 1.0 / s != 0.0;
    forall k | 0 <= k < |m[r]|
      ensures twice[r][k] == m[r][k]
    {
      calc {
        twice[r][k];
        (1.0 / s) * once[r][k];
        (1.0 / s) * (s * m[r][k]);
        ((1.0 / s) * s) * m[r][k];
        m[r][k];
      }
    }
    assert twice[r] == m[r];
    assert forall i :: 0 <= i < |m| ==> twice[i] == m[i];
  }

  /** Adding `c` times row `src` to a different row `t` is undone by adding `-c` times it. */
  lemma AddMultipleUndone(m: Grid, t: nat, src: nat, c: real, n: nat)
    requires Rectangular(m, n) && t < |m| && src < |m| && t != src
    ensures AddedMultiple(AddedMultiple(m, t, src, c, n), t, src, -c, n) == m
  {
    var once := AddedMultiple(m, t, src, c, n);
    var twice := AddedMultiple(once, t, src, -c, n);
    assert once[src] == m[src];
    assert forall k :: 0 <= k < n ==> twice[t][k] == m[t][k];
    assert twice[t] == m[t];
    assert forall i :: 0 <= i < |m| ==> twice[i] == m[i];
  }
}
