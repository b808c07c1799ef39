/** Dense real matrices as sequences of rows, shared by the rank engine and the solver. */
module Matrices {

  type Row = seq<real>
  type Matrix = seq<Row>

  function Abs(x: real): (r: real)
    ensures r >= 0.0
    ensures r == x || r == -x
  {
    if x < 0.0 then -x else x
  }

  /** Every row of `m` has exactly `cols` entries. */
  ghost predicate Rectangular(m: Matrix, cols: nat)
  {
    forall r :: 0 <= r < |m| ==> |m[r]| == cols
  }

  /** The width read from the first row, as the source does with `m[0].length`. */
  function Width(m: Matrix): nat
  {
    if |m| == 0 then 0 else |m[0]|
  }

  /** Rows `a` and `b` exchanged, as a destructuring swap of two row references does. */
  function SwapRows(m: Matrix, a: nat, b: nat): (r: Matrix)
    requires a < |m| && b < |m|
    ensures |r| == |m| && r[a] == m[b] && r[b] == m[a]
    ensures forall t :: 0 <= t < |m| && t != a && t != b ==> r[t] == m[t]
    ensures multiset(r) == multiset(m)
  {
    m[a := m[b]][b := m[a]]
  }

  /** Row `r` with `f` times row `p` subtracted from every column at or after `col`; the columns
      before `col` are left as they are, and the factor `r[col] / p[col]` that both eliminations
      use clears column `col`. */
  function SubtractScaled(r: Row, p: Row, f: real, col: nat): (s: Row)
    requires |p| == |r|
    ensures |s| == |r|
    ensures forall j :: 0 <= j < col && j < |r| ==> s[j] == r[j]
    ensures col < |r| && p[col] != 0.0 && f == r[col] / p[col] ==> s[col] == 0.0
  {
    seq(|r|, j requires 0 <= j < |r| => if j < col then r[j] else r[j] - f * p[j])
  }

  /** The innermost loop of both eliminations: row `t` loses `f` times row `row` from column `col`
      to the last column, in place. */
  method SubtractRow(mat: array<Row>, cols: nat, t: nat, row: nat, f: real, col: nat)
    requires Rectangular(mat[..], cols) && t < mat.Length && row < mat.Length && t != row && col <= cols
    modifies mat
    ensures mat[t] == SubtractScaled(old(mat[t]), old(mat[row]), f, col)
    ensures forall r :: 0 <= r < mat.Length && r != t ==> mat[r] == old(mat[r])
  {
    ghost var orig := mat[t];
    var j := col;
    while j < cols
      invariant col <= j <= cols && |mat[t]| == cols && |mat[row]| == cols
      invariant forall c :: 0 <= c < j ==> mat[t][c] == SubtractScaled(orig, mat[row], f, col)[c]
      invariant forall c :: j <= c < cols ==> mat[t][c] == orig[c]
      invariant forall r :: 0 <= r < mat.Length && r != t ==> mat[r] == old(mat[r])
    {
      mat[t] := mat[t][j := mat[t][j] - f * mat[row][j]];
      j := j + 1;
    }
    assert mat[t] == SubtractScaled(orig, mat[row], f, col);
  }
}
