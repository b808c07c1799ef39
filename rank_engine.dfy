/** The rank engine of the workbench: forward elimination that takes, in each column, the
    first row at or below the current one whose entry exceeds `1e-8` in magnitude. */
module RankEngine {
  import opened Matrices

  /** The tolerance of the rank engine, `1e-8`. */
  const Tol: real := 0.00000001

  /** The first row at or after `from` whose entry in column `col` is above the tolerance,
      or `|m|` when there is none: the pivot search with its early `break`. */
  function FirstAbove(m: Matrix, cols: nat, col: nat, from: nat): (i: nat)
    requires Rectangular(m, cols) && col < cols && from <= |m|
    ensures from <= i <= |m|
    ensures forall t :: from <= t < i ==> Abs(m[t][col]) <= Tol
    ensures i < |m| ==> Abs(m[i][col]) > Tol
    decreases |m| - from
  {
    if from == |m| then |m|
    else if Abs(m[from][col]) > Tol then from
    else FirstAbove(m, cols, col, from + 1)
  }

  /** The pivot candidate: the first row at or below `row` whose entry is above the tolerance, or
      `row` itself when the whole column from `row` down is within it. */
  function PivotRow(m: Matrix, cols: nat, row: nat, col: nat): (p: nat)
    requires Rectangular(m, cols) && col < cols && row < |m|
    ensures row <= p < |m|
    ensures forall t :: row <= t < p ==> Abs(m[t][col]) <= Tol
    ensures Abs(m[p][col]) > Tol || forall t :: row <= t < |m| ==> Abs(m[t][col]) <= Tol
  {
    var i := FirstAbove(m, cols, col, row);
    if i < |m| then i else row
  }

  /** Every row below `row` loses `m[t][col] / m[row][col]` times row `row`, from column `col` on. */
  function EliminateBelow(m: Matrix, cols: nat, row: nat, col: nat): (e: Matrix)
    requires Rectangular(m, cols) && row < |m| && col < cols && m[row][col] != 0.0
    ensures |e| == |m| && Rectangular(e, cols)
  {
    seq(|m|, t requires 0 <= t < |m| =>
      if t <= row then m[t] else SubtractScaled(m[t], m[row], m[t][col] / m[row][col], col))
  }

  /** The elimination from column `col` on, with the pivot columns `ps` already found (the row
      counter of the source is `|ps|`): the matrix it leaves behind and every pivot column, in order.
      Its shape and bounds are `RankRunBounds`. */
  function RankRun(m: Matrix, cols: nat, ps: seq<nat>, col: nat): (Matrix, seq<nat>)
    requires Rectangular(m, cols) && |ps| <= |m| && col <= cols
    decreases cols - col
  {
    if col == cols || |ps| == |m| then (m, ps)
    else
      var p := PivotRow(m, cols, |ps|, col);
      if Abs(m[p][col]) < Tol then RankRun(m, cols, ps, col + 1)
      else RankRun(EliminateBelow(SwapRows(m, |ps|, p), cols, |ps|, col), cols, ps + [col], col + 1)
  }

  /** The run keeps the matrix's shape, never drops or reorders a pivot already found, and places
      at most one pivot per row and one per remaining column. */
  lemma {:induction false} RankRunBounds(m: Matrix, cols: nat, ps: seq<nat>, col: nat)
    requires Rectangular(m, cols) && |ps| <= |m| && col <= cols
    ensures |RankRun(m, cols, ps, col).0| == |m| && Rectangular(RankRun(m, cols, ps, col).0, cols)
    ensures ps <= RankRun(m, cols, ps, col).1
    ensures |RankRun(m, cols, ps, col).1| <= |m| && |RankRun(m, cols, ps, col).1| <= |ps| + cols - col
    decreases cols - col
  {
    if col < cols && |ps| < |m| {
      var p := PivotRow(m, cols, |ps|, col);
      if Abs(m[p][col]) < Tol {
        RankRunBounds(m, cols, ps, col + 1);
      } else {
        RankRunBounds(EliminateBelow(SwapRows(m, |ps|, p), cols, |ps|, col), cols, ps + [col], col + 1);
      }
    }
  }

  /** The matrix `getRank` leaves in its argument. */
  function Reduced(m: Matrix): (r: Matrix)
    requires Rectangular(m, Width(m))
    ensures |r| == |m| && Rectangular(r, Width(m))
  {
    RankRunBounds(m, Width(m), [], 0);
    RankRun(m, Width(m), [], 0).0
  }

  /** The pivot columns `getRank` finds. */
  function Pivots(m: Matrix): (ps: seq<nat>)
    requires Rectangular(m, Width(m))
    ensures |ps| <= |m| && |ps| <= Width(m)
  {
    RankRunBounds(m, Width(m), [], 0);
    RankRun(m, Width(m), [], 0).1
  }

  /** The value `getRank` returns: one per pivot, so at most the number of rows and at most the
      number of columns. */
  function Rank(m: Matrix): (r: nat)
    requires Rectangular(m, Width(m))
    ensures r <= |m| && r <= Width(m)
  {
    |Pivots(m)|
  }

  /** Row echelon form up to the tolerance, for the columns before `col`, with pivot columns `ps`:
      row `r < |ps|` has its pivot in column `ps[r]`, of magnitude at least the tolerance, with
      exact zeros below it and entries within the tolerance to its left; the rows from `|ps|` on
      are within the tolerance of zero in every column before `col`. */
  ghost predicate PartialEchelon(m: Matrix, cols: nat, ps: seq<nat>, col: nat)
  {
    && Rectangular(m, cols) && |ps| <= |m| && col <= cols
    && (forall k :: 0 <= k < |ps| ==> ps[k] < col)
    && (forall a, b :: 0 <= a < b < |ps| ==> ps[a] < ps[b])
    && (forall r :: 0 <= r < |ps| ==> Abs(m[r][ps[r]]) >= Tol)
    && (forall r, t :: 0 <= r < |ps| && r < t < |m| ==> m[t][ps[r]] == 0.0)
    && (forall r, c :: 0 <= r < |ps| && 0 <= c < ps[r] ==> Abs(m[r][c]) <= Tol)
    && (forall t, c :: |ps| <= t < |m| && 0 <= c < col ==> Abs(m[t][c]) <= Tol)
  }

  /** Row echelon form up to the tolerance over every column. */
  ghost predicate Echelon(m: Matrix, cols: nat, ps: seq<nat>)
  {
    PartialEchelon(m, cols, ps, cols)
  }

  /** A column is skipped only when every entry from `row` down is within the tolerance. */
  lemma SkippedColumnIsSmall(m: Matrix, cols: nat, row: nat, col: nat)
    requires Rectangular(m, cols) && row < |m| && col < cols
    requires Abs(m[PivotRow(m, cols, row, col)][col]) < Tol
    ensures forall t :: row <= t < |m| ==> Abs(m[t][col]) <= Tol
  {
  }

  /** A column whose remaining entries are all within the tolerance extends the echelon form. */
  lemma SkipKeepsEchelon(m: Matrix, cols: nat, ps: seq<nat>, col: nat)
    requires PartialEchelon(m, cols, ps, col) && col < cols
    requires forall t :: |ps| <= t < |m| ==> Abs(m[t][col]) <= Tol
    ensures PartialEchelon(m, cols, ps, col + 1)
  {
  }

  /** Bringing a row from below into position `|ps|` keeps the echelon form. */
  lemma SwapKeepsEchelon(m: Matrix, cols: nat, ps: seq<nat>, col: nat, p: nat)
    requires PartialEchelon(m, cols, ps, col) && |ps| <= p < |m|
    ensures PartialEchelon(SwapRows(m, |ps|, p), cols, ps, col)
  {
    var s := SwapRows(m, |ps|, p);
    assert forall t :: |ps| <= t < |m| ==> exists u :: |ps| <= u < |m| && s[t] == m[u] by {
      forall t | |ps| <= t < |m|
        ensures exists u :: |ps| <= u < |m| && s[t] == m[u]
      {
        if t == |ps| { assert s[t] == m[p]; }
        else if t == p { assert s[t] == m[|ps|]; }
        else { assert s[t] == m[t]; }
      }
    }
  }

  /** What `EliminateBelow` does, row by row: the rows up to `row` stay, the columns before `col`
      stay, and column `col` becomes zero below row `row`. */
  lemma EliminateBelowRows(s: Matrix, cols: nat, row: nat, col: nat)
    requires Rectangular(s, cols) && row < |s| && col < cols && s[row][col] != 0.0
    ensures forall t :: 0 <= t <= row ==> EliminateBelow(s, cols, row, col)[t] == s[t]
    ensures forall t, c :: row < t < |s| && 0 <= c < col ==> EliminateBelow(s, cols, row, col)[t][c] == s[t][c]
    ensures forall t :: row < t < |s| ==> EliminateBelow(s, cols, row, col)[t][col] == 0.0
  {
  }

  /** A pivot of magnitude at least the tolerance at row `|ps|`, with column `col` cleared below it
      and nothing else changed in the columns before, adds that pivot to the form. */
  lemma PivotKeepsEchelon(s: Matrix, e: Matrix, cols: nat, ps: seq<nat>, col: nat)
    requires PartialEchelon(s, cols, ps, col) && |ps| < |s| && col < cols
    requires Abs(s[|ps|][col]) >= Tol
    requires |e| == |s| && Rectangular(e, cols)
    requires forall t :: 0 <= t <= |ps| ==> e[t] == s[t]
    requires forall t, c :: |ps| < t < |s| && 0 <= c < col ==> e[t][c] == s[t][c]
    requires forall t :: |ps| < t < |s| ==> e[t][col] == 0.0
    ensures PartialEchelon(e, cols, ps + [col], col + 1)
  {
  }

  /** One pivot step, the swap followed by the elimination, keeps the echelon form. */
  lemma StepKeepsEchelon(m: Matrix, cols: nat, ps: seq<nat>, col: nat, p: nat)
    requires PartialEchelon(m, cols, ps, col) && |ps| <= p < |m| && col < cols
    requires Abs(m[p][col]) >= Tol
    ensures SwapRows(m, |ps|, p)[|ps|][col] != 0.0
    ensures PartialEchelon(EliminateBelow(SwapRows(m, |ps|, p), cols, |ps|, col), cols, ps + [col], col + 1)
  {
    SwapKeepsEchelon(m, cols, ps, col, p);
    var s := SwapRows(m, |ps|, p);
    EliminateBelowRows(s, cols, |ps|, col);
    PivotKeepsEchelon(s, EliminateBelow(s, cols, |ps|, col), cols, ps, col);
  }

  /** Once every row holds a pivot, the columns not yet visited add nothing to check. */
  lemma FullEchelon(m: Matrix, cols: nat, ps: seq<nat>, col: nat)
    requires PartialEchelon(m, cols, ps, col) && |ps| == |m|
    ensures Echelon(m, cols, ps)
  {
  }

  /** The elimination leaves the matrix in echelon form, its pivot columns being those it found. */
  lemma {:induction false} RankRunEchelon(m: Matrix, cols: nat, ps: seq<nat>, col: nat)
    requires PartialEchelon(m, cols, ps, col)
    ensures Echelon(RankRun(m, cols, ps, col).0, cols, RankRun(m, cols, ps, col).1)
    decreases cols - col
  {
    if col == cols {
    } else if |ps| == |m| {
      FullEchelon(m, cols, ps, col);
    } else {
      var p := PivotRow(m, cols, |ps|, col);
      if Abs(m[p][col]) < Tol {
        SkippedColumnIsSmall(m, cols, |ps|, col);
        SkipKeepsEchelon(m, cols, ps, col);
        RankRunEchelon(m, cols, ps, col + 1);
      } else {
        StepKeepsEchelon(m, cols, ps, col, p);
        RankRunEchelon(EliminateBelow(SwapRows(m, |ps|, p), cols, |ps|, col), cols, ps + [col], col + 1);
      }
    }
  }

  /** What `getRank` leaves behind is in row echelon form up to the tolerance, one pivot per unit of rank. */
  lemma ReducedIsEchelon(m: Matrix)
    requires Rectangular(m, Width(m))
    ensures Echelon(Reduced(m), Width(m), Pivots(m))
  {
    RankRunEchelon(m, Width(m), [], 0);
  }

  /** With every column visited or every row holding a pivot, the run is over. */
  lemma RankRunDone(m: Matrix, cols: nat, ps: seq<nat>, col: nat)
    requires Rectangular(m, cols) && |ps| <= |m| && col <= cols
    requires col == cols || |ps| == |m|
    ensures RankRun(m, cols, ps, col) == (m, ps)
  {
  }

  /** Column 0 of [[1,2,3],[2,4,6],[0,0,1]]: the first row is the pivot and clears the second. */
  lemma RankExampleFirstPivot()
    ensures Rectangular([[1.0, 2.0, 3.0], [2.0, 4.0, 6.0], [0.0, 0.0, 1.0]], 3)
    ensures RankRun([[1.0, 2.0, 3.0], [2.0, 4.0, 6.0], [0.0, 0.0, 1.0]], 3, [], 0)
         == RankRun([[1.0, 2.0, 3.0], [0.0, 0.0, 0.0], [0.0, 0.0, 1.0]], 3, [0], 1)
  {
    var m: Matrix := [[1.0, 2.0, 3.0], [2.0, 4.0, 6.0], [0.0, 0.0, 1.0]];
    assert Rectangular(m, 3);
    assert PivotRow(m, 3, 0, 0) == 0;
    var e1: Matrix := [[1.0, 2.0, 3.0], [0.0, 0.0, 0.0], [0.0, 0.0, 1.0]];
    assert SwapRows(m, 0, 0) == m;
    var e := EliminateBelow(m, 3, 0, 0);
    assert e[1] == SubtractScaled(m[1], m[0], 2.0, 0);
    assert e[1] == [0.0, 0.0, 0.0];
    assert e[2] == SubtractScaled(m[2], m[0], 0.0, 0);
    assert e[2] == m[2];
    assert e == e1;
    RankRunPivot(m, 3, [], 0, 0, e1);
    assert [] + [0] == [0];
  }

  /** Columns 1 and 2: column 1 is zero from the second row down and is skipped; the third row
      supplies the pivot of column 2. */
  lemma RankExampleRest()
    ensures Rectangular([[1.0, 2.0, 3.0], [0.0, 0.0, 0.0], [0.0, 0.0, 1.0]], 3)
    ensures RankRun([[1.0, 2.0, 3.0], [0.0, 0.0, 0.0], [0.0, 0.0, 1.0]], 3, [0], 1).1 == [0, 2]
  {
    var e1: Matrix := [[1.0, 2.0, 3.0], [0.0, 0.0, 0.0], [0.0, 0.0, 1.0]];
    assert Rectangular(e1, 3);
    assert PivotRow(e1, 3, 1, 1) == 1;
    RankRunSkip(e1, 3, [0], 1);
    assert PivotRow(e1, 3, 1, 2) == 2;
    var s2: Matrix := [[1.0, 2.0, 3.0], [0.0, 0.0, 1.0], [0.0, 0.0, 0.0]];
    assert SwapRows(e1, 1, 2) == s2;
    var e2 := EliminateBelow(s2, 3, 1, 2);
    assert e2[2] == SubtractScaled(s2[2], s2[1], 0.0, 2);
    assert e2[2] == s2[2];
    assert e2 == s2;
    RankRunPivot(e1, 3, [0], 2, 2, s2);
    assert [0] + [2] == [0, 2];
    RankRunDone(s2, 3, [0, 2], 3);
  }

  /** The rank of [[1,2,3],[2,4,6],[0,0,1]] is 2. */
  lemma RankExample()
    ensures Rank([[1.0, 2.0, 3.0], [2.0, 4.0, 6.0], [0.0, 0.0, 1.0]]) == 2
  {
    RankExampleFirstPivot();
    RankExampleRest();
  }

  /** An entry of exactly the tolerance is a pivot when it sits in the current row and is passed over
      below it, because the search wants more than the tolerance and the skip test wants less. */
  lemma ToleranceBoundary()
    ensures Rank([[Tol], [0.0]]) == 1
    ensures Rank([[0.0], [Tol]]) == 0
  {
    var a: Matrix := [[Tol], [0.0]];
    assert PivotRow(a, 1, 0, 0) == 0;
    assert SwapRows(a, 0, 0) == a;
    var e := EliminateBelow(a, 1, 0, 0);
    assert e[1] == SubtractScaled(a[1], a[0], 0.0, 0);
    assert e[1] == a[1];
    assert e == a;
    RankRunPivot(a, 1, [], 0, 0, a);
    RankRunDone(a, 1, [0], 1);
    var b: Matrix := [[0.0], [Tol]];
    assert PivotRow(b, 1, 0, 0) == 0;
    RankRunSkip(b, 1, [], 0);
    RankRunDone(b, 1, [], 1);
  }

  /** One column of the elimination skipped: the run goes on from the next column. */
  lemma RankRunSkip(m: Matrix, cols: nat, ps: seq<nat>, col: nat)
    requires Rectangular(m, cols) && |ps| < |m| && col < cols
    requires Abs(m[PivotRow(m, cols, |ps|, col)][col]) < Tol
    ensures RankRun(m, cols, ps, col) == RankRun(m, cols, ps, col + 1)
  {
  }

  /** One pivot placed: the run goes on from the next row and column of the eliminated matrix. */
  lemma RankRunPivot(m: Matrix, cols: nat, ps: seq<nat>, col: nat, p: nat, e: Matrix)
    requires Rectangular(m, cols) && |ps| < |m| && col < cols
    requires p == PivotRow(m, cols, |ps|, col) && Abs(m[p][col]) >= Tol
    requires SwapRows(m, |ps|, p)[|ps|][col] != 0.0
    requires e == EliminateBelow(SwapRows(m, |ps|, p), cols, |ps|, col)
    ensures RankRun(m, cols, ps, col) == RankRun(e, cols, ps + [col], col + 1)
  {
  }

  /** `getRank` on an array of rows: it reorders and rewrites the rows in place and counts the pivots. */
  method GetRank(mat: array<Row>) returns (rank: nat)
    requires mat.Length >= 1 && Rectangular(mat[..], |mat[0]|)
    modifies mat
    ensures rank == Rank(old(mat[..]))
    ensures mat[..] == Reduced(old(mat[..]))
  {
    ghost var m0 := mat[..];
    var cols := |mat[0]|;
    assert cols == Width(m0);
    ghost var target := RankRun(m0, cols, [], 0);
    rank := 0;
    var row := 0;
    var col := 0;
    ghost var ps: seq<nat> := [];
    while col < cols && row < mat.Length
      invariant row == |ps| == rank && row <= mat.Length && col <= cols
      invariant Rectangular(mat[..], cols)
      invariant RankRun(mat[..], cols, ps, col) == target
      decreases cols - col
    {
      var pivoted := EliminateColumn(mat, cols, row, col, ps);
      if pivoted {
        ps := ps + [col];
        rank := rank + 1;
        row := row + 1;
      }
      col := col + 1;
    }
    RankRunDone(mat[..], cols, ps, col);
    assert target == (mat[..], ps);
    assert Pivots(m0) == ps && Reduced(m0) == mat[..];
  }

  /** One pass of the column loop of `getRank`: the pivot search, then either the skip or the swap
      and the elimination below the pivot. */
  method EliminateColumn(mat: array<Row>, cols: nat, row: nat, col: nat, ghost ps: seq<nat>) returns (pivoted: bool)
    requires Rectangular(mat[..], cols) && row == |ps| < mat.Length && col < cols
    modifies mat
    ensures Rectangular(mat[..], cols)
    ensures RankRun(mat[..], cols, if pivoted then ps + [col] else ps, col + 1) == RankRun(old(mat[..]), cols, ps, col)
  {
    ghost var m := mat[..];
    var pivot := FindPivot(mat, cols, row, col);
    if Abs(mat[pivot][col]) < Tol {
      RankRunSkip(m, cols, ps, col);
      pivoted := false;
    } else {
      PivotStep(mat, cols, row, col, pivot);
      RankRunPivot(m, cols, ps, col, pivot, mat[..]);
      pivoted := true;
    }
  }

  /** The pivot search of `getRank`: the first row from `row` on above the tolerance, else `row`. */
  method FindPivot(mat: array<Row>, cols: nat, row: nat, col: nat) returns (pivot: nat)
    requires Rectangular(mat[..], cols) && row < mat.Length && col < cols
    ensures pivot == PivotRow(mat[..], cols, row, col)
  {
    pivot := row;
    var i := row;
    while i < mat.Length
      invariant row <= i <= mat.Length && pivot == row
      invariant FirstAbove(mat[..], cols, col, row) == FirstAbove(mat[..], cols, col, i)
    {
      if Abs(mat[i][col]) > Tol {
        pivot := i;
        break;
      }
      i := i + 1;
    }
  }

  /** The body of `getRank` for a column with a pivot: the swap, then the elimination below it. */
  method PivotStep(mat: array<Row>, cols: nat, row: nat, col: nat, pivot: nat)
    requires Rectangular(mat[..], cols) && row <= pivot < mat.Length && col < cols
    requires Abs(mat[pivot][col]) >= Tol
    modifies mat
    ensures SwapRows(old(mat[..]), row, pivot)[row][col] != 0.0
    ensures mat[..] == EliminateBelow(SwapRows(old(mat[..]), row, pivot), cols, row, col)
  {
    mat[row], mat[pivot] := mat[pivot], mat[row];
    assert mat[..] == SwapRows(old(mat[..]), row, pivot);
    EliminateRowsBelow(mat, cols, row, col);
  }

  /** The elimination loop of `getRank` over the rows below `row`. */
  method EliminateRowsBelow(mat: array<Row>, cols: nat, row: nat, col: nat)
    requires Rectangular(mat[..], cols) && row < mat.Length && col < cols
    requires mat[row][col] != 0.0
    modifies mat
    ensures mat[..] == EliminateBelow(old(mat[..]), cols, row, col)
  {
    ghost var s := mat[..];
    var t := row + 1;
    while t < mat.Length
      invariant row < t <= mat.Length
      invariant forall r :: 0 <= r <= row ==> mat[r] == s[r]
      invariant forall r :: row < r < t ==> mat[r] == SubtractScaled(s[r], s[row], s[r][col] / s[row][col], col)
      invariant forall r :: t <= r < mat.Length ==> mat[r] == s[r]
    {
      var f := mat[t][col] / mat[row][col];
      SubtractRow(mat, cols, t, row, f, col);
      t := t + 1;
    }
    assert mat[..] == EliminateBelow(s, cols, row, col);
  }
}
