/** The linear-system solver's `gaussianElimination`: Gauss–Jordan elimination of an augmented
    matrix (the last column holds the constants) with largest-magnitude pivoting, followed by
    the classification of the system as having no solution, infinitely many or exactly one. */
module SystemSolver {
  import opened Matrices

  /** The solver's tolerance, `1e-10`. */
  const Eps: real := 0.0000000001

  // ---------------------------------------------------------------- pivot search

  /** The scan for the largest magnitude in column `col` from row `i` on, `best` being the row
      found so far; only a strictly larger magnitude replaces it. */
  function MaxRowFrom(m: Matrix, cols: nat, col: nat, best: nat, i: nat): (r: nat)
    requires Rectangular(m, cols) && col < cols && best < i <= |m|
    ensures best <= r < |m|
    decreases |m| - i
  {
    if i == |m| then best
    else MaxRowFrom(m, cols, col, if Abs(m[i][col]) > Abs(m[best][col]) then i else best, i + 1)
  }

  /** `maxRow`: the search started at `pivotRow`. */
  function MaxRow(m: Matrix, cols: nat, col: nat, from: nat): (r: nat)
    requires Rectangular(m, cols) && col < cols && from < |m|
    ensures from <= r < |m|
  {
    MaxRowFrom(m, cols, col, from, from + 1)
  }

  lemma {:induction false} MaxRowFromSpec(m: Matrix, cols: nat, col: nat, from: nat, best: nat, i: nat)
    requires Rectangular(m, cols) && col < cols && from <= best < i <= |m|
    requires forall t :: from <= t < i ==> Abs(m[t][col]) <= Abs(m[best][col])
    requires forall t :: from <= t < best ==> Abs(m[t][col]) < Abs(m[best][col])
    ensures from <= MaxRowFrom(m, cols, col, best, i) < |m|
    ensures forall t :: from <= t < |m| ==> Abs(m[t][col]) <= Abs(m[MaxRowFrom(m, cols, col, best, i)][col])
    ensures forall t :: from <= t < MaxRowFrom(m, cols, col, best, i) ==>
      Abs(m[t][col]) < Abs(m[MaxRowFrom(m, cols, col, best, i)][col])
    decreases |m| - i
  {
    if i < |m| {
      var next := if Abs(m[i][col]) > Abs(m[best][col]) then i else best;
      MaxRowFromSpec(m, cols, col, from, next, i + 1);
    }
  }

  /** The pivot row has the largest magnitude in the column at or below `from`, and is the first
      row that has it. */
  lemma MaxRowSpec(m: Matrix, cols: nat, col: nat, from: nat)
    requires Rectangular(m, cols) && col < cols && from < |m|
    ensures from <= MaxRow(m, cols, col, from) < |m|
    ensures forall t :: from <= t < |m| ==> Abs(m[t][col]) <= Abs(m[MaxRow(m, cols, col, from)][col])
    ensures forall t :: from <= t < MaxRow(m, cols, col, from) ==> Abs(m[t][col]) < Abs(m[MaxRow(m, cols, col, from)][col])
  {
    MaxRowFromSpec(m, cols, col, from, from, from + 1);
  }

  // ---------------------------------------------------------------- one pivot step

  /** The pivot row divided by its entry in column `col`, from that column on. */
  function Normalize(row: Row, col: nat): (n: Row)
    requires col < |row| && row[col] != 0.0
    ensures |n| == |row| && n[col] == 1.0
  {
    seq(|row|, j requires 0 <= j < |row| => if j < col then row[j] else row[j] / row[col])
  }

  /** Every row but the pivot row loses its entry in column `col` times the pivot row, from that
      column on. */
  function EliminateOthers(m: Matrix, cols: nat, pr: nat, col: nat): (e: Matrix)
    requires Rectangular(m, cols) && pr < |m| && col < cols
    ensures |e| == |m| && Rectangular(e, cols)
  {
    seq(|m|, i requires 0 <= i < |m| => if i == pr then m[i] else SubtractScaled(m[i], m[pr], m[i][col], col))
  }

  /** Swap the pivot row up, normalise it, clear its column in every other row. */
  function PivotStep(m: Matrix, cols: nat, pr: nat, col: nat, p: nat): (e: Matrix)
    requires Rectangular(m, cols) && pr < |m| && p < |m| && col < cols && m[p][col] != 0.0
    ensures |e| == |m| && Rectangular(e, cols)
  {
    var s := SwapRows(m, pr, p);
    EliminateOthers(s[pr := Normalize(s[pr], col)], cols, pr, col)
  }

  /** After a pivot step the pivot row holds 1 in column `col` and every other row 0, exactly;
      the columns before `col` are as they were, in swapped order. */
  lemma PivotStepUnit(m: Matrix, cols: nat, pr: nat, col: nat, p: nat)
    requires Rectangular(m, cols) && pr < |m| && p < |m| && col < cols && m[p][col] != 0.0
    ensures PivotStep(m, cols, pr, col, p)[pr][col] == 1.0
    ensures forall i :: 0 <= i < |m| && i != pr ==> PivotStep(m, cols, pr, col, p)[i][col] == 0.0
    ensures forall i, c :: 0 <= i < |m| && 0 <= c < col ==> PivotStep(m, cols, pr, col, p)[i][c] == SwapRows(m, pr, p)[i][c]
  {
    var s := SwapRows(m, pr, p);
    var n := s[pr := Normalize(s[pr], col)];
    var e := EliminateOthers(n, cols, pr, col);
    assert forall i :: 0 <= i < |m| && i != pr ==> e[i] == SubtractScaled(n[i], n[pr], n[i][col], col);
  }

  // ---------------------------------------------------------------- the elimination

  /** The forward loop from column `col`, with `ps` the pivot columns so far (`pivotRow` is
      `|ps|`): it stops at the constants column or when every row holds a pivot, skips a column
      whose largest magnitude is below the tolerance, and otherwise pivots. It keeps the shape; how
      `pivotRow` moves is `SolveRunBounds`. */
  function SolveRun(m: Matrix, cols: nat, ps: seq<nat>, col: nat): (res: (Matrix, seq<nat>))
    requires Rectangular(m, cols) && 1 <= cols && |ps| <= |m| && col <= cols - 1
    ensures |res.0| == |m| && Rectangular(res.0, cols)
    decreases cols - col
  {
    if col == cols - 1 || |ps| == |m| then (m, ps)
    else
      var p := MaxRow(m, cols, col, |ps|);
      if Abs(m[p][col]) < Eps then SolveRun(m, cols, ps, col + 1)
      else SolveRun(PivotStep(m, cols, |ps|, col, p), cols, ps + [col], col + 1)
  }

  /** `pivotRow` only grows, by one per pivoted column, and never passes the number of rows nor the
      number of variables. */
  lemma {:induction false} SolveRunBounds(m: Matrix, cols: nat, ps: seq<nat>, col: nat)
    requires Rectangular(m, cols) && 1 <= cols && |ps| <= |m| && col <= cols - 1
    ensures ps <= SolveRun(m, cols, ps, col).1
    ensures |SolveRun(m, cols, ps, col).1| <= |m|
    ensures |SolveRun(m, cols, ps, col).1| <= |ps| + (cols - 1 - col)
    decreases cols - col
  {
    if col < cols - 1 && |ps| < |m| {
      var p := MaxRow(m, cols, col, |ps|);
      if Abs(m[p][col]) < Eps {
        SolveRunBounds(m, cols, ps, col + 1);
      } else {
        SolveRunBounds(PivotStep(m, cols, |ps|, col, p), cols, ps + [col], col + 1);
      }
    }
  }

  /** The matrix after the forward loop. */
  function Eliminated(m: Matrix): (e: Matrix)
    requires Rectangular(m, Width(m)) && 1 <= Width(m)
    ensures |e| == |m| && Rectangular(e, Width(m))
  {
    SolveRun(m, Width(m), [], 0).0
  }

  /** The pivot columns it found, one per value of `pivotRow`. */
  function PivotColumns(m: Matrix): (ps: seq<nat>)
    requires Rectangular(m, Width(m)) && 1 <= Width(m)
    ensures |ps| <= |m| && |ps| <= Width(m) - 1
  {
    SolveRunBounds(m, Width(m), [], 0);
    SolveRun(m, Width(m), [], 0).1
  }

  /** Reduced row-echelon form up to column `col`, with the tolerance: the pivot columns increase
      and lie before `col`, each is the unit vector of its row, and below the pivot rows every
      entry before `col` is smaller than the tolerance. */
  ghost predicate Rref(m: Matrix, cols: nat, ps: seq<nat>, col: nat)
  {
    && Rectangular(m, cols) && 1 <= cols && |ps| <= |m| && col <= cols - 1
    && (forall r :: 0 <= r < |ps| ==> ps[r] < col)
    && (forall r, s :: 0 <= r < s < |ps| ==> ps[r] < ps[s])
    && (forall r, i :: 0 <= r < |ps| && 0 <= i < |m| ==> m[i][ps[r]] == if i == r then 1.0 else 0.0)
    && (forall i, c :: |ps| <= i < |m| && 0 <= c < col ==> Abs(m[i][c]) < Eps)
  }

  /** A skipped column is below the tolerance in every row without a pivot. */
  lemma SkipKeepsRref(m: Matrix, cols: nat, ps: seq<nat>, col: nat)
    requires Rref(m, cols, ps, col) && |ps| < |m| && col < cols - 1
    requires Abs(m[MaxRow(m, cols, col, |ps|)][col]) < Eps
    ensures Rref(m, cols, ps, col + 1)
  {
    MaxRowSpec(m, cols, col, |ps|);
  }

  /** Swapping two rows without a pivot keeps the form. */
  lemma SwapKeepsRref(m: Matrix, cols: nat, ps: seq<nat>, col: nat, p: nat)
    requires Rref(m, cols, ps, col) && |ps| <= p < |m|
    ensures Rref(SwapRows(m, |ps|, p), cols, ps, col)
  {
    var s := SwapRows(m, |ps|, p);
    forall r, i | 0 <= r < |ps| && 0 <= i < |m|
      ensures s[i][ps[r]] == if i == r then 1.0 else 0.0
    {
      if i == |ps| {
        assert s[i] == m[p];
      } else if i == p {
        assert s[i] == m[|ps|];
      }
    }
  }

  /** Normalising the next pivot row keeps the form: it changes nothing before `col`. */
  lemma NormalizeKeepsRref(s: Matrix, cols: nat, ps: seq<nat>, col: nat, n: Matrix)
    requires Rref(s, cols, ps, col) && |ps| < |s| && col < cols - 1 && s[|ps|][col] != 0.0
    requires n == s[|ps| := Normalize(s[|ps|], col)]
    ensures Rref(n, cols, ps, col) && n[|ps|][col] == 1.0
  {
    forall r, i | 0 <= r < |ps| && 0 <= i < |s|
      ensures n[i][ps[r]] == if i == r then 1.0 else 0.0
    {
      if i == |ps| {
        assert n[i][ps[r]] == s[i][ps[r]];
      }
    }
  }

  /** Clearing the column of a normalised pivot row makes it the next pivot column. */
  lemma EliminateExtendsRref(n: Matrix, cols: nat, ps: seq<nat>, col: nat, e: Matrix)
    requires Rref(n, cols, ps, col) && |ps| < |n| && col < cols - 1 && n[|ps|][col] == 1.0
    requires e == EliminateOthers(n, cols, |ps|, col)
    ensures Rref(e, cols, ps + [col], col + 1)
  {
    var pr := |ps|;
    var qs := ps + [col];
    assert forall i :: 0 <= i < |n| && i != pr ==> e[i] == SubtractScaled(n[i], n[pr], n[i][col], col);
    assert forall i, c :: 0 <= i < |n| && 0 <= c < col ==> e[i][c] == n[i][c];
    forall r, i | 0 <= r < |qs| && 0 <= i < |n|
      ensures e[i][qs[r]] == if i == r then 1.0 else 0.0
    {
      if r < |ps| {
        assert qs[r] == ps[r] < col;
      }
    }
  }

  /** A pivot step extends the form by one pivot column. */
  lemma PivotExtendsRref(m: Matrix, cols: nat, ps: seq<nat>, col: nat, p: nat)
    requires Rref(m, cols, ps, col) && |ps| < |m| && col < cols - 1
    requires p == MaxRow(m, cols, col, |ps|) && Abs(m[p][col]) >= Eps
    ensures Rref(PivotStep(m, cols, |ps|, col, p), cols, ps + [col], col + 1)
  {
    MaxRowSpec(m, cols, col, |ps|);
    var s := SwapRows(m, |ps|, p);
    SwapKeepsRref(m, cols, ps, col, p);
    var n := s[|ps| := Normalize(s[|ps|], col)];
    NormalizeKeepsRref(s, cols, ps, col, n);
    EliminateExtendsRref(n, cols, ps, col, EliminateOthers(n, cols, |ps|, col));
  }

  /** Where the loop stops, the form holds up to the constants column. */
  lemma {:induction false} SolveRunRref(m: Matrix, cols: nat, ps: seq<nat>, col: nat)
    requires Rref(m, cols, ps, col)
    ensures Rref(SolveRun(m, cols, ps, col).0, cols, SolveRun(m, cols, ps, col).1, cols - 1)
    decreases cols - col
  {
    if col == cols - 1 || |ps| == |m| {
    } else {
      var p := MaxRow(m, cols, col, |ps|);
      if Abs(m[p][col]) < Eps {
        SkipKeepsRref(m, cols, ps, col);
        SolveRunRref(m, cols, ps, col + 1);
      } else {
        PivotExtendsRref(m, cols, ps, col, p);
        SolveRunRref(PivotStep(m, cols, |ps|, col, p), cols, ps + [col], col + 1);
      }
    }
  }

  /** The reduced matrix is in reduced row-echelon form with the pivot columns found. */
  lemma EliminatedIsRref(m: Matrix)
    requires Rectangular(m, Width(m)) && 1 <= Width(m)
    ensures Rref(Eliminated(m), Width(m), PivotColumns(m), Width(m) - 1)
  {
    SolveRunRref(m, Width(m), [], 0);
  }

  // ---------------------------------------------------------------- the classification

  /** Every coefficient of the row is within the tolerance of zero (`allZero`). */
  predicate ZeroCoefficients(row: Row, vars: nat)
    requires vars <= |row|
  {
    forall j :: 0 <= j < vars ==> Abs(row[j]) <= Eps
  }

  /** Some row reads 0 = c with c beyond the tolerance. */
  predicate Inconsistent(m: Matrix, cols: nat)
    requires Rectangular(m, cols) && 1 <= cols
  {
    exists i :: 0 <= i < |m| && ZeroCoefficients(m[i], cols - 1) && Abs(m[i][cols - 1]) > Eps
  }

  /** The number of rows among the first `n` with a coefficient beyond the tolerance. */
  function RankCount(m: Matrix, cols: nat, n: nat): (c: nat)
    requires Rectangular(m, cols) && 1 <= cols && n <= |m|
    ensures c <= n
  {
    if n == 0 then 0
    else RankCount(m, cols, n - 1) + (if ZeroCoefficients(m[n - 1], cols - 1) then 0 else 1)
  }

  /** What `gaussianElimination` returns. */
  datatype Outcome = NoSolution | Infinite(rank: nat, vars: nat) | Unique(solution: seq<real>)

  /** The analysis of the reduced matrix: inconsistency first, then rank against the number of
      variables, then the constants column as the solution. */
  function Classify(m: Matrix, cols: nat): (o: Outcome)
    requires Rectangular(m, cols) && 1 <= cols
    ensures o == NoSolution <==> Inconsistent(m, cols)
    ensures o.Infinite? ==> o.vars == cols - 1 && o.rank < o.vars && o.rank <= |m|
    ensures o.Unique? ==> |o.solution| == cols - 1 <= |m|
  {
    if Inconsistent(m, cols) then NoSolution
    else
      var rank := RankCount(m, cols, |m|);
      if rank < cols - 1 then Infinite(rank, cols - 1)
      else Unique(seq(cols - 1, i requires 0 <= i < cols - 1 => m[i][cols - 1]))
  }

  /** `gaussianElimination` on values: a unique solution has one value per variable, and needs at
      least as many equations as variables; infinitely many solutions come with a rank below the
      number of variables. */
  function Solve(m: Matrix): (o: Outcome)
    requires Rectangular(m, Width(m)) && 1 <= Width(m)
    ensures o.Infinite? ==> o.vars == Width(m) - 1 && o.rank < o.vars && o.rank <= |m|
    ensures o.Unique? ==> |o.solution| == Width(m) - 1 <= |m|
  {
    Classify(Eliminated(m), Width(m))
  }

  /** In the form, the pivot columns are whole positions: the `r`-th pivot is at column `r` or
      later and leaves room for the pivots after it. */
  lemma {:induction false} PivotPositions(ps: seq<nat>, vars: nat, r: nat)
    requires forall t :: 0 <= t < |ps| ==> ps[t] < vars
    requires forall t, s :: 0 <= t < s < |ps| ==> ps[t] < ps[s]
    requires r < |ps|
    ensures r <= ps[r] <= vars - |ps| + r
    decreases |ps| - r
  {
    if r + 1 < |ps| {
      PivotPositions(ps, vars, r + 1);
    }
    if r > 0 {
      PivotsFromBelow(ps, r);
    }
  }

  lemma {:induction false} PivotsFromBelow(ps: seq<nat>, r: nat)
    requires forall t, s :: 0 <= t < s < |ps| ==> ps[t] < ps[s]
    requires r < |ps|
    ensures r <= ps[r]
  {
    if r > 0 {
      PivotsFromBelow(ps, r - 1);
    }
  }

  /** In the form, the rows with a pivot are exactly the rows with a coefficient beyond the
      tolerance, so the counted rank is the number of pivots. */
  lemma {:induction false} RankCountOfRref(m: Matrix, cols: nat, ps: seq<nat>, n: nat)
    requires 1 <= cols && Rref(m, cols, ps, cols - 1) && n <= |m|
    ensures RankCount(m, cols, n) == if n <= |ps| then n else |ps|
  {
    if n > 0 {
      RankCountOfRref(m, cols, ps, n - 1);
      var i := n - 1;
      if i < |ps| {
        assert m[i][ps[i]] == 1.0;
        assert !ZeroCoefficients(m[i], cols - 1);
      } else {
        assert ZeroCoefficients(m[i], cols - 1);
      }
    }
  }

  /** In the form, an inconsistent row can only be a row without a pivot, and every such row has
      zero coefficients: the system has no solution exactly when some row without a pivot has a
      constant beyond the tolerance. */
  lemma InconsistentOfRref(m: Matrix, cols: nat, ps: seq<nat>)
    requires 1 <= cols && Rref(m, cols, ps, cols - 1)
    ensures Inconsistent(m, cols) <==> exists i :: |ps| <= i < |m| && Abs(m[i][cols - 1]) > Eps
  {
    forall i | 0 <= i < |ps|
      ensures !ZeroCoefficients(m[i], cols - 1)
    {
      assert m[i][ps[i]] == 1.0;
    }
    forall i | |ps| <= i < |m|
      ensures ZeroCoefficients(m[i], cols - 1)
    {
    }
  }

  /** No solution exactly when, after elimination, a row without a pivot keeps a constant beyond
      the tolerance. */
  lemma SolveNoSolution(m: Matrix)
    requires Rectangular(m, Width(m)) && 1 <= Width(m)
    ensures Solve(m) == NoSolution <==>
      exists i :: |PivotColumns(m)| <= i < |m| && Abs(Eliminated(m)[i][Width(m) - 1]) > Eps
  {
    EliminatedIsRref(m);
    InconsistentOfRref(Eliminated(m), Width(m), PivotColumns(m));
  }

  /** Otherwise infinitely many solutions exactly when there are fewer pivots than variables, and
      the reported rank is the number of pivots. */
  lemma SolveInfinite(m: Matrix)
    requires Rectangular(m, Width(m)) && 1 <= Width(m)
    ensures Solve(m).Infinite? <==> Solve(m) != NoSolution && |PivotColumns(m)| < Width(m) - 1
    ensures Solve(m).Infinite? ==> Solve(m).rank == |PivotColumns(m)| && Solve(m).vars == Width(m) - 1
  {
    EliminatedIsRref(m);
    RankCountOfRref(Eliminated(m), Width(m), PivotColumns(m), |m|);
  }

  /** The product of a row's first `|x|` coefficients with `x`. */
  function Dot(row: Row, x: seq<real>): real
    requires |x| <= |row|
  {
    if x == [] then 0.0 else Dot(row, x[..|x| - 1]) + row[|x| - 1] * x[|x| - 1]
  }

  /** A row that is the unit vector `e_i` on its first `|x|` coefficients picks out `x[i]`. */
  lemma {:induction false} DotUnit(row: Row, x: seq<real>, i: nat)
    requires |x| <= |row| && i < |x|
    requires forall c :: 0 <= c < |x| ==> row[c] == if c == i then 1.0 else 0.0
    ensures Dot(row, x) == x[i]
  {
    if |x| - 1 == i {
      DotZero(row, x[..|x| - 1]);
    } else {
      DotUnit(row, x[..|x| - 1], i);
    }
  }

  lemma {:induction false} DotZero(row: Row, x: seq<real>)
    requires |x| <= |row|
    requires forall c :: 0 <= c < |x| ==> row[c] == 0.0
    ensures Dot(row, x) == 0.0
  {
    if x != [] {
      DotZero(row, x[..|x| - 1]);
    }
  }

  /** As many increasing pivot columns as variables are the columns 0, 1, 2, ... in order. */
  lemma PivotsInOrder(ps: seq<nat>, vars: nat)
    requires |ps| == vars
    requires forall t :: 0 <= t < |ps| ==> ps[t] < vars
    requires forall t, s :: 0 <= t < s < |ps| ==> ps[t] < ps[s]
    ensures forall r :: 0 <= r < |ps| ==> ps[r] == r
  {
    forall r | 0 <= r < |ps|
      ensures ps[r] == r
    {
      PivotPositions(ps, vars, r);
    }
  }

  /** With one pivot per variable the coefficient block of the first rows is the identity and
      the other rows have zero coefficients. */
  lemma IdentityBlock(e: Matrix, cols: nat, ps: seq<nat>)
    requires 1 <= cols && Rref(e, cols, ps, cols - 1) && |ps| == cols - 1
    ensures forall i, c :: 0 <= i < |ps| && 0 <= c < |ps| ==> e[i][c] == if i == c then 1.0 else 0.0
    ensures forall i :: |ps| <= i < |e| ==> ZeroCoefficients(e[i], |ps|)
  {
    PivotsInOrder(ps, cols - 1);
    forall i, c | 0 <= i < |ps| && 0 <= c < |ps|
      ensures e[i][c] == if i == c then 1.0 else 0.0
    {
      assert e[i][ps[c]] == if i == c then 1.0 else 0.0;
    }
  }

  /** Under an identity block, the constants column satisfies each of the first rows exactly. */
  lemma ConstantsSolve(e: Matrix, vars: nat, x: seq<real>)
    requires vars <= |e| && |x| == vars
    requires forall i :: 0 <= i < vars ==> vars < |e[i]| && x[i] == e[i][vars]
    requires forall i, c :: 0 <= i < vars && 0 <= c < vars ==> e[i][c] == if i == c then 1.0 else 0.0
    ensures forall i :: 0 <= i < vars ==> Dot(e[i], x) == e[i][vars]
  {
    forall i | 0 <= i < vars
      ensures Dot(e[i], x) == e[i][vars]
    {
      DotUnit(e[i], x, i);
    }
  }

  /** A unique solution means one pivot per variable, in order: the coefficients of the first
      rows form the identity, so the constants column read off as the solution satisfies every
      one of those reduced equations exactly, and every other row reads 0 = 0 within the tolerance. */
  lemma SolveUnique(m: Matrix)
    requires Rectangular(m, Width(m)) && 1 <= Width(m)
    ensures Solve(m).Unique? <==> Solve(m) != NoSolution && |PivotColumns(m)| == Width(m) - 1
    ensures Solve(m).Unique? ==>
      var e, vars, x := Eliminated(m), Width(m) - 1, Solve(m).solution;
      && |x| == vars <= |m|
      && (forall i :: 0 <= i < vars ==> x[i] == e[i][vars])
      && (forall i, c :: 0 <= i < vars && 0 <= c < vars ==> e[i][c] == if i == c then 1.0 else 0.0)
      && (forall i :: 0 <= i < vars ==> Dot(e[i], x) == e[i][vars])
      && (forall i :: vars <= i < |m| ==> ZeroCoefficients(e[i], vars) && Abs(e[i][vars]) <= Eps)
  {
    var e, ps, vars := Eliminated(m), PivotColumns(m), Width(m) - 1;
    EliminatedIsRref(m);
    RankCountOfRref(e, Width(m), ps, |m|);
    SolveNoSolution(m);
    if Solve(m).Unique? {
      IdentityBlock(e, Width(m), ps);
      ConstantsSolve(e, vars, Solve(m).solution);
    }
  }

  // ---------------------------------------------------------------- examples

  /** Pivoting on an entry 1 whose column is already clear changes nothing. */
  lemma UniqueSteps(m: Matrix)
    requires m == [[1.0, 0.0, 2.0], [0.0, 1.0, 3.0]]
    ensures Rectangular(m, 3)
    ensures MaxRow(m, 3, 0, 0) == 0 && PivotStep(m, 3, 0, 0, 0) == m
    ensures MaxRow(m, 3, 1, 1) == 1 && PivotStep(m, 3, 1, 1, 1) == m
  {
    assert MaxRowFrom(m, 3, 0, 0, 2) == 0;
    assert MaxRow(m, 3, 0, 0) == 0;
    assert Normalize(m[0], 0) == m[0];
    assert SubtractScaled(m[1], m[0], 0.0, 0) == m[1];
    assert MaxRow(m, 3, 1, 1) == 1;
    assert Normalize(m[1], 1) == m[1];
    assert SubtractScaled(m[0], m[1], 0.0, 1) == m[0];
  }

  /** x = 2, y = 3 is already reduced; both columns pivot in place and the solution is read off. */
  lemma ExampleUnique(m: Matrix)
    requires m == [[1.0, 0.0, 2.0], [0.0, 1.0, 3.0]]
    ensures Rectangular(m, Width(m)) && 1 <= Width(m)
    ensures Solve(m) == Unique([2.0, 3.0])
  {
    UniqueSteps(m);
    SolveRunPivot(m, 3, [], 0, 0, m);
    assert [] + [0] == [0];
    SolveRunPivot(m, 3, [0], 1, 1, m);
    assert [0] + [1] == [0, 1];
    SolveRunDone(m, 3, [0, 1], 2);
    assert !ZeroCoefficients(m[0], 2) && !ZeroCoefficients(m[1], 2);
    assert RankCount(m, 3, 2) == 2;
  }

  /** The first pivot of x + y = 2, 2x + 2y = 4 takes the larger second row and clears the other. */
  lemma InfiniteStep(m: Matrix, e: Matrix)
    requires m == [[1.0, 1.0, 2.0], [2.0, 2.0, 4.0]] && e == [[1.0, 1.0, 2.0], [0.0, 0.0, 0.0]]
    ensures Rectangular(m, 3)
    ensures MaxRow(m, 3, 0, 0) == 1 && PivotStep(m, 3, 0, 0, 1) == e
  {
    assert MaxRow(m, 3, 0, 0) == 1;
    var s := SwapRows(m, 0, 1);
    assert s == [[2.0, 2.0, 4.0], [1.0, 1.0, 2.0]];
    assert Normalize(s[0], 0) == [1.0, 1.0, 2.0];
    assert SubtractScaled(s[1], [1.0, 1.0, 2.0], 1.0, 0) == [0.0, 0.0, 0.0];
  }

  /** x + y = 2 twice over: one pivot for two variables. */
  lemma ExampleInfinite(m: Matrix)
    requires m == [[1.0, 1.0, 2.0], [2.0, 2.0, 4.0]]
    ensures Rectangular(m, Width(m)) && 1 <= Width(m)
    ensures Solve(m) == Infinite(1, 2)
  {
    var e: Matrix := [[1.0, 1.0, 2.0], [0.0, 0.0, 0.0]];
    InfiniteStep(m, e);
    SolveRunPivot(m, 3, [], 0, 1, e);
    assert MaxRow(e, 3, 1, 1) == 1;
    assert [] + [0] == [0];
    SolveRunSkip(e, 3, [0], 1);
    SolveRunDone(e, 3, [0], 2);
    assert !ZeroCoefficients(e[0], 2) && ZeroCoefficients(e[1], 2);
    assert !Inconsistent(e, 3);
    assert RankCount(e, 3, 2) == 1;
  }

  /** The first pivot of x + y = 2, x + y = 5 leaves 0 = 3 in the second row. */
  lemma NoSolutionStep(m: Matrix, e: Matrix)
    requires m == [[1.0, 1.0, 2.0], [1.0, 1.0, 5.0]] && e == [[1.0, 1.0, 2.0], [0.0, 0.0, 3.0]]
    ensures Rectangular(m, 3)
    ensures MaxRow(m, 3, 0, 0) == 0 && PivotStep(m, 3, 0, 0, 0) == e
  {
    assert MaxRowFrom(m, 3, 0, 0, 2) == 0;
    assert MaxRow(m, 3, 0, 0) == 0;
    assert Normalize(m[0], 0) == m[0];
    assert SubtractScaled(m[1], m[0], 1.0, 0) == [0.0, 0.0, 3.0];
  }

  /** x + y = 2 and x + y = 5: the second row reduces to 0 = 3. */
  lemma ExampleNoSolution(m: Matrix)
    requires m == [[1.0, 1.0, 2.0], [1.0, 1.0, 5.0]]
    ensures Rectangular(m, Width(m)) && 1 <= Width(m)
    ensures Solve(m) == NoSolution
  {
    var e: Matrix := [[1.0, 1.0, 2.0], [0.0, 0.0, 3.0]];
    NoSolutionStep(m, e);
    SolveRunPivot(m, 3, [], 0, 0, e);
    assert MaxRow(e, 3, 1, 1) == 1;
    assert [] + [0] == [0];
    SolveRunSkip(e, 3, [0], 1);
    SolveRunDone(e, 3, [0], 2);
    assert ZeroCoefficients(e[1], 2) && Abs(e[1][2]) > Eps;
  }

  // ---------------------------------------------------------------- the method

  lemma SolveRunDone(m: Matrix, cols: nat, ps: seq<nat>, col: nat)
    requires Rectangular(m, cols) && 1 <= cols && |ps| <= |m| && col <= cols - 1
    requires col == cols - 1 || |ps| == |m|
    ensures SolveRun(m, cols, ps, col) == (m, ps)
  {
  }

  lemma SolveRunSkip(m: Matrix, cols: nat, ps: seq<nat>, col: nat)
    requires Rectangular(m, cols) && 1 <= cols && |ps| < |m| && col < cols - 1
    requires Abs(m[MaxRow(m, cols, col, |ps|)][col]) < Eps
    ensures SolveRun(m, cols, ps, col) == SolveRun(m, cols, ps, col + 1)
  {
  }

  lemma SolveRunPivot(m: Matrix, cols: nat, ps: seq<nat>, col: nat, p: nat, e: Matrix)
    requires Rectangular(m, cols) && 1 <= cols && |ps| < |m| && col < cols - 1
    requires p == MaxRow(m, cols, col, |ps|) && Abs(m[p][col]) >= Eps
    requires e == PivotStep(m, cols, |ps|, col, p)
    ensures SolveRun(m, cols, ps, col) == SolveRun(e, cols, ps + [col], col + 1)
  {
  }

  /** `gaussianElimination`: reduces `M` in place and classifies the system. The caller must pass a
      rectangular matrix with at least one row and one column, which the parser does not check. */
  method GaussianElimination(M: array<Row>) returns (res: Outcome)
    requires M.Length >= 1 && Rectangular(M[..], |M[0]|) && |M[0]| >= 1
    modifies M
    ensures res == Solve(old(M[..]))
    ensures M[..] == Eliminated(old(M[..]))
  {
    var rowCount := M.Length;
    var colCount := |M[0]|;
    var varCount := colCount - 1;
    ghost var target := SolveRun(M[..], colCount, [], 0);
    ghost var ps: seq<nat> := [];
    var pivotRow := 0;
    var col := 0;
    while col < varCount && pivotRow < rowCount
      invariant pivotRow == |ps| <= rowCount && col <= varCount
      invariant Rectangular(M[..], colCount)
      invariant SolveRun(M[..], colCount, ps, col) == target
    {
      var pivoted := EliminateColumn(M, colCount, pivotRow, col, ps);
      if pivoted {
        ps := ps + [col];
        pivotRow := pivotRow + 1;
      }
      col := col + 1;
    }
    SolveRunDone(M[..], colCount, ps, col);
    res := Analyze(M, colCount);
  }

  /** One turn of the forward loop: find the pivot row, skip the column or pivot on it. */
  method EliminateColumn(M: array<Row>, cols: nat, pivotRow: nat, col: nat, ghost ps: seq<nat>) returns (pivoted: bool)
    requires Rectangular(M[..], cols) && 1 <= cols && pivotRow == |ps| < M.Length && col < cols - 1
    modifies M
    ensures Rectangular(M[..], cols)
    ensures SolveRun(M[..], cols, if pivoted then ps + [col] else ps, col + 1) == SolveRun(old(M[..]), cols, ps, col)
  {
    var maxRow := FindMaxRow(M, cols, pivotRow, col);
    if Abs(M[maxRow][col]) < Eps {
      SolveRunSkip(M[..], cols, ps, col);
      return false;
    }
    ghost var m := M[..];
    PivotInPlace(M, cols, pivotRow, col, maxRow);
    SolveRunPivot(m, cols, ps, col, maxRow, M[..]);
    pivoted := true;
  }

  /** The pivot search: the row from `pivotRow` on with the strictly largest magnitude in `col`. */
  method FindMaxRow(M: array<Row>, cols: nat, pivotRow: nat, col: nat) returns (maxRow: nat)
    requires Rectangular(M[..], cols) && pivotRow < M.Length && col < cols
    ensures maxRow == MaxRow(M[..], cols, col, pivotRow)
  {
    maxRow := pivotRow;
    var i := pivotRow + 1;
    while i < M.Length
      invariant pivotRow <= maxRow < i <= M.Length
      invariant MaxRowFrom(M[..], cols, col, maxRow, i) == MaxRow(M[..], cols, col, pivotRow)
    {
      if Abs(M[i][col]) > Abs(M[maxRow][col]) {
        maxRow := i;
      }
      i := i + 1;
    }
  }

  /** Swap, normalise and eliminate, in place. */
  method PivotInPlace(M: array<Row>, cols: nat, pivotRow: nat, col: nat, maxRow: nat)
    requires Rectangular(M[..], cols) && pivotRow < M.Length && maxRow < M.Length && col < cols
    requires Abs(M[maxRow][col]) >= Eps
    modifies M
    ensures M[..] == PivotStep(old(M[..]), cols, pivotRow, col, maxRow)
  {
    ghost var s := SwapRows(M[..], pivotRow, maxRow);
    M[pivotRow], M[maxRow] := M[maxRow], M[pivotRow];
    assert M[..] == s;
    NormalizeInPlace(M, cols, pivotRow, col);
    EliminateOthersInPlace(M, cols, pivotRow, col);
  }

  /** The pivot row divided by its entry in `col`, read once before the loop. */
  method NormalizeInPlace(M: array<Row>, cols: nat, pivotRow: nat, col: nat)
    requires Rectangular(M[..], cols) && pivotRow < M.Length && col < cols && M[pivotRow][col] != 0.0
    modifies M
    ensures M[..] == old(M[..])[pivotRow := Normalize(old(M[pivotRow]), col)]
  {
    ghost var target := Normalize(M[pivotRow], col);
    var pivotVal := M[pivotRow][col];
    var j := col;
    while j < cols
      invariant col <= j <= cols && |M[pivotRow]| == cols
      invariant forall c :: 0 <= c < j ==> M[pivotRow][c] == target[c]
      invariant forall c :: j <= c < cols ==> M[pivotRow][c] == old(M[pivotRow])[c]
      invariant forall r :: 0 <= r < M.Length && r != pivotRow ==> M[r] == old(M[r])
    {
      M[pivotRow] := M[pivotRow][j := M[pivotRow][j] / pivotVal];
      j := j + 1;
    }
    assert M[pivotRow] == target;
    assert M[..] == old(M[..])[pivotRow := target];
  }

  /** Every other row loses its entry in `col` times the pivot row. */
  method EliminateOthersInPlace(M: array<Row>, cols: nat, pivotRow: nat, col: nat)
    requires Rectangular(M[..], cols) && pivotRow < M.Length && col < cols
    modifies M
    ensures M[..] == EliminateOthers(old(M[..]), cols, pivotRow, col)
  {
    ghost var n := M[..];
    ghost var target := EliminateOthers(n, cols, pivotRow, col);
    var i := 0;
    while i < M.Length
      invariant 0 <= i <= M.Length && Rectangular(M[..], cols)
      invariant M[pivotRow] == n[pivotRow]
      invariant forall r :: 0 <= r < i ==> M[r] == target[r]
      invariant forall r :: i <= r < M.Length ==> M[r] == n[r]
    {
      if i != pivotRow {
        var factor := M[i][col];
        SubtractRow(M, cols, i, pivotRow, factor, col);
      }
      i := i + 1;
    }
    assert M[..] == target;
  }

  /** The analysis of the reduced matrix: the inconsistency scan, the rank count, the solution. */
  method Analyze(M: array<Row>, cols: nat) returns (res: Outcome)
    requires Rectangular(M[..], cols) && 1 <= cols
    ensures res == Classify(M[..], cols)
  {
    var varCount := cols - 1;
    var inconsistent := FindInconsistentRow(M, cols);
    if inconsistent {
      return NoSolution;
    }
    var rank := CountRank(M, cols);
    if rank < varCount {
      return Infinite(rank, varCount);
    }
    var solution: seq<real> := [];
    var i := 0;
    while i < varCount
      invariant 0 <= i <= varCount <= M.Length
      invariant |solution| == i
      invariant forall t :: 0 <= t < i ==> solution[t] == M[t][cols - 1]
    {
      solution := solution + [M[i][cols - 1]];
      i := i + 1;
    }
    res := Unique(solution);
    assert Classify(M[..], cols).solution == solution;
  }

  /** `allZero`: no coefficient beyond the tolerance, leaving the scan at the first one. */
  method AllZero(row: Row, vars: nat) returns (allZero: bool)
    requires vars <= |row|
    ensures allZero == ZeroCoefficients(row, vars)
  {
    allZero := true;
    var j := 0;
    while j < vars
      invariant 0 <= j <= vars
      invariant allZero == forall c :: 0 <= c < j ==> Abs(row[c]) <= Eps
    {
      if Abs(row[j]) > Eps {
        allZero := false;
        break;
      }
      j := j + 1;
    }
  }

  /** The inconsistency scan: some row with zero coefficients and a constant beyond the tolerance. */
  method FindInconsistentRow(M: array<Row>, cols: nat) returns (found: bool)
    requires Rectangular(M[..], cols) && 1 <= cols
    ensures found == Inconsistent(M[..], cols)
  {
    var i := 0;
    while i < M.Length
      invariant 0 <= i <= M.Length
      invariant forall r :: 0 <= r < i ==> !(ZeroCoefficients(M[r], cols - 1) && Abs(M[r][cols - 1]) > Eps)
    {
      var allZero := AllZero(M[i], cols - 1);
      if allZero && Abs(M[i][cols - 1]) > Eps {
        return true;
      }
      i := i + 1;
    }
    return false;
  }

  /** The rank count: the rows with a coefficient beyond the tolerance. */
  method CountRank(M: array<Row>, cols: nat) returns (rank: nat)
    requires Rectangular(M[..], cols) && 1 <= cols
    ensures rank == RankCount(M[..], cols, M.Length)
  {
    rank := 0;
    var i := 0;
    while i < M.Length
      invariant 0 <= i <= M.Length
      invariant rank == RankCount(M[..], cols, i)
    {
      var allZero := AllZero(M[i], cols - 1);
      if !allZero {
        rank := rank + 1;
      }
      i := i + 1;
    }
  }
}
