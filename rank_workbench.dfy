/** The row-operation session of the rank workbench: the matrix the user started from, the
    matrix being reduced, the stack of snapshots that `undo` pops and the step counter, with the
    three elementary row operations, their validation and the rank verdict. */
module RankWorkbench {
  import opened Wrappers
  import opened Matrices
  import opened RankInput
  import opened RankEngine

  /** The operation chosen in the operation menu. */
  datatype OpType = Add | Scale | Swap

  /** A validated operation on zero-based rows: add `k` times row `j` to row `i`, multiply row `i`
      by `k`, or exchange rows `i` and `j`. */
  datatype Operation =
    | RowAdd(i: nat, j: nat, k: real)
    | RowScale(i: nat, k: real)
    | RowSwap(i: nat, j: nat)

  /** Why `validateOperation` throws. */
  datatype OpError = InvalidRowI | InvalidRowJ | InvalidMultiplier

  /** The text `validateOperation` throws with for each error. */
  function OpErrorMessage(e: OpError): string
  {
    match e
    case InvalidRowI => "Invalid row i."
    case InvalidRowJ => "Invalid row j."
    case InvalidMultiplier => "Invalid multiplier."
  }

  /** The message shown tells the three operation failures apart. */
  lemma OpErrorMessagesDistinct(a: OpError, b: OpError)
    ensures OpErrorMessage(a) == OpErrorMessage(b) <==> a == b
  {
    assert OpErrorMessage(InvalidRowI)[12] != OpErrorMessage(InvalidRowJ)[12];
    assert OpErrorMessage(InvalidRowI)[8] != OpErrorMessage(InvalidMultiplier)[8];
    assert OpErrorMessage(InvalidRowJ)[8] != OpErrorMessage(InvalidMultiplier)[8];
  }

  /** The kind of a validated operation. */
  function KindOf(op: Operation): OpType
  {
    match op
    case RowAdd(_, _, _) => Add
    case RowScale(_, _) => Scale
    case RowSwap(_, _) => Swap
  }

  /** The rows `op` names exist in a matrix of `rows` rows. */
  predicate Applicable(op: Operation, rows: nat)
  {
    op.i < rows && (op.RowScale? || op.j < rows)
  }

  // ---------------------------------------------------------------- reading the operation

  /** `Number(text) - 1`: the one-based row number typed by the user, made zero-based (NaN stays NaN). */
  function ZeroBased(x: Entry): Entry
  {
    match x
    case None => None
    case Some(v) => Some(v - 1.0)
  }

  /** `Number(multiplier.value || 1)`: an empty field means 1. */
  function MultiplierOf(text: string, toNumber: string -> Entry): Entry
  {
    if text == "" then Some(1.0) else toNumber(text)
  }

  /** `x` is a row of a matrix with `rows` rows: a whole number from 0 below `rows`. */
  predicate IsRowIndex(x: Entry, rows: nat)
  {
    x.Some? && x.value.Floor as real == x.value && 0.0 <= x.value < rows as real
  }

  function ToIndex(x: Entry, rows: nat): (n: nat)
    requires IsRowIndex(x, rows)
    ensures n < rows && n as real == x.value
  {
    x.value.Floor
  }

  /** `validateOperation`, checking that each row it needs is a whole number in range: row `i` always,
      row `j` except for scale, the multiplier (not NaN) except for swap, in that order. */
  function ValidateOperation(t: OpType, i: Entry, j: Entry, k: Entry, rows: nat): (r: Result<Operation, OpError>)
    ensures r.Success? <==> IsRowIndex(i, rows) && (t != Scale ==> IsRowIndex(j, rows)) && (t != Swap ==> k.Some?)
    ensures r == Failure(InvalidRowI) <==> !IsRowIndex(i, rows)
    ensures r == Failure(InvalidRowJ) <==> IsRowIndex(i, rows) && t != Scale && !IsRowIndex(j, rows)
    ensures r.Success? ==>
      (&& Applicable(r.value, rows) && KindOf(r.value) == t
       && r.value.i as real == i.value
       && (t != Scale ==> r.value.j as real == j.value)
       && (t != Swap ==> r.value.k == k.value))
  {
    if !IsRowIndex(i, rows) then Failure(InvalidRowI)
    else if t != Scale && !IsRowIndex(j, rows) then Failure(InvalidRowJ)
    else if t != Swap && k.None? then Failure(InvalidMultiplier)
    else
      match t
      case Add => Success(RowAdd(ToIndex(i, rows), ToIndex(j, rows), k.value))
      case Scale => Success(RowScale(ToIndex(i, rows), k.value))
      case Swap => Success(RowSwap(ToIndex(i, rows), ToIndex(j, rows)))
  }

  // ---------------------------------------------------------------- validation as written

  /** The range test as the source writes it: a NaN compares false on both sides, and nothing asks
      for a whole number. */
  predicate OutOfRangeAsWritten(x: Entry, rows: nat)
  {
    x.Some? && (x.value < 0.0 || x.value >= rows as real)
  }

  /** `validateOperation` as written: `None` when it lets the operation through. */
  function ValidateOperationAsWritten(t: OpType, i: Entry, j: Entry, k: Entry, rows: nat): Option<OpError>
  {
    if OutOfRangeAsWritten(i, rows) then Some(InvalidRowI)
    else if t != Scale && OutOfRangeAsWritten(j, rows) then Some(InvalidRowJ)
    else if t != Swap && k.None? then Some(InvalidMultiplier)
    else None
  }

  /** On whole-number rows the validation as written and the validation with whole-number rows agree. */
  lemma AsWrittenAgreesOnWholeRows(t: OpType, i: Entry, j: Entry, k: Entry, rows: nat)
    requires i.Some? && i.value.Floor as real == i.value
    requires t != Scale ==> j.Some? && j.value.Floor as real == j.value
    ensures ValidateOperationAsWritten(t, i, j, k, rows).None? <==> ValidateOperation(t, i, j, k, rows).Success?
    ensures ValidateOperation(t, i, j, k, rows).Failure? ==>
      ValidateOperationAsWritten(t, i, j, k, rows) == Some(ValidateOperation(t, i, j, k, rows).error)
  {
  }

  /** The validation as written lets a fractional row and a NaN row through. */
  lemma AsWrittenAcceptsNonRows()
    ensures ValidateOperationAsWritten(Add, Some(0.5), Some(0.0), Some(1.0), 2).None?
    ensures ValidateOperation(Add, Some(0.5), Some(0.0), Some(1.0), 2) == Failure(InvalidRowI)
    ensures ValidateOperationAsWritten(Scale, None, None, Some(2.0), 2).None?
    ensures ValidateOperation(Scale, None, None, Some(2.0), 2) == Failure(InvalidRowI)
  {
    assert (0.5).Floor == 0;
  }

  // ---------------------------------------------------------------- the operations

  /** What an operation does to the matrix: add and scale rewrite row `i` column by column over the
      width of the first row; swap exchanges the two row references. No operation changes either
      dimension or any row other than the ones it names. */
  function ApplyOp(m: Matrix, op: Operation): (r: Matrix)
    requires Rectangular(m, Width(m)) && Applicable(op, |m|)
    ensures |r| == |m| && Width(r) == Width(m) && Rectangular(r, Width(m))
    ensures forall t :: 0 <= t < |m| && t != op.i && (op.RowScale? || t != op.j) ==> r[t] == m[t]
  {
    match op
    case RowAdd(i, j, k) => m[i := seq(Width(m), c requires 0 <= c < Width(m) => m[i][c] + k * m[j][c])]
    case RowScale(i, k) => m[i := seq(Width(m), c requires 0 <= c < Width(m) => m[i][c] * k)]
    case RowSwap(i, j) => SwapRows(m, i, j)
  }

  /** Adding a row to itself multiplies it by `1 + k`. */
  lemma AddToItself(m: Matrix, i: nat, k: real)
    requires Rectangular(m, Width(m)) && i < |m|
    ensures forall c :: 0 <= c < Width(m) ==> ApplyOp(m, RowAdd(i, i, k))[i][c] == (1.0 + k) * m[i][c]
  {
  }

  /** The operation that undoes `op` arithmetically, where there is one: subtracting what was added
      to another row, dividing by a non-zero factor, swapping back. */
  predicate Invertible(op: Operation)
  {
    match op
    case RowAdd(i, j, _) => i != j
    case RowScale(_, k) => k != 0.0
    case RowSwap(_, _) => true
  }

  function Inverse(op: Operation): (inv: Operation)
    requires Invertible(op)
    ensures inv.i == op.i && KindOf(inv) == KindOf(op) && (op.RowScale? || inv.j == op.j)
  {
    match op
    case RowAdd(i, j, k) => RowAdd(i, j, -k)
    case RowScale(i, k) => RowScale(i, 1.0 / k)
    case RowSwap(i, j) => RowSwap(i, j)
  }

  /** An invertible operation followed by its inverse gives the matrix back. */
  lemma ApplyInverse(m: Matrix, op: Operation)
    requires Rectangular(m, Width(m)) && Applicable(op, |m|) && Invertible(op)
    ensures Rectangular(ApplyOp(m, op), Width(ApplyOp(m, op))) && Applicable(Inverse(op), |ApplyOp(m, op)|)
    ensures ApplyOp(ApplyOp(m, op), Inverse(op)) == m
  {
    var a := ApplyOp(m, op);
    var b := ApplyOp(a, Inverse(op));
    match op {
      case RowAdd(i, j, k) =>
        assert a[j] == m[j];
        forall c | 0 <= c < Width(m)
          ensures b[i][c] == m[i][c]
        {
          assert b[i][c] == (m[i][c] + k * m[j][c]) + (-k) * m[j][c];
        }
        assert b[i] == m[i];
      case RowScale(i, k) =>
        forall c | 0 <= c < Width(m)
          ensures b[i][c] == m[i][c]
        {
          assert b[i][c] == (m[i][c] * k) * (1.0 / k);
        }
        assert b[i] == m[i];
      case RowSwap(i, j) =>
    }
    assert forall r :: 0 <= r < |m| ==> b[r] == m[r];
  }

  /** Scaling by zero forgets the row: whatever row `i` held, the result is the same. That is why
      `undo` restores a snapshot instead of inverting the operation. */
  lemma ScaleByZeroForgets(m: Matrix, i: nat, row: Row)
    requires Rectangular(m, Width(m)) && i < |m| && |row| == Width(m)
    ensures Rectangular(m[i := row], Width(m[i := row]))
    ensures ApplyOp(m[i := row], RowScale(i, 0.0)) == ApplyOp(m, RowScale(i, 0.0))
  {
    var n := m[i := row];
    assert Width(n) == Width(m);
    var x := ApplyOp(n, RowScale(i, 0.0));
    var y := ApplyOp(m, RowScale(i, 0.0));
    forall c | 0 <= c < Width(m)
      ensures x[i][c] == y[i][c]
    {
      assert x[i][c] == n[i][c] * 0.0 == 0.0;
    }
    assert x[i] == y[i];
  }

  // ---------------------------------------------------------------- the session

  /** `a` has the shape of `b`: as many rows, each as long as `b`'s first. */
  ghost predicate SameShape(a: Matrix, b: Matrix)
  {
    |a| == |b| && Width(a) == Width(b) && Rectangular(a, Width(b))
  }

  /** The matrices a session went through, from `original`, with the operations that led from each
      to the next: every matrix has the original's shape and each operation fits its matrix. */
  ghost predicate Trace(original: Matrix, states: seq<Matrix>, log: seq<Operation>)
  {
    && |states| == |log| + 1
    && Rectangular(original, Width(original))
    && (forall s :: 0 <= s < |states| ==> SameShape(states[s], original))
    && states[0] == original
    && (forall s :: 0 <= s < |log| ==>
          Applicable(log[s], |states[s]|) && ApplyOp(states[s], log[s]) == states[s + 1])
  }

  /** Applying an operation that fits the last matrix extends the trace. */
  lemma TraceExtend(original: Matrix, states: seq<Matrix>, log: seq<Operation>, last: Matrix, op: Operation)
    requires Trace(original, states, log) && last == states[|states| - 1] && Applicable(op, |last|)
    ensures Rectangular(last, Width(last))
    ensures Trace(original, states + [ApplyOp(last, op)], log + [op])
  {
    assert SameShape(last, original);
    var states' := states + [ApplyOp(last, op)];
    var log' := log + [op];
    forall s | 0 <= s < |log'|
      ensures Applicable(log'[s], |states'[s]|) && ApplyOp(states'[s], log'[s]) == states'[s + 1]
    {
      if s < |log| {
        assert states'[s] == states[s] && states'[s + 1] == states[s + 1];
      }
    }
  }

  /** Dropping the last operation and the matrix it produced leaves a trace. */
  lemma TraceDropLast(original: Matrix, states: seq<Matrix>, log: seq<Operation>)
    requires Trace(original, states, log) && |log| >= 1
    ensures Trace(original, states[..|states| - 1], log[..|log| - 1])
  {
  }

  /** What `checkRank` reports. */
  datatype Verdict = InvalidRank | Correct(rank: nat) | Incorrect(originalRank: nat, reducedRank: nat)

  class Workbench {
    /** `originalMatrix`: the matrix the session started from. */
    var original: Matrix
    /** `currentMatrix`: the matrix the operations rewrite. */
    var current: Matrix
    /** `history`: the matrix as it was before each operation not yet undone. */
    var history: seq<Matrix>
    /** `stepCount`: the number of the last logged step. */
    var stepCount: int
    /** The step log, one validated operation per entry. */
    var log: seq<Operation>

    /** The step counter, the snapshots and the log move together, and the snapshots followed by the
        current matrix trace the logged operations from the original. */
    ghost predicate Valid()
      reads this
    {
      && stepCount == |history| == |log|
      && Rectangular(current, Width(current))
      && Trace(original, history + [current], log)
    }

    /** The page before `start`: everything empty. */
    constructor ()
      ensures Valid()
      ensures original == [] && current == [] && history == [] && stepCount == 0 && log == []
    {
      original := [];
      current := [];
      history := [];
      stepCount := 0;
      log := [];
    }

    /** `start`: parse and validate the text; on success the session restarts from that matrix, on
        failure nothing changes. */
    method Start(input: string, toNumber: string -> Entry) returns (err: Option<MatrixError>)
      requires Valid()
      modifies this
      ensures Valid()
      ensures ValidateMatrix(ParseMatrix(input, toNumber)).Success? ==>
        (&& err == None
         && original == ValidateMatrix(ParseMatrix(input, toNumber)).value && current == original
         && history == [] && stepCount == 0 && log == [])
      ensures ValidateMatrix(ParseMatrix(input, toNumber)).Failure? ==>
        (&& err == Some(ValidateMatrix(ParseMatrix(input, toNumber)).error)
         && original == old(original) && current == old(current) && history == old(history)
         && stepCount == old(stepCount) && log == old(log))
    {
      var checked := ValidateMatrix(ParseMatrix(input, toNumber));
      if checked.Failure? {
        return Some(checked.error);
      }
      original := checked.value;
      current := original;
      history := [];
      stepCount := 0;
      log := [];
      err := None;
    }

    /** `applyOperation`: read the rows and the multiplier, validate, push a snapshot, rewrite the
        matrix and log the step; a rejected operation changes nothing. */
    method ApplyOperation(t: OpType, rowI: string, rowJ: string, multiplier: string, toNumber: string -> Entry)
      returns (err: Option<OpError>)
      requires Valid()
      modifies this
      ensures Valid() && original == old(original)
      ensures
        var checked := ValidateOperation(t, ZeroBased(toNumber(rowI)), ZeroBased(toNumber(rowJ)),
                                         MultiplierOf(multiplier, toNumber), |old(current)|);
        && (checked.Success? ==>
              && err == None
              && history == old(history) + [old(current)]
              && current == ApplyOp(old(current), checked.value)
              && stepCount == old(stepCount) + 1
              && log == old(log) + [checked.value])
        && (checked.Failure? ==>
              && err == Some(checked.error)
              && current == old(current) && history == old(history)
              && stepCount == old(stepCount) && log == old(log))
    {
      var i := ZeroBased(toNumber(rowI));
      var j := ZeroBased(toNumber(rowJ));
      var k := MultiplierOf(multiplier, toNumber);
      var checked := ValidateOperation(t, i, j, k, |current|);
      if checked.Failure? {
        return Some(checked.error);
      }
      var op := checked.value;
      TraceExtend(original, history + [current], log, current, op);
      history := history + [current];
      match op {
        case RowAdd(i, j, k) => AddRowInPlace(i, j, k);
        case RowScale(i, k) => ScaleRowInPlace(i, k);
        case RowSwap(i, j) => current := SwapRows(current, i, j);
      }
      stepCount := stepCount + 1;
      log := log + [op];
      err := None;
    }

    /** The add loop: column by column, row `i` gains `k` times row `j`. */
    method AddRowInPlace(i: nat, j: nat, k: real)
      requires Rectangular(current, Width(current)) && i < |current| && j < |current|
      modifies this`current
      ensures current == ApplyOp(old(current), RowAdd(i, j, k))
    {
      ghost var m := current;
      ghost var target := ApplyOp(m, RowAdd(i, j, k))[i];
      var c := 0;
      while c < |current[0]|
        invariant |current| == |m| && current == m[i := current[i]]
        invariant c <= Width(m) && |current[0]| == Width(m)
        invariant |current[i]| == Width(m)
        invariant forall d :: 0 <= d < c ==> current[i][d] == target[d]
        invariant forall d :: c <= d < Width(m) ==> current[i][d] == m[i][d]
      {
        current := current[i := current[i][c := current[i][c] + k * current[j][c]]];
        c := c + 1;
      }
      assert current[i] == target;
    }

    /** The scale loop: column by column, row `i` is multiplied by `k`. */
    method ScaleRowInPlace(i: nat, k: real)
      requires Rectangular(current, Width(current)) && i < |current|
      modifies this`current
      ensures current == ApplyOp(old(current), RowScale(i, k))
    {
      ghost var m := current;
      ghost var target := ApplyOp(m, RowScale(i, k))[i];
      var c := 0;
      while c < |current[0]|
        invariant |current| == |m| && current == m[i := current[i]]
        invariant c <= Width(m) && |current[0]| == Width(m)
        invariant |current[i]| == Width(m)
        invariant forall d :: 0 <= d < c ==> current[i][d] == target[d]
        invariant forall d :: c <= d < Width(m) ==> current[i][d] == m[i][d]
      {
        current := current[i := current[i][c := current[i][c] * k]];
        c := c + 1;
      }
      assert current[i] == target;
    }

    /** `undo`: with a snapshot on the stack, the matrix goes back to it and the step is dropped;
        with none, nothing changes. */
    method Undo()
      requires Valid()
      modifies this
      ensures Valid() && original == old(original)
      ensures old(history) != [] ==>
        (&& current == old(history)[|old(history)| - 1]
         && history == old(history)[..|old(history)| - 1]
         && stepCount == old(stepCount) - 1
         && log == old(log)[..|old(log)| - 1])
      ensures old(history) == [] ==>
        current == old(current) && history == old(history) && stepCount == old(stepCount) && log == old(log)
    {
      if |history| > 0 {
        ghost var before := history + [current];
        TraceDropLast(original, before, log);
        current := history[|history| - 1];
        history := history[..|history| - 1];
        log := log[..|log| - 1];
        stepCount := stepCount - 1;
        assert history + [current] == before[..|before| - 1];
        assert SameShape(before[|before| - 2], original);
      }
    }

    /** `checkRank`: a NaN answer is refused; otherwise the answer is right when it equals both the
        rank of the original and the rank of the reduced matrix. Both ranks are computed on copies,
        so neither matrix of the session changes. */
    method CheckRank(answer: string, toNumber: string -> Entry) returns (v: Verdict)
      requires Valid() && |original| >= 1
      ensures toNumber(answer).None? <==> v == InvalidRank
      ensures v.Correct? <==>
        toNumber(answer) == Some(Rank(original) as real) && Rank(original) == Rank(current)
      ensures v.Correct? ==> v.rank == Rank(original)
      ensures v.Incorrect? ==> v.originalRank == Rank(original) && v.reducedRank == Rank(current)
    {
      var userRank := toNumber(answer);
      if userRank.None? {
        return InvalidRank;
      }
      assert SameShape((history + [current])[|history|], original);
      var a := CloneToArray(original);
      var originalRank := GetRank(a);
      var b := CloneToArray(current);
      var reducedRank := GetRank(b);
      if userRank.value == originalRank as real && userRank.value == reducedRank as real {
        v := Correct(originalRank);
      } else {
        v := Incorrect(originalRank, reducedRank);
      }
    }
  }

  /** `clone`: a fresh array holding the rows of `m`, for `getRank` to rewrite. */
  method CloneToArray(m: Matrix) returns (a: array<Row>)
    ensures fresh(a) && a[..] == m
  {
    a := new Row[|m|](r requires 0 <= r < |m| => m[r]);
  }

  /** `showDirectRank`: the rank of the matrix in the text, or why the text is not a matrix. */
  method DirectRank(input: string, toNumber: string -> Entry) returns (r: Result<nat, MatrixError>)
    ensures ValidateMatrix(ParseMatrix(input, toNumber)).Failure? ==>
      r == Failure(ValidateMatrix(ParseMatrix(input, toNumber)).error)
    ensures ValidateMatrix(ParseMatrix(input, toNumber)).Success? ==>
      (&& r == Success(Rank(ValidateMatrix(ParseMatrix(input, toNumber)).value))
       && r.value <= |ValidateMatrix(ParseMatrix(input, toNumber)).value|
       && r.value <= Width(ValidateMatrix(ParseMatrix(input, toNumber)).value))
  {
    var checked := ValidateMatrix(ParseMatrix(input, toNumber));
    if checked.Failure? {
      return Failure(checked.error);
    }
    var m := checked.value;
    var a := CloneToArray(m);
    var rank := GetRank(a);
    r := Success(rank);
  }

  /** An operation that goes through, followed by `undo`, leaves the session as it was. */
  method ApplyThenUndo(w: Workbench, t: OpType, rowI: string, rowJ: string, multiplier: string,
                       toNumber: string -> Entry) returns (err: Option<OpError>)
    requires w.Valid()
    modifies w
    ensures w.Valid()
    ensures err == None ==>
      w.current == old(w.current) && w.history == old(w.history) && w.stepCount == old(w.stepCount)
      && w.log == old(w.log)
  {
    err := w.ApplyOperation(t, rowI, rowJ, multiplier, toNumber);
    if err == None {
      w.Undo();
    }
  }

  // ---------------------------------------------------------------- the session as written

  /** The session's fields as `start`, `applyOperation` and `undo` as written leave them; the
      original is kept as parsed, NaN and all. */
  datatype SessionAsWritten = SessionAsWritten(original: RawMatrix, current: Matrix, history: seq<Matrix>, stepCount: int, log: seq<Operation>)

  /** `start` as written: the parsed text is stored as the original before it is validated. */
  function StartAsWritten(s: SessionAsWritten, input: string, toNumber: string -> Entry): (SessionAsWritten, Option<MatrixError>)
  {
    var parsed := ParseMatrix(input, toNumber);
    match ValidateMatrix(parsed)
    case Failure(e) => (s.(original := parsed), Some(e))
    case Success(m) => (SessionAsWritten(parsed, m, [], 0, []), None)
  }

  /** Blank text parses to no rows at all. */
  lemma ParseBlank(toNumber: string -> Entry)
    ensures ParseMatrix("", toNumber) == []
  {
    assert Text.Trim("") == "";
    Text.SplitLinesNoBreak("");
    Text.NonBlankSingle("");
  }

  /** A rejected text still replaces the original the rank check compares against, while the
      operations go on from the old matrix: started on the identity, a blank text leaves an empty
      original next to the identity as current matrix. */
  lemma StartAsWrittenReplacesOriginal(toNumber: string -> Entry)
    ensures
      var s := SessionAsWritten(Embed([[1.0, 0.0], [0.0, 1.0]]), [[1.0, 0.0], [0.0, 1.0]], [], 0, []);
      var (after, err) := StartAsWritten(s, "", toNumber);
      err == Some(EmptyMatrix) && after.original == [] && after.current == s.current
  {
    ParseBlank(toNumber);
  }

  /** `applyOperation` as written, for a validation that lets the operation through: the snapshot is
      pushed first; add and scale then fail on a row that does not exist, with nothing else changed.
      (`None` for a swap on such a row, which leaves an undefined entry in the matrix.) */
  function ApplyOperationAsWritten(s: SessionAsWritten, t: OpType, i: Entry, j: Entry, k: Entry): Option<SessionAsWritten>
    requires Rectangular(s.current, Width(s.current))
  {
    if ValidateOperationAsWritten(t, i, j, k, |s.current|).Some? then Some(s)
    else
      match ValidateOperation(t, i, j, k, |s.current|)
      case Success(op) =>
        Some(s.(current := ApplyOp(s.current, op), history := s.history + [s.current],
                stepCount := s.stepCount + 1, log := s.log + [op]))
      case Failure(_) => if t == Swap then None else Some(s.(history := s.history + [s.current]))
  }

  /** Row "1.5" makes the as-written session push a snapshot without counting a step, so the step
      counter and the snapshot stack part ways. */
  lemma AsWrittenStepCountDrifts()
    ensures
      var s := SessionAsWritten(Embed([[1.0]]), [[1.0]], [], 0, []);
      var after := ApplyOperationAsWritten(s, Add, Some(0.5), Some(0.0), Some(1.0));
      after.Some? && |after.value.history| == 1 && after.value.stepCount == 0
  {
    AsWrittenAcceptsNonRows();
    assert (0.5).Floor == 0;
  }

  /** `undo` as written: with a snapshot on the stack, the matrix goes back to it, the last log
      entry (if any) is removed and the counter drops by one, whether or not that snapshot was
      logged. */
  function UndoAsWritten(s: SessionAsWritten): (r: SessionAsWritten)
    ensures s.history != [] ==> r.stepCount == s.stepCount - 1 && |r.history| == |s.history| - 1
    ensures s.history == [] ==> r == s
  {
    if s.history == [] then s
    else
      s.(current := s.history[|s.history| - 1], history := s.history[..|s.history| - 1],
         stepCount := s.stepCount - 1, log := if s.log == [] then [] else s.log[..|s.log| - 1])
  }

  /** After one real step (row 1 scaled by 2) and the add on row "1.5", the first undo pops the
      snapshot the add pushed but removes the scale's log entry, so the scaled matrix stays on
      screen with an empty log; the second undo takes the step counter to -1. */
  lemma AsWrittenUndoUnderflows()
    ensures
      var s0 := SessionAsWritten(Embed([[1.0]]), [[1.0]], [], 0, []);
      var s1 := ApplyOperationAsWritten(s0, Scale, Some(0.0), Some(-1.0), Some(2.0));
      s1.Some? && s1.value.stepCount == 1 && |s1.value.log| == 1 &&
      var s2 := ApplyOperationAsWritten(s1.value, Add, Some(0.5), Some(0.0), Some(1.0));
      s2.Some? && |s2.value.history| == 2 && s2.value.stepCount == 1 &&
      var s3 := UndoAsWritten(s2.value);
      s3.current == s1.value.current != s0.current && s3.log == [] && s3.stepCount == 0 &&
      UndoAsWritten(s3).stepCount == -1
  {
    AsWrittenAcceptsNonRows();
    assert (0.5).Floor == 0;
    assert (0.0).Floor == 0;
    assert ValidateOperation(Scale, Some(0.0), Some(-1.0), Some(2.0), 1) == Success(RowScale(0, 2.0));
    assert ApplyOp([[1.0]], RowScale(0, 2.0))[0][0] == 2.0;
  }
}
