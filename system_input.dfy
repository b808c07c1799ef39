/** Reading the augmented matrix of a linear system: the solver's own `parseMatrix`, which keeps
    the lines that are not blank, reads every token as a number and refuses a NaN, but does not
    compare row lengths. */
module SystemInput {
  import opened Wrappers
  import opened Text
  import opened Matrices
  import opened RankInput

  /** Why the solver's `parseMatrix` throws. */
  datatype SystemError = NoRows | NotANumber

  /** The text the solver's `parseMatrix` throws with for each error. */
  function SystemErrorMessage(e: SystemError): string
  {
    match e
    case NoRows => "Matrix cannot be empty."
    case NotANumber => "Matrix must contain only numbers."
  }

  /** The two parse failures have different messages, and an empty system is reported in the same
      words as an empty matrix in the rank workbench. */
  lemma SystemErrorMessages(a: SystemError, b: SystemError)
    ensures SystemErrorMessage(a) == SystemErrorMessage(b) <==> a == b
    ensures SystemErrorMessage(NoRows) == MatrixErrorMessage(EmptyMatrix)
  {
    assert SystemErrorMessage(NoRows)[7] != SystemErrorMessage(NotANumber)[7];
  }

  /** `filter(r => r.trim() !== '')`: the lines that are not blank, kept as they were. */
  function KeepNonBlank(lines: seq<string>): seq<string>
  {
    if lines == [] then []
    else (if Trim(lines[0]) == [] then [] else [lines[0]]) + KeepNonBlank(lines[1..])
  }

  /** The rows before the NaN test: each kept line trimmed and cut at white space. */
  function SystemRows(input: string, toNumber: string -> Entry): RawMatrix
  {
    var lines := KeepNonBlank(SplitLines(Trim(input)));
    seq(|lines|, r requires 0 <= r < |lines| => ParseRow(Trim(lines[r]), toNumber))
  }

  /** Filtering on the trimmed line and trimming afterwards keeps the same lines as trimming first. */
  lemma {:induction false} KeepNonBlankTrimmed(lines: seq<string>)
    ensures |KeepNonBlank(lines)| == |NonBlank(lines)|
    ensures forall r :: 0 <= r < |NonBlank(lines)| ==> Trim(KeepNonBlank(lines)[r]) == NonBlank(lines)[r]
  {
    if lines != [] {
      KeepNonBlankTrimmed(lines[1..]);
      NonBlankCons(lines[0], lines[1..]);
      assert [lines[0]] + lines[1..] == lines;
    }
  }

  /** The solver reads exactly the rows the rank workbench reads from the same text. */
  lemma SameRowsAsWorkbench(input: string, toNumber: string -> Entry)
    ensures SystemRows(input, toNumber) == ParseMatrix(input, toNumber)
  {
    KeepNonBlankTrimmed(SplitLines(Trim(input)));
  }

  /** Some entry of the rows is NaN. */
  predicate HasNaN(rows: RawMatrix)
  {
    exists r, c :: 0 <= r < |rows| && 0 <= c < |rows[r]| && rows[r][c].None?
  }

  /** `parseMatrix` of the solver: no kept line is an error, then a NaN anywhere is an error;
      otherwise the numbers, row by row, whatever their lengths. */
  function ParseSystem(input: string, toNumber: string -> Entry): (res: Result<Matrix, SystemError>)
    ensures res == Failure(NoRows) <==> |SystemRows(input, toNumber)| == 0
    ensures res == Failure(NotANumber) <==> |SystemRows(input, toNumber)| >= 1 && HasNaN(SystemRows(input, toNumber))
    ensures res.Success? ==>
      (&& |res.value| == |SystemRows(input, toNumber)|
       && forall r :: 0 <= r < |res.value| ==>
            |res.value[r]| == |SystemRows(input, toNumber)[r]|
            && forall c :: 0 <= c < |res.value[r]| ==> SystemRows(input, toNumber)[r][c] == Some(res.value[r][c]))
  {
    var rows := SystemRows(input, toNumber);
    if |rows| == 0 then Failure(NoRows)
    else if HasNaN(rows) then Failure(NotANumber)
    else Success(Values(rows))
  }

  /** Every row the solver accepts has at least one entry. */
  lemma ParsedRowsNonEmpty(input: string, toNumber: string -> Entry)
    requires ParseSystem(input, toNumber).Success?
    ensures forall r :: 0 <= r < |ParseSystem(input, toNumber).value| ==> |ParseSystem(input, toNumber).value[r]| >= 1
  {
    SameRowsAsWorkbench(input, toNumber);
    ParseMatrixRows(input, toNumber);
  }

  /** Rows of number tokens written one per line come back with their own lengths, equal or not:
      nothing in the solver's parser rejects a ragged matrix. */
  lemma ParseSystemFormat(rows: seq<seq<string>>, toNumber: string -> Entry)
    requires |rows| >= 1 && forall r :: 0 <= r < |rows| ==> |rows[r]| >= 1
    requires forall r, k :: 0 <= r < |rows| && 0 <= k < |rows[r]| ==> IsField(rows[r][k])
    requires forall r, k :: 0 <= r < |rows| && 0 <= k < |rows[r]| ==> toNumber(rows[r][k]).Some?
    ensures ParseSystem(FormatMatrix(rows), toNumber).Success?
    ensures |ParseSystem(FormatMatrix(rows), toNumber).value| == |rows|
    ensures forall r :: 0 <= r < |rows| ==> |ParseSystem(FormatMatrix(rows), toNumber).value[r]| == |rows[r]|
  {
    var text := FormatMatrix(rows);
    SameRowsAsWorkbench(text, toNumber);
    ParseFormat(rows, toNumber);
    var parsed := SystemRows(text, toNumber);
    assert !HasNaN(parsed) by {
      forall r, c | 0 <= r < |parsed| && 0 <= c < |parsed[r]|
        ensures parsed[r][c].Some?
      {
        assert parsed[r][c] == toNumber(rows[r][c]);
      }
    }
  }
}
