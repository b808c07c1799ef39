/** Reading the workbench's matrix: `parseMatrix` turns the text into rows of numbers (NaN
    where a token is not a number) and `validateMatrix` accepts only a non-empty, rectangular
    matrix without NaN. */
module RankInput {
  import opened Wrappers
  import opened Text
  import opened Matrices

  /** A token read by `Number`: `None` stands for NaN. */
  type Entry = Option<real>

  /** The rows `parseMatrix` produces, before validation. */
  type RawMatrix = seq<seq<Entry>>

  /** One line's tokens, as `split(/\s+/)` cuts them, each read by `toNumber`: one entry per token,
      and never none, since even an empty line is one (empty) token. */
  function ParseRow(line: string, toNumber: string -> Entry): (row: seq<Entry>)
    ensures |row| == |SplitWhitespace(line)| >= 1
  {
    var tokens := SplitWhitespace(line);
    seq(|tokens|, k requires 0 <= k < |tokens| => toNumber(tokens[k]))
  }

  /** `parseMatrix`: trim the text, cut it at newlines, trim each line, drop the empty ones and
      read the tokens of each remaining line. No row comes out empty. */
  function ParseMatrix(input: string, toNumber: string -> Entry): (rows: RawMatrix)
    ensures forall r :: 0 <= r < |rows| ==> |rows[r]| >= 1
  {
    var lines := NonBlank(SplitLines(Trim(input)));
    seq(|lines|, r requires 0 <= r < |lines| => ParseRow(lines[r], toNumber))
  }

  /** A trimmed line gives at least one token; the tokens are non-empty, hold no white space and
      spell the line's other characters in order. */
  lemma ParseRowTokens(line: string, toNumber: string -> Entry)
    requires IsTrimmedLine(line)
    ensures |ParseRow(line, toNumber)| == |SplitWhitespace(line)| >= 1
    ensures forall k :: 0 <= k < |SplitWhitespace(line)| ==> IsField(SplitWhitespace(line)[k])
    ensures Concat(SplitWhitespace(line)) == RemoveWhitespace(line)
  {
    SplitWhitespaceFields(line);
    SplitWhitespaceNonEmpty(line);
  }

  /** One row per line of the input that is not blank, in input order, each read from that line
      trimmed; no row is empty. Trimming the whole text first changes nothing. */
  lemma ParseMatrixRows(input: string, toNumber: string -> Entry)
    ensures |ParseMatrix(input, toNumber)| == |NonBlank(SplitLines(input))| <= |SplitLines(input)|
    ensures forall r :: 0 <= r < |ParseMatrix(input, toNumber)| ==>
      && IsTrimmedLine(NonBlank(SplitLines(input))[r])
      && ParseMatrix(input, toNumber)[r] == ParseRow(NonBlank(SplitLines(input))[r], toNumber)
      && |ParseMatrix(input, toNumber)[r]| >= 1
  {
    NonBlankOfTrimmed(input);
    NonBlankRows(SplitLines(input));
  }

  /** Rows of tokens written out, one line per row with the tokens separated by spaces. */
  function FormatMatrix(rows: seq<seq<string>>): string
    requires |rows| >= 1 && forall r :: 0 <= r < |rows| ==> |rows[r]| >= 1
  {
    JoinLines(seq(|rows|, r requires 0 <= r < |rows| => JoinFields(rows[r])))
  }

  /** The lines of written-out rows come back from the text unchanged, blank-line filter and all. */
  lemma FormatLinesBack(rows: seq<seq<string>>)
    requires |rows| >= 1 && forall r :: 0 <= r < |rows| ==> |rows[r]| >= 1
    requires forall r, k :: 0 <= r < |rows| && 0 <= k < |rows[r]| ==> IsField(rows[r][k])
    ensures NonBlank(SplitLines(Trim(FormatMatrix(rows))))
         == seq(|rows|, r requires 0 <= r < |rows| => JoinFields(rows[r]))
  {
    var lines := seq(|rows|, r requires 0 <= r < |rows| => JoinFields(rows[r]));
    forall r | 0 <= r < |rows|
      ensures IsTrimmedLine(lines[r]) && '\n' !in lines[r]
    {
      JoinFieldsShape(rows[r]);
    }
    var text := JoinLines(lines);
    JoinLinesEnds(lines);
    TrimOfTrimmed(text);
    SplitJoinLines(lines);
    NonBlankOfTrimmedLines(lines);
  }

  /** Reading back written-out rows gives every token back in its place: the text format round-trips. */
  lemma ParseFormat(rows: seq<seq<string>>, toNumber: string -> Entry)
    requires |rows| >= 1 && forall r :: 0 <= r < |rows| ==> |rows[r]| >= 1
    requires forall r, k :: 0 <= r < |rows| && 0 <= k < |rows[r]| ==> IsField(rows[r][k])
    ensures |ParseMatrix(FormatMatrix(rows), toNumber)| == |rows|
    ensures forall r :: 0 <= r < |rows| ==> |ParseMatrix(FormatMatrix(rows), toNumber)[r]| == |rows[r]|
    ensures forall r, k :: 0 <= r < |rows| && 0 <= k < |rows[r]| ==>
      ParseMatrix(FormatMatrix(rows), toNumber)[r][k] == toNumber(rows[r][k])
  {
    FormatLinesBack(rows);
    forall r | 0 <= r < |rows|
      ensures SplitWhitespace(JoinFields(rows[r])) == rows[r]
    {
      SplitJoinFields(rows[r]);
    }
  }

  /** Why `validateMatrix` throws. */
  datatype MatrixError = EmptyMatrix | InvalidFormat

  /** The text `validateMatrix` throws with for each error. */
  function MatrixErrorMessage(e: MatrixError): string
  {
    match e
    case EmptyMatrix => "Matrix cannot be empty."
    case InvalidFormat => "Invalid matrix format."
  }

  /** The message shown tells the two validation failures apart. */
  lemma MatrixErrorMessagesDistinct(a: MatrixError, b: MatrixError)
    ensures MatrixErrorMessage(a) == MatrixErrorMessage(b) <==> a == b
  {
    assert MatrixErrorMessage(EmptyMatrix)[0] != MatrixErrorMessage(InvalidFormat)[0];
  }

  /** Some row differs in length from the first, or holds a NaN. */
  predicate Malformed(rows: RawMatrix)
    requires |rows| >= 1
  {
    exists r :: 0 <= r < |rows| && (|rows[r]| != |rows[0]| || exists c :: 0 <= c < |rows[r]| && rows[r][c].None?)
  }

  /** The numbers of a matrix known to hold no NaN. */
  function Values(rows: RawMatrix): Matrix
    requires forall r, c :: 0 <= r < |rows| && 0 <= c < |rows[r]| ==> rows[r][c].Some?
  {
    seq(|rows|, r requires 0 <= r < |rows| => seq(|rows[r]|, c requires 0 <= c < |rows[r]| => rows[r][c].value))
  }

  /** `validateMatrix`: succeeds, with the numbers, exactly when there is a row, every row is as
      long as the first and no entry is NaN; the empty matrix and the malformed one fail with
      their own errors. */
  function ValidateMatrix(rows: RawMatrix): (res: Result<Matrix, MatrixError>)
    ensures res.Success? <==>
      (&& |rows| >= 1
       && (forall r :: 0 <= r < |rows| ==> |rows[r]| == |rows[0]|)
       && (forall r, c :: 0 <= r < |rows| && 0 <= c < |rows[r]| ==> rows[r][c].Some?))
    ensures res == Failure(EmptyMatrix) <==> |rows| == 0
    ensures res.Success? ==>
      (&& |res.value| == |rows| && Rectangular(res.value, |rows[0]|)
       && Width(res.value) == |rows[0]|
       && forall r, c :: 0 <= r < |rows| && 0 <= c < |rows[r]| ==> rows[r][c] == Some(res.value[r][c]))
  {
    if |rows| == 0 then Failure(EmptyMatrix)
    else if Malformed(rows) then Failure(InvalidFormat)
    else Success(Values(rows))
  }

  /** A matrix of numbers, each one as a parsed entry. */
  function Embed(m: Matrix): RawMatrix
  {
    seq(|m|, r requires 0 <= r < |m| => seq(|m[r]|, c requires 0 <= c < |m[r]| => Some(m[r][c])))
  }

  /** Validation accepts every non-empty rectangular matrix of numbers and gives it back unchanged. */
  lemma ValidateEmbed(m: Matrix)
    requires |m| >= 1 && Rectangular(m, Width(m))
    ensures ValidateMatrix(Embed(m)) == Success(m)
  {
    var e := Embed(m);
    assert forall r :: 0 <= r < |m| ==> |e[r]| == |m[r]| == |e[0]|;
    assert forall r, c :: 0 <= r < |e| && 0 <= c < |e[r]| ==> e[r][c] == Some(m[r][c]);
    assert ValidateMatrix(e).Success?;
    var v := ValidateMatrix(e).value;
    forall r | 0 <= r < |m|
      ensures v[r] == m[r]
    {
      assert forall c :: 0 <= c < |m[r]| ==> e[r][c] == Some(m[r][c]) == Some(v[r][c]);
    }
    assert v == m;
  }

  /** A matrix that passes validation after parsing has at least one column. */
  lemma ValidParsedHasColumns(input: string, toNumber: string -> Entry)
    requires ValidateMatrix(ParseMatrix(input, toNumber)).Success?
    ensures Width(ValidateMatrix(ParseMatrix(input, toNumber)).value) >= 1
  {
    ParseMatrixRows(input, toNumber);
  }
}
