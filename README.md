# Matrix rank workbench and linear-system solver, in Dafny

This project models the numeric core of a linear-algebra teaching tool. It covers two engines.

**The rank workbench** (`rank-calculator.js`):
- It reads a matrix from text and validates it.
- It keeps a session: the original matrix, the matrix being reduced, a stack of snapshots for `undo`, and a step counter.
- It applies the three elementary row operations (add a multiple of a row, scale a row, swap two rows), each validated first.
- It computes ranks by forward elimination with first-row pivoting and tolerance `1e-8`.
- It judges the user's answer for the rank.

**The linear-system solver** (`system.js`):
- It reads an augmented matrix; the last column holds the constants.
- It reduces it by Gauss–Jordan elimination with largest-magnitude pivoting and tolerance `1e-10`.
- It classifies the system as having no solution, infinitely many, or a unique one, and reads off the unique solution.

Modules:
- `Wrappers`: `Option` and `Result`.
- `Matrices`: rows, matrices, row swap and row subtraction. The innermost in-place subtraction loop is shared by both eliminations.
- `Text`: JavaScript's `trim`, `split("\n")` and `split(/\s+/)`, with the JavaScript white-space set written out.
- `RankInput`: the workbench's `parseMatrix` and `validateMatrix`.
- `RankEngine`: `getRank`.
- `RankWorkbench`: `validateOperation`, the session class `Workbench`, `checkRank` and `showDirectRank`.
- `SystemInput`: the solver's `parseMatrix`.
- `SystemSolver`: `gaussianElimination`.

Modelling choices:
- **Numbers.** JavaScript numbers are `real`, and NaN is `None`.
- **Number conversion.** `Number(text)` is a parameter `toNumber: string -> Option<real>`.
- **Elimination routines.** Both work in place on an `array<Row>`. Each is proved against a function that specifies it. That function's properties are proved separately: tolerance echelon form for the rank, reduced row-echelon form and the classification for the solver.
- **Session.** The session is a class whose fields the methods reassign. Its invariant says three things:
  - the step counter, the snapshots and the step log have equal length;
  - every matrix has the original's shape;
  - the snapshots, followed by the current matrix, are the trace of the logged operations from the original.

Two facts about the code shape the model:
- **The rank engine's skip test.** `getRank` searches for a pivot with `>` against `1e-8` (rank-calculator.js:276) but skips the column with `<` against `1e-8` (rank-calculator.js:282). So an entry of exactly `1e-8` becomes a pivot only when it already sits at the current row (`RankEngine.ToleranceBoundary`).
- **Validation before any change.** The code checks its inputs before it changes anything: `validateOperation` runs before `history.push` (rank-calculator.js:102-104). There are two exceptions, listed under Findings.

## Model

| member | source | states |
|---|---|---|
| `Matrices.SwapRows` | rank-calculator.js:284 | rows `a` and `b` trade places, every other row is unchanged, and the rows are a permutation of the old ones |
| `Matrices.SubtractScaled` | rank-calculator.js:288-290 | the columns before `col` are kept, and the factor `r[col] / p[col]` that both eliminations use leaves an exact 0 in column `col` |
| `Matrices.SubtractRow` | rank-calculator.js:287-291 | the in-place column loop leaves row `t` equal to `SubtractScaled` of the old rows and every other row untouched |
| `Text.TrimResult` | rank-calculator.js:255 | `trim` gives the empty string exactly when the text is all white space, and otherwise a line that neither starts nor ends with white space |
| `Text.TrimSplits` | rank-calculator.js:255 | the text is leading white space, then its trim, then trailing white space |
| `Text.Trim` | rank-calculator.js:255 | `String.prototype.trim`: the text with its leading and trailing JavaScript white space removed; what it promises is stated by `Text.TrimResult` and `Text.TrimSplits` |
| `Text.TrimPadLeft` | rank-calculator.js:255-257 | leading white space does not change what `trim` returns |
| `Text.TrimPadRight` | rank-calculator.js:255-257 | trailing white space does not change what `trim` returns |
| `Text.SplitLines` | rank-calculator.js:256 | `split("\n")`: the text cut at every newline, the newlines dropped; its round trip is `Text.SplitLinesJoin` and `Text.SplitJoinLines` |
| `Text.SplitLinesJoin` | rank-calculator.js:256 | `split("\n")` gives at least one piece, no piece holds a newline, and joining the pieces with newlines gives the text back |
| `Text.SplitJoinLines` | rank-calculator.js:256 | splitting newline-joined lines that hold no newline gives the same lines back |
| `Text.NonBlank` | rank-calculator.js:257-258 | `map(r => r.trim()).filter(r => r !== "")`: every line trimmed, the empty ones dropped, in order; stated by `Text.NonBlankRows` and `Text.NonBlankAppend` |
| `Text.NonBlankRows` | rank-calculator.js:257-258 | the lines kept after trimming and dropping empty ones are no more than the lines, and each is a non-empty trimmed line |
| `Text.NonBlankAppend` | rank-calculator.js:257-258 | the filter works line by line and keeps input order: filtering two blocks of lines is filtering each one |
| `Text.NonBlankOfTrimmed` | rank-calculator.js:255-258 | trimming the whole text before cutting it into lines keeps exactly the same non-blank lines |
| `Text.SplitWhitespace` | rank-calculator.js:259 | `split(/\s+/)`: where it cuts is stated by `Text.SplitJoinWith` (each maximal white-space run, of any length and mix, is exactly one cut); what the pieces hold is stated by `Text.SplitWhitespaceFields` and `Text.SplitWhitespaceNonEmpty` |
| `Text.SplitWhitespaceFields` | rank-calculator.js:259 | `split(/\s+/)` gives at least one piece, the pieces hold no white space, and together they spell every other character of the line in order |
| `Text.SplitWhitespaceNonEmpty` | rank-calculator.js:259 | on a trimmed line no piece of `split(/\s+/)` is empty |
| `Text.SplitJoinFields` | rank-calculator.js:259 | non-empty tokens without white space, joined by spaces, split back into the same tokens |
| `Text.SplitJoinWith` | rank-calculator.js:259 | non-empty tokens without white space, joined by any non-empty white-space runs (so `1\t\t2   3`), split back into the same tokens, one per field |
| `RankInput.ParseRow` | rank-calculator.js:259 | one entry per `split(/\s+/)` token, read by `Number`, and never none: an empty line is one empty token |
| `RankInput.ParseMatrix` | rank-calculator.js:254-260 | `parseMatrix`: trim, cut at newlines, trim each line, drop the empty ones, read the tokens of the rest; no row comes out empty |
| `RankInput.ParseRowTokens` | rank-calculator.js:259 | a trimmed line gives at least one entry, one per token, and the tokens are non-empty and free of white space |
| `RankInput.ParseMatrixRows` | rank-calculator.js:254-260 | one row per line that is not blank after trimming, in input order, each read from its trimmed line, and no row is empty |
| `RankInput.ParseFormat` | rank-calculator.js:254-260 | rows of number tokens written one line per row are read back with every token in its place |
| `RankInput.ValidateMatrix` | rank-calculator.js:228-236 | succeeds exactly when there is a row, every row is as long as the first and no entry is NaN; fails with the empty-matrix error exactly on no rows, and with the format error otherwise; on success it gives back the same numbers with the first row's width |
| `RankInput.MatrixErrorMessage` | rank-calculator.js:229-235 | the text thrown for each validation error: "Matrix cannot be empty." and "Invalid matrix format." |
| `RankInput.MatrixErrorMessagesDistinct` | rank-calculator.js:229-235 | two validation errors have the same message exactly when they are the same error |
| `RankInput.ValidateEmbed` | rank-calculator.js:228-236 | every non-empty rectangular matrix of numbers passes validation unchanged |
| `RankInput.ValidParsedHasColumns` | rank-calculator.js:254-260 | a parsed text that passes validation has at least one column |
| `RankEngine.FirstAbove` | rank-calculator.js:275-280 | the search returns the first row from `row` on whose entry exceeds the tolerance, or the row count when there is none |
| `RankEngine.PivotRow` | rank-calculator.js:273-280 | the pivot candidate is at or below the current row; the rows between are within the tolerance; either it is above the tolerance or the whole column from the current row down is within it |
| `RankEngine.EliminateBelow` | rank-calculator.js:286-291 | the elimination below the pivot keeps the row count and width; what it does row by row is `RankEngine.EliminateBelowRows` |
| `RankEngine.SkippedColumnIsSmall` | rank-calculator.js:282 | when a column is skipped, every entry at or below the current row is within the tolerance |
| `RankEngine.EliminateBelowRows` | rank-calculator.js:286-291 | elimination leaves the pivot row and the rows above it alone, keeps the columns before `col`, and puts an exact 0 under the pivot |
| `RankEngine.SkipKeepsEchelon` | rank-calculator.js:282 | skipping a column keeps the tolerance echelon form and extends it by that column |
| `RankEngine.SwapKeepsEchelon` | rank-calculator.js:284 | bringing the pivot row up keeps the echelon form of the rows already reduced |
| `RankEngine.PivotKeepsEchelon` | rank-calculator.js:286-294 | after elimination under a pivot the form holds with one more pivot column |
| `RankEngine.StepKeepsEchelon` | rank-calculator.js:282-294 | a pivot step from the search result keeps the form with the new pivot |
| `RankEngine.FullEchelon` | rank-calculator.js:272 | stopping because every row has a pivot still leaves the whole matrix in echelon form |
| `RankEngine.RankRunEchelon` | rank-calculator.js:272-294 | the forward loop ends in tolerance row echelon form with its pivot list |
| `RankEngine.ReducedIsEchelon` | rank-calculator.js:269-298 | the reduced matrix keeps the row count and is in echelon form with pivots `Pivots(m)`, whose count is the rank |
| `RankEngine.RankRun` | rank-calculator.js:272-294 | the column loop with the row counter as `|ps|`, returning the matrix left behind and the pivot columns; its shape and bounds are `RankEngine.RankRunBounds` |
| `RankEngine.RankRunBounds` | rank-calculator.js:272-294 | the loop keeps the matrix's shape, never drops or reorders a pivot already found (the pivots so far are a prefix of the final ones), and places at most one pivot per row and per remaining column |
| `RankEngine.Rank` | rank-calculator.js:269-298 | the value `getRank` returns, one per pivot: at most the number of rows and at most the number of columns |
| `RankEngine.Reduced` | rank-calculator.js:269-298 | the matrix `getRank` leaves in its argument keeps its row count and width |
| `RankEngine.Pivots` | rank-calculator.js:272-294 | the pivot columns `getRank` finds, at most one per row and per column |
| `RankEngine.RankExample` | rank-calculator.js:269-298 | `[[1,2,3],[2,4,6],[0,0,1]]` has rank 2 |
| `RankEngine.ToleranceBoundary` | rank-calculator.js:276-282 | an entry of exactly `1e-8` counts as a pivot at the current row (`[[1e-8],[0]]` has rank 1) but not below it (`[[0],[1e-8]]` has rank 0) |
| `RankEngine.GetRank` | rank-calculator.js:269-298 | the in-place elimination returns `Rank` of the input and leaves the array holding the reduced matrix |
| `RankEngine.EliminateColumn` | rank-calculator.js:273-294 | one turn of the column loop advances the specified run by one column, with one more pivot exactly when it pivoted |
| `RankEngine.FindPivot` | rank-calculator.js:273-280 | the loop with `break` finds the specified pivot row |
| `RankEngine.PivotStep` | rank-calculator.js:284-291 | swap then elimination in place give the specified matrix, with a non-zero pivot |
| `RankEngine.EliminateRowsBelow` | rank-calculator.js:286-291 | the row loop leaves every row below the pivot reduced and the others unchanged |
| `RankWorkbench.ValidateOperation` | rank-calculator.js:238-249 | the operation passes exactly when row `i` is a row, row `j` is a row unless scaling, and the multiplier is a number unless swapping; the first failing test picks the error; a passing operation fits the matrix and keeps the typed rows and multiplier |
| `RankWorkbench.OpErrorMessage` | rank-calculator.js:242-248 | the text thrown for each operation error: "Invalid row i.", "Invalid row j." and "Invalid multiplier." |
| `RankWorkbench.OpErrorMessagesDistinct` | rank-calculator.js:242-248 | two operation errors have the same message exactly when they are the same error |
| `RankWorkbench.ZeroBased` | rank-calculator.js:98-99 | `Number(text) - 1`: the typed one-based row made zero-based, NaN staying NaN |
| `RankWorkbench.MultiplierOf` | rank-calculator.js:100 | `Number(multiplier.value \|\| 1)`: an empty field reads as 1, anything else through `Number` |
| `RankWorkbench.ValidateOperationAsWritten` | rank-calculator.js:238-249 | `validateOperation` as written: the comparisons `i < 0 \|\| i >= rows` and the `isNaN(k)` test in the source's order, which NaN and fractional rows pass |
| `RankWorkbench.AsWrittenAgreesOnWholeRows` | rank-calculator.js:238-249 | on whole-number rows the validation as written accepts and rejects exactly as the corrected one, with the same error |
| `RankWorkbench.AsWrittenAcceptsNonRows` | rank-calculator.js:241-245 | the validation as written lets row 0.5 and a NaN row through; the corrected one rejects both as an invalid row `i` |
| `RankWorkbench.ApplyOp` | rank-calculator.js:106-119 | the contract states that no operation changes either dimension or any row it does not name; the named rows are given by the body alone (row i + k·row j over the width, row i·k, and `SwapRows`); `RankWorkbench.AddToItself`, `RankWorkbench.ApplyInverse` and `RankWorkbench.ScaleByZeroForgets` are consequences of it |
| `RankWorkbench.AddToItself` | rank-calculator.js:106-109 | adding a row to itself multiplies it by `1 + k` |
| `RankWorkbench.ApplyInverse` | rank-calculator.js:106-119 | subtracting what was added, dividing by a non-zero factor and swapping back each restore the matrix |
| `RankWorkbench.ScaleByZeroForgets` | rank-calculator.js:111-114 | scaling by 0 is allowed and gives the same matrix whatever the row held, so only the snapshot can undo it |
| `RankWorkbench.TraceExtend` | rank-calculator.js:104-121 | pushing the pre-operation matrix and logging the operation keeps the session's trace |
| `RankWorkbench.TraceDropLast` | rank-calculator.js:128-133 | popping the last snapshot and step keeps the session's trace |
| `RankWorkbench.Workbench.constructor` | rank-calculator.js:4-7 | the session starts empty, with the invariant |
| `RankWorkbench.Workbench.Start` | rank-calculator.js:53-60 | a valid text restarts the session on its matrix with no history and no steps; a rejected text reports the validation error and changes nothing |
| `RankWorkbench.Workbench.ApplyOperation` | rank-calculator.js:96-126 | reads the one-based rows and the multiplier (empty means 1); a rejected operation reports its error and changes nothing; an accepted one pushes the old matrix, applies the operation, counts the step and logs it, keeping the invariant |
| `RankWorkbench.Workbench.AddRowInPlace` | rank-calculator.js:106-109 | the column loop leaves the matrix equal to the add operation applied to the old one |
| `RankWorkbench.Workbench.ScaleRowInPlace` | rank-calculator.js:111-114 | the column loop leaves the matrix equal to the scale operation applied to the old one |
| `RankWorkbench.Workbench.Undo` | rank-calculator.js:128-135 | with a snapshot, the matrix becomes the latest snapshot, which is popped, and the step count and log drop one; with none, nothing changes; the invariant holds either way |
| `RankWorkbench.Workbench.CheckRank` | rank-calculator.js:145-159 | a NaN answer is refused; otherwise the answer is correct exactly when it equals the rank of the original and that equals the rank of the current matrix, and the report carries both ranks; the session is not modified |
| `RankWorkbench.CloneToArray` | rank-calculator.js:262-264 | a fresh array holding the same rows |
| `RankWorkbench.DirectRank` | rank-calculator.js:163-175 | the validation error of the text, or the rank of its matrix, which is at most the row and column counts |
| `RankWorkbench.ApplyThenUndo` | rank-calculator.js:96-135 | an accepted operation followed by `undo` leaves the matrix, the history, the step count and the log as they were |
| `RankWorkbench.ParseBlank` | rank-calculator.js:254-260 | blank text parses to no rows |
| `RankWorkbench.StartAsWritten` | rank-calculator.js:53-60 | `start` as written: the parsed text becomes the original before validation, and only a valid text resets the current matrix, history and step count |
| `RankWorkbench.StartAsWrittenReplacesOriginal` | rank-calculator.js:55-56 | as written, a rejected blank text still replaces the original with an empty matrix while the current matrix stays |
| `RankWorkbench.ApplyOperationAsWritten` | rank-calculator.js:96-126 | `applyOperation` as written: after the as-written validation the snapshot is pushed, then add or scale on a row that does not exist throws before the step is counted |
| `RankWorkbench.AsWrittenStepCountDrifts` | rank-calculator.js:102-121 | as written, an add on row "1.5" pushes a snapshot without counting a step |
| `RankWorkbench.UndoAsWritten` | rank-calculator.js:128-135 | `undo` as written: with a snapshot on the stack the counter drops by one and one snapshot goes, whether or not it was logged; with none the session is unchanged |
| `RankWorkbench.AsWrittenUndoUnderflows` | rank-calculator.js:102-135 | after a scale and the add on row "1.5", the first undo keeps the scaled matrix but empties the log, and the second takes `stepCount` to -1 |
| `SystemInput.KeepNonBlankTrimmed` | system.js:28-32 | filtering lines on their trim and trimming afterwards keeps the same lines as trimming first |
| `SystemInput.KeepNonBlank` | system.js:28 | `filter(r => r.trim() !== "")`: the lines that are not blank, kept untrimmed and in order |
| `SystemInput.SystemRows` | system.js:28-32 | each kept line trimmed, cut at white space and read by `Number`, before the NaN test |
| `SystemInput.SameRowsAsWorkbench` | system.js:27-36 | the solver reads exactly the rows the workbench's parser reads |
| `SystemInput.ParseSystem` | system.js:27-36 | fails with the empty-matrix error exactly when no line is left, with the not-a-number error exactly when some token is NaN, and otherwise gives every row's numbers with its own length |
| `SystemInput.SystemErrorMessage` | system.js:29-33 | the text thrown for each parse error: "Matrix cannot be empty." and "Matrix must contain only numbers." |
| `SystemInput.SystemErrorMessages` | system.js:29-33 | the two parse errors have different messages, and an empty system is reported in the same words as an empty matrix in the workbench (rank-calculator.js:229) |
| `SystemInput.ParsedRowsNonEmpty` | system.js:31-35 | every accepted row has at least one entry |
| `SystemInput.ParseSystemFormat` | system.js:27-36 | rows of number tokens of any lengths are accepted with their own lengths: the parser does not reject ragged input |
| `SystemSolver.MaxRowSpec` | system.js:47-52 | the pivot row is at or below the pivot row counter, has the largest magnitude in the column, and is the first row with it |
| `SystemSolver.MaxRow` | system.js:47-52 | the scan for `maxRow` from `pivotRow` returns a row at or below it; its maximality is `SystemSolver.MaxRowSpec` |
| `SystemSolver.Normalize` | system.js:60-63 | the normalised pivot row keeps its length and holds 1 at the pivot |
| `SystemSolver.EliminateOthers` | system.js:66-73 | the elimination in every other row keeps the row count and width; its effect on the pivot column and the earlier columns is `SystemSolver.PivotStepUnit` |
| `SystemSolver.PivotStep` | system.js:57-73 | swap, normalisation and elimination of one pivot column, keeping the row count and width; its effect on the column is `SystemSolver.PivotStepUnit` |
| `SystemSolver.PivotStepUnit` | system.js:57-73 | after a pivot step the pivot row holds 1 in the column and every other row 0, and earlier columns are only reordered |
| `SystemSolver.SkipKeepsRref` | system.js:54 | a skipped column is within the tolerance in every row without a pivot |
| `SystemSolver.SwapKeepsRref` | system.js:57 | the swap keeps the reduced form |
| `SystemSolver.NormalizeKeepsRref` | system.js:60-63 | normalising keeps the reduced form and puts 1 at the pivot |
| `SystemSolver.EliminateExtendsRref` | system.js:66-73 | clearing the pivot column in every other row makes it a unit column, one more pivot |
| `SystemSolver.PivotExtendsRref` | system.js:54-74 | a pivot step extends the reduced form by one pivot column |
| `SystemSolver.SolveRunRref` | system.js:45-75 | the forward loop ends in reduced row-echelon form, within the tolerance, over every coefficient column |
| `SystemSolver.SolveRun` | system.js:44-75 | the forward loop with `pivotRow` as `|ps|` keeps the matrix's shape; how `pivotRow` moves is `SystemSolver.SolveRunBounds` |
| `SystemSolver.SolveRunBounds` | system.js:44-75 | `pivotRow` only grows (the pivots so far are a prefix of the final ones), by one per pivot column, never past the row count nor the number of variables |
| `SystemSolver.PivotColumns` | system.js:44-75 | the pivot columns found, at most one per row and per variable |
| `SystemSolver.Eliminated` | system.js:44-75 | the matrix left after the forward loop keeps its row count and width; its form is `SystemSolver.EliminatedIsRref` |
| `SystemSolver.EliminatedIsRref` | system.js:38-75 | the eliminated matrix is in reduced row-echelon form, within the tolerance, with the pivot columns found |
| `SystemSolver.RankCount` | system.js:93-101 | the counted rank is at most the number of rows |
| `SystemSolver.RankCountOfRref` | system.js:93-101 | in reduced form the counted rank is exactly the number of pivots |
| `SystemSolver.Inconsistent` | system.js:79-90 | some row has every coefficient within `1e-10` and a constant beyond it; in reduced form this is `SystemSolver.InconsistentOfRref` |
| `SystemSolver.Classify` | system.js:79-116 | no solution exactly when some row reads 0 = c; an infinite outcome has a rank below the number of variables and no larger than the row count; a unique outcome has one value per variable and at least as many rows as variables; the converse for the infinite case and the values of the solution are `SystemSolver.SolveInfinite` and `SystemSolver.SolveUnique` |
| `SystemSolver.Solve` | system.js:38-117 | `gaussianElimination` on values: a unique solution has one value per variable and needs at least as many equations as variables; infinitely many comes with a rank below the number of variables |
| `SystemSolver.InconsistentOfRref` | system.js:79-90 | in reduced form a row reads 0 = c exactly when it is a row without a pivot with a constant beyond the tolerance |
| `SystemSolver.SolveNoSolution` | system.js:79-90 | the result is no solution exactly when a row without a pivot keeps a constant beyond the tolerance |
| `SystemSolver.SolveInfinite` | system.js:103-105 | otherwise the result is infinitely many solutions exactly when there are fewer pivots than variables, with the rank and the variable count |
| `SystemSolver.PivotsInOrder` | system.js:108-114 | as many increasing pivot columns as variables are the columns 0, 1, 2, … in order |
| `SystemSolver.IdentityBlock` | system.js:108-114 | with one pivot per variable, the coefficient block of the first rows is the identity and every other row has zero coefficients |
| `SystemSolver.DotUnit` | system.js:108-114 | a row that is a unit vector on the coefficients picks out one unknown |
| `SystemSolver.ConstantsSolve` | system.js:108-114 | under an identity block the constants column satisfies each of the first rows exactly |
| `SystemSolver.SolveUnique` | system.js:107-116 | a unique solution means one pivot per variable; the solution has one value per variable, read from the constants column, satisfies every reduced equation exactly, and every other row reads 0 = 0 within the tolerance |
| `SystemSolver.ExampleUnique` | system.js:38-117 | `[[1,0,2],[0,1,3]]` gives a unique solution `[2,3]` |
| `SystemSolver.ExampleInfinite` | system.js:38-117 | `[[1,1,2],[2,2,4]]` gives infinitely many solutions, rank 1 for 2 variables |
| `SystemSolver.ExampleNoSolution` | system.js:38-117 | `[[1,1,2],[1,1,5]]` gives no solution |
| `SystemSolver.GaussianElimination` | system.js:38-117 | the in-place elimination and analysis return `Solve` of the input and leave the array holding the reduced matrix |
| `SystemSolver.EliminateColumn` | system.js:45-75 | one turn of the column loop advances the specified run by one column, with one more pivot exactly when it pivoted |
| `SystemSolver.FindMaxRow` | system.js:47-52 | the scan with a strict comparison finds the specified pivot row |
| `SystemSolver.PivotInPlace` | system.js:57-73 | swap, normalisation and elimination in place give the specified pivot step |
| `SystemSolver.NormalizeInPlace` | system.js:60-63 | dividing by the pivot value read once before the loop gives the normalised row, and no other row changes |
| `SystemSolver.EliminateOthersInPlace` | system.js:66-73 | the row loop leaves every other row reduced by its own factor and the pivot row unchanged |
| `SystemSolver.Analyze` | system.js:79-116 | the three loops of the analysis return the classification of the reduced matrix |
| `SystemSolver.AllZero` | system.js:80-86 | the scan with `break` finds whether every coefficient is within the tolerance |
| `SystemSolver.FindInconsistentRow` | system.js:79-90 | the scan finds whether some row reads 0 = c with c beyond the tolerance |
| `SystemSolver.CountRank` | system.js:93-101 | the loop counts the rows with a coefficient beyond the tolerance |

## Left out

- Presentation is not modelled: element lookups, event wiring, `alert` and `innerHTML` rendering, `showMatrix`, `displaySolution`, showing and hiding sections, enabling operations, `finish`, and `location.reload`. These are DOM glue.
- Number formatting (`formatNumber` with `toFixed(2)` and the `.00` trimming) is not modelled. It concerns floats as text.
- The step-log text and the verdict sentences with numbers in them are not modelled. The log is a sequence of `Operation` records kept in step with the history. The verdict is a `Verdict` value. Only the fixed error messages are spelled out.
- `Number(text)` is a parameter, `toNumber`. Its own rules are left to the caller: `""` reads as 0, hexadecimal, `Infinity`.
- Reals are exact. IEEE-754 rounding and ±Infinity have no counterpart. So each pivot is exactly 1 and every cleared entry is exactly 0.
- That row operations preserve the rank, and that the solver's result solves the original system rather than the reduced one, are not proved. Both depend on rounding and on the tolerances.
- `SystemSolver.GaussianElimination` requires a rectangular matrix with at least one row and one column. The solver's parser does not check row lengths (`SystemInput.ParseSystemFormat`). On ragged input the code reads `undefined` entries, which have no counterpart here.
- `RankWorkbench.Workbench.CheckRank` requires a started session with at least one row. Before `start`, `getRank` of the empty matrix throws a `TypeError`.
- The operation menu is the datatype `OpType`. Values other than add, scale and swap cannot be chosen.
- Rows are values. JavaScript swaps row references and `clone` copies every row, so no row is ever shared between two matrices, and value semantics gives the same results.
- `RankWorkbench.ApplyOperationAsWritten` gives `None` for a swap on a row that is not a whole number. JavaScript then stores the row under a non-index property and leaves `undefined` in the matrix. Neither can be represented here.

## Findings

| source | as written | input that shows it | evidently intended | confidence | as-written member | corrected member |
|---|---|---|---|---|---|---|
| rank-calculator.js:238-249 | the row tests `i < 0 \|\| i >= rows` let NaN and fractional rows through; `history.push` then runs before the row access throws, so the history grows while `stepCount` does not; a later `undo` pops that un-logged snapshot, removes a real step's log entry, and can take `stepCount` to -1 | add with row i "1.5" (i = 0.5) on `[[1]]`: the history holds one snapshot, `stepCount` stays 0; scale row 1 by 2, then that add, then undo twice: the scaled matrix stays with an empty log, then `stepCount` is -1 | rows must be whole numbers in range, rejected before any change | not executed | `RankWorkbench.ValidateOperationAsWritten`, `RankWorkbench.ApplyOperationAsWritten`, `RankWorkbench.UndoAsWritten`, shown by `RankWorkbench.AsWrittenAcceptsNonRows`, `RankWorkbench.AsWrittenStepCountDrifts` and `RankWorkbench.AsWrittenUndoUnderflows` | `RankWorkbench.ValidateOperation`, `RankWorkbench.Workbench.ApplyOperation` (step count equals history length) |
| rank-calculator.js:55-56 | `start` assigns `originalMatrix` before `validateMatrix` runs, so a rejected text still replaces the original that `checkRank` compares against | start on `[[1,0],[0,1]]`, then start on blank text: "Matrix cannot be empty." is reported, the original is now `[]`, and the current matrix is still the identity | a rejected text leaves the session as it was | not executed | `RankWorkbench.StartAsWritten`, shown by `RankWorkbench.StartAsWrittenReplacesOriginal` | `RankWorkbench.Workbench.Start` (unchanged on failure) |
