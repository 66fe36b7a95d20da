# Nonogram constraint engine in Dafny

This project models the sequential core of a nonogram solver written in C#,
and proves properties of it. The core has five parts:

- **Hint arithmetic.** A hint is the ordered list of block lengths of one row
  or column. `Occupation(p)` is the least number of cells that blocks `p..`
  need, with one gap between neighbours (`hints.dfy`).
- **The line-permutation generator.** It places the blocks of a hint at every
  feasible start, leftmost first. The model has the lazy generator and the
  list-building one, and proves them equal for non-negative blocks (`permutations.dfy`). Cell states and
  the reference meaning of a line (its runs of filled cells) are in `lines.dfy`.
- **The line checks.** The final check `IsRowSolved`/`IsColumnSolved` is in
  `solved.dfy`. The cumulative check `IsRowValid`/`IsColumnValid` on partly
  decided lines is in `valid.dfy`. Each is a left-to-right fold with an
  explicit scan state, as the C# loops are. The board-level checks are in
  `gamestate.dfy`.
- **The row-by-row backtracking search.** It commits one generated permutation
  to the next row of a copy of the board and prunes when a column check
  fails. At the last row it records the board; otherwise it recurses.
  - `search.dfy` holds the `src/nonogram` solvers: `SequentialSolver` and
    `ThreadPoolSolver` record every accepted board; the older `Solver` returns
    after the first hit of each last-row branch.
  - `cursor.dfy` holds the `Nonogram` solver. Its states carry a target row,
    and a first-solution guard stops the search once a solution is held. It is
    proved to perform exactly the older search, and its one-solution mode is
    proved to return that search's first solution.
- **The hint-file reader** `ReadFromFile`, over the lines of the file
  (`hintfile.dfy`). It models the section markers, `String.Split(' ')`, the
  dropped last character of every token, and `int.Parse` with its format and
  overflow errors.

A hint line that holds the single entry `0,` stands for a line with no
filled cell. The final check accepts exactly the all-`Void` line under it
(src/nonogram/GameState.cs:166-171 compares the last count, 0, with the
entry 0), and the generator yields only all-`Void` lines for it. The
reference meaning `Lines.Realises` reads the lone zero the same way: a line
realises a hint when its runs equal the hint's entries, or are empty for the
lone `0`.

Exceptions the C# code can raise are values of `Failures.Result`. They are
`IndexOutOfRange`, `ArgumentOutOfRange`, `Format` and `Overflow`. The first
one raised ends the computation that raised it, as an exception unwinds the
C# call.

Some members the `Nonogram` solvers call are not part of this model, because
`Nonogram`'s `GameState` is not among the sources. They are instantiated as
their uses require:

- `ValidateColumn` is `IsColumnValid`.
- `Clone` and `DeepClone` copy by value.
- `SetTargetRow` replaces the target row and moves the target on.
- `IsFinal` means the target is past the last row.
- `Clear` resets every cell to `Blank` and the target to row 0.

The `Nonogram` solver hierarchy would not compile as written: `solveAll` is
never declared, and `SequentialSolver`'s base-constructor call matches no
constructor. The model takes `solveAll` as a parameter of the search, which
is what that code evidently means.

The places where the code does not do what it evidently sets out to do are
listed under "## Findings". The model follows the code in each and proves a
corrected version alongside. Three examples:

- A board is recorded at the last row after the partial column checks alone,
  although the search's evident aim is to record solutions (see Findings).
- In all-solutions mode, the `Nonogram` search still returns after the first
  solution of each last-row branch.
- A run with no hint entry left is evidently meant to fail the check: the
  guard `x > Length` follows the read of entry `x`. When a `Void` closes such
  a run, the checks read past the hint and throw.

## Model

| member | source | states |
|---|---|---|
| `Hints.SumFrom` | Nonogram/Hints.cs:36-40 | The loop's sum of blocks `p..` is never negative when those blocks are not. |
| `Hints.Hint.Index` | Nonogram/Hints.cs:21-27 | The indexer returns block `i` unchanged exactly when `0 <= i < Length`. Otherwise it throws `IndexOutOfRange`. |
| `Hints.Hint.Occupation` | Nonogram/Hints.cs:34-42 | `Occupation(Length)` is -1, and past the end it is `Length - 1 - p`. With non-negative blocks it is at least block `p` and never below -1. The default argument is 0. |
| `Hints.OccupationStep` | Nonogram/Hints.cs:34-42 | The recurrence: `Occupation(p) = b[p] + 1 + Occupation(p + 1)` for `p < Length`. |
| `Hints.OccupationDecreasing` | Nonogram/Hints.cs:34-42 | With non-negative blocks, `Occupation` strictly decreases in `p`. |
| `Lines.DefaultCell` | src/nonogram/GameState.cs:11-16 | The cell a fresh array holds is the unique state with code 0, which is `Void`. |
| `Lines.NewLine` | Nonogram/Solver.cs:93 | A fresh line of `n` cells holds `n` cells of code 0. |
| `Lines.RealisesZero` | src/nonogram/GameState.cs:166-171 | A line realises the lone-zero hint if and only if every cell is `Void`. |
| `Lines.RunsLength` | Nonogram/Hints.cs:34-42 | Any line whose runs are blocks `p..` has at least `Occupation(p)` cells. |
| `Lines.PackedIsTight` | Nonogram/Hints.cs:34-42 | The bound is attained: the packed line realises blocks `p..` in exactly `Occupation(p)` cells. |
| `Permutations.RowPermutations` | Nonogram/Solver.cs:91-94 | Every generated line has the requested length. |
| `Permutations.PlaceLengths` | Nonogram/Solver.cs:104-127 | Every line that `GenerateLinePermutations` (the model's `Place` and its start loop `Starts`) produces has the length of the line it was copied from. |
| `Permutations.PlaceSound` | Nonogram/Solver.cs:104-127 | With positive blocks, every line produced from a partial line keeps the cells before `pos`, and realises blocks `i..` after it. |
| `Permutations.StartInRange` | Nonogram/Solver.cs:112-113 | With positive blocks, the start of block `i` in any line that realises blocks `i..` lies within the generator's slack `k`. |
| `Permutations.CompleteStep` | Nonogram/Solver.cs:113-121 | With positive blocks, a line realising blocks `i..` starts block `i` at a start the generator tries, and agrees with that start's filled copy. |
| `Permutations.PlaceComplete` | Nonogram/Solver.cs:104-127 | With positive blocks, every line that keeps the prefix and realises blocks `i..` after `pos` is produced. |
| `Permutations.RowPermutationsSound` | Nonogram/Solver.cs:91-94 | With positive blocks or the lone-zero hint, every generated line has the requested length and realises the hint. |
| `Permutations.RowPermutationsExact` | Nonogram/Solver.cs:91-127 | With positive blocks or the lone-zero hint, a line is generated if and only if it has the requested length and realises the hint. |
| `Permutations.ZeroHintPermutations` | Nonogram/Solver.cs:104-127 | For the lone-zero hint the generator yields the all-`Void` line `lineLength + 1` times: the slack loop runs once per start and fills nothing. |
| `Permutations.PlaceOrdered` | Nonogram/Solver.cs:113-121 | With positive blocks, the produced lines are strictly ordered by placement: at the first differing cell, the earlier line has its block. |
| `Permutations.RowPermutationsOrdered` | Nonogram/Solver.cs:104-127 | With positive blocks, the generated lines come leftmost placements first, strictly ordered, and so are pairwise distinct. |
| `Permutations.FillCopy` | src/nonogram/SequentialSolver.cs:70-75 | The copy-and-fill loop yields the line with exactly the `len` cells from `start` set to `Fill`. Every write is in bounds. |
| `Permutations.Collect` | src/nonogram/SequentialSolver.cs:60-78 | The list-building generator appends exactly the lazy generator's lines, in its order. With non-negative blocks, every fill is in bounds. |
| `Permutations.GenerateLinePermutations` | src/nonogram/SequentialSolver.cs:54-58 | The list entry point returns the lazy generator's lines. The copy at src/nonogram/Solver.cs:61-85 is the same code. |
| `SolvedCheck.SolvedFrom` | src/nonogram/GameState.cs:136-171 | The as-written scan answers true only if no cell from `j` on is `Blank`. |
| `SolvedCheck.LineSolved` | src/nonogram/GameState.cs:130-172 | `IsRowSolved` is never true for a line with a `Blank` cell. |
| `SolvedCheck.ZeroSolvedFrom` | src/nonogram/GameState.cs:136-171 | Under the lone-zero hint, the scan accepts a line whose cells from `j` on are all `Void`. |
| `SolvedCheck.SolvedFromComplete` | src/nonogram/GameState.cs:136-171 | The as-written scan never rejects a line whose carried run and rest realise the remaining hint entries. |
| `SolvedCheck.LineSolvedComplete` | src/nonogram/GameState.cs:130-172 | Every line that realises its hint passes the as-written check. |
| `SolvedCheck.ExtraClosedRunThrows` | src/nonogram/GameState.cs:152-157 | Under hint `[1]`, the line `Fill, Void, Fill, Void` reads past the hint and throws, instead of answering false. |
| `SolvedCheck.MissingRunAccepted` | src/nonogram/GameState.cs:167-171 | The line `Fill` passes under hint `[1, 1]`, although it does not realise it. |
| `SolvedCheck.ExtraTrailingRunAccepted` | src/nonogram/GameState.cs:166-171 | The line `Fill, Void, Fill` passes under hint `[1]`, although it does not realise it. |
| `SolvedCheck.SolvedFixedExact` | src/nonogram/GameState.cs:136-171 | The corrected scan holds exactly when the carried run and the rest realise the entries from `x`. |
| `SolvedCheck.LineSolvedFixedExact` | src/nonogram/GameState.cs:130-172 | The corrected line check holds if and only if the line realises its hint. |
| `ValidCheck.ValidFrom` | src/nonogram/GameState.cs:219-360 | The scan of both checks throws only `IndexOutOfRange`, by reading a hint entry past the end. |
| `ValidCheck.LineValid` | src/nonogram/GameState.cs:219-360 | The same for a whole line: `IsRowValid` and `IsColumnValid` throw only by reading past the hint. |
| `ValidCheck.ThrowsAtVoid` | src/nonogram/GameState.cs:306-353 | Under the column rule the scan throws only if some cell from `j` on is `Void`: a `Blank` that closes a run tests the entry count before reading. |
| `ValidCheck.BlankTail` | src/nonogram/GameState.cs:312-331 | Once only `Blank` cells remain and no run is open, the scan accepts. |
| `ValidCheck.BudgetHolds` | src/nonogram/GameState.cs:333-334 | On a line that realises its hint, a `Void` outside a run never exhausts the leading-void budget. |
| `ValidCheck.TrackStep` | src/nonogram/GameState.cs:300-353 | One decided cell that agrees with a realising line keeps the scan state consistent with that line. |
| `ValidCheck.TrackedAccepts` | src/nonogram/GameState.cs:290-360 | A scan that tracks a realising line accepts it with any suffix reset to `Blank` under the column rule, and complete under the row rule. |
| `ValidCheck.PartialAccepted` | src/nonogram/GameState.cs:290-360 | There are no false negatives. A column that agrees with a realising line, with its last cells still `Blank`, passes `IsColumnValid`. A complete realising row passes `IsRowValid`. Both hold for the corrected end test too. |
| `ValidCheck.ZeroAccepted` | src/nonogram/GameState.cs:290-360 | Under the lone-zero hint, an all-`Void` line with any suffix reset to `Blank` passes, with either end test. |
| `ValidCheck.AllBlankAccepted` | src/nonogram/GameState.cs:355-359 | An all-`Blank` line passes under any non-negative hint. |
| `ValidCheck.BlankNoThrow` | src/nonogram/GameState.cs:306-320 | Under the column rule, a tail of `Blank` cells never throws, from any scan state. |
| `ValidCheck.NextCellNoThrow` | src/nonogram/GameState.cs:290-360 | Under the column rule, a scan with its run within the hint does not throw on one decided cell followed by `Blank` cells. |
| `ValidCheck.CommitNoThrow` | src/nonogram/GameState.cs:290-360 | Deciding the first `Blank` cell of a column that passed does not make the scan throw. |
| `ValidCheck.ColumnCommitNoThrow` | src/nonogram/GameState.cs:290-360 | Committing row `r` of a column blank from `r` on never makes `IsColumnValid` throw, when the column passed before or `r` is the first row. |
| `ValidCheck.RowRuleRejectsOpenRun` | src/nonogram/GameState.cs:241-245 | `IsRowValid` rejects `Fill, Blank` under `[2]`, although it is a prefix of `Fill, Fill`, which realises `[2]`. |
| `ValidCheck.ClosedRunPastHintThrows` | src/nonogram/GameState.cs:335-338 | A run closed by `Void` with no hint entry left throws `IndexOutOfRange` instead of answering false. The row check does the same at lines 263-266. |
| `ValidCheck.ColumnAcceptsExtraTrailingRun` | src/nonogram/GameState.cs:355-359 | `IsColumnValid` accepts the complete column `Fill, Void, Fill` under `[1]`. |
| `ValidCheck.ExtraTrailingRunNotRealised` | src/nonogram/GameState.cs:355-359 | That column is committed with runs `[1, 1]`, so it does not realise `[1]`. |
| `ValidCheck.StrictRunCount` | src/nonogram/GameState.cs:290-360 | A decided tail that passes the corrected end test has no more runs than hint entries left. |
| `ValidCheck.StrictEndCorrected` | src/nonogram/GameState.cs:355-359 | A committed line that passes the check with the corrected end test has at most as many runs as its hint has entries. |
| `ValidCheck.StrictEndRejectsExtraRun` | src/nonogram/GameState.cs:355-359 | The corrected end test rejects `Fill, Void, Fill` under `[1]`. |
| `GameStates.GameState.WithRow` | src/nonogram/GameState.cs:62-65 | Assigning row `i` changes that row only and keeps the hints. |
| `GameStates.IsBlank` | src/nonogram/GameState.cs:95-108 | The method answers true if and only if every cell is `Blank`. |
| `GameStates.IsRowSolved` | src/nonogram/GameState.cs:130-172 | A row that passes has no `Blank` cell. |
| `GameStates.IsColumnSolved` | src/nonogram/GameState.cs:174-216 | A column that passes has no `Blank` cell. |
| `GameStates.RowsSolvedFrom` | src/nonogram/GameState.cs:112-118 | The row loop is true exactly when every remaining row passes. |
| `GameStates.ColumnsSolvedFrom` | src/nonogram/GameState.cs:120-126 | The column loop is true exactly when every remaining column passes. |
| `GameStates.IsSolved` | src/nonogram/GameState.cs:110-128 | True exactly when there is a row, every row passes and every column passes. A board without rows throws. |
| `GameStates.SolutionIsSolved` | src/nonogram/GameState.cs:110-128 | Every solution with at least one row passes `IsSolved`. |
| `GameStates.RowsFixedExact` | src/nonogram/GameState.cs:112-118 | With the corrected line check, the row loop holds exactly when every remaining row realises its hint. |
| `GameStates.ColumnsFixedExact` | src/nonogram/GameState.cs:120-126 | With the corrected line check, the column loop holds exactly when every remaining column realises its hint. |
| `GameStates.IsSolvedFixedExact` | src/nonogram/GameState.cs:110-128 | The corrected board check holds if and only if the board is a solution. |
| `GameStates.IsRowValid` | src/nonogram/GameState.cs:219-288 | The row check throws only `IndexOutOfRange`. |
| `GameStates.IsColumnValid` | src/nonogram/GameState.cs:290-360 | The column check throws only `IndexOutOfRange`. |
| `GameStates.ColumnThrowsAtVoid` | src/nonogram/GameState.cs:290-360 | The column check throws only for a column with a `Void` cell. |
| `GameStates.ColumnsValidFrom` | Nonogram/Solver.cs:59-66 | The column loop is true exactly when every remaining column passes `IsColumnValid`. |
| `GameStates.ColumnsValidStops` | Nonogram/Solver.cs:59-66 | When the loop fails, its answer is that of the first failing column, and every column before it passed. |
| `GameStates.ColumnsValidThrows` | Nonogram/Solver.cs:59-66 | The column loop throws only when one of the remaining columns throws. |
| `GameStates.ValidatePermutation` | Nonogram/Solver.cs:57-67 | True if and only if every column passes `IsColumnValid`. |
| `Search.Candidates` | src/nonogram/SequentialSolver.cs:20 | One permutation list per row, each line as wide as the board. |
| `Search.Expand` | src/nonogram/SequentialSolver.cs:18-52 | Every recorded board has the stored hints, keeps the rows above `row` and holds a generated permutation in each later row. It passed the column checks. A row past the last throws. |
| `Search.TryFrom` | src/nonogram/Solver.cs:27-58 | The loop records only such boards. When it returns after the first hit, a last-row branch records at most one. |
| `Search.Branch` | src/nonogram/SequentialSolver.cs:23-50 | One pass of the loop records only such boards, and at most one at the last row. |
| `Search.SequentialSolve` | src/nonogram/SequentialSolver.cs:13-16 | Every recorded board is well formed, has a generated permutation in every row and passes `ValidatePermutation`. A board without rows throws. `ThreadPoolSolver.Solve` (src/nonogram/ThreadPoolSolver.cs:14-40) is the same search. |
| `Search.SolverSolve` | src/nonogram/Solver.cs:19-22 | The older search records only such boards, and for a single row at most one. |
| `Search.CheckedSolve` | src/nonogram/SequentialSolver.cs:37-45 | The corrected search records only boards that pass the corrected final check. |
| `Search.CheckedSolveSound` | src/nonogram/SequentialSolver.cs:37-45 | Every board the corrected search records is a solution. |
| `Search.CandidateColumn` | src/nonogram/SequentialSolver.cs:23-24 | Committing the next row of a solution to a grid that is blank below gives that solution's columns, cut off after the row. |
| `Search.CandidateAccepted` | src/nonogram/SequentialSolver.cs:25-36 | A candidate that commits the next row of a solution passes the column checks. |
| `Search.TryFromRest` | src/nonogram/SequentialSolver.cs:21-51 | Without the early return, the boards of the later permutations are among those of the loop. |
| `Search.TryFromSkip` | src/nonogram/SequentialSolver.cs:21-51 | Without the early return, the boards from permutation `m` on are among those from `n` on, for `n <= m`. |
| `Search.TryFromHit` | src/nonogram/SequentialSolver.cs:37-50 | An accepted candidate contributes itself at the last row, or every board of the search below it. |
| `Search.CommitColumnsNoThrow` | src/nonogram/SequentialSolver.cs:23-36 | Committing a line to the next row of a board that passed the column checks, or to the first row of a blank board, never makes the column checks throw. |
| `Search.ExpandNoThrow` | src/nonogram/SequentialSolver.cs:18-52 | From such a board, the search does not throw. |
| `Search.TryFromNoThrow` | src/nonogram/SequentialSolver.cs:21-51 | The same for the loop over a row's permutations. |
| `Search.SolveNoThrow` | src/nonogram/SequentialSolver.cs:13-16 | From a blank board with at least one row, the search, the older search and the corrected search all succeed. |
| `Search.PrefixAccepted` | Nonogram/Solver.cs:57-67 | A board whose decided rows are those of a solution, blank below, passes the column checks. |
| `Search.ExpandComplete` | src/nonogram/SequentialSolver.cs:18-52 | The search that records every board does not throw, and records every solution that agrees with the decided rows. |
| `Search.TryFromCompleteAt` | src/nonogram/SequentialSolver.cs:21-51 | The permutation that is the solution's row contributes the solution. |
| `Search.SolveFindsEverySolution` | src/nonogram/SequentialSolver.cs:13-16 | From a blank board, the search succeeds and records every solution, and so does the corrected search. |
| `Search.FirstWithinAll` | src/nonogram/Solver.cs:45-51 | The early-return search succeeds whenever the full one does, and records a subset of its boards. It records one exactly when the full search does. |
| `Search.TryFromFirstWithinAll` | src/nonogram/Solver.cs:27-58 | The same relation for the loop over a row's permutations. |
| `Search.UnsolvableFilled` | src/nonogram/GameState.cs:355-359 | On a 1 by 1 board with column hint `[2]`, the filled board passes the column check but is not a solution. |
| `Search.SearchRecordsNonSolution` | src/nonogram/SequentialSolver.cs:37-45 | The search records exactly that non-solution, and the corrected search records nothing. |
| `Search.EmptyPuzzleCandidates` | Nonogram/Solver.cs:104-127 | On the 1 by 1 puzzle written `0,` for its row and column, the generator yields the all-`Void` line twice. |
| `Search.EmptyCellSolves` | src/nonogram/GameState.cs:166-171 | The empty cell is a solution of that puzzle and passes the corrected final check. |
| `Search.EmptyCellValid` | src/nonogram/GameState.cs:290-360 | The empty cell passes the column checks of that puzzle. |
| `Search.EmptyPuzzleBranch` | src/nonogram/SequentialSolver.cs:23-45 | Each copy of the line is accepted at the last row and recorded, under both final checks. |
| `Search.EmptyPuzzleSearch` | src/nonogram/SequentialSolver.cs:21-51 | The loop over the copies records the empty cell once per copy. |
| `Search.EmptyPuzzleFirstHit` | src/nonogram/Solver.cs:45-51 | The older search records the empty cell once, where the search that records every board records it twice. |
| `Search.EmptyPuzzleSolved` | src/nonogram/SequentialSolver.cs:13-52 | The search and the corrected search each record that solution twice, once per copy of the line. |
| `CursorSearch.SearchState.SetTargetRow` | Nonogram/Solver.cs:80 | Committing a line replaces the target row only, keeps the hints and moves the target to the next row. |
| `CursorSearch.Clear` | Nonogram/Solver.cs:40 | Clearing keeps the hints, resets every cell to `Blank` and the target to row 0. |
| `CursorSearch.StatePermutations` | Nonogram/Solver.cs:75-83 | There is one state per permutation of the target row, in generator order. Each has that permutation in the target row, the other rows unchanged and the target moved on. A target past the last row throws. |
| `CursorSearch.Solve` | Nonogram/SequentialSolver.cs:34-53 | The search only appends found solutions. In one-solution mode, it returns at once when one is held and never holds more than one. |
| `CursorSearch.SolveEach` | Nonogram/SequentialSolver.cs:38-52 | The loop appends only found solutions and adds at most one in one-solution mode. |
| `CursorSearch.FoundFinal` | Nonogram/SequentialSolver.cs:40-44 | A final permutation state that passes the column checks is a solution found from its parent. |
| `CursorSearch.FoundLifts` | Nonogram/SequentialSolver.cs:47-50 | What is found from a permutation state is found from its parent. |
| `CursorSearch.SolveFresh` | Nonogram/SequentialSolver.cs:23-27 | Every returned state is final, well formed, has the initial hints and passes `ValidatePermutation`. One-solution mode returns at most one. A board without rows throws. |
| `CursorSearch.SolveFreshNoThrow` | Nonogram/SequentialSolver.cs:23-27 | On a board with at least one row, the solver does not throw, in either mode. |
| `CursorSearch.AllModeIsFirstHitSearch` | Nonogram/SequentialSolver.cs:34-53 | In all-solutions mode, the cursor search records the same boards in the same order as the older `src/nonogram` search, and fails exactly when it fails. That search returns after the first hit of each last-row branch. |
| `CursorSearch.AllModeDropsCopy` | Nonogram/SequentialSolver.cs:42-46 | On that puzzle, all-solutions mode returns one state, where the search that records every board records two. |
| `CursorSearch.EachIsTryFrom` | Nonogram/SequentialSolver.cs:38-52 | The same correspondence for the loop over the permutations. |
| `CursorSearch.DescendIsTryFrom` | Nonogram/SequentialSolver.cs:47-50 | The same correspondence for the recursive step below the last row. |
| `CursorSearch.OneModeIsFirstOfAll` | Nonogram/SequentialSolver.cs:36 | One-solution mode returns the first solution that all-solutions mode finds, or nothing when it finds none. |
| `CursorSearch.EachOneIsFirstOfAll` | Nonogram/SequentialSolver.cs:38-52 | The same relation for the loop over the permutations. |
| `CursorSearch.DescendOne` | Nonogram/SequentialSolver.cs:47-50 | The same relation for the recursive step below the last row. |
| `CursorSearch.AfterHit` | Nonogram/SequentialSolver.cs:36 | Once a solution is held, the rest of the loop in one-solution mode adds nothing. |
| `HintFile.Split` | src/nonogram/Program.cs:111 | There is always at least one piece, and no piece contains the separator. |
| `HintFile.JoinSplit` | src/nonogram/Program.cs:111 | Splitting loses nothing: joining the pieces gives the text back. |
| `HintFile.SplitJoin` | src/nonogram/Program.cs:111 | Splitting joined separator-free pieces gives the pieces back. |
| `HintFile.Ranged` | src/nonogram/Program.cs:118 | A parsed number is within 32 bits, or the parse overflows. |
| `HintFile.ScanInt` | src/nonogram/Program.cs:118 | `int.Parse` returns a 32-bit integer or fails with a format or overflow error. |
| `HintFile.ParseInt` | src/nonogram/Program.cs:118 | `int.Parse` returns a 32-bit integer, or fails with a format or overflow error. |
| `HintFile.ParseIntText` | src/nonogram/Program.cs:118 | `int.Parse` reads back the text of every 32-bit integer, and overflows on the text of any other. |
| `HintFile.ParseIntPadded` | src/nonogram/Program.cs:118 | White space around the number is allowed. |
| `HintFile.ParseIntRejects` | src/nonogram/Program.cs:118 | Empty text, a lone sign and a space inside the number are format errors. |
| `HintFile.HintToken` | src/nonogram/Program.cs:117-118 | A token gives a 32-bit number or a parse exception. It throws `ArgumentOutOfRange` exactly when it is empty, from `Substring` with length -1. |
| `HintFile.ParseTokens` | src/nonogram/Program.cs:113-119 | The line parses exactly when every token does, with the tokens' numbers in order. A failure is the exception of a failing token. |
| `HintFile.ParseHintLine` | src/nonogram/Program.cs:111-121 | A parsed line gives a hint with one entry per space-separated token, each within 32 bits. A failure is a token's exception. |
| `HintFile.BlockTokenParses` | src/nonogram/Program.cs:117-118 | A number followed by a comma reads back as the number. |
| `HintFile.TokenDropsLastCharacter` | src/nonogram/Program.cs:117 | The last character is dropped whatever it is, so `"3,"` is 3 and `"3"` fails. |
| `HintFile.HintLineParses` | src/nonogram/Program.cs:111-121 | A written hint line reads back as the same hint. |
| `HintFile.HintLineIsNoMarker` | src/nonogram/Program.cs:97-109 | A written hint line is never taken for a section marker. |
| `HintFile.Feed` | src/nonogram/Program.cs:92-127 | Preamble lines are skipped, and markers switch section without adding a hint. Any other line adds at most one hint, to the active section only. |
| `HintFile.FeedAll` | src/nonogram/Program.cs:90-128 | Reading more lines only appends hints: the earlier row and column hints stay a prefix, and each line adds at most one hint. |
| `HintFile.FeedAllFaults` | src/nonogram/Program.cs:90-128 | A read can fail only with the exceptions of hint-line parsing. |
| `HintFile.PreambleStays` | src/nonogram/Program.cs:92-95 | Lines without a marker leave a reader that is still before the first marker unchanged. |
| `HintFile.PreambleSkipped` | src/nonogram/Program.cs:92-95 | Lines before the first marker do not change the result of the read. |
| `HintFile.FeedParsed` | src/nonogram/Program.cs:121-127 | Inside a section, a hint line appends its hint to that section. |
| `HintFile.HintLinesParse` | src/nonogram/Program.cs:111-121 | Written hint lines read back as their hints, one for one. |
| `HintFile.SectionRead` | src/nonogram/Program.cs:121-127 | Inside a section, hint lines are appended to it in file order. |
| `HintFile.MarkedSectionRead` | src/nonogram/Program.cs:97-127 | A marker followed by hint lines switches to the marker's section and appends the hints. |
| `HintFile.RenderedFeeds` | src/nonogram/Program.cs:90-128 | Reading a written file ends in the column section holding both sections' hints. |
| `HintFile.BlankGrid` | src/nonogram/Program.cs:131-140 | The grid has `n` rows of `m` `Blank` cells. |
| `HintFile.ReadFromFile` | src/nonogram/Program.cs:79-143 | A read board is well formed and all `Blank`. A failure is a parse exception. |
| `HintFile.ReadRendered` | src/nonogram/Program.cs:79-143 | Reading a written file, after any marker-free preamble, gives back its row and column hints unchanged. The board is blank, with one row per row hint and one column per column hint. |
| `HintFile.EmptyLineFails` | src/nonogram/Program.cs:111-118 | An empty line inside a section throws `ArgumentOutOfRange`. |

## Left out

- Threads and timing are not modelled:
  - The thread-pool queue and the `WaitOne` timeout of `Solver.Solve()` (Nonogram/Solver.cs:38-44) are dropped. Solving is clearing the initial state, then searching from it.
  - The concurrent solvers are left out (`AsyncSolver`, Nonogram's `ThreadPoolSolver`, `ManagedThreadPoolSolver`, `ParallelSolver`, `ManagedParallelSolver`). Their subject is scheduling, not the search.
- The `base.Solve()` call in src/nonogram/ThreadPoolSolver.cs:16 is left out. The `Solver` shown in src/nonogram/Solver.cs has no virtual `Solve`, and it does not declare the `Board` and `Solutions` members its subclasses use. Those subclasses belong to a newer base class that is not part of this model.
- The console output of src/nonogram/Solver.cs:47-49 is left out, and so are `Print`, `PrintRow`, `Write` and `Read`, which are console and binary-file I/O.
- `ReadFromFile` takes the file's lines as a sequence. Opening and reading the file is I/O.
- The `solutions` of the `Nonogram` solver is a `ConcurrentBag` (Nonogram/Solver.cs:14), whose enumeration order is not fixed. The model's sequence records the order of the `Add` calls.
- The search computes each row's permutations once, not on every call. The generator is a pure function of the row's hint and the width, so the lines are the same.
- `Permutations.RowPermutations`: a negative block can make the C# generator write past the end of the line and throw `IndexOutOfRange` (Nonogram/Solver.cs:112-119). The model skips the cells out of range and does not follow that path.
- `Permutations.PlaceLengths`: the same, for `Place` and `Starts`. Where the C# would overrun the line on a negative block, they still produce lines.
- `Permutations.Collect`: requires non-negative blocks. With a negative block the C# list generator (src/nonogram/SequentialSolver.cs:67-76) can overrun the line and throw; the model does not follow that path.
- `Permutations.GenerateLinePermutations`: the same requirement, for the same reason.
- `Search.SequentialSolve`: requires non-negative row blocks (`Search.Searchable`). With a negative block, the C# generator can write past the end of a line and throw; the model does not follow that path.
- `Search.SolverSolve`, `Search.CheckedSolve` and `CursorSearch.SolveFresh`: the same requirement, for the same reason.
- `Permutations.RowPermutationsExact`: stated for positive blocks and for the lone-zero hint only. Another zero entry, as in `1, 0, 2`, adds no run, so a line generated for it does not realise the hint as written.
- `Permutations.RowPermutationsSound`: the same restriction, for the same reason.
- `Permutations.PlaceSound`: stated for positive blocks only. The lone-zero hint is covered by `Permutations.ZeroHintPermutations`.
- `Permutations.StartInRange`: stated for positive blocks only. Under a zero block the start of the block is not visible in the line.
- `Permutations.CompleteStep`: stated for positive blocks only, for the same reason.
- `Permutations.PlaceComplete`: stated for positive blocks only. The lone-zero hint is covered by `Permutations.ZeroHintPermutations`.
- `Permutations.PlaceOrdered`: stated for positive blocks only. A zero block fills nothing, so different starts give equal lines.
- `Permutations.RowPermutationsOrdered`: stated for positive blocks only. The lone-zero hint yields `lineLength + 1` equal all-`Void` lines (`Permutations.ZeroHintPermutations`), so the search that records every board can record the same board more than once.
- Hint entries of 0 other than the lone `0,` are taken literally: the source's checks and generator give them no consistent meaning, and the model proves nothing about lines under them beyond what holds for every hint.
- `Hints.Hint.Occupation`: the model's sum is unbounded, where the C# sum is a 32-bit `int`. Wrap-around needs blocks summing past 2^31, which no readable puzzle has.
- `Search.SolverSolve`: its own contract bounds the result at one board only for a one-row board. The bound of at most one board per last-row branch is stated on `Search.TryFrom`.
- `HintFile.ScanInt`: models `int.Parse` with the default integer style over ASCII signs and digits. Culture-specific signs and the trailing NUL characters .NET also accepts are left out.
- `HintFile.ParseIntPadded`, `HintFile.ParseIntRejects`: fixed examples, not all-inputs statements.
- The CLI, the HTTP scraper, the XML puzzle format and the benchmark logging are left out. They are I/O and floating-point timing around the engine.

## Findings

| source | as written | input that shows it | evidently intended | confidence | as-written member | corrected member |
|---|---|---|---|---|---|---|
| src/nonogram/GameState.cs:152-157 | A run closed by `Void` reads hint entry `x` before the `x > Length` guard. An extra run throws `IndexOutOfRangeException` (also at lines 196-201). | hint `[1]`, line `Fill, Void, Fill, Void` | answer false | not executed | `SolvedCheck.ExtraClosedRunThrows` | `SolvedCheck.LineSolvedFixedExact` |
| src/nonogram/GameState.cs:167-171 | The final test compares only entry `x`, if one remains, so missing runs pass (also at lines 211-214). | hint `[1, 1]`, line `Fill` | every hint entry matched | not executed | `SolvedCheck.MissingRunAccepted` | `GameStates.IsSolvedFixedExact` |
| src/nonogram/GameState.cs:166-170 | An open run after the last entry is never compared with anything, so an extra trailing run passes. | hint `[1]`, line `Fill, Void, Fill` | answer false | not executed | `SolvedCheck.ExtraTrailingRunAccepted` | `SolvedCheck.SolvedFixedExact` |
| src/nonogram/GameState.cs:244 | The row check demands that a run followed by `Blank` equal its hint entry, though a later cell may still extend it. | hint `[2]`, width 2, row `Fill, Blank` | the column rule of line 317: the run must not exceed its entry | not executed | `ValidCheck.RowRuleRejectsOpenRun` | `ValidCheck.PartialAccepted` |
| src/nonogram/GameState.cs:355-359 | The column check's end test accepts an open run when no hint entry is left. | hint `[1]`, height 3, column `Fill, Void, Fill` | reject, as line 315 does for a run followed by `Blank` | not executed | `ValidCheck.ColumnAcceptsExtraTrailingRun` | `ValidCheck.StrictEndCorrected` |
| Nonogram/SequentialSolver.cs:42-46 | In all-solutions mode, the search still returns after the first state recorded at the last row, so the rest of that row's permutations are never tried. | 1 by 1 board, row and column hints `[0]`: the all-`Void` line is generated twice | record every board that passes, as the `src/nonogram` search does | not executed | `CursorSearch.AllModeDropsCopy` | `Search.SolveFindsEverySolution` |
| src/nonogram/SequentialSolver.cs:37-45 | At the last row, a board is recorded after the partial column checks alone, so non-solutions are recorded. | 1 by 1 board, row hint `[1]`, column hint `[2]` | record only solved boards | not executed | `Search.SearchRecordsNonSolution` | `Search.CheckedSolveSound` |
