# Sudoku puzzle engine — a Dafny model

This project models the puzzle engine of a browser Sudoku game: everything
that is not user interface. The engine has four parts:

- **Table and checks.** The table is a 9 x 9 grid of cells. Each cell holds a
  value, with 0 meaning empty, and a `readonly` flag that marks a given. The
  checks ask whether a digit is used in a row, a column or a 3 x 3 box; whether
  a digit may be written at a cell; and whether a table is valid (no digit
  twice in a row, column or box), completely filled, or solved.
- **Generator.** It shuffles 1..9 to seed the three independent diagonal
  boxes. A backtracking search then fills in the rest of the table, in place
  and in row-major order.
- **Stepwise solver.** The same search, written as a coroutine that hands the
  table to the "next step" button after every trial placement, and again
  after every success of the search below it.
- **Puzzle object.** It carries a difficulty level and runs the pipeline:
  empty table → seeded diagonal → filled table → digits carved out at random →
  remaining digits frozen as readonly givens.

Files:

- `tables.dfy` (module `Tables`): the cell record `Grid`, the table as a value,
  and the construction helpers. It also holds the reference definitions:
  `NoDuplicates`, `Filled`, `Solved` and `CanPlace`.
- `checks.dfy` (module `Checks`): the scans and the counter-map validity check.
- `completion.dfy` (module `Completion`): completions of a partly filled
  table, the yardstick against which both searches are shown to be complete.
- `generator.dfy` (module `Generator`): the shuffle, box filling and
  backtracking completion, on a two-dimensional array that is updated in place.
- `solver.dfy` (module `Solver`): the stepwise solver. What it yields is
  recorded in a ghost trace of `Step`s.
- `sudoku.dfy` (module `Puzzle`): the difficulty levels and the class
  `Sudoku`, with its carver and pipeline.

Random draws are inputs to the model. Each shuffle gets one drawn index per
turn of its loop, and the carver gets a sequence of drawn cells.

## Model

| member | source | states |
|---|---|---|
| `Tables.BoxOrigin` | src/app/helpers/sudoku-util.ts:195-196 | the origin `i - i % root` is a multiple of the box side, at most `i`, and less than one box side below it |
| `Tables.Cursor` | src/app/helpers/sudoku-util.ts:79-82 | a column index of N moves the searches to the first cell of the next row; the row-major position stays the same |
| `Tables.GetNilArrayWithLength` | src/app/helpers/sudoku-util.ts:8 | `num` zeros |
| `Tables.GetSequenceArrayWithLength` | src/app/helpers/sudoku-util.ts:11 | the sequence 1..num: element k is k + 1 |
| `Tables.GetInitializedGridMap` | src/app/helpers/sudoku-util.ts:23-25 | the counter map has exactly the keys 1..num, each mapped to 0 |
| `Tables.GetDummyRow` | src/app/helpers/sudoku-util.ts:17 | `size` cells, each empty and readonly |
| `Tables.InitializeTable` | src/app/helpers/sudoku-util.ts:20 | a size x size table of empty readonly cells |
| `Tables.InitializedTableIsValidButNotSolved` | src/app/helpers/sudoku-util.ts:17-20 | a fresh 9 x 9 table has no duplicates, is not filled and so is not solved |
| `Tables.MakePrefilledDigitsReadonly` | src/app/helpers/sudoku-util.ts:108-112 | same shape, every value kept, `readonly` set exactly on the nonzero cells |
| `Tables.MakePrefilledDigitsReadonlyIdempotent` | src/app/helpers/sudoku-util.ts:108-112 | freezing the givens twice gives the same table as freezing them once |
| `Tables.SameBoxIsBoxOrigin` | src/app/helpers/sudoku-util.ts:193-198 | the box scanned from the computed origin holds exactly the cells that share a box with (i, j) |
| `Tables.PlacementKeepsNoDuplicates` | src/app/helpers/sudoku-util.ts:87-88 | writing a digit that the legality check allows keeps a duplicate-free table free of duplicates |
| `Tables.ClearingKeepsNoDuplicates` | src/app/models/sudoku.ts:42-45 | emptying cells never creates a duplicate, because 0 conflicts with nothing |
| `Tables.ClearOneCell` | src/app/models/sudoku.ts:42-44 | emptying one nonzero cell lowers the count of nonzero cells by exactly one |
| `Tables.SameValuesSameCount` | src/app/helpers/sudoku-util.ts:108-112 | tables with the same values have the same count of nonzero cells, whatever their `readonly` flags |
| `Tables.FilledCount` | src/app/helpers/sudoku-util.ts:157-159 | a filled 9 x 9 table has 81 nonzero cells |
| `Checks.FindValue` | src/app/helpers/sudoku-util.ts:168 | `find` over a row succeeds iff some cell holds `num` |
| `Checks.IsNumberUsedInRow` | src/app/helpers/sudoku-util.ts:167-169 | true iff `num` occurs in the row |
| `Checks.FindRowWithValueAt` | src/app/helpers/sudoku-util.ts:173 | `find` over the rows succeeds iff some row holds `num` in the column |
| `Checks.IsNumberUsedInColumn` | src/app/helpers/sudoku-util.ts:172-174 | true iff `num` occurs in the column |
| `Checks.IsNumberUsedInBox` | src/app/helpers/sudoku-util.ts:177-186 | true iff `num` occurs in the root x root box at (r, c); the nested loop returns at the first hit |
| `Checks.FindIfNumberValidAtGrid` | src/app/helpers/sudoku-util.ts:189-200 | true iff `num` is in neither the row, nor the column, nor the box at `(i - i % root, j - j % root)` (`CanPlace`) |
| `Checks.IsValidSudoku` | src/app/helpers/sudoku-util.ts:116-154 | the counter-map scan with early return is true iff no digit 1..9 occurs twice in a row, column or box; 0 and out-of-range values never conflict |
| `Checks.RepeatInRowIsInvalid` | src/app/helpers/sudoku-util.ts:139-149 | a digit twice in one row makes the table invalid |
| `Checks.FindRowWithEmptyCell` | src/app/helpers/sudoku-util.ts:158 | the nested `find` succeeds iff some cell holds 0 |
| `Checks.IsCompletelyFilled` | src/app/helpers/sudoku-util.ts:157-159 | true iff no cell holds 0 |
| `Checks.IsSolved` | src/app/helpers/sudoku-util.ts:162-164 | true iff the table is valid and filled (`Solved`); the table is a value, so it cannot change |
| `Completion.ResetKeepsCompletions` | src/app/helpers/sudoku-util.ts:93 | resetting cells that are not fixed to (0, false) keeps every completion of the table |
| `Completion.SkipFixedKeepsCompletion` | src/app/helpers/sudoku-util.ts:83-85 | skipping a fixed cell keeps a completion a completion from the next cell |
| `Completion.SkipFixedKeepsCompletions` | src/app/helpers/sudoku-util.ts:83-85 | a table completable from a fixed cell is completable from the next cell |
| `Completion.CompletionDigitIsLegal` | src/app/helpers/sudoku-util.ts:87 | the digit a completion holds at a non-fixed cursor passes the legality check there |
| `Completion.CompletableWithIsLegal` | src/app/helpers/sudoku-util.ts:87 | a digit that some completion holds at a non-fixed cursor is legal there |
| `Completion.PlacementKeepsCompletion` | src/app/helpers/sudoku-util.ts:88-89 | writing the completion's digit at the cursor keeps it a completion from the next cell |
| `Completion.PlacementKeepsCompletable` | src/app/helpers/sudoku-util.ts:88-89 | writing a digit some completion holds at the cursor leaves the table completable from the next cell |
| `Completion.CompletionAtEnd` | src/app/helpers/sudoku-util.ts:72-77 | past the last cell the only completion is the table itself, which then has no duplicates, so the end check passes |
| `Completion.ExcludeDigit` | src/app/helpers/sudoku-util.ts:86-94 | a failed turn with digit n, after resets that keep completions, shows that no completion holds n at the cursor |
| `Completion.NoDigitLeft` | src/app/helpers/sudoku-util.ts:95 | once every digit 1..9 is excluded at the cursor, there is no completion, so returning null is right |
| `Generator.SwapIsPermutation` | src/app/helpers/sudoku-util.ts:42-45 | one swap keeps the multiset of elements and keeps them distinct |
| `Generator.Shuffle` | src/app/helpers/sudoku-util.ts:38-47 | the reference Fisher-Yates pass from index i down to 0 keeps the length |
| `Generator.Shuffled` | src/app/helpers/sudoku-util.ts:34-48 | the shuffle of 1..9 under the draws has nine elements |
| `Generator.ShuffleIsPermutation` | src/app/helpers/sudoku-util.ts:38-47 | the reference shuffle keeps the multiset of elements and keeps them distinct |
| `Generator.RandomSequenceGenerator` | src/app/helpers/sudoku-util.ts:34-48 | the result is the reference shuffle `Shuffle` of 1..size under the draws `randomIndex` in [0, i]; it is a permutation of 1..size: same multiset, values in 1..size, all distinct |
| `Generator.FillBox` | src/app/helpers/sudoku-util.ts:51-59 | each box cell (i, j) becomes readonly `sequence[(i-startR)*root + (j-startC)]`; every other cell is unchanged |
| `Generator.FillDiagonalBoxes` | src/app/helpers/sudoku-util.ts:62-68 | off-diagonal cells are unchanged; cell (i, j) of diagonal box b becomes readonly `Shuffled(draws of b)[(i % 3) * 3 + j % 3]`, so each diagonal box holds distinct readonly digits 1..9; on an all-empty table the result has no duplicates |
| `Generator.Seed` | src/app/helpers/sudoku-util.ts:62-68 | the table of readonly cells whose diagonal boxes hold the shuffled draws and whose other cells are empty |
| `Generator.ShuffledBoxesAreSeeded` | src/app/helpers/sudoku-util.ts:62-68 | diagonal boxes holding the shuffles of the draws hold distinct readonly digits 1..9 |
| `Generator.DiagonalSeedHasNoDuplicates` | src/app/helpers/sudoku-util.ts:61-68 | distinct digits in each diagonal box and zeros elsewhere mean no duplicates, because diagonal boxes share no row, column or box |
| `Generator.FillOtherBoxes` | src/app/helpers/sudoku-util.ts:71-96 | cells before the cursor and fixed cells are never changed; on success the table has no duplicates and is filled from the cursor on (solved, from (0, 0)); on failure every cell is as before or (0, false), and the cursor cell, if not fixed, is (0, false); the search is complete: if any solved table agrees with the table before the cursor and on its fixed cells, with the other cells from the cursor on empty, it succeeds |
| `Generator.TryDigits` | src/app/helpers/sudoku-util.ts:86-95 | the digit loop of that search: success or failure as for the search, the cursor cell (0, false) after a failure, and success whenever a completion from the cursor exists, since every digit below the current one is excluded by all completions |
| `Generator.TryDigit` | src/app/helpers/sudoku-util.ts:87-93 | one digit's turn of that loop, with the same guarantees, and the cell reset to (0, false) unless the search below succeeded; if some completion holds n at the cursor, it succeeds |
| `Generator.FillCompleteTable` | src/app/helpers/sudoku-util.ts:99-105 | fixed cells unchanged; the table ends up solved, or with every cell as before or (0, false); a failed search is ignored; whenever the table can be completed at all, it ends up solved |
| `Solver.SolveGenerator` | src/app/helpers/sudoku-util.ts:204-234 | returns non-null iff it is the end cursor and the table is valid; nothing before the cursor changes; fixed cells other than the last cell are kept; every cell ends as before or (0, false); a non-fixed cursor cell ends as (0, false) and every digit legal there is tried; a fixed cursor cell ends as (0, false) exactly when the search below it succeeded (the next cell is the end and the table is valid), which sends it through the digit loop, and is kept otherwise; every hand-over satisfies `StepFrom`; the trials at the cursor use increasing digits; before the end cursor, every completion of the table from the cursor is handed over as a confirmation |
| `Solver.SolveFixedCell` | src/app/helpers/sudoku-util.ts:216-222 | the fixed-cell branch: the delegated search, then the digit loop exactly when it succeeded; the fixed cell ends as (0, false) exactly when the next cell is the end and the table is valid; nothing before the cursor changes; cells kept or (0, false), fixed cells other than the last kept, every hand-over valid, and every completion from the cursor confirmed |
| `Solver.SolveDigits` | src/app/helpers/sudoku-util.ts:223-233 | the digit loop does not stop after a success: every digit 1..9 legal at the cursor when the loop starts is tried, in increasing order, every completion from the cursor is confirmed, fixed cells other than the cursor are kept, and the cursor cell ends as (0, false) |
| `Solver.TrySolveDigit` | src/app/helpers/sudoku-util.ts:224-231 | there is a trial at the cursor, with digit n, exactly when n is legal there; every completion holding n at the cursor is confirmed; fixed cells other than the cursor are kept; the cell ends as (0, false) |
| `Solver.PlaceAndSolve` | src/app/helpers/sudoku-util.ts:225-229 | the legal digit n is written, the cell keeps it, and the first hand-over is the trial of n at the cursor, showing the old table with (n, false) there, the only trial there; at the last cell the trial is followed by a confirmation exactly when the table is then valid; every completion holding n at the cursor is confirmed; nothing before the cursor changes and fixed cells other than the cursor are kept |
| `Solver.ClearingKeepsCanPlace` | src/app/helpers/sudoku-util.ts:224 | a digit legal at a cell stays legal after cells are reset to 0, so backtracking never hides a legal digit from the loop |
| `Solver.LegalDigitsTriedStep` | src/app/helpers/sudoku-util.ts:223-224 | trying digit n when it is legal extends "every legal digit below n was tried" to n |
| `Solver.HandOversFromFirstCell` | src/app/helpers/sudoku-util.ts:225-228 | from (0, 0), every trial shows a digit 1..9 that no peer of its cell holds, and every confirmation shows a solved table |
| `Solver.PlacedDigitIsPeersFree` | src/app/helpers/sudoku-util.ts:224-226 | the digit written after a passed legality check is held by no peer of its cell |
| `Solver.ConfirmAtLastCell` | src/app/helpers/sudoku-util.ts:227-228 | success from the next cell happens only at the last cell, where the table handed over is duplicate-free and filled from the cursor |
| `Solver.ConfirmedAppend` | src/app/helpers/sudoku-util.ts:227 | a table confirmed in part of the trace is confirmed in the whole |
| `Solver.ConfirmsAllAppend` | src/app/helpers/sudoku-util.ts:216-217 | confirming every completion in part of the trace confirms it in the whole |
| `Solver.ConfirmsDigitsAppend` | src/app/helpers/sudoku-util.ts:223-231 | confirming the completions with digits lo..hi-1 at the cursor in part of the trace confirms them in the whole |
| `Solver.SkipFixedConfirms` | src/app/helpers/sudoku-util.ts:216-218 | at a fixed cell, what the delegated search confirms, followed by the extra hand-over after its success, confirms every completion from the cell |
| `Solver.PlacementConfirms` | src/app/helpers/sudoku-util.ts:225-228 | the search after writing n, followed by the hand-over after its success, confirms every completion holding n at the cursor |
| `Solver.ConfirmsDigitsStep` | src/app/helpers/sudoku-util.ts:223-232 | one more turn of the digit loop, after resets that keep every completion, extends the confirmed digits from 1..n-1 to 1..n |
| `Solver.AllStepsWiden` | src/app/helpers/sudoku-util.ts:216 | what a delegated call at the next cell yields is a valid hand-over of the calling cell, and makes no trial there |
| `Solver.AllStepsAppend` | src/app/helpers/sudoku-util.ts:227 | the hand-overs of consecutive parts of a call concatenate |
| `Solver.AllStepsRebase` | src/app/helpers/sudoku-util.ts:223 | hand-overs made later in the digit loop keep the cells before the cursor as they were when the call began |
| `Solver.TrialDigitsAppend` | src/app/helpers/sudoku-util.ts:223 | the digits tried at a cell, over consecutive parts of the trace, concatenate |
| `Solver.IncreasingAppend` | src/app/helpers/sudoku-util.ts:223 | adding the current loop digit to digits already tried keeps them increasing |
| `Puzzle.Percent` | src/app/models/sudoku.ts:9-13 | easy, medium and hard empty 25, 40 and 58 hundredths of the cells, strictly between 0 and 1 |
| `Puzzle.DigitsToBeRemovedIsFloor` | src/app/models/sudoku.ts:37 | `DigitsToBeRemoved` is the floor of ratio * length * length, which is less than the number of cells |
| `Puzzle.DigitsToBeRemovedOnNineByNine` | src/app/models/sudoku.ts:37 | on 9 x 9 tables the levels ask for 20, 32 and 46 removals |
| `Puzzle.HarderRemovesMore` | src/app/models/sudoku.ts:9-13 | easy removes no more than medium, and medium no more than hard |
| `Puzzle.Carve` | src/app/models/sudoku.ts:38-46 | the carve of the draws in order; at most `left` removals are still owed at the end |
| `Puzzle.CarveOnlyEmptiesDrawnCells` | src/app/models/sudoku.ts:40-45 | a carved cell either keeps its value or held a digit, was drawn, and becomes (0, false) |
| `Puzzle.CarveCount` | src/app/models/sudoku.ts:39-45 | the digits left plus the removals made equal the digits there were; only nonzero draws count |
| `Puzzle.CarveShortOfDraws` | src/app/models/sudoku.ts:39-45 | if the draws run out before enough removals, every drawn cell is empty afterwards |
| `Puzzle.FillKeepsSeed` | src/app/helpers/sudoku-util.ts:99-105 | the fill keeps the fixed seeded diagonal, has no duplicates, and is solved or still empty off the diagonal |
| `Puzzle.Sudoku.RemoveKdigits` | src/app/models/sudoku.ts:36-48 | the table becomes the reference carve `Carve` of the old table with `digitsToBeRemoved + 1` removals, and `done` says the draws sufficed; only drawn nonzero cells change, and only to (0, false); a finished carve empties exactly `digitsToBeRemoved + 1` cells, one more than computed, because the guard is `<=`; when the draws run out first, every drawn cell is empty |
| `Puzzle.Sudoku.GetSudokuPuzzle` | src/app/models/sudoku.ts:28-34 | the pipeline yields a fresh table with `readonly` exactly on the nonzero cells and no duplicates; its values are those of the carve of the full table, and `done` says the draws sufficed; the full table has its diagonal boxes seeded with the reference seed `Seed` of the shuffles and is solved or still empty elsewhere, and it is solved whenever the seeded diagonal can be completed; when it is solved and the draws sufficed, exactly `digitsToBeRemoved + 1` cells are empty |
| `Puzzle.Sudoku.GetFilledTable` | src/app/models/sudoku.ts:31-33 | the first three stages give a fresh table whose diagonal boxes are the reference seed `Seed` of the draws, with no duplicates, solved or still empty off the diagonal, and solved whenever the seed can be completed |
| `Puzzle.Sudoku.GetCarvedPuzzle` | src/app/models/sudoku.ts:29-30 | the last two stages give a fresh table with `readonly` exactly on the nonzero cells and no duplicates, whose values are those of the carve of the given table; `done` says the draws sufficed; from a solved table with enough draws exactly `digitsToBeRemoved + 1` cells are empty |
| `Puzzle.Sudoku.constructor` | src/app/models/sudoku.ts:22-26 | stores size and level and builds the puzzle table by the pipeline: duplicate-free, with the givens frozen, and with the values of the carve of `full`, the filled table whose diagonal boxes are the seed of the shuffles and which is solved whenever that seed can be completed |

## Left out

- Randomness. `Math.random` is replaced by inputs: one drawn index per turn of
  each shuffle, and a sequence of drawn cells for the carver. Distributions
  and uniformity are not modelled.
- Puzzle.Sudoku.RemoveKdigits: the source keeps drawing until enough cells are
  emptied. The model has a finite sequence of draws and reports with `done`
  whether it ran out first. The carve therefore ends even on tables with too
  few digits, where the source would loop forever.
- Generator.FillCompleteTable: the search is proved complete (a table that can
  be completed comes out solved), but it is not proved that every seeded
  diagonal can be completed; that is a fact about Sudoku grids, not about the
  search.
- Puzzle.Sudoku.GetSudokuPuzzle: the count of empty cells is stated only when
  the fill solved the table and the draws sufficed, for the reasons given for
  the previous two members.
- Coroutine mechanics. The laziness of the generator and `yield*` suspension
  are not modelled. The solver runs to completion, and each yield is recorded
  in the trace. The consumer's `next()` in the board component is not part of
  this model.
- The digit loops are their own methods (`TryDigits`, `SolveDigits`) with a
  helper method per turn (`TryDigit`, `TrySolveDigit`, with the solver's
  placement in `PlaceAndSolve`); the solver's fixed-cell branch is
  `SolveFixedCell`; the first three stages of the pipeline are
  `GetFilledTable` and the last two `GetCarvedPuzzle`. The statements and their order are those of the source.
- `size` and `complexity` are `const` fields of `Sudoku`, as the source assigns
  them only in the constructor.
- Table size. N is fixed to 9 and the box side to 3, as the app always builds
  9 x 9 puzzles. `getTableLengthRoot` (`Math.sqrt` of the length) is the
  constant 3. The digit loops run over 1..9 as written.
- Floating point. The difficulty ratios are exact fractions; their floors
  agree with the source's for 9 x 9 tables. The `NaN` counter arithmetic of
  `isValidSudoku` becomes "values outside 1..9 are not counted". An unknown
  difficulty label, which the source turns into `NaN` so that nothing is
  carved, is not representable: levels are a datatype.
- `getDummyGrid` is the `Grid` constructor of the model. Every call site
  passes both arguments, so its default arguments are never used and the
  model has none.
- Timing and logging. The `Date` measurement and `console.log` in
  `fillCompleteTable` and `printTable` are not modelled.
- Ramda helpers (`compose`, `addIndex`, `map`, `pluck`) are given their list
  meaning.
- The `isSolved` and `isDirty` fields of the `Sudoku` class are never set by
  the engine and are not modelled.
- The board component (keyboard cursor, cell entry) and the app and home
  modules are user interface and are not part of this model.
- The number of removals for an easy 9 x 9 puzzle is floor(0.25 * 81) = 20, but
  the guard `i <= digitsToBeRemoved` at src/app/models/sudoku.ts:39 empties 21
  cells. The model follows the code.
