# Sudoku engine: a verified model

This project models the constraint engine of a small Sudoku game: the
backtracking solver `solve_sudoku`, its helpers `find_empty_cell` and
`is_valid_move`, the puzzle carver `remove_numbers` and the generator
`generate_sudoku` (main.py, lines 73-134). A grid is 9x9 integers, with 0
for an empty cell.

The model has two modules.

- `SudokuBoard` (board.dfy) treats a grid as a value, `Board = seq<seq<int>>`,
  and defines what the operations mean. `FirstEmpty` is the row-major search
  for a 0. `MoveAllowed` is the row, column and box check. `Removed` is the
  grid after cells are cleared. `Refines`, `ConflictFree`, `Complete` and
  `IsSolutionOf` say what a solution of a puzzle is; `IsCompletionOf` says
  what the solver actually searches for: a full grid that keeps the givens
  and whose filled-in digits clash with nothing. Lemmas about these carry
  the proof work.
- `SudokuEngine` (engine.dfy) holds the program as written. The grid is one
  mutable `array2<int>`, scanned by loops with early returns, filled and
  emptied in place by the recursive solver, and cleared in place by the
  removal step. `Snapshot(g)` reads the array as a `Board`, and every method
  is proved against the `SudokuBoard` meaning.

The central result is the contract of `SudokuEngine.SolveSudoku`:

- it only fills cells that were 0, and only with digits 1..9;
- on success no cell is 0, and no digit it wrote shares its value with a
  cell in the same row, column or box, whatever the givens hold;
- on failure the grid is exactly as it was given;
- it succeeds exactly when the given grid has a completion, whatever the
  givens hold, so it fails only when no completion exists, and in
  particular only when the grid has no solution;
- when the givens are conflict-free, it succeeds exactly when a solution
  exists, and the grid it leaves is one.

It terminates because each recursive call starts with one empty cell fewer
(`decreases ZeroCount(...)`, which is at most 81). `GenerateSudoku` is proved
to produce a puzzle that the solved seed grid still solves. The all-zero
grid is solvable (a fixed grid is proved to solve it), so the solver run inside
the generator always succeeds.

The solver never checks the givens against each other. A grid with no
empty cell returns True at main.py:88-89 whatever it holds
(`FullGridWithDuplicates` shows a full grid that breaks the row rule), and
on a partial grid it checks only the digits it places itself. What the
code does guarantee on every success is that each digit it wrote passed
`is_valid_move`, so none of them clashes with a peer
(`PlacedNoConflict`). Its return value is fixed for every input: True
exactly when such a completion exists (`IsCompletionOf`), even when the
givens clash. `SolveSudoku` promises a fully conflict-free result only when
the givens are conflict-free, and on such grids completions and solutions
coincide.

## Model

| member | source | states |
|---|---|---|
| `SudokuBoard.EmptyBoard` | main.py:75 | the generator's starting grid is 9x9 with every cell 0 |
| `SudokuBoard.FirstEmptyFrom` | main.py:108-112 | the scan from (i, j) onward returns a cell at or after (i, j) that holds 0, with every scanned cell before it non-zero; None means every cell from (i, j) on is non-zero |
| `SudokuBoard.FirstEmpty` | main.py:107-112 | returns (i, j) only when cell (i, j) is 0 and every cell before it in row-major order is non-zero; returns None exactly when no cell is 0 |
| `SudokuEngine.FindEmptyCell` | main.py:107-112 | the nested loops with early return yield exactly `FirstEmpty` of the current grid |
| `SudokuBoard.MoveAllowed` | main.py:114-127 | the row/column scan and the 3x3 box scan, the target cell included: a cell already holding `num` is rejected |
| `SudokuBoard.MoveAllowedIffNoPeerHolds` | main.py:114-127 | the row, column and box scans accept `num` exactly when neither the target cell nor any cell sharing its row, column or box holds `num` (both directions) |
| `SudokuEngine.IsValidMove` | main.py:114-127 | the loop answer equals `MoveAllowed` on the current grid; the method has no modifies clause, so it changes no cell |
| `SudokuBoard.ClearedDigitIsAllowed` | main.py:114-127 | after one cell of a full conflict-free grid is emptied, the digit that was there passes `is_valid_move` again |
| `SudokuBoard.PlaceAllowedKeepsConflictFree` | main.py:95-96 | a digit that passed `is_valid_move`, written into an empty cell of a conflict-free grid, leaves the grid conflict-free |
| `SudokuBoard.PlacedNoConflictStep` | main.py:95-100 | if the digit placed passed `is_valid_move` and the recursive call's placements clash with nothing, then all placements of this call, the new digit included, clash with nothing |
| `SudokuBoard.SolutionIsCompletion` | main.py:85-105 | every solution of a puzzle is a completion of it, so a search that misses no completion misses no solution |
| `SudokuBoard.CompletionOfConflictFreeIsSolution` | main.py:85-105 | on a puzzle whose givens are conflict-free, every completion is a solution |
| `SudokuBoard.CompletionDigitIsAllowed` | main.py:94-95 | the digit any completion puts into an empty cell passes `is_valid_move` on the puzzle, even when the givens clash, so the pruning never discards a completion |
| `SudokuBoard.CompletionOfPlacement` | main.py:96-99 | a completion that agrees with the tentative digit is a completion of the grid handed to the recursive call |
| `SudokuBoard.CompletionDigitInRange` | main.py:94 | a completion holds a digit 1..9 in every empty cell of the puzzle, so trying digits 1..9 covers every completion |
| `SudokuBoard.FullGridSolvesItself` | main.py:87-89 | a grid with no empty cell that is conflict-free is a solution of itself, so the immediate True for a full grid is justified when the givens are conflict-free |
| `SudokuBoard.FullGridWithDuplicates` | main.py:87-89 | a full grid of all 1s has no empty cell yet breaks the row rule: the early True does not look at the givens |
| `SudokuBoard.ZeroCount` | main.py:96-99 | the number of empty cells, which bounds the recursion depth, is at most 81 |
| `SudokuBoard.ZerosFromPlace` | main.py:96-99 | filling the empty cell (r, c) lowers the count of empty cells from (i, j) onward by one exactly when (r, c) is at or after (i, j) |
| `SudokuBoard.PlaceDecreasesZeroCount` | main.py:96-99 | each recursive call starts with exactly one empty cell fewer, so the search terminates |
| `SudokuBoard.PlaceUndone` | main.py:103 | writing 0 back into the cell just filled restores the grid exactly |
| `SudokuEngine.SetCell` | main.py:96 | after the assignment the grid equals the old grid with that one cell changed |
| `SudokuEngine.SolveSudoku` | main.py:85-105 | only cells that were 0 are written, and only with 1..9; success leaves no 0 and every digit written differs from all its peers, whatever the givens; failure leaves the grid as given; the result is True exactly when the given grid has a completion (full, givens kept, filled digits clashing with nothing), whatever the givens hold, so failure implies no solution exists; with conflict-free givens, success happens exactly when a solution exists and yields one; a full grid returns True |
| `SudokuBoard.EmptyBoardHasSolution` | main.py:75-78 | the all-zero grid has a solution (a fixed rotated-rows grid), so the solver run in the generator succeeds |
| `SudokuBoard.Removed` | main.py:129-134 | removal never writes a digit: every cell of the result is either unchanged or 0; selected cells are 0 and all others unchanged |
| `SudokuEngine.RemoveNumbers` | main.py:129-134 | the in-place loops leave the grid equal to `Removed` of the old grid under the clear mask |
| `SudokuBoard.RemoveNoneIsIdentity` | main.py:133 | with no cell selected (difficulty 0) the grid is unchanged |
| `SudokuBoard.RemoveAllIsEmpty` | main.py:133 | with every cell selected (difficulty 1) every cell becomes 0 |
| `SudokuBoard.RemovedKeepsSolution` | main.py:78-81 | clearing cells of a solved grid gives a puzzle that the solved grid still solves |
| `SudokuEngine.GenerateSudoku` | main.py:73-83 | returns a fresh 9x9 grid equal to `Removed` of a full conflict-free seed grid, and that seed is a solution of the returned puzzle |

## Left out

- The `SudokuGame` class and `main` (main.py:4-71, 136-149): tkinter widgets, button callbacks, message boxes and the `int(value)` parsing of entries are presentation, not engine.
- `RemoveNumbers` and `GenerateSudoku` take the outcome of the per-cell draws `random.random() < difficulty` as a 9x9 boolean mask `clear`, because randomness and floating point are not modelled; difficulty 0 and 1 appear as the all-false and all-true masks.
- No claim that a generated puzzle has a unique solution: the code does not check for this.
- That the solver finds the first solution in row-major, ascending-digit order is not proved. The model does try the digits in ascending order and stops at the first success, as the code does.
- `IsValidMove` requires `row` and `col` in 0..8, and all methods require a 9x9 grid. In Python, a negative index counts from the end and an index past 8 raises IndexError; both are caller misuse and are not modelled.
- The grid is one `array2`, while Python uses a list of nine row lists. Nothing in the core shares rows between grids, so the difference is not observable here.
- Stack depth is not modelled beyond the bound: the recursion is at most 81 deep, because `ZeroCount` is at most 81 and drops by one per call.
