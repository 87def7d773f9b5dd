/** The engine as the program runs it: one mutable 9x9 grid that
    find_empty_cell and is_valid_move scan, that solve_sudoku fills and
    unfills cell by cell, and that remove_numbers clears in place. Each
    operation is proved against the value-level meaning in SudokuBoard. */
module SudokuEngine {
  import opened SudokuBoard

  predicate IsGrid(g: array2<int>) {
    g.Length0 == 9 && g.Length1 == 9
  }

  /** The current contents of the grid as a value. */
  function Snapshot(g: array2<int>): (b: Board)
    requires IsGrid(g)
    reads g
    ensures IsBoard(b)
    ensures forall i, j :: 0 <= i < 9 && 0 <= j < 9 ==> b[i][j] == g[i, j]
  {
    seq(9, i requires 0 <= i < 9 reads g => seq(9, j requires 0 <= j < 9 reads g => g[i, j]))
  }

  /** find_empty_cell: scans rows, then columns, and stops at the first 0. */
  method FindEmptyCell(g: array2<int>) returns (cell: Option<(int, int)>)
    requires IsGrid(g)
    ensures cell == FirstEmpty(Snapshot(g))
  {
    for i := 0 to 9
      invariant forall a, b :: 0 <= a < i && 0 <= b < 9 ==> g[a, b] != 0
    {
      for j := 0 to 9
        invariant forall a, b :: 0 <= a < i && 0 <= b < 9 ==> g[a, b] != 0
        invariant forall b :: 0 <= b < j ==> g[i, b] != 0
      {
        if g[i, j] == 0 {
          return Some((i, j));
        }
      }
    }
    return None;
  }

  /** is_valid_move: one pass over the row and the column together, then one
      over the box; any hit answers false at once. It has no modifies
      clause, so it changes no cell. */
  method IsValidMove(g: array2<int>, row: int, col: int, num: int) returns (ok: bool)
    requires IsGrid(g) && 0 <= row < 9 && 0 <= col < 9
    ensures ok == MoveAllowed(Snapshot(g), row, col, num)
  {
    for i := 0 to 9
      invariant forall k :: 0 <= k < i ==> g[row, k] != num && g[k, col] != num
    {
      if g[row, i] == num || g[i, col] == num {
        return false;
      }
    }
    var startRow, startCol := 3 * (row / 3), 3 * (col / 3);
    for i := 0 to 3
      invariant forall a, b :: startRow <= a < startRow + i && startCol <= b < startCol + 3 ==> g[a, b] != num
    {
      var r := startRow + i;
      for j := 0 to 3
        invariant forall a, b :: startRow <= a < startRow + i && startCol <= b < startCol + 3 ==> g[a, b] != num
        invariant forall b :: startCol <= b < startCol + j ==> g[r, b] != num
      {
        if g[r, startCol + j] == num {
          return false;
        }
      }
    }
    return true;
  }

  /** The assignment `grid[row][col] = v`. */
  method SetCell(g: array2<int>, r: int, c: int, v: int)
    requires IsGrid(g) && 0 <= r < 9 && 0 <= c < 9
    modifies g
    ensures Snapshot(g) == Place(old(Snapshot(g)), r, c, v)
  {
    g[r, c] := v;
    SameCells(Snapshot(g), Place(old(Snapshot(g)), r, c, v));
  }

  /** solve_sudoku: depth-first search with chronological backtracking.
      It fills the first empty cell with each digit 1..9 that passes
      is_valid_move, in ascending order, recurses, and empties the cell
      again when the recursion fails. */
  method SolveSudoku(g: array2<int>) returns (solved: bool)
    requires IsGrid(g)
    modifies g
    // only empty cells are written, and only with digits 1..9
    ensures Refines(Snapshot(g), old(Snapshot(g)))
    ensures solved ==> Complete(Snapshot(g))
    // every digit it wrote passed is_valid_move, so none clashes with a peer
    ensures solved ==> PlacedNoConflict(Snapshot(g), old(Snapshot(g)))
    // a failed search undoes every placement it made
    ensures !solved ==> Snapshot(g) == old(Snapshot(g))
    // the search gives up only when no completion exists, whatever the
    // givens hold, and so in particular only when there is no solution
    ensures solved <==> HasCompletion(old(Snapshot(g)))
    ensures !solved ==> !HasSolution(old(Snapshot(g)))
    // from conflict-free givens, success yields a solution
    ensures solved && ConflictFree(old(Snapshot(g))) ==> IsSolutionOf(Snapshot(g), old(Snapshot(g)))
    ensures ConflictFree(old(Snapshot(g))) ==> (solved <==> HasSolution(old(Snapshot(g))))
    // a grid without empty cells is accepted as it is, duplicates and all
    ensures Complete(old(Snapshot(g))) ==> solved
    decreases ZeroCount(Snapshot(g))
  {
    var cell := FindEmptyCell(g);
    if cell.None? {
      FullGridSolvesItself(Snapshot(g));
      assert IsCompletionOf(Snapshot(g), Snapshot(g));
      return true;
    }
    var row, col := cell.value.0, cell.value.1;
    ghost var start := Snapshot(g);
    for num := 1 to 10
      invariant Snapshot(g) == start
      invariant forall s :: IsCompletionOf(s, start) ==> s[row][col] >= num
    {
      var ok := IsValidMove(g, row, col, num);
      if ok {
        SetCell(g, row, col, num);
        ghost var placed := Place(start, row, col, num);
        PlaceDecreasesZeroCount(start, row, col, num);
        solved := SolveSudoku(g);
        if solved {
          ghost var final := Snapshot(g);
          RefinesTransitive(final, placed, start);
          PlacedNoConflictStep(final, start, row, col, num);
          assert IsCompletionOf(final, start);
          if ConflictFree(start) {
            PlaceAllowedKeepsConflictFree(start, row, col, num);
            assert IsSolutionOf(final, start);
          }
          return;
        }
        SetCell(g, row, col, 0);
        PlaceUndone(start, row, col, num);
        forall s | IsCompletionOf(s, start) && s[row][col] == num
          ensures false
        {
          CompletionOfPlacement(s, start, row, col);
        }
      } else {
        forall s | IsCompletionOf(s, start) && s[row][col] == num
          ensures false
        {
          CompletionDigitIsAllowed(s, start, row, col);
        }
      }
    }
    forall s | IsCompletionOf(s, start)
      ensures false
    {
      CompletionDigitInRange(s, start, row, col);
    }
    forall s | IsSolutionOf(s, start)
      ensures false
    {
      SolutionIsCompletion(s, start);
    }
    return false;
  }

  /** remove_numbers: visits the 81 cells in row-major order and sets to 0
      each cell the mask selects. */
  method RemoveNumbers(g: array2<int>, clear: seq<seq<bool>>)
    requires IsGrid(g) && IsMask(clear)
    modifies g
    ensures Snapshot(g) == Removed(old(Snapshot(g)), clear)
  {
    for i := 0 to 9
      invariant forall a, b :: 0 <= a < 9 && 0 <= b < 9 ==>
        g[a, b] == if a < i && clear[a][b] then 0 else old(g[a, b])
    {
      for j := 0 to 9
        invariant forall a, b :: 0 <= a < 9 && 0 <= b < 9 ==>
          g[a, b] == if (a < i || (a == i && b < j)) && clear[a][b] then 0 else old(g[a, b])
      {
        if clear[i][j] {
          g[i, j] := 0;
        }
      }
    }
    SameCells(Snapshot(g), Removed(old(Snapshot(g)), clear));
  }

  /** generate_sudoku: fills an all-zero grid with the solver, then carves
      the puzzle out of it with remove_numbers. The solver's return value is
      ignored, and may be: the empty grid is solvable, so the run succeeds
      and `seed` is a full solved grid. */
  method GenerateSudoku(clear: seq<seq<bool>>) returns (g: array2<int>, ghost seed: Board)
    requires IsMask(clear)
    ensures fresh(g) && IsGrid(g)
    ensures IsSolutionOf(seed, EmptyBoard())
    ensures Snapshot(g) == Removed(seed, clear)
    ensures IsSolutionOf(seed, Snapshot(g))
  {
    g := new int[9, 9]((i, j) => 0);
    SameCells(Snapshot(g), EmptyBoard());
    EmptyBoardHasSolution();
    var solved := SolveSudoku(g);
    seed := Snapshot(g);
    RemoveNumbers(g, clear);
    RemovedKeepsSolution(seed, clear);
  }
}
