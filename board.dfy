/** The Sudoku grid as a value, and what the engine's operations mean on it.
    A grid is nine rows of nine integers; 0 marks an empty cell, any other
    value is a placed digit. Rows and columns are numbered 0 to 8, and the
    box of cell (r, c) is the 3x3 block whose top-left corner is
    (3 * (r / 3), 3 * (c / 3)). */
module SudokuBoard {

  datatype Option<T> = None | Some(value: T)

  type Board = seq<seq<int>>

  predicate IsBoard(b: Board) {
    |b| == 9 && forall i :: 0 <= i < 9 ==> |b[i]| == 9
  }

  /** The grid with every cell empty, as the generator allocates it. */
  function EmptyBoard(): (b: Board)
    ensures IsBoard(b)
    ensures forall i, j :: 0 <= i < 9 && 0 <= j < 9 ==> b[i][j] == 0
  {
    seq(9, _ => seq(9, _ => 0))
  }

  /** The grid with cell (r, c) set to v and every other cell as it was. */
  function Place(b: Board, r: int, c: int, v: int): (p: Board)
    requires IsBoard(b) && 0 <= r < 9 && 0 <= c < 9
    ensures IsBoard(p)
    ensures forall i, j :: 0 <= i < 9 && 0 <= j < 9 ==>
      p[i][j] == if i == r && j == c then v else b[i][j]
  {
    b[r := b[r][c := v]]
  }

  /** Writing a cell and then writing back its old value restores the grid. */
  lemma PlaceUndone(b: Board, r: int, c: int, v: int)
    requires IsBoard(b) && 0 <= r < 9 && 0 <= c < 9
    ensures Place(Place(b, r, c, v), r, c, b[r][c]) == b
  {
    SameCells(Place(Place(b, r, c, v), r, c, b[r][c]), b);
  }

  /** Row-major order: (i1, j1) is scanned strictly before (i2, j2). */
  predicate Before(i1: int, j1: int, i2: int, j2: int) {
    i1 < i2 || (i1 == i2 && j1 < j2)
  }

  /** Two distinct cells that share a row, a column or a box. */
  predicate Peers(i1: int, j1: int, i2: int, j2: int) {
    (i1 != i2 || j1 != j2) &&
    (i1 == i2 || j1 == j2 || (i1 / 3 == i2 / 3 && j1 / 3 == j2 / 3))
  }

  /** No digit occurs twice in a row, a column or a box; empty cells are
      exempt from the rule. */
  predicate ConflictFree(b: Board)
    requires IsBoard(b)
  {
    forall i1, j1, i2, j2 ::
      (0 <= i1 < 9 && 0 <= j1 < 9 && 0 <= i2 < 9 && 0 <= j2 < 9 &&
       Peers(i1, j1, i2, j2) && b[i1][j1] != 0) ==> b[i1][j1] != b[i2][j2]
  }

  /** No cell is empty. */
  predicate Complete(b: Board)
    requires IsBoard(b)
  {
    forall i, j :: 0 <= i < 9 && 0 <= j < 9 ==> b[i][j] != 0
  }

  /** `after` keeps every non-empty cell of `before`, and each cell it
      changed was empty and now holds a digit 1..9. */
  predicate Refines(after: Board, before: Board) {
    IsBoard(after) && IsBoard(before) &&
    forall i, j :: 0 <= i < 9 && 0 <= j < 9 ==>
      after[i][j] == before[i][j] || (before[i][j] == 0 && 1 <= after[i][j] <= 9)
  }

  /** `s` is a solution of the puzzle `b`: it fills every empty cell of `b`
      with a digit, keeps the givens, and breaks no row, column or box rule. */
  predicate IsSolutionOf(s: Board, b: Board) {
    Refines(s, b) && Complete(s) && ConflictFree(s)
  }

  ghost predicate HasSolution(b: Board) {
    exists s :: IsSolutionOf(s, b)
  }

  /** Two grids with the same cells are the same grid. */
  lemma SameCells(a: Board, b: Board)
    requires IsBoard(a) && IsBoard(b)
    requires forall i, j :: 0 <= i < 9 && 0 <= j < 9 ==> a[i][j] == b[i][j]
    ensures a == b
  {
    forall i | 0 <= i < 9 ensures a[i] == b[i] {
    }
  }

  lemma RefinesTransitive(a: Board, b: Board, c: Board)
    requires Refines(a, b) && Refines(b, c)
    ensures Refines(a, c)
  {
  }

  /** A full conflict-free grid is its own (and only) solution. */
  lemma FullGridSolvesItself(b: Board)
    requires IsBoard(b) && Complete(b)
    ensures ConflictFree(b) ==> IsSolutionOf(b, b) && HasSolution(b)
  {
    if ConflictFree(b) {
      assert IsSolutionOf(b, b);
    }
  }

  /** Every cell that was empty in `before` holds, in `after`, a value that
      none of its peers holds: whatever the givens are, the digits the solver
      wrote clash with nothing. */
  predicate PlacedNoConflict(after: Board, before: Board)
    requires IsBoard(after) && IsBoard(before)
  {
    forall i, j, i2, j2 ::
      (0 <= i < 9 && 0 <= j < 9 && 0 <= i2 < 9 && 0 <= j2 < 9 &&
       before[i][j] == 0 && Peers(i, j, i2, j2)) ==> after[i][j] != after[i2][j2]
  }

  /** `s` completes the puzzle `b` the way the solver can: it fills every
      empty cell with a digit 1..9, keeps the givens, and none of the digits
      it filled in clashes with a peer. The givens themselves may clash. */
  predicate IsCompletionOf(s: Board, b: Board) {
    Refines(s, b) && Complete(s) && PlacedNoConflict(s, b)
  }

  ghost predicate HasCompletion(b: Board) {
    exists s :: IsCompletionOf(s, b)
  }

  /** Every solution is a completion. */
  lemma SolutionIsCompletion(s: Board, b: Board)
    requires IsSolutionOf(s, b)
    ensures IsCompletionOf(s, b)
  {
    forall i, j, i2, j2 |
      0 <= i < 9 && 0 <= j < 9 && 0 <= i2 < 9 && 0 <= j2 < 9 &&
      b[i][j] == 0 && Peers(i, j, i2, j2)
      ensures s[i][j] != s[i2][j2]
    {
      assert s[i][j] != 0;
    }
  }

  /** With conflict-free givens, a completion is a solution: so on such
      puzzles the two notions coincide. */
  lemma CompletionOfConflictFreeIsSolution(s: Board, b: Board)
    requires IsCompletionOf(s, b) && ConflictFree(b)
    ensures IsSolutionOf(s, b)
  {
    forall i1, j1, i2, j2 |
      0 <= i1 < 9 && 0 <= j1 < 9 && 0 <= i2 < 9 && 0 <= j2 < 9 &&
      Peers(i1, j1, i2, j2) && s[i1][j1] != 0
      ensures s[i1][j1] != s[i2][j2]
    {
      if b[i1][j1] != 0 && b[i2][j2] == 0 {
        assert Peers(i2, j2, i1, j1);
      }
    }
  }

  /** A completion writes a digit 1..9 into each empty cell of the puzzle. */
  lemma CompletionDigitInRange(s: Board, b: Board, r: int, c: int)
    requires IsCompletionOf(s, b) && 0 <= r < 9 && 0 <= c < 9 && b[r][c] == 0
    ensures 1 <= s[r][c] <= 9
  {
  }

  // ---------------------------------------------------------------------
  // find_empty_cell

  /** The first empty cell at or after (i, j) in row-major order. */
  function FirstEmptyFrom(b: Board, i: int, j: int): (r: Option<(int, int)>)
    requires IsBoard(b) && 0 <= i <= 9 && 0 <= j <= 9
    ensures r.Some? ==>
      0 <= r.value.0 < 9 && 0 <= r.value.1 < 9 &&
      !Before(r.value.0, r.value.1, i, j) && b[r.value.0][r.value.1] == 0 &&
      (forall i', j' ::
        (0 <= i' < 9 && 0 <= j' < 9 && !Before(i', j', i, j) && Before(i', j', r.value.0, r.value.1)) ==>
        b[i'][j'] != 0)
    ensures r.None? ==>
      forall i', j' :: 0 <= i' < 9 && 0 <= j' < 9 && !Before(i', j', i, j) ==> b[i'][j'] != 0
    decreases 9 - i, 9 - j
  {
    if i == 9 then None
    else if j == 9 then FirstEmptyFrom(b, i + 1, 0)
    else if b[i][j] == 0 then Some((i, j))
    else FirstEmptyFrom(b, i, j + 1)
  }

  /** The cell find_empty_cell returns: the first empty cell in row-major
      order, or None when the grid is full. */
  function FirstEmpty(b: Board): (r: Option<(int, int)>)
    requires IsBoard(b)
    ensures r.Some? ==>
      0 <= r.value.0 < 9 && 0 <= r.value.1 < 9 && b[r.value.0][r.value.1] == 0 &&
      (forall i, j :: 0 <= i < 9 && 0 <= j < 9 && Before(i, j, r.value.0, r.value.1) ==> b[i][j] != 0)
    ensures r.None? <==> Complete(b)
  {
    FirstEmptyFrom(b, 0, 0)
  }

  // ---------------------------------------------------------------------
  // Counting empty cells: the measure that makes the search terminate

  function ZerosFrom(b: Board, i: int, j: int): (n: nat)
    requires IsBoard(b) && 0 <= i <= 9 && 0 <= j <= 9 && (i < 9 || j == 0)
    ensures n <= 9 * (9 - i) - j
    decreases 9 - i, 9 - j
  {
    if i == 9 then 0
    else if j == 9 then ZerosFrom(b, i + 1, 0)
    else (if b[i][j] == 0 then 1 else 0) + ZerosFrom(b, i, j + 1)
  }

  /** The number of empty cells; at most 81. */
  function ZeroCount(b: Board): (n: nat)
    requires IsBoard(b)
    ensures n <= 81
  {
    ZerosFrom(b, 0, 0)
  }

  lemma {:induction false} ZerosFromPlace(b: Board, r: int, c: int, d: int, i: int, j: int)
    requires IsBoard(b) && 0 <= r < 9 && 0 <= c < 9 && b[r][c] == 0 && d != 0
    requires 0 <= i <= 9 && 0 <= j <= 9 && (i < 9 || j == 0)
    ensures ZerosFrom(Place(b, r, c, d), i, j) ==
      ZerosFrom(b, i, j) - (if Before(r, c, i, j) then 0 else 1)
    decreases 9 - i, 9 - j
  {
    if i == 9 {
    } else if j == 9 {
      ZerosFromPlace(b, r, c, d, i + 1, 0);
    } else {
      ZerosFromPlace(b, r, c, d, i, j + 1);
    }
  }

  /** Filling an empty cell with a digit leaves one empty cell fewer. */
  lemma PlaceDecreasesZeroCount(b: Board, r: int, c: int, d: int)
    requires IsBoard(b) && 0 <= r < 9 && 0 <= c < 9 && b[r][c] == 0 && d != 0
    ensures ZeroCount(Place(b, r, c, d)) == ZeroCount(b) - 1
  {
    ZerosFromPlace(b, r, c, d, 0, 0);
  }

  // ---------------------------------------------------------------------
  // is_valid_move

  /** is_valid_move: `num` occurs neither in row `row`, nor in column `col`,
      nor in the 3x3 box holding (row, col). The row scan covers the target
      cell itself. */
  predicate MoveAllowed(b: Board, row: int, col: int, num: int): (ok: bool)
    requires IsBoard(b) && 0 <= row < 9 && 0 <= col < 9
    // the row scan reaches the target cell, so a cell already holding num fails
    ensures ok ==> b[row][col] != num
  {
    (forall i :: 0 <= i < 9 ==> b[row][i] != num && b[i][col] != num) &&
    (forall i, j :: 3 * (row / 3) <= i < 3 * (row / 3) + 3 && 3 * (col / 3) <= j < 3 * (col / 3) + 3 ==>
      b[i][j] != num)
  }

  /** The scans of is_valid_move cover exactly the target cell and its peers. */
  lemma MoveAllowedIffNoPeerHolds(b: Board, row: int, col: int, num: int)
    requires IsBoard(b) && 0 <= row < 9 && 0 <= col < 9
    ensures MoveAllowed(b, row, col, num) <==>
      b[row][col] != num &&
      forall i, j :: 0 <= i < 9 && 0 <= j < 9 && Peers(row, col, i, j) ==> b[i][j] != num
  {
    var r0, c0 := 3 * (row / 3), 3 * (col / 3);
    if MoveAllowed(b, row, col, num) {
      forall i, j | 0 <= i < 9 && 0 <= j < 9 && Peers(row, col, i, j)
        ensures b[i][j] != num
      {
      }
    }
    if b[row][col] != num &&
       forall i, j :: 0 <= i < 9 && 0 <= j < 9 && Peers(row, col, i, j) ==> b[i][j] != num
    {
      forall i, j | r0 <= i < r0 + 3 && c0 <= j < c0 + 3
        ensures b[i][j] != num
      {
        assert Peers(row, col, i, j) || (i == row && j == col);
      }
      forall i | 0 <= i < 9
        ensures b[row][i] != num && b[i][col] != num
      {
        assert i == col || Peers(row, col, row, i);
        assert i == row || Peers(row, col, i, col);
      }
    }
  }

  /** Placing a digit that passed is_valid_move into an empty cell of a
      conflict-free grid keeps it conflict-free. */
  lemma PlaceAllowedKeepsConflictFree(b: Board, r: int, c: int, d: int)
    requires IsBoard(b) && 0 <= r < 9 && 0 <= c < 9 && b[r][c] == 0
    requires ConflictFree(b) && MoveAllowed(b, r, c, d)
    ensures ConflictFree(Place(b, r, c, d))
  {
    MoveAllowedIffNoPeerHolds(b, r, c, d);
    var p := Place(b, r, c, d);
    forall i1, j1, i2, j2 |
      0 <= i1 < 9 && 0 <= j1 < 9 && 0 <= i2 < 9 && 0 <= j2 < 9 &&
      Peers(i1, j1, i2, j2) && p[i1][j1] != 0
      ensures p[i1][j1] != p[i2][j2]
    {
      if i1 == r && j1 == c {
        assert p[i2][j2] == b[i2][j2];
      } else if i2 == r && j2 == c {
        assert Peers(r, c, i1, j1);
      }
    }
  }

  /** A digit that passed is_valid_move at (r, c), followed by a completion
      whose own placements clash with nothing, gives a grid in which every
      placement, (r, c) included, clashes with nothing. */
  lemma PlacedNoConflictStep(after: Board, b: Board, r: int, c: int, d: int)
    requires IsBoard(b) && 0 <= r < 9 && 0 <= c < 9 && b[r][c] == 0 && d != 0
    requires MoveAllowed(b, r, c, d)
    requires Refines(after, Place(b, r, c, d)) && PlacedNoConflict(after, Place(b, r, c, d))
    ensures PlacedNoConflict(after, b)
  {
    MoveAllowedIffNoPeerHolds(b, r, c, d);
    var p := Place(b, r, c, d);
    forall i, j, i2, j2 |
      0 <= i < 9 && 0 <= j < 9 && 0 <= i2 < 9 && 0 <= j2 < 9 &&
      b[i][j] == 0 && Peers(i, j, i2, j2)
      ensures after[i][j] != after[i2][j2]
    {
      if i == r && j == c {
        assert after[r][c] == d;
        if b[i2][j2] == 0 {
          assert p[i2][j2] == 0 && Peers(i2, j2, r, c);
        } else {
          assert after[i2][j2] == b[i2][j2];
        }
      } else {
        assert p[i][j] == 0;
      }
    }
  }

  /** Every digit a completion puts in an empty cell passes is_valid_move
      on the puzzle: the solver's pruning never discards a completion. */
  lemma CompletionDigitIsAllowed(s: Board, b: Board, r: int, c: int)
    requires IsCompletionOf(s, b) && 0 <= r < 9 && 0 <= c < 9 && b[r][c] == 0
    ensures MoveAllowed(b, r, c, s[r][c])
  {
    var d := s[r][c];
    forall i, j | 0 <= i < 9 && 0 <= j < 9 && Peers(r, c, i, j)
      ensures b[i][j] != d
    {
      if b[i][j] != 0 {
        assert s[i][j] == b[i][j];
      }
    }
    MoveAllowedIffNoPeerHolds(b, r, c, d);
  }

  /** A completion of the puzzle that agrees with a placement is a
      completion of the puzzle after that placement. */
  lemma CompletionOfPlacement(s: Board, b: Board, r: int, c: int)
    requires IsCompletionOf(s, b) && 0 <= r < 9 && 0 <= c < 9 && b[r][c] == 0
    ensures IsCompletionOf(s, Place(b, r, c, s[r][c]))
  {
  }

  /** Emptying one cell of a full conflict-free grid leaves a grid in which
      the digit that was there is still an allowed move. */
  lemma ClearedDigitIsAllowed(s: Board, r: int, c: int)
    requires IsBoard(s) && Complete(s) && ConflictFree(s) && 0 <= r < 9 && 0 <= c < 9
    ensures MoveAllowed(Place(s, r, c, 0), r, c, s[r][c])
  {
    var p := Place(s, r, c, 0);
    forall i, j | 0 <= i < 9 && 0 <= j < 9 && Peers(r, c, i, j)
      ensures p[i][j] != s[r][c]
    {
      assert p[i][j] == s[i][j];
    }
    MoveAllowedIffNoPeerHolds(p, r, c, s[r][c]);
  }

  // ---------------------------------------------------------------------
  // remove_numbers

  /** A 9x9 choice of the cells to clear: the outcome of the per-cell draws
      `random.random() < difficulty`. */
  predicate IsMask(clear: seq<seq<bool>>) {
    |clear| == 9 && forall i :: 0 <= i < 9 ==> |clear[i]| == 9
  }

  /** The grid after remove_numbers: each cell the mask selects becomes 0
      and every other cell keeps its value. The first ensures is the promise
      as the caller reads it (a cell is either untouched or 0, so removal
      never writes a digit); the other two say which of the two it is. */
  function Removed(b: Board, clear: seq<seq<bool>>): (p: Board)
    requires IsBoard(b) && IsMask(clear)
    ensures IsBoard(p)
    ensures forall i, j :: 0 <= i < 9 && 0 <= j < 9 ==> p[i][j] == b[i][j] || p[i][j] == 0
    ensures forall i, j :: 0 <= i < 9 && 0 <= j < 9 ==> (clear[i][j] ==> p[i][j] == 0)
    ensures forall i, j :: 0 <= i < 9 && 0 <= j < 9 ==> (!clear[i][j] ==> p[i][j] == b[i][j])
  {
    seq(9, i requires 0 <= i < 9 => seq(9, j requires 0 <= j < 9 => if clear[i][j] then 0 else b[i][j]))
  }

  /** difficulty 0: no draw is below it, so the grid is unchanged. */
  lemma RemoveNoneIsIdentity(b: Board, clear: seq<seq<bool>>)
    requires IsBoard(b) && IsMask(clear)
    requires forall i, j :: 0 <= i < 9 && 0 <= j < 9 ==> !clear[i][j]
    ensures Removed(b, clear) == b
  {
    var p := Removed(b, clear);
    forall i | 0 <= i < 9 ensures p[i] == b[i] {
    }
  }

  /** difficulty 1: every draw is below it, so every cell is cleared. */
  lemma RemoveAllIsEmpty(b: Board, clear: seq<seq<bool>>)
    requires IsBoard(b) && IsMask(clear)
    requires forall i, j :: 0 <= i < 9 && 0 <= j < 9 ==> clear[i][j]
    ensures Removed(b, clear) == EmptyBoard()
  {
    var p, e := Removed(b, clear), EmptyBoard();
    forall i | 0 <= i < 9 ensures p[i] == e[i] {
    }
  }

  /** Clearing cells of a solved grid yields a puzzle that the solved grid
      still solves (no claim that it is the only solution). */
  lemma RemovedKeepsSolution(s: Board, clear: seq<seq<bool>>)
    requires IsSolutionOf(s, EmptyBoard()) && IsMask(clear)
    ensures IsSolutionOf(s, Removed(s, clear))
  {
  }

  // ---------------------------------------------------------------------
  // The empty grid has a solution

  /** The offset of row i in the fixed solved grid below: rows 0, 1, 2 are
      shifted by 0, 3, 6, rows 3, 4, 5 by 1, 4, 7, and rows 6, 7, 8 by 2, 5, 8. */
  function Shift(i: int): int {
    3 * (i % 3) + i / 3
  }

  lemma ShiftDigits(i: int)
    requires 0 <= i < 9
    ensures 0 <= Shift(i) < 9 && Shift(i) / 3 == i % 3 && Shift(i) % 3 == i / 3
  {
  }

  /** A fixed solved grid: row i holds the digits 1..9 rotated by Shift(i). */
  function PatternBoard(): (b: Board)
    ensures IsBoard(b)
    ensures forall i, j :: 0 <= i < 9 && 0 <= j < 9 ==> b[i][j] == (Shift(i) + j) % 9 + 1
  {
    seq(9, i => seq(9, j => (Shift(i) + j) % 9 + 1))
  }

  lemma ModNineDiffer(a: int, b: int)
    requires 0 <= a < 18 && 0 <= b < 18 && a != b && a - b != 9 && b - a != 9
    ensures a % 9 != b % 9
  {
  }

  lemma PatternPeersDiffer(i1: int, j1: int, i2: int, j2: int)
    requires 0 <= i1 < 9 && 0 <= j1 < 9 && 0 <= i2 < 9 && 0 <= j2 < 9 && Peers(i1, j1, i2, j2)
    ensures (Shift(i1) + j1) % 9 != (Shift(i2) + j2) % 9
  {
    ShiftDigits(i1);
    ShiftDigits(i2);
    if i1 != i2 && j1 != j2 {
      // same box: the offsets differ by 3 * (i1 % 3 - i2 % 3), the columns by at most 2
      assert i1 / 3 == i2 / 3 && j1 / 3 == j2 / 3;
      assert -2 <= j1 - j2 <= 2;
    }
    ModNineDiffer(Shift(i1) + j1, Shift(i2) + j2);
  }

  /** The empty grid is solvable, so the generator's solver run succeeds. */
  lemma EmptyBoardHasSolution()
    ensures IsSolutionOf(PatternBoard(), EmptyBoard())
    ensures HasSolution(EmptyBoard())
  {
    var p := PatternBoard();
    forall i1, j1, i2, j2 |
      0 <= i1 < 9 && 0 <= j1 < 9 && 0 <= i2 < 9 && 0 <= j2 < 9 && Peers(i1, j1, i2, j2)
      ensures p[i1][j1] != p[i2][j2]
    {
      PatternPeersDiffer(i1, j1, i2, j2);
    }
  }

  /** A full grid that breaks the row rule: the solver accepts such a grid
      without looking at it, since it only checks the digits it places. */
  lemma FullGridWithDuplicates()
    ensures var ones := seq(9, _ => seq(9, _ => 1));
      IsBoard(ones) && Complete(ones) && !ConflictFree(ones) && FirstEmpty(ones).None?
  {
    var ones := seq(9, _ => seq(9, _ => 1));
    assert Peers(0, 0, 0, 1);
  }
}
