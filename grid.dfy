/** The 9x9 board of the solver and the three read-only helpers of
    SudokuSolver: the placement test (is_valid), the row-major scan for an
    empty cell (find_empty) and the empty-cell count that orders the search
    (heuristic). A board is a value: Python's deepcopy is value semantics. */
module Grid {

  datatype Option<T> = None | Some(value: T)

  /** Nine rows of nine cells; 0 marks an empty cell. */
  type Board = seq<seq<int>>

  predicate IsBoard(b: Board) {
    |b| == 9 && forall i :: 0 <= i < 9 ==> |b[i]| == 9
  }

  /** (r1, c1) and (r2, c2) share a row, a column or a 3x3 box
      (a cell shares all three with itself). */
  predicate Sees(r1: int, c1: int, r2: int, c2: int) {
    r1 == r2 || c1 == c2 || (r1 / 3 == r2 / 3 && c1 / 3 == c2 / 3)
  }

  /** num occurs in no cell that shares a row, a column or a box with
      (row, col), the cell itself included. */
  predicate Allowed(b: Board, row: int, col: int, num: int)
    requires IsBoard(b)
  {
    forall i, j :: 0 <= i < 9 && 0 <= j < 9 && Sees(row, col, i, j) ==> b[i][j] != num
  }

  /** is_valid: scan the row and the column together, then the 3x3 box whose
      top-left corner is (3 * (row / 3), 3 * (col / 3)); any hit rejects. */
  method IsValid(b: Board, row: int, col: int, num: int) returns (ok: bool)
    requires IsBoard(b) && 0 <= row < 9 && 0 <= col < 9
    ensures ok <==> Allowed(b, row, col, num)
  {
    for i := 0 to 9
      invariant forall k :: 0 <= k < i ==> b[row][k] != num && b[k][col] != num
    {
      if b[row][i] == num || b[i][col] == num {
        return false;
      }
    }
    var startRow, startCol := 3 * (row / 3), 3 * (col / 3);
    for i := startRow to startRow + 3
      invariant forall p, q :: startRow <= p < i && startCol <= q < startCol + 3 ==> b[p][q] != num
    {
      for j := startCol to startCol + 3
        invariant forall p, q :: startRow <= p < i && startCol <= q < startCol + 3 ==> b[p][q] != num
        invariant forall q :: startCol <= q < j ==> b[i][q] != num
      {
        if b[i][j] == num {
          return false;
        }
      }
    }
    ok := true;
  }

  /** Every cell before (row, col) in row-major order is filled. */
  predicate FilledBefore(b: Board, row: int, col: int)
    requires IsBoard(b)
  {
    forall i, j :: 0 <= i < 9 && 0 <= j < 9 && (i < row || (i == row && j < col)) ==> b[i][j] != 0
  }

  /** The board has no empty cell. */
  predicate Complete(b: Board)
    requires IsBoard(b)
  {
    forall i, j :: 0 <= i < 9 && 0 <= j < 9 ==> b[i][j] != 0
  }

  /** find_empty: the first empty cell in row-major order, or None when
      there is none. */
  method FindEmpty(b: Board) returns (cell: Option<(int, int)>)
    requires IsBoard(b)
    ensures cell.None? <==> Complete(b)
    ensures cell.Some? ==>
      var (row, col) := cell.value;
      0 <= row < 9 && 0 <= col < 9 && b[row][col] == 0 && FilledBefore(b, row, col)
  {
    for i := 0 to 9
      invariant FilledBefore(b, i, 0)
    {
      for j := 0 to 9
        invariant FilledBefore(b, i, j)
      {
        if b[i][j] == 0 {
          return Some((i, j));
        }
      }
    }
    cell := None;
  }

  /** The number of zeros in a row. */
  function ZerosIn(row: seq<int>): nat {
    if row == [] then 0 else (if row[0] == 0 then 1 else 0) + ZerosIn(row[1..])
  }

  /** The heuristic: the number of empty cells, summed row by row. */
  function Heuristic(b: Board): nat {
    if b == [] then 0 else ZerosIn(b[0]) + Heuristic(b[1..])
  }

  lemma {:induction false} ZerosInBounds(row: seq<int>)
    ensures ZerosIn(row) <= |row|
    ensures ZerosIn(row) == 0 <==> forall j :: 0 <= j < |row| ==> row[j] != 0
  {
    if row != [] {
      ZerosInBounds(row[1..]);
      assert forall j :: 1 <= j < |row| ==> row[j] == row[1..][j - 1];
    }
  }

  /** Filling an empty cell of a row with a nonzero value removes exactly one zero. */
  lemma {:induction false} ZerosInFill(row: seq<int>, j: int, v: int)
    requires 0 <= j < |row| && row[j] == 0 && v != 0
    ensures ZerosIn(row[j := v]) == ZerosIn(row) - 1
  {
    if j > 0 {
      assert row[j := v][1..] == row[1..][j - 1 := v];
      ZerosInFill(row[1..], j - 1, v);
    } else {
      assert row[j := v][1..] == row[1..];
    }
  }

  /** The empty-cell count of a 9x9 board is at most 81, and 0 exactly when
      the board is complete. */
  lemma HeuristicBounds(b: Board)
    requires IsBoard(b)
    ensures Heuristic(b) <= 81
    ensures Heuristic(b) == 0 <==> Complete(b)
  {
    HeuristicRows(b);
  }

  lemma {:induction false} HeuristicRows(b: Board)
    requires forall i :: 0 <= i < |b| ==> |b[i]| == 9
    ensures Heuristic(b) <= 9 * |b|
    ensures Heuristic(b) == 0 <==> forall i, j :: 0 <= i < |b| && 0 <= j < 9 ==> b[i][j] != 0
  {
    if b != [] {
      HeuristicRows(b[1..]);
      ZerosInBounds(b[0]);
      assert forall i :: 1 <= i < |b| ==> b[i] == b[1..][i - 1];
    }
  }

  /** Filling an empty cell with a nonzero value lowers the count by exactly one. */
  lemma {:induction false} HeuristicFill(b: Board, row: int, col: int, v: int)
    requires 0 <= row < |b| && 0 <= col < |b[row]| && b[row][col] == 0 && v != 0
    ensures Heuristic(b[row := b[row][col := v]]) == Heuristic(b) - 1
  {
    if row > 0 {
      assert b[row := b[row][col := v]][1..] == b[1..][row - 1 := b[row][col := v]];
      HeuristicFill(b[1..], row - 1, col, v);
    } else {
      assert b[row := b[row][col := v]][1..] == b[1..];
      ZerosInFill(b[0], col, v);
    }
  }

  /** The copy of b with num at (row, col); every other cell is unchanged. */
  function Place(b: Board, row: int, col: int, num: int): (r: Board)
    requires IsBoard(b) && 0 <= row < 9 && 0 <= col < 9
    ensures IsBoard(r) && r[row][col] == num
    ensures forall i, j :: 0 <= i < 9 && 0 <= j < 9 && (i != row || j != col) ==> r[i][j] == b[i][j]
  {
    b[row := b[row][col := num]]
  }

  /** Placing a nonzero value in an empty cell lowers the heuristic by one. */
  lemma PlaceHeuristic(b: Board, row: int, col: int, num: int)
    requires IsBoard(b) && 0 <= row < 9 && 0 <= col < 9 && b[row][col] == 0 && num != 0
    ensures Heuristic(Place(b, row, col, num)) == Heuristic(b) - 1
  {
    HeuristicFill(b, row, col, num);
  }

  /** No nonzero value is repeated in a row, a column or a box. */
  predicate Consistent(b: Board)
    requires IsBoard(b)
  {
    forall r1, c1, r2, c2 ::
      0 <= r1 < 9 && 0 <= c1 < 9 && 0 <= r2 < 9 && 0 <= c2 < 9 &&
      (r1 != r2 || c1 != c2) && Sees(r1, c1, r2, c2) && b[r1][c1] != 0
      ==> b[r1][c1] != b[r2][c2]
  }

  /** A placement that is_valid accepts keeps a consistent board consistent. */
  lemma PlaceKeepsConsistent(b: Board, row: int, col: int, num: int)
    requires IsBoard(b) && 0 <= row < 9 && 0 <= col < 9
    requires Consistent(b) && Allowed(b, row, col, num)
    ensures Consistent(Place(b, row, col, num))
  {
    var p := Place(b, row, col, num);
    forall r1, c1, r2, c2 |
      0 <= r1 < 9 && 0 <= c1 < 9 && 0 <= r2 < 9 && 0 <= c2 < 9 &&
      (r1 != r2 || c1 != c2) && Sees(r1, c1, r2, c2) && p[r1][c1] != 0
      ensures p[r1][c1] != p[r2][c2]
    {
      if r1 == row && c1 == col {
        assert b[r2][c2] != num;
      } else if r2 == row && c2 == col {
        assert Sees(row, col, r1, c1);
        assert b[r1][c1] != num;
      }
    }
  }

  /** b keeps every clue of the puzzle and fills only digits 1..9 into its
      empty cells (some of which may still be empty). */
  predicate Refines(b: Board, puzzle: Board)
    requires IsBoard(b) && IsBoard(puzzle)
  {
    forall i, j :: 0 <= i < 9 && 0 <= j < 9 ==>
      if puzzle[i][j] != 0 then b[i][j] == puzzle[i][j] else b[i][j] == 0 || 1 <= b[i][j] <= 9
  }

  /** s is a solution of the puzzle: it keeps every clue, puts a digit 1..9
      into every empty cell, and repeats no value in a row, column or box. */
  predicate IsCompletion(s: Board, puzzle: Board)
    requires IsBoard(puzzle)
  {
    IsBoard(s) && Complete(s) && Refines(s, puzzle) && Consistent(s)
  }

  /** s agrees with b on every filled cell of b. */
  predicate Extends(s: Board, b: Board) {
    IsBoard(s) && IsBoard(b) &&
    forall i, j :: 0 <= i < 9 && 0 <= j < 9 && b[i][j] != 0 ==> s[i][j] == b[i][j]
  }

  /** A consistent board that extends b holds, in an empty cell of b, a value
      that is_valid accepts for b there; placing it keeps the extension. */
  lemma SolutionValueAllowed(s: Board, b: Board, row: int, col: int)
    requires IsBoard(s) && Consistent(s) && Extends(s, b)
    requires 0 <= row < 9 && 0 <= col < 9 && b[row][col] == 0 && s[row][col] != 0
    ensures Allowed(b, row, col, s[row][col])
    ensures Extends(s, Place(b, row, col, s[row][col]))
  {
    var num := s[row][col];
    forall i, j | 0 <= i < 9 && 0 <= j < 9 && Sees(row, col, i, j)
      ensures b[i][j] != num
    {
      if b[i][j] != 0 {
        assert s[i][j] == b[i][j];
      }
    }
  }

  /** A puzzle that has a solution is itself consistent: a repeated clue
      rules every solution out. */
  lemma CompletionMeansConsistent(s: Board, puzzle: Board)
    requires IsBoard(puzzle) && IsCompletion(s, puzzle)
    ensures Consistent(puzzle)
  {
    forall r1, c1, r2, c2 |
      0 <= r1 < 9 && 0 <= c1 < 9 && 0 <= r2 < 9 && 0 <= c2 < 9 &&
      (r1 != r2 || c1 != c2) && Sees(r1, c1, r2, c2) && puzzle[r1][c1] != 0
      ensures puzzle[r1][c1] != puzzle[r2][c2]
    {
      assert s[r1][c1] == puzzle[r1][c1];
      if puzzle[r2][c2] != 0 {
        assert s[r2][c2] == puzzle[r2][c2];
      }
    }
  }

  const Digits: set<int> := {1, 2, 3, 4, 5, 6, 7, 8, 9}

  /** Column c of the board, top to bottom. */
  function ColumnOf(b: Board, c: int): (u: seq<int>)
    requires IsBoard(b) && 0 <= c < 9
    ensures |u| == 9 && forall i :: 0 <= i < 9 ==> u[i] == b[i][c]
  {
    seq(9, i requires 0 <= i < 9 => b[i][c])
  }

  /** Box k of the board (boxes numbered row-major), read row-major. */
  function BoxOf(b: Board, k: int): (u: seq<int>)
    requires IsBoard(b) && 0 <= k < 9
    ensures |u| == 9 && forall i :: 0 <= i < 9 ==> u[i] == b[3 * (k / 3) + i / 3][3 * (k % 3) + i % 3]
  {
    seq(9, i requires 0 <= i < 9 => b[3 * (k / 3) + i / 3][3 * (k % 3) + i % 3])
  }

  /** As many pairwise different values as there are digits, all drawn from
      the digits, use every digit. */
  lemma {:induction false} Pigeonhole(u: seq<int>, digits: set<int>)
    requires |u| == |digits|
    requires forall i :: 0 <= i < |u| ==> u[i] in digits
    requires forall i, j :: 0 <= i < j < |u| ==> u[i] != u[j]
    ensures forall d :: d in digits ==> d in u
  {
    if u != [] {
      var rest := digits - {u[0]};
      assert |rest| == |digits| - 1;
      assert forall i :: 0 <= i < |u| - 1 ==> u[1..][i] == u[i + 1];
      Pigeonhole(u[1..], rest);
      forall d | d in digits
        ensures d in u
      {
        if d != u[0] {
          assert d in u[1..];
          var i :| 0 <= i < |u| - 1 && u[1..][i] == d;
          assert u[i + 1] == d;
        }
      }
    }
  }

  /** Every cell holds a digit 1..9. */
  predicate AllDigits(b: Board)
    requires IsBoard(b)
  {
    forall i, j :: 0 <= i < 9 && 0 <= j < 9 ==> 1 <= b[i][j] <= 9
  }

  /** Every row, column and box of the board holds every digit 1..9. */
  predicate Solved(s: Board)
    requires IsBoard(s)
  {
    forall k, d :: 0 <= k < 9 && d in Digits ==>
      d in s[k] && d in ColumnOf(s, k) && d in BoxOf(s, k)
  }

  /** A consistent board of digits is a solved Sudoku: every row, column and
      box holds every digit 1..9 (and, being consistent, only once). */
  lemma SolvedUnits(s: Board)
    requires IsBoard(s) && AllDigits(s) && Consistent(s)
    ensures Solved(s)
  {
    forall k | 0 <= k < 9
      ensures forall d :: d in Digits ==> d in s[k] && d in ColumnOf(s, k) && d in BoxOf(s, k)
    {
      RowHasAllDigits(s, k);
      ColumnHasAllDigits(s, k);
      BoxHasAllDigits(s, k);
    }
  }

  lemma RowHasAllDigits(s: Board, k: int)
    requires IsBoard(s) && AllDigits(s) && Consistent(s) && 0 <= k < 9
    ensures forall d :: d in Digits ==> d in s[k]
  {
    assert |Digits| == 9;
    forall i, j | 0 <= i < j < 9
      ensures s[k][i] != s[k][j]
    {
      assert Sees(k, i, k, j);
    }
    Pigeonhole(s[k], Digits);
  }

  lemma ColumnHasAllDigits(s: Board, k: int)
    requires IsBoard(s) && AllDigits(s) && Consistent(s) && 0 <= k < 9
    ensures forall d :: d in Digits ==> d in ColumnOf(s, k)
  {
    assert |Digits| == 9;
    var col := ColumnOf(s, k);
    forall i, j | 0 <= i < j < 9
      ensures col[i] != col[j]
    {
      assert Sees(i, k, j, k);
    }
    Pigeonhole(col, Digits);
  }

  lemma BoxHasAllDigits(s: Board, k: int)
    requires IsBoard(s) && AllDigits(s) && Consistent(s) && 0 <= k < 9
    ensures forall d :: d in Digits ==> d in BoxOf(s, k)
  {
    assert |Digits| == 9;
    var box := BoxOf(s, k);
    forall i, j | 0 <= i < j < 9
      ensures box[i] != box[j]
    {
      BoxCells(k, i, j);
    }
    Pigeonhole(box, Digits);
  }

  /** Two different positions of box k are two different cells of that box. */
  lemma BoxCells(k: int, i: int, j: int)
    requires 0 <= k < 9 && 0 <= i < j < 9
    ensures var r1, c1 := 3 * (k / 3) + i / 3, 3 * (k % 3) + i % 3;
      var r2, c2 := 3 * (k / 3) + j / 3, 3 * (k % 3) + j % 3;
      0 <= r1 < 9 && 0 <= c1 < 9 && 0 <= r2 < 9 && 0 <= c2 < 9 &&
      (r1 != r2 || c1 != c2) && Sees(r1, c1, r2, c2)
  {
    var kr, kc, ir, ic, jr, jc := k / 3, k % 3, i / 3, i % 3, j / 3, j % 3;
    assert i == 3 * ir + ic && j == 3 * jr + jc;
    ThirdOf(kr, ir);
    ThirdOf(kr, jr);
    ThirdOf(kc, ic);
    ThirdOf(kc, jc);
  }

  lemma ThirdOf(q: int, r: int)
    requires 0 <= r < 3
    ensures (3 * q + r) / 3 == q
  {
  }

  /** For a puzzle whose cells hold 0..9, every solution is a solved Sudoku. */
  lemma CompletionIsSolvedSudoku(s: Board, puzzle: Board)
    requires IsBoard(puzzle) && IsCompletion(s, puzzle)
    requires forall i, j :: 0 <= i < 9 && 0 <= j < 9 ==> 0 <= puzzle[i][j] <= 9
    ensures Solved(s)
  {
    CompletionDigits(s, puzzle);
    SolvedUnits(s);
  }

  lemma CompletionDigits(s: Board, puzzle: Board)
    requires IsBoard(puzzle) && IsCompletion(s, puzzle)
    requires forall i, j :: 0 <= i < 9 && 0 <= j < 9 ==> 0 <= puzzle[i][j] <= 9
    ensures AllDigits(s)
  {
    forall i, j | 0 <= i < 9 && 0 <= j < 9
      ensures 1 <= s[i][j] <= 9
    {
      assert s[i][j] != 0;
      if puzzle[i][j] != 0 {
        assert s[i][j] == puzzle[i][j];
      }
    }
  }
}
