# Sudoku best-first solver, modelled in Dafny

The repository solves 9x9 Sudoku puzzles with a class `SudokuSolver` that
appears in four files (sudokuASTAR.py, soduko.py, test.py, test2.py). Its three
helpers are the same in every copy:

- `is_valid(board, row, col, num)`: may `num` go at (`row`, `col`)? It scans
  the row and the column, then the 3x3 box whose top-left corner is
  (3 * (row // 3), 3 * (col // 3)).
- `find_empty(board)`: the first cell holding 0 in row-major order, or `None`.
- `heuristic(board)`: the number of 0 cells.

`a_star` is a greedy best-first search over partially filled boards. Its
frontier is a heap of `(heuristic, board)` tuples. Each round pops the least
tuple and counts the pop. A complete board is returned. Otherwise the round
pushes one copy of the board for every digit 1..9 that `is_valid` accepts at
the first empty cell. When the heap runs empty, the search has failed. The
four copies differ only in what `a_star` returns:

- sudokuASTAR.py returns `(board, steps)` or `(None, steps)`.
- soduko.py and test.py return `board` or `None`.
- test2.py returns a bare `board` on success but the tuple `(None, steps)` on
  failure.

Layout:

- `grid.dfy` (module `Grid`): the board as a value `seq<seq<int>>`.
  `IsValid` and `FindEmpty` are methods with the source's loops. Each is
  proved equal to a declarative reading: `Allowed` (no cell sharing a row,
  column or box holds `num`) and "first empty cell in row-major order".
  `Heuristic` is the source's sum of per-row zero counts. Lemmas show it is
  at most 81, is 0 exactly on complete boards, and drops by one when an
  empty cell is filled. `Consistent`, `Refines` and `IsCompletion` define what
  a solution of a puzzle is. `SolvedUnits` proves by pigeonhole that a
  consistent board of digits holds every digit in every row, column and box.
- `frontier.dfy` (module `Frontier`): the heap entries and Python's order on
  them. Tuples compare by key first, then by board, lexicographically. This
  order is a strict total order, so `heappop` always returns the same value,
  the least tuple. `HeapPop` removes exactly that entry. `Weight`, the sum of
  10^key over the frontier, is the termination measure.
- `search.dfy` (module `Search`): `Children` specifies what one expansion
  pushes, and `PushChildren` is the digit loop proved against it. `AStar` is
  the shared search loop. It returns the board (or `None`) and the number of
  pops.
- `sudoku_astar.dfy`, `soduko.dfy`, `test.dfy`, `test2.dfy`: one module per
  source file. Each has a class `SudokuSolver` holding `board` and an `AStar`
  method that reshapes the shared result the way that file returns it.
  `AStar` has no `modifies` clause, so it cannot change the solver's board.
  This matches the source, which searches on deep copies.

What is proved about the search. Every frontier entry keeps the input's
clues, fills only digits 1..9, is keyed by its own heuristic, and stays
consistent when the input is. A returned board is complete and keeps the
clues. For a consistent input it is a solution. `None` is returned only when
the input has no solution at all, which the source's docstring promises. A
complete input comes back unchanged after exactly one pop. The loop
terminates because `Weight` strictly decreases each round. The step count is
the number of pops: `AStar` also returns, as ghost results, every popped entry
and the frontier it was popped from (`Trace`). Each pop is the least entry of
its frontier, each frontier but the first is the previous one after a `Round`
(pop, find the first empty cell, push the children), and on failure the last
round leaves the frontier empty.

One might expect an inconsistent input to end in "no solution", but the code
does not check the input first. So a complete but inconsistent input is
returned unchanged, and an inconsistent input with empty cells can be completed
into an inconsistent board. The soundness contracts therefore assume a
consistent input. Completeness does not need that assumption, because a puzzle
with a repeated clue has no solution (`CompletionMeansConsistent`).

## Model

| member | source | states |
|---|---|---|
| Grid.IsValid | sudokuASTAR.py:10-19 | accepts `num` exactly when no cell in the same row, column or 3x3 box as (row, col) holds it, the cell itself included (identical at soduko.py:8-17, test.py:10-19, test2.py:12-21) |
| Grid.FindEmpty | sudokuASTAR.py:22-27 | returns None exactly when the board has no 0; otherwise returns a 0 cell with every earlier cell in row-major order nonzero (identical at soduko.py:19-24, test.py:21-26, test2.py:24-29) |
| Grid.ZerosIn | sudokuASTAR.py:30 | `row.count(0)`, written as a recursion over the row; ZerosInBounds and ZerosInFill state its properties |
| Grid.ZerosInBounds | sudokuASTAR.py:30 | the zero count of a row is at most its length, and 0 exactly when the row holds no 0 |
| Grid.Heuristic | sudokuASTAR.py:29-30 | the sum of the rows' zero counts; HeuristicBounds and HeuristicFill state its properties |
| Grid.HeuristicBounds | sudokuASTAR.py:29-30 | the empty-cell count of a 9x9 board is at most 81 and is 0 exactly when the board is complete, that is, when find_empty returns None (identical at soduko.py:26-27, test.py:28-29, test2.py:31-32) |
| Grid.HeuristicFill | sudokuASTAR.py:29-30 | filling one empty cell with a nonzero value lowers the count by exactly one |
| Grid.ZerosInFill | sudokuASTAR.py:30 | `row.count(0)` drops by exactly one when a 0 of the row is overwritten by a nonzero value |
| Grid.Place | sudokuASTAR.py:49-50 | the copy with `num` at (row, col) is a 9x9 board equal to the original in every other cell |
| Grid.PlaceHeuristic | sudokuASTAR.py:49-51 | the key pushed for a child is its parent's key minus one |
| Grid.PlaceKeepsConsistent | sudokuASTAR.py:48-50 | a placement that is_valid accepts keeps a board with no repeated digit in a row, column or box free of repeats |
| Grid.SolutionValueAllowed | sudokuASTAR.py:47-50 | a solution that agrees with a board on its filled cells holds, in an empty cell, a digit that is_valid accepts there; placing it keeps the agreement |
| Grid.CompletionMeansConsistent | sudokuASTAR.py:52 | a puzzle with a repeated clue has no solution |
| Grid.Pigeonhole | sudokuASTAR.py:41-44 | as many pairwise different values as there are digits, all drawn from the digits, use every digit |
| Grid.SolvedUnits | sudokuASTAR.py:41-44 | a consistent board of digits 1..9 holds every digit in every row, column and box |
| Grid.CompletionDigits | sudokuASTAR.py:41-44 | every cell of a solution of a puzzle whose cells hold 0..9 holds a digit 1..9 |
| Grid.CompletionIsSolvedSudoku | sudokuASTAR.py:41-44 | for a puzzle of values 0..9, every solution is a fully solved Sudoku (`Solved`: every row, column and box holds every digit) |
| Frontier.RowLess | sudokuASTAR.py:35-40 | Python's `<` on two lists of ints, the order heapq uses inside a board; RowLessOrder proves it a strict total order |
| Frontier.BoardLess | sudokuASTAR.py:35-40 | Python's `<` on two lists of rows, which breaks ties between equal keys; BoardLessOrder proves it a strict total order |
| Frontier.NodeLess | sudokuASTAR.py:35-40 | Python's `<` on the heap tuples (key, board): key first, then board; NodeLessOrder proves it a strict total order |
| Frontier.NodeLessOrder | sudokuASTAR.py:35-40 | Python's order on (key, board) heap tuples is irreflexive, transitive and total |
| Frontier.LeastIsUnique | sudokuASTAR.py:40 | the least tuple of a frontier is unique, so heappop's result is determined by the frontier's contents |
| Frontier.HeapPop | sudokuASTAR.py:40 | removes one entry that no other entry is less than; in particular it has the least key; the rest is the frontier without it |
| Frontier.WeightRemove | sudokuASTAR.py:40 | popping an entry of key k takes 10^k out of the termination measure |
| Frontier.WeightAppend | sudokuASTAR.py:51 | pushing entries adds their weights to the termination measure |
| Search.ChildrenShape | sudokuASTAR.py:45-51 | each pushed child is the parent with a digit 1..9 that is_valid accepts at the empty cell, keyed one less than the parent; at most nine, in ascending digit order; every accepted digit is pushed |
| Search.AcceptedFromComplete | sudokuASTAR.py:47-48 | every digit from 1 to 9 that is_valid accepts at the empty cell is among the digits the loop keeps |
| Search.ChildForIsChild | sudokuASTAR.py:48-51 | the entry pushed for an accepted digit in an empty cell is the parent with that digit in the cell, keyed one below the parent |
| Search.ChildrenKeys | sudokuASTAR.py:47-51 | at most nine children are pushed, each keyed one below its parent |
| Search.PushChildren | sudokuASTAR.py:47-51 | the digit loop appends exactly the children of the popped board to the frontier |
| Search.ChildOk | sudokuASTAR.py:47-51 | a child keeps the clues, fills only digits, is keyed by its own heuristic and is consistent when the input is, if its parent is all of these |
| Search.SolutionSurvivesExpansion | sudokuASTAR.py:45-51 | a solution extending the expanded board extends one of its children |
| Search.ExpandKeepsNodes | sudokuASTAR.py:39-51 | one pop and expansion keeps the frontier invariant for every entry |
| Search.ExpandKeepsSolution | sudokuASTAR.py:39-51 | a solution that extends any one frontier entry before a round extends some entry after it |
| Search.ExpandKeepsSolutions | sudokuASTAR.py:39-51 | after one pop and expansion, every solution of the input still extends some frontier entry |
| Search.ReplaceLowersWeight | sudokuASTAR.py:40-51 | replacing an entry of key k >= 1 by at most nine entries of key k - 1 strictly lowers the sum of 10^key |
| Search.ExpandLowersWeight | sudokuASTAR.py:39-51 | one pop and expansion strictly lowers the sum of 10^key over the frontier, so the loop terminates |
| Search.RoundKeepsInvariants | sudokuASTAR.py:39-51 | a round that does not return keeps every loop invariant: entries well formed and keeping the clues, no solution of the input lost, the weight strictly lower, the trace ending in the new frontier |
| Search.ExpandIsRound | sudokuASTAR.py:39-51 | popping the entry at m and pushing the children of its first empty cell is one Round of the loop |
| Search.TracePop | sudokuASTAR.py:39-41 | each heappop adds one entry to the record of pops, together with the frontier it came from |
| Search.AStar | sudokuASTAR.py:33-52 | steps is the number of pops; each pop is the least entry of its frontier and the frontiers follow one another by Rounds from the input alone; a returned board is the last pop, complete and keeping the clues; for a consistent input it is a solution; None only after a round that empties the frontier, and only if no solution exists; a complete input is returned unchanged after one pop |
| SudokuAStar.SudokuSolver.constructor | sudokuASTAR.py:6-7 | the solver stores the given board |
| SudokuAStar.SudokuSolver.AStar | sudokuASTAR.py:33-52 | returns (board, steps) or (None, steps) with the guarantees of Search.AStar, steps being the number of pops in its trace; the solver's board is not modified |
| Soduko.SudokuSolver.constructor | soduko.py:5-6 | the solver stores the given board |
| Soduko.SudokuSolver.AStar | soduko.py:29-46 | returns the board or None, no step count: the returned board is the last pop of the search's trace (the first complete board popped), complete and keeping the clues, a solution for a consistent input; None only after a round that empties the frontier, and only if no solution exists; a complete input comes back unchanged |
| Test.SudokuSolver.constructor | test.py:7-8 | the solver stores the given board |
| Test.SudokuSolver.AStar | test.py:31-48 | as in soduko.py: the board that is the last pop of the trace, or None only after a round that empties the frontier and only if no solution exists; no step count |
| Test2.SudokuSolver.constructor | test2.py:8-9 | the solver stores the given board |
| Test2.SudokuSolver.AStar | test2.py:35-54 | returns a bare board (the last pop: complete, keeps the clues, a solution for a consistent input) or the pair (None, steps) with steps the number of pops, the last round emptying the frontier, and no solution in existence |

## Left out

- The Tkinter front ends (`SudokuGUI` in sudokuASTAR.py, test.py and test2.py) are user interface: widgets, the solve button, `messagebox`, the step label. In test2.py that caller also refers to an undefined `steps` and `steps_label`, and it tests a failure result `(None, steps)` for truth, which a non-empty tuple always passes.
- `get_board` is not modelled. It parses entry text with `int(value) if value else 0`. The model takes an integer board as given.
- The module-level example boards and the printing script at the end of each file are not modelled: they are I/O.
- `heapq`'s internal layout is not modelled. The frontier is a sequence, and a pop removes the least tuple under Python's tuple order. That is the value `heappop` returns, so the sequence of popped boards is the same. Sift-up and sift-down are not verified.
- `deepcopy` becomes value semantics. Aliasing between frontier entries cannot arise in the model, and the cost of copying is not modelled.
- Memory growth of the frontier and running time are not modelled. Only termination is proved.
- Out-of-range coordinates and boards that are not 9x9 are excluded by preconditions. Every call site passes in-range cells, and the GUI always builds 9x9 boards.
