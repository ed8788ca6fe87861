/** The solver of soduko.py: a_star returns the board, or None on
    exhaustion; it counts no steps. */
module Soduko {
  import opened Grid
  import Search
  import opened Frontier

  class SudokuSolver {
    var board: Board

    constructor (board: Board)
      ensures this.board == board
    {
      this.board := board;
    }

    method AStar() returns (solution: Option<Board>, ghost pops: seq<Node>, ghost fronts: seq<seq<Node>>)
      requires IsBoard(board)
      ensures Search.Trace(board, pops, fronts)
      ensures solution.Some? ==> solution.value == pops[|pops| - 1].board
      ensures solution.None? ==> Search.Round(fronts[|pops| - 1], pops[|pops| - 1], [])
      ensures solution.Some? ==>
        IsBoard(solution.value) && Complete(solution.value) && Refines(solution.value, board)
      ensures solution.Some? && Consistent(board) ==> IsCompletion(solution.value, board)
      ensures solution.None? ==> forall s :: !IsCompletion(s, board)
      ensures Complete(board) ==> solution == Some(board)
    {
      var steps;
      solution, steps, pops, fronts := Search.AStar(board);
    }
  }
}
