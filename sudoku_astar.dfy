/** The solver of sudokuASTAR.py: a_star returns the pair (board, steps) on
    success and (None, steps) on exhaustion, steps being the number of pops. */
module SudokuAStar {
  import opened Grid
  import Search
  import opened Frontier

  class SudokuSolver {
    var board: Board

    constructor (board: Board)
      ensures this.board == board
    {
      this.board := board;
    }

    /** The search works on copies, so the solver's own board is left as it
        was: the method has no licence to change this object. steps is the
        number of pops: pops and fronts record each popped entry and the
        frontier it was popped from. */
    method AStar() returns (solution: Option<Board>, steps: nat, ghost pops: seq<Node>, ghost fronts: seq<seq<Node>>)
      requires IsBoard(board)
      ensures steps >= 1 && steps == |pops| && Search.Trace(board, pops, fronts)
      ensures solution.Some? ==> solution.value == pops[steps - 1].board
      ensures solution.None? ==> Search.Round(fronts[steps - 1], pops[steps - 1], [])
      ensures solution.Some? ==>
        IsBoard(solution.value) && Complete(solution.value) && Refines(solution.value, board)
      ensures solution.Some? && Consistent(board) ==> IsCompletion(solution.value, board)
      ensures solution.None? ==> forall s :: !IsCompletion(s, board)
      ensures Complete(board) ==> solution == Some(board) && steps == 1
    {
      solution, steps, pops, fronts := Search.AStar(board);
    }
  }
}
