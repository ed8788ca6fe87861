/** The solver of test2.py: a_star counts its pops but returns the bare
    board on success and the pair (None, steps) on exhaustion, so the two
    outcomes have different shapes. */
module Test2 {
  import opened Grid
  import Search
  import opened Frontier

  /** What test2.py's a_star returns: a bare board, or the tuple (None, steps). */
  datatype Outcome = BareBoard(board: Board) | NoneWithSteps(steps: nat)

  class SudokuSolver {
    var board: Board

    constructor (board: Board)
      ensures this.board == board
    {
      this.board := board;
    }

    method AStar() returns (outcome: Outcome, ghost pops: seq<Node>, ghost fronts: seq<seq<Node>>)
      requires IsBoard(board)
      ensures Search.Trace(board, pops, fronts)
      ensures outcome.BareBoard? ==> outcome.board == pops[|pops| - 1].board
      ensures outcome.NoneWithSteps? ==>
        outcome.steps == |pops| && Search.Round(fronts[|pops| - 1], pops[|pops| - 1], [])
      ensures outcome.BareBoard? ==>
        IsBoard(outcome.board) && Complete(outcome.board) && Refines(outcome.board, board)
      ensures outcome.BareBoard? && Consistent(board) ==> IsCompletion(outcome.board, board)
      ensures outcome.NoneWithSteps? ==> outcome.steps >= 1 && forall s :: !IsCompletion(s, board)
      ensures Complete(board) ==> outcome == BareBoard(board)
    {
      var solution, steps;
      solution, steps, pops, fronts := Search.AStar(board);
      if solution.Some? {
        outcome := BareBoard(solution.value);
      } else {
        outcome := NoneWithSteps(steps);
      }
    }
  }
}
