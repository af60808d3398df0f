/**
 * The MinimaxManager of MinimaxManager.cs: it holds the board of the game in
 * progress and the board its last search decided on, runs a search from the
 * current board, and applies the move that produced the decided board.
 *
 * `ApplyMove`, the game's own effect of a move, has no body in this core: the
 * manager records the moves it applies, in order, in `applied`.
 */
module Engine {
  import opened Scores
  import opened Boards
  import opened Successors
  import opened Search
  import opened Pruning

  /** The ideal board of a search is the searched board or one of its successors, so its grid fits too. */
  lemma IdealFits(g: Game, b: BoardValue, depth: int, maximizingPlayer: int)
    requires g.Valid() && Fits(b)
    ensures Fits(Minimax(g, b, depth, maximizingPlayer).ideal)
  {
    if !Terminal(g, b, depth) {
      IdealIsFirstBest(g, b, depth, maximizingPlayer);
    }
  }

  class MinimaxManager {
    const game: Game
    var currentBoard: BoardValue
    var decidedNextBoard: BoardValue
    var applied: seq<Move>

    /** Both boards start as the given board; no move has been applied. */
    constructor (g: Game, b: BoardValue)
      ensures game == g && currentBoard == b && decidedNextBoard == b && applied == []
    {
      game := g;
      currentBoard := b;
      decidedNextBoard := b;
      applied := [];
    }

    /**
     * Applies the move that produced the decided board and makes that board
     * current. A decided board without a producing move (for instance the
     * board the manager started from) has nothing to apply: the code
     * dereferences a null move there and throws before anything changes,
     * which here is `ok == false` with the state left as it was. A board
     * reached by an earlier search still carries the move that produced it,
     * and that move is applied again.
     */
    method ApplyNextMove() returns (ok: bool)
      modifies this
      ensures ok == decidedNextBoard.lastMove.Some?
      ensures decidedNextBoard == old(decidedNextBoard)
      ensures ok ==> currentBoard == decidedNextBoard && applied == old(applied) + [decidedNextBoard.lastMove.value]
      ensures !ok ==> currentBoard == old(currentBoard) && applied == old(applied)
    {
      if decidedNextBoard.lastMove.None? {
        return false;
      }
      applied := applied + [decidedNextBoard.lastMove.value];
      currentBoard := decidedNextBoard;
      return true;
    }

    /**
     * Searches `depth` plies from the current board, with alpha-beta pruning
     * from the default window (-inf, +inf) or without, keeps the ideal board
     * as the decided board and applies its move. Both kinds of search decide
     * on the same board: the first successor with the minimax value. A
     * terminal root is its own decided board, so a current board reached by
     * an earlier search has its producing move applied a second time.
     */
    method DoMinimax(depth: int, maximizingPlayer: int, useAlphaBeta: bool) returns (ok: bool)
      requires game.Valid() && Fits(currentBoard)
      requires !useAlphaBeta ==> Expandable(game, currentBoard, depth)
      modifies this
      ensures decidedNextBoard == Minimax(game, old(currentBoard), depth, maximizingPlayer).ideal
      ensures Fits(decidedNextBoard) && Fits(currentBoard)
      ensures old(Terminal(game, currentBoard, depth)) ==> decidedNextBoard == old(currentBoard)
      ensures ok == decidedNextBoard.lastMove.Some?
      ensures ok ==> currentBoard == decidedNextBoard && applied == old(applied) + [decidedNextBoard.lastMove.value]
      ensures !ok ==> currentBoard == old(currentBoard) && applied == old(applied)
    {
      var value: Score, b: BoardValue;
      if useAlphaBeta {
        value, b := MinimaxCalcAB(game, currentBoard, depth, maximizingPlayer, NegInf, PosInf);
        PruningPreservesOutcome(game, currentBoard, depth, maximizingPlayer);
      } else {
        value, b := MinimaxCalc(game, currentBoard, depth, maximizingPlayer);
      }
      IdealFits(game, currentBoard, depth, maximizingPlayer);
      if Terminal(game, currentBoard, depth) {
        TerminalOutcome(game, currentBoard, depth, maximizingPlayer, NegInf, PosInf);
      }
      decidedNextBoard := b;
      ok := ApplyNextMove();
    }
  }
}
