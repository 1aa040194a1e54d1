/** `AlphaBeta`: fixed-depth minimax with alpha-beta cut-offs, played on a
    `GomokuGame` by making each move, searching below it and undoing it. */
module Search {
  import opened Tiles
  import opened Grid
  import opened GameSpec
  import opened SearchSpec
  import opened Game

  class AlphaBeta {
    /** `maxDepth`: a node at this depth is a leaf. */
    const maxDepth: int

    constructor(maxDepth: int)
      ensures this.maxDepth == maxDepth
    {
      this.maxDepth := maxDepth;
    }

    /** `FindBestMove`: the maximiser when `GetDesiredOutcome()` is 1 (passed
        in as desiredOutcome). `default` when there is no legal move;
        otherwise the first legal move with the best minimax value. The game
        is left as it was. */
    method FindBestMove(game: GomokuGame, desiredOutcome: int) returns (bestMove: Move)
      requires game.Valid() && Searchable(game.State())
      modifies game, game.board
      ensures game.State() == old(game.State())
      ensures LegalMoves(old(game.State())) == [] ==> bestMove == DefaultMove
      ensures LegalMoves(old(game.State())) != [] ==>
        exists k :: IsFirstBest(old(game.State()), k, maxDepth, desiredOutcome == 1)
                    && bestMove == LegalMoves(old(game.State()))[k]
    {
      ghost var s := game.State();
      var isMax := desiredOutcome == 1;
      bestMove := DefaultMove;
      var bestValue := if isMax then NegInf else PosInf;
      var alpha, beta := NegInf, PosInf;
      var moves := game.GetLegalMoves();
      ghost var k := 0;
      for i := 0 to |moves|
        invariant game.Valid() && game.State() == s
        invariant RootSoFar(s, i, k, maxDepth, isMax, bestValue)
        invariant (alpha, beta) == RootWindow(isMax, bestValue)
        invariant i == 0 ==> bestMove == DefaultMove
        invariant i > 0 ==> bestMove == moves[k]
      {
        var move := moves[i];
        UndoChild(s, i);
        game.MakeMove(move);
        var moveValue := AlphaBetaSearch(game, 1, alpha, beta, !isMax);
        game.UndoMove(move);
        SearchValueSound(Child(s, i), 1, maxDepth, alpha, beta, !isMax);
        SearchValueRange(Child(s, i), 1, maxDepth, alpha, beta, !isMax);
        RootScan(s, i, k, maxDepth, isMax, bestValue, moveValue);
        if isMax {
          if Below(bestValue, moveValue) {
            bestValue := moveValue;
            bestMove := move;
            alpha := Max(alpha, moveValue);
            k := i;
          }
        } else {
          if Below(moveValue, bestValue) {
            bestValue := moveValue;
            bestMove := move;
            beta := Min(beta, moveValue);
            k := i;
          }
        }
      }
      if |moves| > 0 {
        RootDone(s, k, maxDepth, isMax, bestValue);
      }
    }

    /** `AlphaBetaSearch`: the value of the game's current state for the given
        window and side, the game left as it was. */
    method AlphaBetaSearch(game: GomokuGame, depth: int, alpha: Value, beta: Value, maximizingPlayer: bool)
      returns (v: Value)
      requires game.Valid() && Searchable(game.State())
      modifies game, game.board
      ensures game.State() == old(game.State())
      ensures v == SearchValue(old(game.State()), depth, maxDepth, alpha, beta, maximizingPlayer)
      decreases Remaining(game.State()), 1
    {
      if game.IsGameOver() || depth == maxDepth {
        return Fin(game.GetResult() * 1000000 - 500000);
      }
      if maximizingPlayer {
        v := Search(game, depth, alpha, beta, maximizingPlayer);
      } else {
        v := Search(game, depth, alpha, beta, maximizingPlayer);
      }
    }

    /** `Search`: scans the legal moves, searching each one level deeper for
        the other side between `MakeMove` and `UndoMove`, keeping the best
        value and narrowing the window, and stops once beta <= alpha. */
    method Search(game: GomokuGame, depth: int, alpha0: Value, beta0: Value, maximizingPlayer: bool)
      returns (bestEval: Value)
      requires game.Valid() && Searchable(game.State())
      modifies game, game.board
      ensures game.State() == old(game.State())
      ensures bestEval == SearchLoop(old(game.State()), 0, depth, maxDepth, alpha0, beta0, maximizingPlayer,
                                     if maximizingPlayer then NegInf else PosInf)
      decreases Remaining(game.State()), 0
    {
      ghost var s := game.State();
      bestEval := if maximizingPlayer then NegInf else PosInf;
      var alpha, beta := alpha0, beta0;
      var moves := game.GetLegalMoves();
      for i := 0 to |moves|
        invariant game.Valid() && game.State() == s
        invariant SearchLoop(s, i, depth, maxDepth, alpha, beta, maximizingPlayer, bestEval)
               == SearchLoop(s, 0, depth, maxDepth, alpha0, beta0, maximizingPlayer,
                             if maximizingPlayer then NegInf else PosInf)
      {
        var move := moves[i];
        UndoChild(s, i);
        game.MakeMove(move);
        var eval := AlphaBetaSearch(game, depth + 1, alpha, beta, !maximizingPlayer);
        game.UndoMove(move);
        if maximizingPlayer {
          bestEval := Max(bestEval, eval);
          alpha := Max(alpha, eval);
        } else {
          bestEval := Min(bestEval, eval);
          beta := Min(beta, eval);
        }
        if AtMost(beta, alpha) {
          break;
        }
      }
    }
  }
}
