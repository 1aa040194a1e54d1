/** What `AlphaBeta` computes, as functions of the game state: the value of a
    node with alpha-beta cut-offs exactly as the searcher scans its moves, and
    plain minimax as the reference it is proved against. */
module SearchSpec {
  import opened Tiles
  import opened Grid
  import opened GameSpec

  /** A `double` as the searcher uses it: the two infinities, or an integer
      (every finite value it produces is a whole number). */
  datatype Value = NegInf | Fin(n: int) | PosInf

  /** a < b. */
  predicate Below(a: Value, b: Value) {
    match a
    case NegInf => !b.NegInf?
    case Fin(x) => b.PosInf? || (b.Fin? && x < b.n)
    case PosInf => false
  }

  /** a <= b. */
  predicate AtMost(a: Value, b: Value) {
    !Below(b, a)
  }

  /** `Math.Max`. */
  function Max(a: Value, b: Value): (c: Value)
    ensures AtMost(a, c) && AtMost(b, c) && (c == a || c == b)
  {
    if Below(a, b) then b else a
  }

  /** `Math.Min`. */
  function Min(a: Value, b: Value): (c: Value)
    ensures AtMost(c, a) && AtMost(c, b) && (c == a || c == b)
  {
    if Below(b, a) then b else a
  }

  /** The three values a leaf can take. */
  predicate IsLeafValue(v: Value) {
    v == Fin(-1500000) || v == Fin(-500000) || v == Fin(500000)
  }

  /** `(GetResult() - 0.5) * 1000000`. */
  function LeafValue(s: State): (v: Value)
    ensures IsLeafValue(v)
    ensures v == Fin(500000) <==> s.result == White
    ensures v == Fin(-1500000) <==> s.result == Black
  {
    Fin(Result(s) * 1000000 - 500000)
  }

  /** The games the searcher handles. `NextMove` is a public field, so the
      mover need not follow from the move count, and `MakeMove` does not check
      the cell, so the count may run ahead of the stones; it is enough that
      the mover is a player, that the count has not passed the number of
      cells (`MakeMove` only counts while the game is not over), and that a
      game the count leaves unfinished still has an Empty cell. */
  predicate Searchable(s: State) {
    && WellFormed(s)
    && IsPlayer(s.next)
    && s.moveCount <= s.size * s.size <= s.moveCount + |EmptyCells(s.board, s.size)|
  }

  /** Every game reached by legal play from a new game is searchable. */
  lemma ConsistentSearchable(s: State)
    requires Consistent(s)
    ensures Searchable(s)
  {
  }

  /** A new game whose caller set `NextMove` to White is not one legal play
      reaches, yet the searcher handles it. */
  lemma WhiteOpensSearchable(n: nat)
    requires n > 0
    ensures Searchable(Initial(n).(next := White)) && !Consistent(Initial(n).(next := White))
  {
    EmptyCellsOfBlank(n);
  }

  /** A searchable game that is not over has a legal move. */
  lemma SearchableHasMoves(s: State)
    requires Searchable(s)
    ensures LegalMoves(s) == [] <==> IsGameOver(s)
  {
  }

  /** The Empty cells left: one fewer after every legal move. */
  function Remaining(s: State): nat
    requires WellFormed(s)
  {
    |EmptyCells(s.board, s.size)|
  }

  /** The state after the i-th legal move. */
  function Child(s: State, i: int): (t: State)
    requires Searchable(s) && 0 <= i < |LegalMoves(s)|
    ensures Searchable(t) && Remaining(t) < Remaining(s)
  {
    var m := LegalMoves(s)[i];
    LegalMovesSpec(s);
    EmptyCellsFill(s.board, s.size, m.row, m.col, s.next);
    MakeMove(s, m)
  }

  /** Undoing the i-th legal move restores the state: the pairing of
      `MakeMove` and `UndoMove` the searcher relies on. */
  lemma UndoChild(s: State, i: int)
    requires Searchable(s) && 0 <= i < |LegalMoves(s)|
    ensures InBounds(s.size, LegalMoves(s)[i].row, LegalMoves(s)[i].col)
    ensures UndoMove(Child(s, i), LegalMoves(s)[i]) == s
  {
    LegalMovesSpec(s);
    UndoAfterMake(s, LegalMoves(s)[i]);
  }

  /** `FindBestMove` after examining the first i root moves: nothing seen
      yet, or move k is the first best among them and bestValue its value. */
  ghost predicate RootSoFar(s: State, i: int, k: int, maxDepth: int, max: bool, bestValue: Value)
    requires Searchable(s)
  {
    && 0 <= i <= |LegalMoves(s)|
    && (i == 0 ==> bestValue == if max then NegInf else PosInf)
    && (i > 0 ==>
         && 0 <= k < i && IsLeafValue(bestValue) && bestValue == RootValue(s, k, maxDepth, max)
         && (forall j :: 0 <= j < i ==>
               if max then AtMost(RootValue(s, j, maxDepth, max), bestValue)
               else AtMost(bestValue, RootValue(s, j, maxDepth, max)))
         && (forall j :: 0 <= j < k ==>
               if max then Below(RootValue(s, j, maxDepth, max), bestValue)
               else Below(bestValue, RootValue(s, j, maxDepth, max))))
  }

  /** The window `FindBestMove` searches the i-th move with. */
  function RootWindow(max: bool, bestValue: Value): (Value, Value) {
    if max then (bestValue, PosInf) else (NegInf, bestValue)
  }

  /** Examining root move i, whose search value r stands in the fail-soft
      relation to its minimax value for the root window: a strictly better r
      makes move i the first best, and any other r leaves move k the first
      best. */
  lemma RootScan(s: State, i: int, k: int, maxDepth: int, max: bool, bestValue: Value, r: Value)
    requires Searchable(s) && RootSoFar(s, i, k, maxDepth, max, bestValue) && i < |LegalMoves(s)|
    requires IsLeafValue(r)
    requires FailSoft(r, RootValue(s, i, maxDepth, max), RootWindow(max, bestValue).0, RootWindow(max, bestValue).1)
    ensures (if max then Below(bestValue, r) else Below(r, bestValue))
            ==> RootSoFar(s, i + 1, i, maxDepth, max, r)
    ensures !(if max then Below(bestValue, r) else Below(r, bestValue))
            ==> RootSoFar(s, i + 1, k, maxDepth, max, bestValue)
  {
  }

  /** Once every root move is examined, a nonempty scan has found the first
      best move. */
  lemma RootDone(s: State, k: int, maxDepth: int, max: bool, bestValue: Value)
    requires Searchable(s) && LegalMoves(s) != []
    requires RootSoFar(s, |LegalMoves(s)|, k, maxDepth, max, bestValue)
    ensures IsFirstBest(s, k, maxDepth, max)
  {
  }

  // ---------------------------------------------------------------------------
  // The searcher as functions

  /** `AlphaBetaSearch`: a finished game or the depth limit is a leaf;
      otherwise the moves are scanned. */
  function SearchValue(s: State, depth: int, maxDepth: int, alpha: Value, beta: Value, max: bool): Value
    requires Searchable(s)
    decreases Remaining(s), 1
  {
    if IsGameOver(s) || depth == maxDepth then LeafValue(s)
    else SearchLoop(s, 0, depth, maxDepth, alpha, beta, max, if max then NegInf else PosInf)
  }

  /** `Search`'s loop from the i-th legal move on, with the current window
      and best value: each child is searched one level deeper for the other
      side, the best value and the window are narrowed, and the scan stops
      once beta <= alpha. */
  function SearchLoop(s: State, i: nat, depth: int, maxDepth: int, alpha: Value, beta: Value, max: bool, best: Value): Value
    requires Searchable(s) && i <= |LegalMoves(s)|
    decreases Remaining(s), 0, |LegalMoves(s)| - i
  {
    if i == |LegalMoves(s)| then best
    else
      var eval := SearchValue(Child(s, i), depth + 1, maxDepth, alpha, beta, !max);
      var best' := if max then Max(best, eval) else Min(best, eval);
      var alpha' := if max then Max(alpha, eval) else alpha;
      var beta' := if max then beta else Min(beta, eval);
      if AtMost(beta', alpha') then best'
      else SearchLoop(s, i + 1, depth, maxDepth, alpha', beta', max, best')
  }

  /** Plain minimax to the same depth: the reference. */
  function Minimax(s: State, depth: int, maxDepth: int, max: bool): Value
    requires Searchable(s)
    decreases Remaining(s), 1
  {
    if IsGameOver(s) || depth == maxDepth then LeafValue(s)
    else MinimaxFrom(s, 0, depth, maxDepth, max)
  }

  /** The best minimax value among the children from the i-th on. */
  function MinimaxFrom(s: State, i: nat, depth: int, maxDepth: int, max: bool): Value
    requires Searchable(s) && i <= |LegalMoves(s)|
    decreases Remaining(s), 0, |LegalMoves(s)| - i
  {
    if i == |LegalMoves(s)| then (if max then NegInf else PosInf)
    else
      var v := Minimax(Child(s, i), depth + 1, maxDepth, !max);
      var rest := MinimaxFrom(s, i + 1, depth, maxDepth, max);
      if max then Max(v, rest) else Min(v, rest)
  }

  /** The value of the i-th root move as `FindBestMove` sees it. */
  function RootValue(s: State, i: int, maxDepth: int, max: bool): Value
    requires Searchable(s) && 0 <= i < |LegalMoves(s)|
  {
    Minimax(Child(s, i), 1, maxDepth, !max)
  }

  /** Move k is the first of the best root moves: no move is better, and
      every earlier one is worse. */
  ghost predicate IsFirstBest(s: State, k: int, maxDepth: int, max: bool)
    requires Searchable(s)
  {
    && 0 <= k < |LegalMoves(s)|
    && (forall j :: 0 <= j < |LegalMoves(s)| ==>
          if max then AtMost(RootValue(s, j, maxDepth, max), RootValue(s, k, maxDepth, max))
          else AtMost(RootValue(s, k, maxDepth, max), RootValue(s, j, maxDepth, max)))
    && (forall j :: 0 <= j < k ==>
          if max then Below(RootValue(s, j, maxDepth, max), RootValue(s, k, maxDepth, max))
          else Below(RootValue(s, k, maxDepth, max), RootValue(s, j, maxDepth, max)))
  }

  // ---------------------------------------------------------------------------
  // Properties

  /** Every search value is one of the three leaf values: a node that is not
      a leaf has a legal move, and the best of its children's values is one
      of them. */
  lemma {:induction false} SearchValueRange(s: State, depth: int, maxDepth: int, alpha: Value, beta: Value, max: bool)
    requires Searchable(s)
    ensures IsLeafValue(SearchValue(s, depth, maxDepth, alpha, beta, max))
    decreases Remaining(s), 1
  {
    if !(IsGameOver(s) || depth == maxDepth) {
      SearchableHasMoves(s);
      SearchLoopRange(s, 0, depth, maxDepth, alpha, beta, max, if max then NegInf else PosInf);
    }
  }

  lemma {:induction false} SearchLoopRange(s: State, i: nat, depth: int, maxDepth: int, alpha: Value, beta: Value, max: bool, best: Value)
    requires Searchable(s) && i <= |LegalMoves(s)|
    requires IsLeafValue(best) || (i < |LegalMoves(s)| && best == if max then NegInf else PosInf)
    ensures IsLeafValue(SearchLoop(s, i, depth, maxDepth, alpha, beta, max, best))
    decreases Remaining(s), 0, |LegalMoves(s)| - i
  {
    if i < |LegalMoves(s)| {
      var eval := SearchValue(Child(s, i), depth + 1, maxDepth, alpha, beta, !max);
      SearchValueRange(Child(s, i), depth + 1, maxDepth, alpha, beta, !max);
      var best' := if max then Max(best, eval) else Min(best, eval);
      var alpha' := if max then Max(alpha, eval) else alpha;
      var beta' := if max then beta else Min(beta, eval);
      if !AtMost(beta', alpha') {
        SearchLoopRange(s, i + 1, depth, maxDepth, alpha', beta', max, best');
      }
    }
  }

  /** The alpha-beta guarantee, for a window alpha < beta: a value at or
      below alpha bounds the minimax value from above, a value at or above
      beta bounds it from below, and a value strictly inside the window is
      the minimax value. */
  predicate FailSoft(r: Value, m: Value, alpha: Value, beta: Value) {
    && (AtMost(r, alpha) ==> AtMost(m, r))
    && (AtMost(beta, r) ==> AtMost(r, m))
    && (Below(alpha, r) && Below(r, beta) ==> r == m)
  }

  lemma MaxAssoc(a: Value, b: Value, c: Value)
    ensures Max(a, Max(b, c)) == Max(Max(a, b), c)
  {
  }

  lemma MinAssoc(a: Value, b: Value, c: Value)
    ensures Min(a, Min(b, c)) == Min(Min(a, b), c)
  {
  }

  /** `AlphaBetaSearch` never misjudges a node: its value and the minimax
      value stand in the fail-soft relation for the window it was given. */
  lemma {:induction false} SearchValueSound(s: State, depth: int, maxDepth: int, alpha: Value, beta: Value, max: bool)
    requires Searchable(s) && Below(alpha, beta)
    ensures FailSoft(SearchValue(s, depth, maxDepth, alpha, beta, max), Minimax(s, depth, maxDepth, max), alpha, beta)
    decreases Remaining(s), 1
  {
    if !(IsGameOver(s) || depth == maxDepth) {
      var start := if max then NegInf else PosInf;
      SearchLoopSound(s, 0, depth, maxDepth, alpha, beta, alpha, beta, max, start, start);
    }
  }

  /** The loop of `Search`, run from move i with the best value `best` over
      the moves before i, whose true best value is t. For the maximiser,
      alpha has been raised to the larger of alpha0 and best, t is at most
      best, and is equal to it once best is above alpha0; for the minimiser
      the same holds with beta, lowered from beta0. */
  predicate LoopState(alpha0: Value, beta0: Value, alpha: Value, beta: Value, max: bool, best: Value, t: Value) {
    && Below(alpha, beta)
    && (max ==> alpha == Max(alpha0, best) && beta == beta0 && AtMost(t, best) && (Below(alpha0, best) ==> t == best))
    && (!max ==> beta == Min(beta0, best) && alpha == alpha0 && AtMost(best, t) && (Below(best, beta0) ==> t == best))
  }

  /** The scan is over: the best value seen stands in the fail-soft relation
      to the true best. */
  lemma LoopEnd(alpha0: Value, beta0: Value, alpha: Value, beta: Value, max: bool, best: Value, t: Value)
    requires LoopState(alpha0, beta0, alpha, beta, max, best, t)
    ensures FailSoft(best, if max then Max(t, NegInf) else Min(t, PosInf), alpha0, beta0)
  {
  }

  /** A child searched with the current window, whose value eval stands in
      the fail-soft relation to its minimax value m: if it closes the window
      the new best value already stands in that relation to the true best,
      whatever the remaining moves are worth. */
  lemma LoopCut(alpha0: Value, beta0: Value, alpha: Value, beta: Value, max: bool, best: Value, t: Value,
                eval: Value, m: Value, rest: Value)
    requires LoopState(alpha0, beta0, alpha, beta, max, best, t) && FailSoft(eval, m, alpha, beta)
    requires max ==> AtMost(beta, Max(alpha, eval))
    requires !max ==> AtMost(Min(beta, eval), alpha)
    ensures max ==> FailSoft(Max(best, eval), Max(Max(t, m), rest), alpha0, beta0)
    ensures !max ==> FailSoft(Min(best, eval), Min(Min(t, m), rest), alpha0, beta0)
  {
  }

  /** Otherwise the narrowed window, the new best value and the new true best
      are again a loop state. */
  lemma LoopStep(alpha0: Value, beta0: Value, alpha: Value, beta: Value, max: bool, best: Value, t: Value,
                 eval: Value, m: Value)
    requires LoopState(alpha0, beta0, alpha, beta, max, best, t) && FailSoft(eval, m, alpha, beta)
    requires max ==> !AtMost(beta, Max(alpha, eval))
    requires !max ==> !AtMost(Min(beta, eval), alpha)
    ensures max ==> LoopState(alpha0, beta0, Max(alpha, eval), beta, max, Max(best, eval), Max(t, m))
    ensures !max ==> LoopState(alpha0, beta0, alpha, Min(beta, eval), max, Min(best, eval), Min(t, m))
  {
    if max {
      MaxAssoc(alpha0, best, eval);
    } else {
      MinAssoc(beta0, best, eval);
    }
  }

  lemma {:induction false} SearchLoopSound(s: State, i: nat, depth: int, maxDepth: int,
                                           alpha0: Value, beta0: Value, alpha: Value, beta: Value,
                                           max: bool, best: Value, t: Value)
    requires Searchable(s) && i <= |LegalMoves(s)|
    requires LoopState(alpha0, beta0, alpha, beta, max, best, t)
    ensures FailSoft(SearchLoop(s, i, depth, maxDepth, alpha, beta, max, best),
                     if max then Max(t, MinimaxFrom(s, i, depth, maxDepth, max))
                     else Min(t, MinimaxFrom(s, i, depth, maxDepth, max)),
                     alpha0, beta0)
    decreases Remaining(s), 0, |LegalMoves(s)| - i
  {
    if i == |LegalMoves(s)| {
      LoopEnd(alpha0, beta0, alpha, beta, max, best, t);
    } else {
      var c := Child(s, i);
      var eval := SearchValue(c, depth + 1, maxDepth, alpha, beta, !max);
      var m := Minimax(c, depth + 1, maxDepth, !max);
      SearchValueSound(c, depth + 1, maxDepth, alpha, beta, !max);
      var rest := MinimaxFrom(s, i + 1, depth, maxDepth, max);
      if max {
        MaxAssoc(t, m, rest);
        if AtMost(beta, Max(alpha, eval)) {
          LoopCut(alpha0, beta0, alpha, beta, max, best, t, eval, m, rest);
        } else {
          LoopStep(alpha0, beta0, alpha, beta, max, best, t, eval, m);
          SearchLoopSound(s, i + 1, depth, maxDepth, alpha0, beta0, Max(alpha, eval), beta, max, Max(best, eval), Max(t, m));
        }
      } else {
        MinAssoc(t, m, rest);
        if AtMost(Min(beta, eval), alpha) {
          LoopCut(alpha0, beta0, alpha, beta, max, best, t, eval, m, rest);
        } else {
          LoopStep(alpha0, beta0, alpha, beta, max, best, t, eval, m);
          SearchLoopSound(s, i + 1, depth, maxDepth, alpha0, beta0, alpha, Min(beta, eval), max, Min(best, eval), Min(t, m));
        }
      }
    }
  }

  /** With the full window, the search value is the minimax value. */
  lemma FullWindowIsMinimax(s: State, depth: int, maxDepth: int, max: bool)
    requires Searchable(s)
    ensures SearchValue(s, depth, maxDepth, NegInf, PosInf, max) == Minimax(s, depth, maxDepth, max)
  {
    SearchValueSound(s, depth, maxDepth, NegInf, PosInf, max);
    SearchValueRange(s, depth, maxDepth, NegInf, PosInf, max);
  }
}
