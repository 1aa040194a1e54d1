/** The state of a `GomokuGame` as a value, and what each of its operations
    does to that value. The class in gomoku_game.dfy is proved to follow these
    functions; the searcher in alpha_beta.dfy is specified in terms of them. */
module GameSpec {
  import opened Tiles
  import opened Grid

  /** `WinCount`: three in a row wins this game. */
  const WinCount := 3

  /** `_board`, its side, `_result`, `_moveCount` and `NextMove`. */
  datatype State = State(board: Cells, size: nat, result: int, moveCount: int, next: int)

  predicate WellFormed(s: State) {
    IsSquare(s.board, s.size)
  }

  /** `new GomokuGame(size)`: every cell Empty, no result, no move made, Black
      to move. */
  function Initial(n: nat): (s: State)
    ensures WellFormed(s) && s.size == n
    ensures forall r, c :: InBounds(n, r, c) ==> s.board[r][c] == Empty
    ensures s.result == Empty && s.moveCount == 0 && s.next == Black
    ensures IsGameOver(s) <==> n == 0
  {
    State(Blank(n, Empty), n, Empty, 0, Black)
  }

  /** `IsGameOver`: somebody has won, or as many moves were made as the board
      has cells. */
  predicate IsGameOver(s: State) {
    s.result != Empty || s.moveCount == s.size * s.size
  }

  /** `GetLegalMoves`: nothing once the game is over, otherwise the Empty
      cells in row-major order. */
  function LegalMoves(s: State): seq<Move>
    requires WellFormed(s)
  {
    if IsGameOver(s) then [] else EmptyCells(s.board, s.size)
  }

  /** `SwitchNextMove`: White hands over to Black and anything else to White. */
  function Switch(p: int): (q: int)
    ensures IsPlayer(q)
    ensures IsPlayer(p) ==> q != p
  {
    if p == White then Black else White
  }

  /** `MakeMove`: a finished game is left as it is. Otherwise the mover's tile
      is written (whether or not the cell was free), the mover becomes the
      result exactly when the tile completes a line of `WinCount`, the turn
      passes and the move is counted. */
  function MakeMove(s: State, m: Move): (t: State)
    requires WellFormed(s) && InBounds(s.size, m.row, m.col)
    ensures WellFormed(t) && t.size == s.size
    ensures IsGameOver(s) ==> t == s
    ensures !IsGameOver(s) ==>
      && t.board[m.row][m.col] == s.next
      && t.result == (if WinningLine(t.board, t.size, m.row, m.col, WinCount) then s.next else Empty)
      && (forall r, c :: InBounds(s.size, r, c) && (r, c) != (m.row, m.col) ==> t.board[r][c] == s.board[r][c])
      && t.moveCount == s.moveCount + 1 && t.next == Switch(s.next)
  {
    if IsGameOver(s) then s
    else
      var b := Set(s.board, s.size, m.row, m.col, s.next);
      IsWinningIffLine(b, s.size, m.row, m.col, WinCount);
      State(b, s.size, if IsWinning(b, s.size, m.row, m.col, WinCount) then s.next else s.result,
            s.moveCount + 1, Switch(s.next))
  }

  /** `UndoMove`: the cell is cleared, the result reset, the turn passed back
      and the count decremented, whatever the state. */
  function UndoMove(s: State, m: Move): (t: State)
    requires WellFormed(s) && InBounds(s.size, m.row, m.col)
    ensures WellFormed(t) && t.size == s.size
    ensures t.board[m.row][m.col] == Empty
    ensures forall r, c :: InBounds(s.size, r, c) && (r, c) != (m.row, m.col) ==> t.board[r][c] == s.board[r][c]
    ensures t.result == Empty && t.moveCount == s.moveCount - 1 && t.next == Switch(s.next)
  {
    State(Set(s.board, s.size, m.row, m.col, Empty), s.size, Empty, s.moveCount - 1, Switch(s.next))
  }

  /** `GetResult`: 1 for a White win, -1 for a Black win, 0 otherwise. The
      source returns a `double`; every value it can take is an integer. */
  function Result(s: State): (v: int)
    ensures -1 <= v <= 1
    ensures v == 1 <==> s.result == White
    ensures v == -1 <==> s.result == Black
  {
    if s.result == White then 1 else if s.result == Black then -1 else 0
  }

  // ---------------------------------------------------------------------------
  // Properties

  /** `GetLegalMoves` lists exactly the Empty cells of an unfinished game, each
      once, in row-major order. */
  lemma LegalMovesSpec(s: State)
    requires WellFormed(s)
    ensures forall m :: m in LegalMoves(s) <==>
      !IsGameOver(s) && InBounds(s.size, m.row, m.col) && s.board[m.row][m.col] == Empty
    ensures Sorted(LegalMoves(s))
  {
    EmptyCellsSpec(s.board, s.size);
  }

  /** Undoing a move just made on an unfinished game, into an Empty cell,
      restores the board, the result, the mover and the count. */
  lemma UndoAfterMake(s: State, m: Move)
    requires WellFormed(s) && InBounds(s.size, m.row, m.col)
    requires !IsGameOver(s) && s.board[m.row][m.col] == Empty && IsPlayer(s.next)
    ensures UndoMove(MakeMove(s, m), m) == s
  {
    var t := UndoMove(MakeMove(s, m), m);
    SameCells(t.board, s.board, s.size);
  }

  /** The states a game can reach from `new GomokuGame(n)` by legal moves:
      the mover is Black after an even number of moves and White after an odd
      one, the result is Empty or a player, and every move made filled one of
      the Empty cells. */
  predicate Consistent(s: State) {
    && WellFormed(s)
    && s.next == (if s.moveCount % 2 == 0 then Black else White)
    && (s.result == Empty || IsPlayer(s.result))
    && s.moveCount + |EmptyCells(s.board, s.size)| == s.size * s.size
  }

  lemma InitialConsistent(n: nat)
    ensures Consistent(Initial(n))
  {
    EmptyCellsOfBlank(n);
  }

  /** A legal move keeps a game consistent. */
  lemma MakeConsistent(s: State, m: Move)
    requires Consistent(s) && m in LegalMoves(s)
    ensures InBounds(s.size, m.row, m.col) && Consistent(MakeMove(s, m))
  {
    LegalMovesSpec(s);
    EmptyCellsFill(s.board, s.size, m.row, m.col, s.next);
  }

  /** In a consistent game there is no legal move exactly when the game is
      over. */
  lemma NoMovesIffOver(s: State)
    requires Consistent(s)
    ensures LegalMoves(s) == [] <==> IsGameOver(s)
  {
  }

  /** A legal move that completes a line ends the game with the mover's sign
      (-1 for Black, 1 for White); any other legal move leaves the result 0. */
  lemma ResultOfMove(s: State, m: Move)
    requires Consistent(s) && m in LegalMoves(s)
    ensures InBounds(s.size, m.row, m.col)
    ensures var t := MakeMove(s, m);
      if WinningLine(t.board, s.size, m.row, m.col, WinCount)
      then IsGameOver(t) && Result(t) == (if s.next == White then 1 else -1)
      else Result(t) == 0
  {
    LegalMovesSpec(s);
  }

  // ---------------------------------------------------------------------------
  // A game played out

  /** The state after making the moves in order. */
  function Play(s: State, moves: seq<Move>): (t: State)
    requires WellFormed(s) && forall i :: 0 <= i < |moves| ==> InBounds(s.size, moves[i].row, moves[i].col)
    ensures WellFormed(t) && t.size == s.size
    decreases |moves|
  {
    if |moves| == 0 then s else Play(MakeMove(s, moves[0]), moves[1..])
  }

  /** The boards of the 5-by-5 game below, after each of its moves. */
  const Board1: Cells := [[1, 0, 0, 0, 0], [0, 0, 0, 0, 0], [0, 0, 0, 0, 0], [0, 0, 0, 0, 0], [0, 0, 0, 0, 0]]
  const Board2: Cells := [[1, 0, 0, 0, 0], [0, 2, 0, 0, 0], [0, 0, 0, 0, 0], [0, 0, 0, 0, 0], [0, 0, 0, 0, 0]]
  const Board3: Cells := [[1, 1, 0, 0, 0], [0, 2, 0, 0, 0], [0, 0, 0, 0, 0], [0, 0, 0, 0, 0], [0, 0, 0, 0, 0]]
  const Board4: Cells := [[1, 1, 0, 0, 0], [0, 2, 2, 0, 0], [0, 0, 0, 0, 0], [0, 0, 0, 0, 0], [0, 0, 0, 0, 0]]
  const Board5: Cells := [[1, 1, 1, 0, 0], [0, 2, 2, 0, 0], [0, 0, 0, 0, 0], [0, 0, 0, 0, 0], [0, 0, 0, 0, 0]]

  /** Each move of that game: the board it leaves, the result, the count and
      the side to move. */
  lemma FirstMove()
    ensures MakeMove(Initial(5), Move(0, 0)) == State(Board1, 5, Empty, 1, White)
  {
    SameCells(Set(Blank(5, Empty), 5, 0, 0, Black), Board1, 5);
  }

  lemma SecondMove()
    ensures MakeMove(State(Board1, 5, Empty, 1, White), Move(1, 1)) == State(Board2, 5, Empty, 2, Black)
  {
    SameCells(Set(Board1, 5, 1, 1, White), Board2, 5);
  }

  lemma ThirdMove()
    ensures MakeMove(State(Board2, 5, Empty, 2, Black), Move(0, 1)) == State(Board3, 5, Empty, 3, White)
  {
    SameCells(Set(Board2, 5, 0, 1, Black), Board3, 5);
  }

  lemma FourthMove()
    ensures MakeMove(State(Board3, 5, Empty, 3, White), Move(1, 2)) == State(Board4, 5, Empty, 4, Black)
  {
    SameCells(Set(Board3, 5, 1, 2, White), Board4, 5);
  }

  lemma FifthMove()
    ensures MakeMove(State(Board4, 5, Empty, 4, Black), Move(0, 2)) == State(Board5, 5, Black, 5, White)
  {
    SameCells(Set(Board4, 5, 0, 2, Black), Board5, 5);
  }

  /** On a 5-by-5 board, Black at (0, 0), (0, 1), (0, 2) against White at
      (1, 1), (1, 2) ends the game on the fifth move with Black the winner. */
  lemma BlackWinsOnFifthMove()
    ensures var t := Play(Initial(5), [Move(0, 0), Move(1, 1), Move(0, 1), Move(1, 2), Move(0, 2)]);
      IsGameOver(t) && Result(t) == -1
  {
    FirstMove();
    SecondMove();
    ThirdMove();
    FourthMove();
    FifthMove();
  }
}
