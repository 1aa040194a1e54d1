/** `GomokuGame`: the board, the result, the move count and the side to move,
    changed in place by `MakeMove` and `UndoMove`. Every method is proved to
    do to `State()` what the functions of `GameSpec` say. */
module Game {
  import opened Tiles
  import opened Grid
  import GameSpec

  class GomokuGame {
    /** `_board`. */
    const board: array2<int>
    /** `_result`: Empty while nobody has won. */
    var result: int
    /** `_moveCount`. */
    var moveCount: int
    /** `NextMove`: the tile the next move writes. */
    var nextMove: int

    ghost predicate Valid() {
      board.Length0 == board.Length1
    }

    function Size(): nat {
      board.Length0
    }

    /** The game as a value. */
    ghost function State(): (s: GameSpec.State)
      reads this, board
      requires Valid()
      ensures GameSpec.WellFormed(s) && s.size == Size()
    {
      GameSpec.State(View(board), Size(), result, moveCount, nextMove)
    }

    /** `new GomokuGame(size)`: the cells are set to Empty row by row. */
    constructor(size: nat)
      ensures Valid() && fresh(board)
      ensures State() == GameSpec.Initial(size)
    {
      board := new int[size, size];
      result, moveCount, nextMove := Empty, 0, Black;
      new;
      for i := 0 to size
        modifies board
        invariant forall r, c :: 0 <= r < i && 0 <= c < size ==> board[r, c] == Empty
      {
        for j := 0 to size
          modifies board
          invariant forall r, c :: 0 <= r < i && 0 <= c < size ==> board[r, c] == Empty
          invariant forall c :: 0 <= c < j ==> board[i, c] == Empty
        {
          board[i, j] := Empty;
        }
      }
      SameCells(View(board), Blank(size, Empty), size);
    }

    /** `IsGameOver`; `_board.Length` is the number of cells. */
    function IsGameOver(): (over: bool)
      reads this
      requires Valid()
      ensures over == GameSpec.IsGameOver(State())
    {
      result != Empty || moveCount == board.Length0 * board.Length1
    }

    /** `GetLegalMoves`: scans the board row by row, collecting the Empty
        cells, unless the game is over. */
    method GetLegalMoves() returns (moves: seq<Move>)
      requires Valid()
      ensures moves == GameSpec.LegalMoves(State())
    {
      if result != Empty || moveCount == board.Length0 * board.Length1 {
        return [];
      }
      ghost var g := View(board);
      moves := [];
      for i := 0 to board.Length1
        invariant moves == Scan(g, Size(), i, 0)
      {
        for j := 0 to board.Length1
          invariant moves == Scan(g, Size(), i, j)
        {
          ViewCell(board, i, j);
          if board[i, j] == Empty {
            moves := moves + [Move(i, j)];
          }
        }
      }
    }

    /** `MakeMove`: nothing once the game is over; otherwise write the mover's
        tile, record a win, pass the turn and count the move. */
    method MakeMove(move: Move)
      requires Valid() && InBounds(Size(), move.row, move.col)
      modifies this, board
      ensures State() == GameSpec.MakeMove(old(State()), move)
    {
      if result != Empty || moveCount == board.Length0 * board.Length1 {
        return;
      }
      ghost var before := State();
      board[move.row, move.col] := nextMove;
      SameCells(View(board), Set(before.board, Size(), move.row, move.col, before.next), Size());
      CheckForWin(move.row, move.col);
      SwitchNextMove();
      moveCount := moveCount + 1;
    }

    /** `UndoMove`: clear the cell, forget the result, pass the turn back and
        uncount the move. */
    method UndoMove(move: Move)
      requires Valid() && InBounds(Size(), move.row, move.col)
      modifies this, board
      ensures State() == GameSpec.UndoMove(old(State()), move)
    {
      ghost var before := State();
      board[move.row, move.col] := Empty;
      SameCells(View(board), Set(before.board, Size(), move.row, move.col, Empty), Size());
      result := Empty;
      SwitchNextMove();
      moveCount := moveCount - 1;
    }

    /** `GetResult`. */
    function GetResult(): (v: int)
      reads this
      requires Valid()
      ensures v == GameSpec.Result(State())
    {
      if result == White then 1 else if result == Black then -1 else 0
    }

    /** `SwitchNextMove`. */
    method SwitchNextMove()
      modifies this
      ensures nextMove == GameSpec.Switch(old(nextMove))
      ensures result == old(result) && moveCount == old(moveCount)
    {
      nextMove := if nextMove == White then Black else White;
    }

    /** `CheckForWin`: the mover becomes the result when some axis through
        (row, col) holds `WinCount` of its value. */
    method CheckForWin(row: int, col: int)
      requires Valid() && InBounds(Size(), row, col)
      modifies this
      ensures result == (if Grid.IsWinning(View(board), Size(), row, col, GameSpec.WinCount) then nextMove else old(result))
      ensures nextMove == old(nextMove) && moveCount == old(moveCount)
    {
      var win := GameSpec.WinCount;
      var f := CountTiles(row, col, 1, 0);
      var k := CountTiles(row, col, -1, 0);
      if f + k >= win - 1 { result := nextMove; return; }
      f := CountTiles(row, col, 0, 1);
      k := CountTiles(row, col, 0, -1);
      if f + k >= win - 1 { result := nextMove; return; }
      f := CountTiles(row, col, 1, 1);
      k := CountTiles(row, col, -1, -1);
      if f + k >= win - 1 { result := nextMove; return; }
      f := CountTiles(row, col, 1, -1);
      k := CountTiles(row, col, -1, 1);
      if f + k >= win - 1 { result := nextMove; }
    }

    /** `CountTiles`: the run of the board past (row, col) in one direction. */
    method CountTiles(row: int, col: int, dRow: int, dCol: int) returns (count: int)
      requires Valid() && InBounds(Size(), row, col) && IsDirection(dRow, dCol)
      ensures count == Count(View(board), Size(), row, col, dRow, dCol)
    {
      ghost var g := View(board);
      ViewCell(board, row, col);
      count := 0;
      var currentRow, currentCol := row + dRow, col + dCol;
      while InBounds(Size(), currentRow, currentCol) && board[currentRow, currentCol] == board[row, col]
        invariant count + Run(g, Size(), g[row][col], currentRow, currentCol, dRow, dCol)
               == Count(g, Size(), row, col, dRow, dCol)
        decreases Run(g, Size(), g[row][col], currentRow, currentCol, dRow, dCol)
      {
        ViewCell(board, currentRow, currentCol);
        RunStep(g, Size(), g[row][col], currentRow, currentCol, dRow, dCol);
        count := count + 1;
        currentRow, currentCol := currentRow + dRow, currentCol + dCol;
      }
      if InBounds(Size(), currentRow, currentCol) {
        ViewCell(board, currentRow, currentCol);
      }
    }
  }
}
