/** `BasicGomokuBoard`: the reference board, one `int` per cell in a dense
    two-dimensional array. */
module BasicBoard {
  import opened Tiles
  import opened Grid

  class BasicGomokuBoard {
    /** `_board`: cell (r, c) is `board[r, c]`. */
    const board: array2<int>

    /** The side of the board, `_board.GetLength(0)`. */
    function Size(): nat {
      board.Length0
    }

    ghost predicate Valid() {
      board.Length0 == board.Length1
    }

    /** The board the array holds. */
    ghost function Cells(): (g: Grid.Cells)
      reads board
      requires Valid()
      ensures IsSquare(g, Size())
    {
      View(board)
    }

    /** `new BasicGomokuBoard(size)`: every cell is set to Empty, row by row. */
    constructor(size: nat)
      ensures Valid() && Size() == size && fresh(board)
      ensures Cells() == Blank(size, Empty)
    {
      board := new int[size, size];
      new;
      for i := 0 to size
        invariant forall r, c :: 0 <= r < i && 0 <= c < size ==> board[r, c] == Empty
      {
        for j := 0 to size
          invariant forall r, c :: 0 <= r < i && 0 <= c < size ==> board[r, c] == Empty
          invariant forall c :: 0 <= c < j ==> board[i, c] == Empty
        {
          board[i, j] := Empty;
        }
      }
      SameCells(Cells(), Blank(size, Empty), size);
    }

    /** The private copy constructor: a new array of the same shape, copied
        cell by cell. */
    constructor Copy(source: array2<int>)
      ensures fresh(board)
      ensures board.Length0 == source.Length0 && board.Length1 == source.Length1
      ensures forall r, c :: 0 <= r < source.Length0 && 0 <= c < source.Length1 ==> board[r, c] == source[r, c]
    {
      board := new int[source.Length0, source.Length1];
      new;
      for i := 0 to source.Length0
        invariant forall r, c :: 0 <= r < i && 0 <= c < source.Length1 ==> board[r, c] == source[r, c]
      {
        for j := 0 to source.Length1
          invariant forall r, c :: 0 <= r < i && 0 <= c < source.Length1 ==> board[r, c] == source[r, c]
          invariant forall c :: 0 <= c < j ==> board[i, c] == source[i, c]
        {
          board[i, j] := source[i, j];
        }
      }
    }

    /** `GetCell`: the cell of the view. */
    function GetCell(row: int, col: int): (v: int)
      reads board
      requires Valid() && InBounds(Size(), row, col)
      ensures v == Cells()[row][col]
    {
      board[row, col]
    }

    /** `SetCell`: the view is the old one with (row, col) set to value, for
        any value. */
    method SetCell(row: int, col: int, value: int)
      requires Valid() && InBounds(Size(), row, col)
      modifies board
      ensures Cells() == Set(old(Cells()), Size(), row, col, value)
    {
      ghost var g := Cells();
      board[row, col] := value;
      SameCells(Cells(), Set(g, Size(), row, col, value), Size());
    }

    /** `Clone`: a board over a fresh copy of the array, with the same view. */
    method Clone() returns (b: BasicGomokuBoard)
      requires Valid()
      ensures fresh(b) && fresh(b.board) && b.Valid()
      ensures b.Size() == Size() && b.Cells() == Cells()
    {
      b := new BasicGomokuBoard.Copy(board);
      SameCells(b.Cells(), Cells(), Size());
    }

    /** `CountTiles`: walks from the neighbour of (row, col) while the cells
        equal it; the count is the run of the view. */
    method CountTiles(row: int, col: int, dRow: int, dCol: int) returns (count: int)
      requires Valid() && InBounds(Size(), row, col) && IsDirection(dRow, dCol)
      ensures count == Count(Cells(), Size(), row, col, dRow, dCol)
    {
      ghost var g := Cells();
      ViewCell(board, row, col);
      count := 0;
      var currentRow, currentCol := row + dRow, col + dCol;
      while InBounds(Size(), currentRow, currentCol) && board[currentRow, currentCol] == board[row, col]
        invariant count + Run(g, Size(), g[row][col], currentRow, currentCol, dRow, dCol)
               == Count(g, Size(), row, col, dRow, dCol)
        decreases Run(g, Size(), g[row][col], currentRow, currentCol, dRow, dCol)
      {
        ViewCell(board, currentRow, currentCol);
        RunStep(g, Size(), g[row][col], currentRow, currentCol, dRow, dCol);
        count := count + 1;
        currentRow, currentCol := currentRow + dRow, currentCol + dCol;
      }
      if InBounds(Size(), currentRow, currentCol) {
        ViewCell(board, currentRow, currentCol);
      }
    }

    /** `IsWinning`: the four-axis rule of the view. */
    method IsWinning(row: int, col: int, winCount: int) returns (b: bool)
      requires Valid() && InBounds(Size(), row, col)
      ensures b == Grid.IsWinning(Cells(), Size(), row, col, winCount)
    {
      var f := CountTiles(row, col, 1, 0);
      var k := CountTiles(row, col, -1, 0);
      if f + k >= winCount - 1 { return true; }
      f := CountTiles(row, col, 0, 1);
      k := CountTiles(row, col, 0, -1);
      if f + k >= winCount - 1 { return true; }
      f := CountTiles(row, col, 1, 1);
      k := CountTiles(row, col, -1, -1);
      if f + k >= winCount - 1 { return true; }
      f := CountTiles(row, col, 1, -1);
      k := CountTiles(row, col, -1, 1);
      return f + k >= winCount - 1;
    }
  }
}
