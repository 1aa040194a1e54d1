/** `GomokuEngine` of the window: a board, the tile of the next move, and the
    `BoardChanged(row, col, tile)` notifications it fires. The notifications
    are kept as a log, so what a listener sees can be stated. */
module Engine {
  import opened Tiles
  import opened Grid

  /** One `BoardChanged(row, col, tile)` notification. */
  datatype Change = Change(row: int, col: int, tile: int)

  /** The tile of the i-th move: Black first, then alternately White and
      Black. */
  function Mover(i: nat): (t: int)
    ensures IsPlayer(t)
    ensures t == Black <==> i % 2 == 0
  {
    if i % 2 == 0 then Black else White
  }

  /** The movers alternate. */
  lemma MoverNext(i: nat)
    ensures Mover(i + 1) == (if Mover(i) == Black then White else Black)
  {
  }

  /** The board a listener builds by applying the notifications, in order,
      to an empty board; one for a cell off the board would be skipped. */
  function Replay(changes: seq<Change>, n: nat): (g: Cells)
    ensures IsSquare(g, n)
  {
    if changes == [] then Blank(n, Empty)
    else
      var g, last := Replay(changes[..|changes| - 1], n), changes[|changes| - 1];
      if InBounds(n, last.row, last.col) then Set(g, n, last.row, last.col, last.tile) else g
  }

  /** What the engine fires: each notification puts the next mover's tile
      on a cell of the board that was empty until then. */
  ghost predicate Record(changes: seq<Change>, n: nat)
    decreases |changes|
  {
    changes == [] ||
      var pre, last := changes[..|changes| - 1], changes[|changes| - 1];
      && Record(pre, n)
      && InBounds(n, last.row, last.col)
      && last.tile == Mover(|pre|)
      && Replay(pre, n)[last.row][last.col] == Empty
  }

  /** One more notification, for the next mover on an empty cell, keeps the
      record, and the listener's board gets that one tile. */
  lemma RecordSnoc(changes: seq<Change>, n: nat, e: Change)
    requires Record(changes, n) && InBounds(n, e.row, e.col)
    requires Replay(changes, n)[e.row][e.col] == Empty && e.tile == Mover(|changes|)
    ensures Record(changes + [e], n)
    ensures Replay(changes + [e], n) == Set(Replay(changes, n), n, e.row, e.col, e.tile)
  {
    assert (changes + [e])[..|changes|] == changes;
  }

  /** The notifications alternate from Black, and no stone is removed or
      covered: every tile the engine announced is still on the listener's
      board. */
  lemma {:induction false} RecordStays(changes: seq<Change>, n: nat)
    requires Record(changes, n)
    ensures forall i :: 0 <= i < |changes| ==>
      && changes[i].tile == Mover(i)
      && InBounds(n, changes[i].row, changes[i].col)
      && Replay(changes, n)[changes[i].row][changes[i].col] == changes[i].tile
  {
    if changes != [] {
      var pre, last := changes[..|changes| - 1], changes[|changes| - 1];
      RecordStays(pre, n);
      forall i | 0 <= i < |pre|
        ensures changes[i].tile == Mover(i) && InBounds(n, changes[i].row, changes[i].col)
        ensures Replay(changes, n)[changes[i].row][changes[i].col] == changes[i].tile
      {
        assert changes[i] == pre[i];
        var held := Replay(pre, n)[pre[i].row][pre[i].col];
        assert held == pre[i].tile && IsPlayer(held);
      }
    }
  }

  /** And nothing else is on the board: every occupied cell holds the tile
      of a notification for that cell. */
  lemma {:induction false} RecordCovers(changes: seq<Change>, n: nat, r: int, c: int)
    requires Record(changes, n) && InBounds(n, r, c) && Replay(changes, n)[r][c] != Empty
    ensures exists i :: 0 <= i < |changes| && changes[i] == Change(r, c, Replay(changes, n)[r][c])
  {
    var pre, last := changes[..|changes| - 1], changes[|changes| - 1];
    if last.row == r && last.col == c {
      assert changes[|changes| - 1] == Change(r, c, Replay(changes, n)[r][c]);
    } else {
      RecordCovers(pre, n, r, c);
      var i :| 0 <= i < |pre| && pre[i] == Change(r, c, Replay(pre, n)[r][c]);
      assert changes[i] == pre[i];
    }
  }

  class GomokuEngine {
    /** `BoardSize`. */
    const boardSize: nat
    /** `_board`. */
    const board: array2<int>
    /** `_nextMove`: the tile the next move writes. */
    var nextMove: int
    /** The `BoardChanged` notifications fired so far, oldest first. */
    var changes: seq<Change>

    /** The board is the listener's replay of the notifications, which
        alternate from Black, and the next mover continues the
        alternation. */
    ghost predicate Valid()
      reads this, board
    {
      && board.Length0 == boardSize && board.Length1 == boardSize
      && Record(changes, boardSize)
      && nextMove == Mover(|changes|)
      && View(board) == Replay(changes, boardSize)
    }

    /** The board the array holds. */
    ghost function Cells(): (g: Cells)
      reads this, board
      requires Valid()
      ensures IsSquare(g, boardSize)
    {
      View(board)
    }

    /** `new GomokuEngine(size)`: every cell Empty, Black to move, nothing
        announced. */
    constructor(size: nat)
      ensures Valid() && fresh(board)
      ensures boardSize == size && Cells() == Blank(size, Empty)
      ensures nextMove == Black && changes == []
    {
      var b := new int[size, size];
      for i := 0 to size
        invariant forall r, c :: 0 <= r < i && 0 <= c < size ==> b[r, c] == Empty
      {
        for j := 0 to size
          invariant forall r, c :: 0 <= r < i && 0 <= c < size ==> b[r, c] == Empty
          invariant forall c :: 0 <= c < j ==> b[i, c] == Empty
        {
          b[i, j] := Empty;
        }
      }
      SameCells(View(b), Blank(size, Empty), size);
      boardSize := size;
      board := b;
      nextMove := Black;
      changes := [];
    }

    /** `MakeMove(row, col)`: an occupied cell is refused with nothing
        changed and nothing announced; an Empty cell gets the mover's tile,
        one notification is fired for it, and the other player moves next.
        Stones already on the board stay. */
    method MakeMove(row: int, col: int)
      requires Valid() && InBounds(boardSize, row, col)
      modifies this, board
      ensures Valid()
      ensures old(Cells())[row][col] != Empty ==>
        Cells() == old(Cells()) && nextMove == old(nextMove) && changes == old(changes)
      ensures old(Cells())[row][col] == Empty ==>
        && Cells() == Set(old(Cells()), boardSize, row, col, old(nextMove))
        && changes == old(changes) + [Change(row, col, old(nextMove))]
        && nextMove == (if old(nextMove) == Black then White else Black)
      ensures forall r, c :: InBounds(boardSize, r, c) && old(Cells())[r][c] != Empty ==> Cells()[r][c] == old(Cells())[r][c]
    {
      ghost var g := Cells();
      ViewCell(board, row, col);
      if board[row, col] != Empty {
        return;
      }
      board[row, col] := nextMove;
      SameCells(View(board), Set(g, boardSize, row, col, nextMove), boardSize);
      RecordSnoc(changes, boardSize, Change(row, col, nextMove));
      MoverNext(|changes|);
      changes := changes + [Change(row, col, nextMove)];
      nextMove := if nextMove == Black then White else Black;
    }
  }
}
