/** The three `IGomokuBoard` implementations side by side: fed the same writes
    of values in 0..3 they hold the same board, so their `GetCell` and
    `IsWinning` answers agree; and a clone never shares cells with its
    original. */
module BoardAgreement {
  import opened Tiles
  import opened Grid
  import opened BasicBoard
  import opened UlongBoard
  import opened BitArrayBoard

  /** One `SetCell(row, col, value)` call. */
  datatype CellWrite = CellWrite(row: int, col: int, value: int)

  /** Every write targets a cell of an n-by-n board and stores a value all
      three encodings can hold. */
  predicate Storable(n: int, writes: seq<CellWrite>) {
    forall i :: 0 <= i < |writes| ==>
      InBounds(n, writes[i].row, writes[i].col) && 0 <= writes[i].value < 4
  }

  /** The board obtained from g by performing the writes in order. */
  function Replay(g: Grid.Cells, n: int, writes: seq<CellWrite>): (h: Grid.Cells)
    requires IsSquare(g, n) && Storable(n, writes)
    ensures IsSquare(h, n)
    decreases |writes|
  {
    if |writes| == 0 then g
    else
      var w := writes[|writes| - 1];
      Set(Replay(g, n, writes[..|writes| - 1]), n, w.row, w.col, w.value)
  }

  /** Replaying writes of 0..3 onto a board whose cells are in 0..3 keeps
      every cell in 0..3. */
  lemma {:induction false} ReplayRange(g: Grid.Cells, n: int, writes: seq<CellWrite>)
    requires IsSquare(g, n) && Storable(n, writes)
    requires forall r, c :: InBounds(n, r, c) ==> 0 <= g[r][c] < 4
    ensures forall r, c :: InBounds(n, r, c) ==> 0 <= Replay(g, n, writes)[r][c] < 4
    decreases |writes|
  {
    if |writes| > 0 {
      ReplayRange(g, n, writes[..|writes| - 1]);
    }
  }

  /** A fresh dense board of side n after the writes: its view is the
      replayed board. */
  method ReplayBasic(n: nat, writes: seq<CellWrite>) returns (b: BasicGomokuBoard)
    requires Storable(n, writes)
    ensures fresh(b) && b.Valid() && b.Size() == n
    ensures b.Cells() == Replay(Blank(n, Empty), n, writes)
  {
    b := new BasicGomokuBoard(n);
    for i := 0 to |writes|
      invariant fresh(b) && fresh(b.board) && b.Valid() && b.Size() == n
      invariant b.Cells() == Replay(Blank(n, Empty), n, writes[..i])
    {
      assert writes[..i + 1][..i] == writes[..i];
      b.SetCell(writes[i].row, writes[i].col, writes[i].value);
    }
    assert writes[..|writes|] == writes;
  }

  /** The same for the packed board, which needs n <= 21. */
  method ReplayPacked(n: nat, writes: seq<CellWrite>) returns (b: UlongGomokuBoard)
    requires n <= MaxSize && Storable(n, writes)
    ensures fresh(b) && b.Valid() && b.size == n
    ensures b.Cells() == Replay(Blank(n, Empty), n, writes)
  {
    b := new UlongGomokuBoard(n);
    for i := 0 to |writes|
      invariant fresh(b) && fresh(b.rows) && b.Valid() && b.size == n
      invariant b.Cells() == Replay(Blank(n, Empty), n, writes[..i])
    {
      assert writes[..i + 1][..i] == writes[..i];
      b.SetCell(writes[i].row, writes[i].col, writes[i].value);
    }
    assert writes[..|writes|] == writes;
  }

  /** The same for the two-bit board. */
  method ReplayBitwise(n: nat, writes: seq<CellWrite>) returns (b: BitArrayGomokuBoard)
    requires Storable(n, writes)
    ensures fresh(b) && b.Valid() && b.size == n
    ensures b.Cells() == Replay(Blank(n, Empty), n, writes)
  {
    b := new BitArrayGomokuBoard(n);
    for i := 0 to |writes|
      invariant fresh(b) && fresh(b.bits) && b.Valid() && b.size == n
      invariant b.Cells() == Replay(Blank(n, Empty), n, writes[..i])
    {
      var w := writes[i];
      assert writes[..i + 1][..i] == writes[..i];
      assert w.value % 4 == w.value;
      b.SetCell(w.row, w.col, w.value);
    }
    assert writes[..|writes|] == writes;
  }

  /** The three boards of side n (at most 21, the packed board's limit), fed
      the same writes, hold the same board and give the same `IsWinning`
      answer at every cell. */
  method Agree(n: nat, writes: seq<CellWrite>, row: int, col: int, winCount: int)
    returns (w1: bool, w2: bool, w3: bool)
    requires n <= MaxSize && Storable(n, writes) && InBounds(n, row, col)
    ensures w1 == w2 == w3 == Grid.IsWinning(Replay(Blank(n, Empty), n, writes), n, row, col, winCount)
  {
    var basic := ReplayBasic(n, writes);
    var packed := ReplayPacked(n, writes);
    var bitwise := ReplayBitwise(n, writes);
    w1 := basic.IsWinning(row, col, winCount);
    w2 := packed.IsWinning(row, col, winCount);
    w3 := bitwise.IsWinning(row, col, winCount);
  }

  /** `Clone` then a write to the clone: the clone holds the written board and
      the original is untouched. */
  method CloneBasic(b: BasicGomokuBoard, row: int, col: int, value: int) returns (c: BasicGomokuBoard)
    requires b.Valid() && InBounds(b.Size(), row, col)
    ensures c.Valid() && c.Size() == b.Size()
    ensures b.Cells() == old(b.Cells()) && c.Cells() == Set(b.Cells(), b.Size(), row, col, value)
  {
    c := b.Clone();
    c.SetCell(row, col, value);
  }

  method ClonePacked(b: UlongGomokuBoard, row: int, col: int, value: int) returns (c: UlongGomokuBoard)
    requires b.Valid() && InBounds(b.size, row, col) && 0 <= value < 8
    ensures c.Valid() && c.size == b.size
    ensures b.Cells() == old(b.Cells()) && c.Cells() == Set(b.Cells(), b.size, row, col, value)
  {
    c := b.Clone();
    c.SetCell(row, col, value);
  }

  method CloneBitwise(b: BitArrayGomokuBoard, row: int, col: int, value: int) returns (c: BitArrayGomokuBoard)
    requires b.Valid() && InBounds(b.size, row, col)
    ensures c.Valid() && c.size == b.size
    ensures b.Cells() == old(b.Cells()) && c.Cells() == Set(b.Cells(), b.size, row, col, value % 4)
  {
    c := b.Clone();
    c.SetCell(row, col, value);
  }
}
