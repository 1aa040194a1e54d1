/** The static evaluator of the alpha-beta variant of `GomokuGame`: every
    occupied cell scores, on each of four axes, the length of the run of its
    own value through it, looked up in a table. That revision of the class
    reads its cells through an `IGomokuBoard` of side `_size`; here that board
    is a `BasicGomokuBoard`, whose side is `_size`. */
module Evaluation {
  import opened Tiles
  import opened Grid
  import opened BasicBoard

  const FiveInARow := 1000000
  const FourInARow := 10000
  const ThreeInARow := 1000
  const TwoInARow := 100

  /** `directions`: down, right, down-right, down-left. */
  const Directions: seq<(int, int)> := [(1, 0), (0, 1), (1, 1), (1, -1)]

  /** `GetScore`: the table. Runs of one and runs longer than five are worth
      nothing; between two and five a longer run is worth more. */
  function Score(count: int): (v: int)
    ensures v == 0 || v == TwoInARow || v == ThreeInARow || v == FourInARow || v == FiveInARow
    ensures v > 0 <==> 2 <= count <= 5
  {
    if count == 5 then FiveInARow
    else if count == 4 then FourInARow
    else if count == 3 then ThreeInARow
    else if count == 2 then TwoInARow
    else 0
  }

  /** Within two to five, the table grows with the run: one more stone is
      worth at least ten times as much. */
  lemma ScoreGrows(count: int)
    requires 2 <= count < 5
    ensures Score(count + 1) >= 10 * Score(count)
  {
  }

  /** The run through (r, c) along axis d: the cell itself, the matching cells
      ahead and the matching cells behind. */
  function AxisRun(g: Cells, n: int, r: int, c: int, d: (int, int)): nat
    requires IsSquare(g, n) && InBounds(n, r, c) && IsDirection(d.0, d.1)
  {
    1 + Count(g, n, r, c, d.0, d.1) + Count(g, n, r, c, -d.0, -d.1)
  }

  /** The scores of the first k axes of `Directions`. */
  function AxesScore(g: Cells, n: int, r: int, c: int, k: nat): (v: int)
    requires IsSquare(g, n) && InBounds(n, r, c) && k <= |Directions|
    ensures v >= 0
  {
    if k == 0 then 0
    else AxesScore(g, n, r, c, k - 1) + Score(AxisRun(g, n, r, c, Directions[k - 1]))
  }

  /** `EvaluatePosition(row, col)` as a value. */
  function PositionScore(g: Cells, n: int, r: int, c: int): (v: int)
    requires IsSquare(g, n) && InBounds(n, r, c)
    ensures v >= 0
  {
    AxesScore(g, n, r, c, |Directions|)
  }

  /** The scores of the occupied cells a row-major scan visits before (r, c). */
  function ScoreUpTo(g: Cells, n: int, r: int, c: int): (v: int)
    requires IsSquare(g, n) && IsPosition(n, r, c)
    ensures v >= 0
    decreases r, c
  {
    if c == 0 then (if r == 0 then 0 else ScoreUpTo(g, n, r - 1, n))
    else ScoreUpTo(g, n, r, c - 1) + CellScore(g, n, r, c - 1)
  }

  /** What `EvaluateBoard` adds for one cell: nothing for an Empty cell. */
  function CellScore(g: Cells, n: int, r: int, c: int): (v: int)
    requires IsSquare(g, n) && InBounds(n, r, c)
    ensures v >= 0
  {
    if g[r][c] != Empty then PositionScore(g, n, r, c) else 0
  }

  /** `EvaluateBoard` as a value; never negative. */
  function BoardScore(g: Cells, n: nat): (v: int)
    requires IsSquare(g, n)
    ensures v >= 0
  {
    ScoreUpTo(g, n, n, 0)
  }

  // ---------------------------------------------------------------------------
  // Properties

  /** Only occupied cells score, so the empty board is worth nothing. */
  lemma {:induction false} ScoreUpToBlank(n: nat, r: int, c: int)
    requires IsPosition(n, r, c)
    ensures ScoreUpTo(Blank(n, Empty), n, r, c) == 0
    decreases r, c
  {
    if c == 0 {
      if r > 0 {
        ScoreUpToBlank(n, r - 1, n);
      }
    } else {
      ScoreUpToBlank(n, r, c - 1);
    }
  }

  lemma BlankScoresZero(n: nat)
    ensures BoardScore(Blank(n, Empty), n) == 0
  {
    ScoreUpToBlank(n, n, 0);
  }

  /** Black for White and White for Black; other values stay. */
  function Recolour(v: int): (w: int)
    ensures (w == Black <==> v == White) && (w == White <==> v == Black)
    ensures !IsPlayer(v) ==> w == v
  {
    if v == Black then White else if v == White then Black else v
  }

  /** The board with the two colours exchanged. */
  function Recoloured(g: Cells, n: int): (h: Cells)
    requires IsSquare(g, n)
    ensures IsSquare(h, n)
    ensures forall r, c :: InBounds(n, r, c) ==> h[r][c] == Recolour(g[r][c])
  {
    seq(n, r requires 0 <= r < n => seq(n, c requires 0 <= c < n => Recolour(g[r][c])))
  }

  /** Exchanging the colours maps every run onto a run of the same length. */
  lemma {:induction false} RunRecoloured(g: Cells, n: int, v: int, r: int, c: int, dr: int, dc: int)
    requires IsSquare(g, n) && IsDirection(dr, dc)
    ensures Run(Recoloured(g, n), n, Recolour(v), r, c, dr, dc) == Run(g, n, v, r, c, dr, dc)
    decreases Reach(n, r, dr) + Reach(n, c, dc)
  {
    if InBounds(n, r, c) && g[r][c] == v {
      RunStep(g, n, v, r, c, dr, dc);
      RunRecoloured(g, n, v, r + dr, c + dc, dr, dc);
    }
  }

  /** So each axis through a cell has the same run on both boards. */
  lemma AxisRecoloured(g: Cells, n: int, r: int, c: int, d: (int, int))
    requires IsSquare(g, n) && InBounds(n, r, c) && IsDirection(d.0, d.1)
    ensures AxisRun(Recoloured(g, n), n, r, c, d) == AxisRun(g, n, r, c, d)
  {
    CountRecoloured(g, n, r, c, d.0, d.1);
    CountRecoloured(g, n, r, c, -d.0, -d.1);
  }

  lemma CountRecoloured(g: Cells, n: int, r: int, c: int, dr: int, dc: int)
    requires IsSquare(g, n) && InBounds(n, r, c) && IsDirection(dr, dc)
    ensures Count(Recoloured(g, n), n, r, c, dr, dc) == Count(g, n, r, c, dr, dc)
  {
    RunRecoloured(g, n, g[r][c], r + dr, c + dc, dr, dc);
  }

  lemma {:induction false} AxesRecoloured(g: Cells, n: int, r: int, c: int, k: nat)
    requires IsSquare(g, n) && InBounds(n, r, c) && k <= |Directions|
    ensures AxesScore(Recoloured(g, n), n, r, c, k) == AxesScore(g, n, r, c, k)
  {
    if k > 0 {
      AxesRecoloured(g, n, r, c, k - 1);
      AxisRecoloured(g, n, r, c, Directions[k - 1]);
    }
  }

  lemma CellRecoloured(g: Cells, n: int, r: int, c: int)
    requires IsSquare(g, n) && InBounds(n, r, c)
    ensures CellScore(Recoloured(g, n), n, r, c) == CellScore(g, n, r, c)
  {
    AxesRecoloured(g, n, r, c, |Directions|);
  }

  lemma {:induction false} ScoreUpToRecoloured(g: Cells, n: int, r: int, c: int)
    requires IsSquare(g, n) && IsPosition(n, r, c)
    ensures ScoreUpTo(Recoloured(g, n), n, r, c) == ScoreUpTo(g, n, r, c)
    decreases r, c
  {
    if c == 0 {
      if r > 0 {
        ScoreUpToRecoloured(g, n, r - 1, n);
      }
    } else {
      ScoreUpToRecoloured(g, n, r, c - 1);
      CellRecoloured(g, n, r, c - 1);
    }
  }

  /** The evaluation is colour-blind: exchanging Black and White does not
      change the score. */
  lemma BoardScoreRecoloured(g: Cells, n: nat)
    requires IsSquare(g, n)
    ensures BoardScore(Recoloured(g, n), n) == BoardScore(g, n)
  {
    ScoreUpToRecoloured(g, n, n, 0);
  }

  // ---------------------------------------------------------------------------
  // The loops

  /** One `while (true)` walk of `EvaluatePosition`: from (row, col) in steps
      of (dr, dc) while the cells hold `player`; it adds the run's length to
      count. */
  method Walk(board: BasicGomokuBoard, row: int, col: int, dr: int, dc: int, player: int, count0: int)
    returns (count: int)
    requires board.Valid() && InBounds(board.Size(), row, col) && IsDirection(dr, dc)
    requires player == board.Cells()[row][col]
    ensures count == count0 + Count(board.Cells(), board.Size(), row, col, dr, dc)
  {
    ghost var g, n := board.Cells(), board.Size();
    count := count0;
    var r, c := row, col;
    while true
      invariant count - count0 + Run(g, n, player, r + dr, c + dc, dr, dc) == Count(g, n, row, col, dr, dc)
      decreases Run(g, n, player, r + dr, c + dc, dr, dc)
    {
      r, c := r + dr, c + dc;
      if InBounds(board.Size(), r, c) && board.GetCell(r, c) == player {
        RunStep(g, n, player, r, c, dr, dc);
        count := count + 1;
      } else {
        break;
      }
    }
  }

  /** The body of `EvaluatePosition`'s loop for one direction: 1, plus the
      walk forward, plus the walk backward, scored by the table. */
  method ScoreAxis(board: BasicGomokuBoard, row: int, col: int, direction: (int, int), player: int)
    returns (score: int)
    requires board.Valid() && InBounds(board.Size(), row, col) && IsDirection(direction.0, direction.1)
    requires player == board.Cells()[row][col]
    ensures score == Score(AxisRun(board.Cells(), board.Size(), row, col, direction))
  {
    var count := Walk(board, row, col, direction.0, direction.1, player, 1);
    count := Walk(board, row, col, -direction.0, -direction.1, player, count);
    score := Score(count);
  }

  /** `EvaluatePosition(row, col)`: the sum of the four axes' scores. */
  method EvaluatePosition(board: BasicGomokuBoard, row: int, col: int) returns (score: int)
    requires board.Valid() && InBounds(board.Size(), row, col)
    ensures score == PositionScore(board.Cells(), board.Size(), row, col)
  {
    score := 0;
    var player := board.GetCell(row, col);
    for i := 0 to |Directions|
      invariant score == AxesScore(board.Cells(), board.Size(), row, col, i)
    {
      var s := ScoreAxis(board, row, col, Directions[i], player);
      score := score + s;
    }
  }

  /** `EvaluateBoard`: the sum of `EvaluatePosition` over the occupied cells. */
  method EvaluateBoard(board: BasicGomokuBoard) returns (score: int)
    requires board.Valid()
    ensures score == BoardScore(board.Cells(), board.Size())
  {
    ghost var g, n := board.Cells(), board.Size();
    score := 0;
    for row := 0 to board.Size()
      invariant score == ScoreUpTo(g, n, row, 0)
    {
      for col := 0 to board.Size()
        invariant score == ScoreUpTo(g, n, row, col)
      {
        if board.GetCell(row, col) != Empty {
          var s := EvaluatePosition(board, row, col);
          score := score + s;
        }
      }
    }
  }
}
