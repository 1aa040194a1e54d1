/** The abstract board every implementation of `IGomokuBoard` is measured
    against: a square of cell values, the contiguous-run count behind
    `CountTiles`, the four-axis `IsWinning` rule, and the row-major list of
    empty cells behind `GetLegalMoves`. */
module Grid {
  import opened Tiles

  /** A board as rows of cell values; `IsSquare(g, n)` says it is n by n. */
  type Cells = seq<seq<int>>

  predicate IsSquare(g: Cells, n: int) {
    |g| == n && forall r :: 0 <= r < n ==> |g[r]| == n
  }

  predicate InBounds(n: int, r: int, c: int) {
    0 <= r < n && 0 <= c < n
  }

  /** The n-by-n board with v in every cell. */
  function Blank(n: nat, v: int): (g: Cells)
    ensures IsSquare(g, n)
    ensures forall r, c :: InBounds(n, r, c) ==> g[r][c] == v
  {
    seq(n, _ => seq(n, _ => v))
  }

  /** The board after writing v at (r, c): read-after-write, and nothing else moves. */
  function Set(g: Cells, n: int, r: int, c: int, v: int): (h: Cells)
    requires IsSquare(g, n) && InBounds(n, r, c)
    ensures IsSquare(h, n)
    ensures h[r][c] == v
    ensures forall i, j :: InBounds(n, i, j) && (i != r || j != c) ==> h[i][j] == g[i][j]
  {
    g[r := g[r][c := v]]
  }

  /** The board a square two-dimensional array holds. */
  ghost function View(a: array2<int>): (g: Cells)
    reads a
    requires a.Length0 == a.Length1
    ensures IsSquare(g, a.Length0)
  {
    seq(a.Length0, r requires 0 <= r < a.Length0 reads a =>
      seq(a.Length1, c requires 0 <= c < a.Length1 reads a => a[r, c]))
  }

  lemma ViewCell(a: array2<int>, r: int, c: int)
    requires a.Length0 == a.Length1 && InBounds(a.Length0, r, c)
    ensures View(a)[r][c] == a[r, c]
  {
  }

  /** Two n-by-n boards that agree on every cell are the same board. */
  lemma SameCells(g: Cells, h: Cells, n: int)
    requires IsSquare(g, n) && IsSquare(h, n)
    requires forall r, c :: InBounds(n, r, c) ==> g[r][c] == h[r][c]
    ensures g == h
  {
    forall r | 0 <= r < n
      ensures g[r] == h[r]
    {
      assert forall c :: 0 <= c < n ==> g[r][c] == h[r][c];
    }
  }

  // ---------------------------------------------------------------------------
  // Runs along a direction

  /** A unit step (dRow, dCol): both components in -1..1, not both zero. */
  predicate IsDirection(dr: int, dc: int) {
    -1 <= dr <= 1 && -1 <= dc <= 1 && (dr != 0 || dc != 0)
  }

  /** Coordinate x moved i steps of d, for d in -1..1 (i may be negative). */
  function Step(x: int, d: int, i: int): int {
    if d > 0 then x + i else if d < 0 then x - i else x
  }

  /** How many more steps of d coordinate x can take before it leaves 0..n-1. */
  function Reach(n: int, x: int, d: int): nat {
    if d > 0 && x < n then n - x else if d < 0 && x >= 0 then x + 1 else 0
  }

  /** The number of consecutive cells, from (r, c) on in steps of (dr, dc),
      that lie on the board and hold v. */
  function Run(g: Cells, n: int, v: int, r: int, c: int, dr: int, dc: int): nat
    requires IsSquare(g, n) && IsDirection(dr, dc)
    decreases Reach(n, r, dr) + Reach(n, c, dc)
  {
    if InBounds(n, r, c) && g[r][c] == v then 1 + Run(g, n, v, r + dr, c + dc, dr, dc) else 0
  }

  /** The cell i steps of (dr, dc) away from (r, c) lies on the board and holds v. */
  predicate Holds(g: Cells, n: int, v: int, r: int, c: int, dr: int, dc: int, i: int)
    requires IsSquare(g, n)
  {
    InBounds(n, Step(r, dr, i), Step(c, dc, i)) && g[Step(r, dr, i)][Step(c, dc, i)] == v
  }

  /** Shifting the start one step forward shifts every index by one. */
  lemma HoldsNext(g: Cells, n: int, v: int, r: int, c: int, dr: int, dc: int, i: int)
    requires IsSquare(g, n) && IsDirection(dr, dc)
    ensures Holds(g, n, v, r + dr, c + dc, dr, dc, i) == Holds(g, n, v, r, c, dr, dc, i + 1)
  {
    assert Step(r + dr, dr, i) == Step(r, dr, i + 1) && Step(c + dc, dc, i) == Step(c, dc, i + 1);
  }

  /** Walking backwards from the cell behind (r, c) visits the negative indices. */
  lemma HoldsBack(g: Cells, n: int, v: int, r: int, c: int, dr: int, dc: int, j: int)
    requires IsSquare(g, n) && IsDirection(dr, dc)
    ensures Holds(g, n, v, r - dr, c - dc, -dr, -dc, j) == Holds(g, n, v, r, c, dr, dc, -j - 1)
  {
    assert Step(r - dr, -dr, j) == Step(r, dr, -j - 1) && Step(c - dc, -dc, j) == Step(c, dc, -j - 1);
  }

  /** One step of a `CountTiles` loop: a matching cell adds one to the run, and
      the walk gets closer to the edge. */
  lemma RunStep(g: Cells, n: int, v: int, r: int, c: int, dr: int, dc: int)
    requires IsSquare(g, n) && IsDirection(dr, dc) && InBounds(n, r, c) && g[r][c] == v
    ensures Run(g, n, v, r, c, dr, dc) == 1 + Run(g, n, v, r + dr, c + dc, dr, dc)
  {
  }

  /** Every cell before the end of the run lies on the board and holds v. */
  lemma {:induction false} RunPrefix(g: Cells, n: int, v: int, r: int, c: int, dr: int, dc: int, i: int)
    requires IsSquare(g, n) && IsDirection(dr, dc) && 0 <= i < Run(g, n, v, r, c, dr, dc)
    ensures Holds(g, n, v, r, c, dr, dc, i)
    decreases i
  {
    RunStep(g, n, v, r, c, dr, dc);
    if i == 0 {
      assert Step(r, dr, 0) == r && Step(c, dc, 0) == c;
    } else {
      RunPrefix(g, n, v, r + dr, c + dc, dr, dc, i - 1);
      HoldsNext(g, n, v, r, c, dr, dc, i - 1);
    }
  }

  /** The cell where the run ends is off the board or holds something else. */
  lemma {:induction false} RunStops(g: Cells, n: int, v: int, r: int, c: int, dr: int, dc: int)
    requires IsSquare(g, n) && IsDirection(dr, dc)
    ensures !Holds(g, n, v, r, c, dr, dc, Run(g, n, v, r, c, dr, dc))
    decreases Reach(n, r, dr) + Reach(n, c, dc)
  {
    if InBounds(n, r, c) && g[r][c] == v {
      RunStep(g, n, v, r, c, dr, dc);
      RunStops(g, n, v, r + dr, c + dc, dr, dc);
      HoldsNext(g, n, v, r, c, dr, dc, Run(g, n, v, r + dr, c + dc, dr, dc));
    } else {
      assert Step(r, dr, 0) == r && Step(c, dc, 0) == c;
    }
  }

  /** `Run` is the length of the longest matching prefix of the line: every cell
      before it matches, and the cell it stops at is off the board or differs. */
  lemma RunIsMaximal(g: Cells, n: int, v: int, r: int, c: int, dr: int, dc: int)
    requires IsSquare(g, n) && IsDirection(dr, dc)
    ensures forall i :: 0 <= i < Run(g, n, v, r, c, dr, dc) ==> Holds(g, n, v, r, c, dr, dc, i)
    ensures !Holds(g, n, v, r, c, dr, dc, Run(g, n, v, r, c, dr, dc))
  {
    forall i | 0 <= i < Run(g, n, v, r, c, dr, dc)
      ensures Holds(g, n, v, r, c, dr, dc, i)
    {
      RunPrefix(g, n, v, r, c, dr, dc, i);
    }
    RunStops(g, n, v, r, c, dr, dc);
  }

  /** A matching prefix of length m means the run is at least m long. */
  lemma RunAtLeast(g: Cells, n: int, v: int, r: int, c: int, dr: int, dc: int, m: int)
    requires IsSquare(g, n) && IsDirection(dr, dc)
    requires forall i :: 0 <= i < m ==> Holds(g, n, v, r, c, dr, dc, i)
    ensures Run(g, n, v, r, c, dr, dc) >= m
  {
    RunStops(g, n, v, r, c, dr, dc);
  }

  /** `CountTiles(row, col, dRow, dCol)`: the cells past (row, col) in direction
      (dRow, dCol) that hold the same value as (row, col), up to the first that
      does not or the edge. */
  function Count(g: Cells, n: int, r: int, c: int, dr: int, dc: int): nat
    requires IsSquare(g, n) && InBounds(n, r, c) && IsDirection(dr, dc)
  {
    Run(g, n, g[r][c], r + dr, c + dc, dr, dc)
  }

  /** A count never covers more than the rest of the board's side. */
  lemma CountBound(g: Cells, n: int, r: int, c: int, dr: int, dc: int)
    requires IsSquare(g, n) && InBounds(n, r, c) && IsDirection(dr, dc)
    ensures Count(g, n, r, c, dr, dc) <= n - 1
  {
    var k := Count(g, n, r, c, dr, dc);
    RunIsMaximal(g, n, g[r][c], r + dr, c + dc, dr, dc);
    if k > 0 {
      assert Holds(g, n, g[r][c], r + dr, c + dc, dr, dc, k - 1);
    }
  }

  /** `IsWinning(row, col, winCount)`: on one of the four axes the counts in the
      two opposite directions add up to winCount - 1 or more. The value at
      (row, col) is not checked: runs of Empty count as well. */
  predicate IsWinning(g: Cells, n: int, r: int, c: int, win: int)
    requires IsSquare(g, n) && InBounds(n, r, c)
  {
    Count(g, n, r, c, 1, 0) + Count(g, n, r, c, -1, 0) >= win - 1 ||
    Count(g, n, r, c, 0, 1) + Count(g, n, r, c, 0, -1) >= win - 1 ||
    Count(g, n, r, c, 1, 1) + Count(g, n, r, c, -1, -1) >= win - 1 ||
    Count(g, n, r, c, 1, -1) + Count(g, n, r, c, -1, 1) >= win - 1
  }

  /** `win` consecutive cells of axis (dr, dc) through (r, c), `back` of them
      behind it, all on the board and holding the value of (r, c). */
  predicate LineAt(g: Cells, n: int, r: int, c: int, dr: int, dc: int, win: int, back: int)
    requires IsSquare(g, n) && InBounds(n, r, c)
  {
    forall i :: -back <= i < win - back ==> Holds(g, n, g[r][c], r, c, dr, dc, i)
  }

  predicate HasLine(g: Cells, n: int, r: int, c: int, dr: int, dc: int, win: int)
    requires IsSquare(g, n) && InBounds(n, r, c)
  {
    exists back :: 0 <= back < win && LineAt(g, n, r, c, dr, dc, win, back)
  }

  /** The independent statement of a win: a contiguous line of `win` equal cells
      through (r, c) on one of the four axes. */
  predicate WinningLine(g: Cells, n: int, r: int, c: int, win: int)
    requires IsSquare(g, n) && InBounds(n, r, c)
  {
    HasLine(g, n, r, c, 1, 0, win) || HasLine(g, n, r, c, 0, 1, win) ||
    HasLine(g, n, r, c, 1, 1, win) || HasLine(g, n, r, c, 1, -1, win)
  }

  /** Enough matching cells on both sides of (r, c) make a line through it. */
  lemma CountsGiveLine(g: Cells, n: int, r: int, c: int, dr: int, dc: int, win: int)
    requires IsSquare(g, n) && InBounds(n, r, c) && IsDirection(dr, dc) && win >= 1
    requires Count(g, n, r, c, dr, dc) + Count(g, n, r, c, -dr, -dc) >= win - 1
    ensures HasLine(g, n, r, c, dr, dc, win)
  {
    var b := Count(g, n, r, c, -dr, -dc);
    var back := if b < win - 1 then b else win - 1;
    LineFromRuns(g, n, r, c, dr, dc, win, back);
  }

  /** Runs of at least `win - back - 1` ahead of (r, c) and `back` behind it
      make a line of `win` through it. */
  lemma LineFromRuns(g: Cells, n: int, r: int, c: int, dr: int, dc: int, win: int, back: int)
    requires IsSquare(g, n) && InBounds(n, r, c) && IsDirection(dr, dc) && 0 <= back < win
    requires Run(g, n, g[r][c], r + dr, c + dc, dr, dc) >= win - back - 1
    requires Run(g, n, g[r][c], r - dr, c - dc, -dr, -dc) >= back
    ensures LineAt(g, n, r, c, dr, dc, win, back)
  {
    forall i | -back <= i < win - back
      ensures Holds(g, n, g[r][c], r, c, dr, dc, i)
    {
      LinePoint(g, n, r, c, dr, dc, i);
    }
  }

  /** The cell i steps from (r, c) matches it when i lies inside the runs on
      either side. */
  lemma LinePoint(g: Cells, n: int, r: int, c: int, dr: int, dc: int, i: int)
    requires IsSquare(g, n) && InBounds(n, r, c) && IsDirection(dr, dc)
    requires i <= Run(g, n, g[r][c], r + dr, c + dc, dr, dc)
    requires -i <= Run(g, n, g[r][c], r - dr, c - dc, -dr, -dc)
    ensures Holds(g, n, g[r][c], r, c, dr, dc, i)
  {
    if i > 0 {
      AheadPoint(g, n, g[r][c], r, c, dr, dc, i - 1);
    } else if i < 0 {
      BehindPoint(g, n, g[r][c], r, c, dr, dc, -i - 1);
    } else {
      assert Step(r, dr, 0) == r && Step(c, dc, 0) == c;
    }
  }

  lemma AheadPoint(g: Cells, n: int, v: int, r: int, c: int, dr: int, dc: int, j: int)
    requires IsSquare(g, n) && IsDirection(dr, dc)
    requires 0 <= j < Run(g, n, v, r + dr, c + dc, dr, dc)
    ensures Holds(g, n, v, r, c, dr, dc, j + 1)
  {
    RunPrefix(g, n, v, r + dr, c + dc, dr, dc, j);
    HoldsNext(g, n, v, r, c, dr, dc, j);
  }

  lemma BehindPoint(g: Cells, n: int, v: int, r: int, c: int, dr: int, dc: int, j: int)
    requires IsSquare(g, n) && IsDirection(dr, dc)
    requires 0 <= j < Run(g, n, v, r - dr, c - dc, -dr, -dc)
    ensures Holds(g, n, v, r, c, dr, dc, -j - 1)
  {
    RunPrefix(g, n, v, r - dr, c - dc, -dr, -dc, j);
    HoldsBack(g, n, v, r, c, dr, dc, j);
  }



  /** A line through (r, c) makes the two opposite counts add up to win - 1. */
  lemma LineGivesCounts(g: Cells, n: int, r: int, c: int, dr: int, dc: int, win: int, back: int)
    requires IsSquare(g, n) && InBounds(n, r, c) && IsDirection(dr, dc)
    requires 0 <= back < win && LineAt(g, n, r, c, dr, dc, win, back)
    ensures Count(g, n, r, c, dr, dc) + Count(g, n, r, c, -dr, -dc) >= win - 1
  {
    var v := g[r][c];
    var rf, cf, rb, cb, ndr, ndc := r + dr, c + dc, r - dr, c - dc, -dr, -dc;
    forall j | 0 <= j < win - back - 1
      ensures Holds(g, n, v, rf, cf, dr, dc, j)
    {
      HoldsNext(g, n, v, r, c, dr, dc, j);
    }
    RunAtLeast(g, n, v, rf, cf, dr, dc, win - back - 1);
    forall j | 0 <= j < back
      ensures Holds(g, n, v, rb, cb, ndr, ndc, j)
    {
      HoldsBack(g, n, v, r, c, dr, dc, j);
    }
    RunAtLeast(g, n, v, rb, cb, ndr, ndc, back);
  }

  /** On one axis, the two opposite counts reach win - 1 exactly when a line of
      `win` equal cells passes through (r, c). */
  lemma AxisIffLine(g: Cells, n: int, r: int, c: int, dr: int, dc: int, win: int)
    requires IsSquare(g, n) && InBounds(n, r, c) && IsDirection(dr, dc) && win >= 1
    ensures Count(g, n, r, c, dr, dc) + Count(g, n, r, c, -dr, -dc) >= win - 1
        <==> HasLine(g, n, r, c, dr, dc, win)
  {
    if Count(g, n, r, c, dr, dc) + Count(g, n, r, c, -dr, -dc) >= win - 1 {
      CountsGiveLine(g, n, r, c, dr, dc, win);
    }
    if HasLine(g, n, r, c, dr, dc, win) {
      var back :| 0 <= back < win && LineAt(g, n, r, c, dr, dc, win, back);
      LineGivesCounts(g, n, r, c, dr, dc, win, back);
    }
  }

  /** The count-based rule and the line-based statement of a win agree. */
  lemma IsWinningIffLine(g: Cells, n: int, r: int, c: int, win: int)
    requires IsSquare(g, n) && InBounds(n, r, c) && win >= 1
    ensures IsWinning(g, n, r, c, win) <==> WinningLine(g, n, r, c, win)
  {
    AxisIffLine(g, n, r, c, 1, 0, win);
    AxisIffLine(g, n, r, c, 0, 1, win);
    AxisIffLine(g, n, r, c, 1, 1, win);
    AxisIffLine(g, n, r, c, 1, -1, win);
  }

  // ---------------------------------------------------------------------------
  // Empty cells in row-major order

  /** Move a comes strictly before move b in row-major order. */
  predicate Before(a: Move, b: Move) {
    a.row < b.row || (a.row == b.row && a.col < b.col)
  }

  /** (r, c) is a point of a row-major scan of an n-by-n board, the end
      (n, 0) included. */
  predicate IsPosition(n: int, r: int, c: int) {
    0 <= r <= n && 0 <= c <= n && (r == n ==> c == 0)
  }

  /** The Empty cells that a row-major scan visits before reaching (r, c), in
      the order it visits them. */
  function Scan(g: Cells, n: int, r: int, c: int): seq<Move>
    requires IsSquare(g, n) && IsPosition(n, r, c)
    decreases r, c
  {
    if c == 0 then (if r == 0 then [] else Scan(g, n, r - 1, n))
    else Scan(g, n, r, c - 1) + (if g[r][c - 1] == Empty then [Move(r, c - 1)] else [])
  }

  /** Every Empty cell of the board, in row-major order. */
  function EmptyCells(g: Cells, n: nat): seq<Move>
    requires IsSquare(g, n)
  {
    Scan(g, n, n, 0)
  }

  /** Strictly increasing in row-major order, hence without repetition. */
  predicate Sorted(ms: seq<Move>) {
    forall i, j :: 0 <= i < j < |ms| ==> Before(ms[i], ms[j])
  }

  lemma SortedSnoc(front: seq<Move>, m: Move)
    requires Sorted(front)
    requires forall i :: 0 <= i < |front| ==> Before(front[i], m)
    ensures Sorted(front + [m])
  {
    var all := front + [m];
    forall i, j | 0 <= i < j < |all|
      ensures Before(all[i], all[j])
    {
      assert all[i] == front[i];
    }
  }

  /** The scan up to (r, c) holds exactly the Empty cells before (r, c). */
  lemma {:induction false} ScanHas(g: Cells, n: int, r: int, c: int, m: Move)
    requires IsSquare(g, n) && IsPosition(n, r, c)
    ensures m in Scan(g, n, r, c) <==> InBounds(n, m.row, m.col) && Before(m, Move(r, c)) && g[m.row][m.col] == Empty
    decreases r, c
  {
    if c == 0 {
      if r > 0 {
        ScanHas(g, n, r - 1, n, m);
      }
    } else {
      var front, last := Scan(g, n, r, c - 1), if g[r][c - 1] == Empty then [Move(r, c - 1)] else [];
      ScanHas(g, n, r, c - 1, m);
      assert m in front + last <==> m in front || m in last;
    }
  }

  lemma {:induction false} ScanSorted(g: Cells, n: int, r: int, c: int)
    requires IsSquare(g, n) && IsPosition(n, r, c)
    ensures Sorted(Scan(g, n, r, c))
    decreases r, c
  {
    if c == 0 {
      if r > 0 {
        ScanSorted(g, n, r - 1, n);
      }
    } else {
      var front := Scan(g, n, r, c - 1);
      ScanSorted(g, n, r, c - 1);
      if g[r][c - 1] == Empty {
        forall i | 0 <= i < |front|
          ensures Before(front[i], Move(r, c - 1))
        {
          ScanHas(g, n, r, c - 1, front[i]);
        }
        SortedSnoc(front, Move(r, c - 1));
      }
    }
  }

  /** `EmptyCells` is the set of Empty cells, without repetition, sorted row-major. */
  lemma EmptyCellsSpec(g: Cells, n: nat)
    requires IsSquare(g, n)
    ensures forall m :: m in EmptyCells(g, n) <==> InBounds(n, m.row, m.col) && g[m.row][m.col] == Empty
    ensures Sorted(EmptyCells(g, n))
  {
    forall m: Move
      ensures m in EmptyCells(g, n) <==> InBounds(n, m.row, m.col) && g[m.row][m.col] == Empty
    {
      ScanHas(g, n, n, 0, m);
    }
    ScanSorted(g, n, n, 0);
  }

  lemma {:induction false} ScanFill(g: Cells, n: int, r: int, c: int, r0: int, c0: int, v: int)
    requires IsSquare(g, n) && IsPosition(n, r, c) && InBounds(n, r0, c0) && g[r0][c0] == Empty && v != Empty
    ensures |Scan(Set(g, n, r0, c0, v), n, r, c)| == |Scan(g, n, r, c)| - (if Before(Move(r0, c0), Move(r, c)) then 1 else 0)
    decreases r, c
  {
    if c == 0 {
      if r > 0 {
        ScanFill(g, n, r - 1, n, r0, c0, v);
      }
    } else {
      ScanFill(g, n, r, c - 1, r0, c0, v);
    }
  }

  /** Filling one Empty cell with a tile removes exactly one empty cell. */
  lemma EmptyCellsFill(g: Cells, n: nat, r: int, c: int, v: int)
    requires IsSquare(g, n) && InBounds(n, r, c) && g[r][c] == Empty && v != Empty
    ensures |EmptyCells(Set(g, n, r, c, v), n)| == |EmptyCells(g, n)| - 1
  {
    ScanFill(g, n, n, 0, r, c, v);
  }

  lemma {:induction false} ScanOfBlank(n: nat, r: int, c: int)
    requires IsPosition(n, r, c)
    ensures |Scan(Blank(n, Empty), n, r, c)| == r * n + c
    decreases r, c
  {
    if c == 0 {
      if r > 0 {
        ScanOfBlank(n, r - 1, n);
        assert (r - 1) * n + n == r * n;
      }
    } else {
      ScanOfBlank(n, r, c - 1);
    }
  }

  /** An all-Empty n-by-n board has n * n empty cells. */
  lemma EmptyCellsOfBlank(n: nat)
    ensures |EmptyCells(Blank(n, Empty), n)| == n * n
  {
    ScanOfBlank(n, n, 0);
  }
}
