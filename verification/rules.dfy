/** The rules of the AlphaZero-style player (`Gomoku` in gomoku.py): boards of
    EMPTY (0), PLAYER1 (1) and PLAYER2 (-1), flat actions row * size + col,
    the win test, the terminal test and the network's input planes. */
module Rules {
  import opened Grid

  const EMPTY := 0
  const PLAYER1 := 1
  const PLAYER2 := -1

  datatype Option<T> = None | Some(value: T)

  datatype Result<T> = Success(value: T) | Failure(error: string)

  /** The message of the `ValueError` `get_next_state` raises. */
  const InvalidAction := "Invalid action"

  // ---------------------------------------------------------------------------
  // Actions

  /** The cell of a flat action: `(action // size, action % size)`. For the
      actions 0 .. size*size - 1 Python's floor division and remainder are
      Dafny's. */
  function CellOf(n: int, action: int): (int, int)
    requires n > 0
  {
    (action / n, action % n)
  }

  /** The flat action of a cell, as `get_moves` lays the board out. */
  function ActionOf(n: int, r: int, c: int): int {
    r * n + c
  }

  lemma MulMono(a: int, b: int, n: int)
    requires a <= b && 0 <= n
    ensures a * n <= b * n
  {
    assert b * n - a * n == (b - a) * n;
  }

  /** Division by n undoes r * n + c. */
  lemma DivModOf(n: int, r: int, c: int)
    requires n > 0 && 0 <= c < n
    ensures (r * n + c) / n == r && (r * n + c) % n == c
  {
    var a := r * n + c;
    var q, m := a / n, a % n;
    assert a == q * n + m;
    assert (q - r) * n == c - m;
    if q > r {
      MulMono(1, q - r, n);
    } else if q < r {
      MulMono(1, r - q, n);
    }
  }

  /** Every cell has its action, and decoding it gives the cell back. */
  lemma ActionRoundTrip(n: int, r: int, c: int)
    requires n > 0 && InBounds(n, r, c)
    ensures 0 <= ActionOf(n, r, c) < n * n
    ensures CellOf(n, ActionOf(n, r, c)) == (r, c)
  {
    DivModOf(n, r, c);
    MulMono(r, n - 1, n);
  }

  /** Every action 0 .. n*n - 1 names a cell, and encoding it gives the
      action back. */
  lemma CellRoundTrip(n: int, action: int)
    requires n > 0 && 0 <= action < n * n
    ensures InBounds(n, CellOf(n, action).0, CellOf(n, action).1)
    ensures ActionOf(n, CellOf(n, action).0, CellOf(n, action).1) == action
  {
    var q := action / n;
    if q >= n {
      MulMono(n, q, n);
    }
  }

  // ---------------------------------------------------------------------------
  // States and moves

  /** `get_initial_state`. */
  function InitialState(n: nat): (g: Cells)
    ensures IsSquare(g, n) && forall r, c :: InBounds(n, r, c) ==> g[r][c] == EMPTY
  {
    Blank(n, EMPTY)
  }

  /** `get_next_state`: raises `ValueError` on an occupied cell; otherwise
      writes player into the cell of the action, in place, and returns the
      same array. */
  method GetNextState(n: nat, state: array2<int>, action: int, player: int) returns (r: Result<array2<int>>)
    requires state.Length0 == n && state.Length1 == n && 0 <= action < n * n
    modifies state
    ensures InBounds(n, CellOf(n, action).0, CellOf(n, action).1)
    ensures r.Failure? <==> old(View(state))[action / n][action % n] != EMPTY
    ensures r.Failure? ==> r.error == InvalidAction
    ensures r.Failure? ==> View(state) == old(View(state))
    ensures r.Success? ==> r.value == state && View(state) == Set(old(View(state)), n, action / n, action % n, player)
  {
    CellRoundTrip(n, action);
    var row, col := action / n, action % n;
    ghost var g := View(state);
    ViewCell(state, row, col);
    if state[row, col] != EMPTY {
      return Failure(InvalidAction);
    }
    state[row, col] := player;
    SameCells(View(state), Set(g, n, row, col, player), n);
    return Success(state);
  }

  /** `get_moves`: one flag per action, 1 exactly for the Empty cells. */
  function GetMoves(g: Cells, n: int): (moves: seq<int>)
    requires n > 0 && IsSquare(g, n)
    ensures |moves| == n * n
    ensures forall r, c :: InBounds(n, r, c) ==>
      0 <= ActionOf(n, r, c) < n * n && moves[ActionOf(n, r, c)] == (if g[r][c] == EMPTY then 1 else 0)
  {
    var moves := seq(n * n, a requires 0 <= a < n * n =>
      CellRoundTrip(n, a);
      if g[a / n][a % n] == EMPTY then 1 else 0);
    assert forall r, c :: InBounds(n, r, c) ==>
      0 <= ActionOf(n, r, c) < n * n && moves[ActionOf(n, r, c)] == (if g[r][c] == EMPTY then 1 else 0) by {
      forall r, c | InBounds(n, r, c)
        ensures 0 <= ActionOf(n, r, c) < n * n && moves[ActionOf(n, r, c)] == (if g[r][c] == EMPTY then 1 else 0)
      {
        ActionRoundTrip(n, r, c);
      }
    }
    moves
  }

  // ---------------------------------------------------------------------------
  // The win test as written

  /** `directions`. */
  const Directions: seq<(int, int)> := [(1, 0), (0, 1), (1, 1), (1, -1)]

  /** `np.sum(... == player)` over the in-bounds cells 1 .. k steps of
      (dr, dc) away from (r, c), whether or not they are contiguous. */
  function Matches(g: Cells, n: int, r: int, c: int, dr: int, dc: int, player: int, k: nat): (m: nat)
    requires IsSquare(g, n)
    ensures m <= k
  {
    if k == 0 then 0
    else Matches(g, n, r, c, dr, dc, player, k - 1) + (if Holds(g, n, player, r, c, dr, dc, k) then 1 else 0)
  }

  /** `count` for one direction: the cell, plus the matching cells among the
      four ahead and the four behind. */
  function GappedCount(g: Cells, n: int, r: int, c: int, d: (int, int), player: int): int
    requires IsSquare(g, n)
  {
    1 + Matches(g, n, r, c, d.0, d.1, player, 4) + Matches(g, n, r, c, -d.0, -d.1, player, 4)
  }

  /** Some one of the first k directions counts five. */
  predicate SomeAxisCountsFive(g: Cells, n: int, r: int, c: int, player: int, k: nat)
    requires IsSquare(g, n) && k <= |Directions|
  {
    exists i :: 0 <= i < k && GappedCount(g, n, r, c, Directions[i], player) >= 5
  }

  /** What `check_win` answers. */
  predicate CheckWinAsWritten(g: Cells, n: int, action: Option<int>)
    requires n > 0 && IsSquare(g, n) && (action.Some? ==> 0 <= action.value < n * n)
  {
    action.Some? &&
    var (r, c) := CellOf(n, action.value);
    CellRoundTrip(n, action.value);
    g[r][c] != EMPTY && SomeAxisCountsFive(g, n, r, c, g[r][c], |Directions|)
  }

  /** `check_win`: False without an action or on an Empty cell; otherwise
      the directions are tried in turn and the first whose count reaches five
      answers True. */
  method CheckWin(g: Cells, n: int, action: Option<int>) returns (win: bool)
    requires n > 0 && IsSquare(g, n) && (action.Some? ==> 0 <= action.value < n * n)
    ensures win == CheckWinAsWritten(g, n, action)
  {
    if action.None? {
      return false;
    }
    CellRoundTrip(n, action.value);
    var row, col := action.value / n, action.value % n;
    var player := g[row][col];
    if player == EMPTY {
      return false;
    }
    for i := 0 to |Directions|
      invariant forall j :: 0 <= j < i ==> GappedCount(g, n, row, col, Directions[j], player) < 5
    {
      var (dr, dc) := Directions[i];
      var count := 1;
      count := count + Matches(g, n, row, col, dr, dc, player, 4);
      count := count + Matches(g, n, row, col, -dr, -dc, player, 4);
      if count >= 5 {
        return true;
      }
    }
    return false;
  }

  /** The matching cells among the first k ahead include the first k of the
      run ahead. */
  lemma {:induction false} MatchesCoverRun(g: Cells, n: int, r: int, c: int, dr: int, dc: int, k: nat)
    requires IsSquare(g, n) && InBounds(n, r, c) && IsDirection(dr, dc)
    ensures Matches(g, n, r, c, dr, dc, g[r][c], k) >= if Count(g, n, r, c, dr, dc) < k then Count(g, n, r, c, dr, dc) else k
  {
    if k > 0 {
      MatchesCoverRun(g, n, r, c, dr, dc, k - 1);
      if k <= Count(g, n, r, c, dr, dc) {
        RunPrefix(g, n, g[r][c], r + dr, c + dc, dr, dc, k - 1);
        HoldsNext(g, n, g[r][c], r, c, dr, dc, k - 1);
      }
    }
  }

  /** A contiguous run of five along one axis is counted by that axis. */
  lemma AxisCountsRun(g: Cells, n: int, r: int, c: int, d: (int, int))
    requires IsSquare(g, n) && InBounds(n, r, c) && IsDirection(d.0, d.1)
    requires Count(g, n, r, c, d.0, d.1) + Count(g, n, r, c, -d.0, -d.1) >= 4
    ensures GappedCount(g, n, r, c, d, g[r][c]) >= 5
  {
    MatchesCoverRun(g, n, r, c, d.0, d.1, 4);
    MatchesCoverRun(g, n, r, c, -d.0, -d.1, 4);
  }

  /** Any contiguous five through the cell makes `check_win` answer True. */
  lemma CheckWinFindsLines(g: Cells, n: int, action: int)
    requires n > 0 && IsSquare(g, n) && 0 <= action < n * n
    requires InBounds(n, action / n, action % n)
    requires g[action / n][action % n] != EMPTY && WinningLine(g, n, action / n, action % n, 5)
    ensures CheckWinAsWritten(g, n, Some(action))
  {
    var r, c := action / n, action % n;
    var v := g[r][c];
    IsWinningIffLine(g, n, r, c, 5);
    if Count(g, n, r, c, 1, 0) + Count(g, n, r, c, -1, 0) >= 4 {
      AxisCountsRun(g, n, r, c, Directions[0]);
      assert GappedCount(g, n, r, c, Directions[0], v) >= 5;
    } else if Count(g, n, r, c, 0, 1) + Count(g, n, r, c, 0, -1) >= 4 {
      AxisCountsRun(g, n, r, c, Directions[1]);
      assert GappedCount(g, n, r, c, Directions[1], v) >= 5;
    } else if Count(g, n, r, c, 1, 1) + Count(g, n, r, c, -1, -1) >= 4 {
      AxisCountsRun(g, n, r, c, Directions[2]);
      assert GappedCount(g, n, r, c, Directions[2], v) >= 5;
    } else {
      AxisCountsRun(g, n, r, c, Directions[3]);
      assert GappedCount(g, n, r, c, Directions[3], v) >= 5;
    }
  }

  /** The board of the counter-example: X X [X] . X X on the top row of a
      6-by-6 board, the action on the third cell. */
  function GappedBoard(): (g: Cells)
    ensures IsSquare(g, 6)
  {
    [[1, 1, 1, 0, 1, 1]] + seq(5, _ => seq(6, _ => 0))
  }

  /** `check_win` counts matching cells past a gap: it answers True on
      X X [X] . X X, where the longest line through the cell is three. */
  lemma CheckWinCountsGaps()
    ensures CheckWinAsWritten(GappedBoard(), 6, Some(2))
    ensures !WinningLine(GappedBoard(), 6, 0, 2, 5)
  {
    var g := GappedBoard();
    assert g[0] == [1, 1, 1, 0, 1, 1];
    assert forall r, c :: 1 <= r < 6 && 0 <= c < 6 ==> g[r][c] == 0;
    assert Matches(g, 6, 0, 2, 0, 1, 1, 4) == 2;
    assert Matches(g, 6, 0, 2, 0, -1, 1, 4) == 2;
    assert GappedCount(g, 6, 0, 2, Directions[1], 1) == 5;
    assert SomeAxisCountsFive(g, 6, 0, 2, 1, |Directions|);
    assert Count(g, 6, 0, 2, 0, 1) == 0;
    assert Count(g, 6, 0, 2, 0, -1) == 2;
    assert Count(g, 6, 0, 2, 1, 0) == 0 && Count(g, 6, 0, 2, -1, 0) == 0;
    assert Count(g, 6, 0, 2, 1, 1) == 0 && Count(g, 6, 0, 2, -1, -1) == 0;
    assert Count(g, 6, 0, 2, 1, -1) == 0 && Count(g, 6, 0, 2, -1, 1) == 0;
    IsWinningIffLine(g, 6, 0, 2, 5);
  }

  // ---------------------------------------------------------------------------
  // The win test as intended

  /** Five in a row through the cell of the action: the four-axis test of the
      boards, on contiguous runs. */
  predicate CheckWinContiguous(g: Cells, n: int, action: Option<int>)
    requires n > 0 && IsSquare(g, n) && (action.Some? ==> 0 <= action.value < n * n)
  {
    action.Some? &&
    var (r, c) := CellOf(n, action.value);
    CellRoundTrip(n, action.value);
    g[r][c] != EMPTY && IsWinning(g, n, r, c, 5)
  }

  /** The contiguous test answers True exactly when a line of five equal
      stones passes through the action's cell; every such board also makes
      `check_win` answer True. */
  lemma CheckWinContiguousSpec(g: Cells, n: int, action: int)
    requires n > 0 && IsSquare(g, n) && 0 <= action < n * n
    ensures InBounds(n, action / n, action % n)
    ensures CheckWinContiguous(g, n, Some(action)) <==>
      g[action / n][action % n] != EMPTY && WinningLine(g, n, action / n, action % n, 5)
    ensures CheckWinContiguous(g, n, Some(action)) ==> CheckWinAsWritten(g, n, Some(action))
  {
    CellRoundTrip(n, action);
    IsWinningIffLine(g, n, action / n, action % n, 5);
    if CheckWinContiguous(g, n, Some(action)) {
      CheckWinFindsLines(g, n, action);
    }
  }

  /** No cell is Empty. */
  predicate Full(g: Cells, n: int)
    requires IsSquare(g, n)
  {
    forall r, c :: 0 <= r < n && 0 <= c < n ==> g[r][c] != EMPTY
  }

  /** `get_value_and_terminated`: (1, True) when `check_win` answers True,
      (0, True) on a full board, (0, False) otherwise. */
  function ValueAndTerminated(g: Cells, n: int, action: Option<int>): (vt: (int, bool))
    requires n > 0 && IsSquare(g, n) && (action.Some? ==> 0 <= action.value < n * n)
    ensures vt.0 == 0 || vt.0 == 1
    ensures vt.0 == 1 <==> CheckWinAsWritten(g, n, action)
    ensures vt.1 <==> vt.0 == 1 || Full(g, n)
    ensures action.Some? ==>
      InBounds(n, action.value / n, action.value % n) &&
      ((g[action.value / n][action.value % n] != EMPTY && WinningLine(g, n, action.value / n, action.value % n, 5))
        ==> vt == (1, true))
  {
    assert action.Some? ==>
      InBounds(n, action.value / n, action.value % n) &&
      ((g[action.value / n][action.value % n] != EMPTY && WinningLine(g, n, action.value / n, action.value % n, 5))
        ==> CheckWinAsWritten(g, n, action)) by {
      if action.Some? {
        CellRoundTrip(n, action.value);
        if g[action.value / n][action.value % n] != EMPTY && WinningLine(g, n, action.value / n, action.value % n, 5) {
          CheckWinFindsLines(g, n, action.value);
        }
      }
    }
    if CheckWinAsWritten(g, n, action) then (1, true)
    else if Full(g, n) then (0, true)
    else (0, false)
  }

  /** On the board of the counter-example `get_value_and_terminated` reports
      a win and ends the game, with no five in a row on the board. */
  lemma ValueAndTerminatedCountsGaps()
    ensures ValueAndTerminated(GappedBoard(), 6, Some(2)) == (1, true)
    ensures !WinningLine(GappedBoard(), 6, 0, 2, 5)
  {
    CheckWinCountsGaps();
  }

  /** `get_value_and_terminated` with the contiguous win test: (1, True)
      exactly after an action that completes five in a row. */
  function ValueAndTerminatedContiguous(g: Cells, n: int, action: Option<int>): (vt: (int, bool))
    requires n > 0 && IsSquare(g, n) && (action.Some? ==> 0 <= action.value < n * n)
    ensures vt.0 == 1 ==> vt.1
    ensures vt.0 == 0 || vt.0 == 1
    ensures action.Some? ==>
      InBounds(n, action.value / n, action.value % n) &&
      (vt.0 == 1 <==>
        (g[action.value / n][action.value % n] != EMPTY && WinningLine(g, n, action.value / n, action.value % n, 5)))
    ensures action.None? ==> vt.0 == 0
    ensures vt.1 <==> vt.0 == 1 || Full(g, n)
  {
    assert action.Some? ==>
      InBounds(n, action.value / n, action.value % n) &&
      (CheckWinContiguous(g, n, action) <==>
        (g[action.value / n][action.value % n] != EMPTY && WinningLine(g, n, action.value / n, action.value % n, 5))) by {
      if action.Some? {
        CheckWinContiguousSpec(g, n, action.value);
      }
    }
    if CheckWinContiguous(g, n, action) then (1, true)
    else if Full(g, n) then (0, true)
    else (0, false)
  }

  // ---------------------------------------------------------------------------
  // Players and perspective

  /** `get_opponent`: PLAYER1 for PLAYER2, PLAYER2 for anything else. */
  function Opponent(player: int): (q: int)
    ensures q == PLAYER1 || q == PLAYER2
    ensures (player == PLAYER1 || player == PLAYER2) ==> q != player
  {
    if player == PLAYER2 then PLAYER1 else PLAYER2
  }

  /** On the two players `get_opponent` is an involution. */
  lemma OpponentInvolution(player: int)
    requires player == PLAYER1 || player == PLAYER2
    ensures Opponent(Opponent(player)) == player
  {
  }

  /** `get_opponent_value`: the value from the other side. Values are the
      game's 0 and 1 or the network's estimate, so they are real here. */
  function OpponentValue(value: real): real {
    -value
  }

  lemma OpponentValueInvolution(value: real)
    ensures OpponentValue(OpponentValue(value)) == value
    ensures OpponentValue(value) + value == 0.0
  {
  }

  /** `change_perspective`: every cell times player. */
  function ChangePerspective(g: Cells, n: int, player: int): (h: Cells)
    requires IsSquare(g, n)
    ensures IsSquare(h, n)
    ensures forall r, c :: InBounds(n, r, c) ==> h[r][c] == g[r][c] * player
  {
    seq(n, r requires 0 <= r < n => seq(n, c requires 0 <= c < n => g[r][c] * player))
  }

  /** Changing the perspective twice with the same player gives the state
      back. */
  lemma PerspectiveInvolution(g: Cells, n: int, player: int)
    requires IsSquare(g, n) && (player == PLAYER1 || player == PLAYER2)
    ensures ChangePerspective(ChangePerspective(g, n, player), n, player) == g
  {
    SameCells(ChangePerspective(ChangePerspective(g, n, player), n, player), g, n);
  }

  /** Seen from PLAYER2, the two players' stones change sides and the Empty
      cells stay Empty. */
  lemma PerspectiveSwapsPlayers(g: Cells, n: int, r: int, c: int)
    requires IsSquare(g, n) && InBounds(n, r, c)
    ensures g[r][c] == PLAYER1 <==> ChangePerspective(g, n, PLAYER2)[r][c] == PLAYER2
    ensures g[r][c] == PLAYER2 <==> ChangePerspective(g, n, PLAYER2)[r][c] == PLAYER1
    ensures g[r][c] == EMPTY <==> ChangePerspective(g, n, PLAYER2)[r][c] == EMPTY
  {
  }

  // ---------------------------------------------------------------------------
  // The network's input

  /** One plane: 1 where the cell holds v, 0 elsewhere. */
  function Plane(g: Cells, n: int, v: int): (p: Cells)
    requires IsSquare(g, n)
    ensures IsSquare(p, n)
    ensures forall r, c :: InBounds(n, r, c) ==> p[r][c] == if g[r][c] == v then 1 else 0
  {
    seq(n, r requires 0 <= r < n => seq(n, c requires 0 <= c < n => if g[r][c] == v then 1 else 0))
  }

  /** `get_encoded_state` of one state: the planes of PLAYER1, PLAYER2 and
      EMPTY. */
  function EncodedState(g: Cells, n: int): (planes: seq<Cells>)
    requires IsSquare(g, n)
    ensures |planes| == 3 && forall i :: 0 <= i < 3 ==> IsSquare(planes[i], n)
  {
    [Plane(g, n, PLAYER1), Plane(g, n, PLAYER2), Plane(g, n, EMPTY)]
  }

  /** On a board of -1, 0 and 1 every cell is marked in exactly one plane,
      and the first two planes give the cell back. */
  lemma EncodedStateOneHot(g: Cells, n: int, r: int, c: int)
    requires IsSquare(g, n) && InBounds(n, r, c) && -1 <= g[r][c] <= 1
    ensures var e := EncodedState(g, n);
      e[0][r][c] + e[1][r][c] + e[2][r][c] == 1 && e[0][r][c] - e[1][r][c] == g[r][c]
  {
  }
}
