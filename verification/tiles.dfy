/** Cell values and moves shared by every board and game in the model.
    The `Tiles` class of the C# projects is not part of this model: the packed
    boards read 0 as an empty cell and the window draws 1 and 2 as the two
    players, so those are the values used here. */
module Tiles {

  const Empty := 0
  const Black := 1
  const White := 2

  /** A player's tile: what a move writes. */
  predicate IsPlayer(v: int) {
    v == Black || v == White
  }

  /** `GomokuMove`: an immutable (row, col) pair with value equality. */
  datatype Move = Move(row: int, col: int)

  /** `default(GomokuMove)`: the value C# returns when no move was chosen. */
  const DefaultMove := Move(0, 0)
}
