# Gomoku engine core in Dafny

This project models the deterministic game logic of the Gomoku engine (the C# projects `Mcst` and `Gomoku`, and the Python AlphaZero-style player `AlphaGomoku`) and proves what it does. The model covers:

- **The boards.** `IGomokuBoard` is the shared contract of three implementations, each a class over its own store:
  - `BasicGomokuBoard`: a dense `int[,]`;
  - `UlongGomokuBoard`: one 64-bit word per row, three bits per cell;
  - `BitArrayGomokuBoard`: two bits per cell.

  Every class has a ghost view `Cells()` of type `Grid.Cells` (rows of ints). `GetCell`, `SetCell`, `Clone`, `CountTiles` and `IsWinning` are proved against the pure board functions of module `Grid`. The implementations are proved to agree when given the same writes.
- **`GomokuGame`.** A class over the game state: board, result, move count and side to move. Every operation is proved against `GameSpec`, which states the game as values. `GameSpec` also proves:
  - the make/undo round trip;
  - that the legal moves are exactly the empty cells, in row-major order;
  - the scalar result;
  - the five-move test game.
- **The static evaluator** (`EvaluateBoard` of the alpha-beta revision of `GomokuGame`). It is modelled over a `BasicGomokuBoard` and proved equal to a run-length table sum. The sum is never negative and is blind to colour.
- **The Monte Carlo node `Node<TMove>`.** `AddChild` and `Update`, with `List.Remove` modelled exactly. `SelectChild` and `GetBestMove` are modelled as the first maximum of a score supplied per child.
- **The fixed-depth alpha-beta searcher `AlphaBeta`.**
  - It runs on a `GomokuGame` by make, recurse, undo.
  - It is proved to leave the game unchanged.
  - It returns `default` when there is no legal move, and otherwise the first legal move of best minimax value.
  - Its value at every node stands in the fail-soft alpha-beta relation to plain minimax.
- **The Python rules (`Gomoku` in gomoku.py).** These cover:
  - the flat action encoding;
  - `get_next_state` on an array, with its `ValueError`;
  - `get_moves` and `check_win` (see Findings);
  - `get_value_and_terminated`;
  - the opponent and perspective flips;
  - the one-hot encoding.
- **The AlphaZero tree node (`Node` in mcts.py).** A class with the node's fields. `expand` is modelled with its error paths. `backpropagate` is modelled over all ancestors, with the value's sign alternating up the tree. `select` is a first strict maximum of supplied scores. The q-value of `get_ucb` is modelled on its own.
- **The window's `GomokuEngine`.** It rejects occupied cells and alternates the turn. It fires one `BoardChanged` notification per accepted move, kept here as a log. The log is proved to replay to exactly the engine's board.

Tile values are `Empty = 0`, `Black = 1` and `White = 2`. The packed boards read 0 as empty, and the window draws 1 and 2 as the two players. The `Tiles` class itself is not part of this model.

Some behaviour the code names is not implemented, and some it implements differs from what its names suggest; the model follows the code:
- The `MctsVersion` enum (Mcst/Enums/MctsVersion.cs:3-9) names `Ucb1Tuned`, `Ucb1Normal` and `Heuristic` besides `BasicUct`, but no code implements them. They are not modelled.
- The evaluator's table gives 0 to runs longer than five as well as to runs of one.
- `check_win` counts matching cells past a gap (see Findings), and `get_value_and_terminated` calls it, so a gapped row ends the game with value 1. `Rules.ValueAndTerminated` models that; `Rules.ValueAndTerminatedContiguous` is the same function over the corrected test.

## Model

| member | source | states |
|---|---|---|
| Grid.Blank | Mcst/Board/BasicGomokuBoard.cs:7-13 | the n-by-n board holding one value in every cell |
| Grid.Set | Mcst/Board/BasicGomokuBoard.cs:26 | after a write the cell reads the written value and every other cell keeps its value |
| Grid.RunStep | Mcst/Board/BasicGomokuBoard.cs:43-48 | one step of the counting loop: a matching in-bounds cell adds exactly one to the run from it |
| Grid.RunIsMaximal | Mcst/Board/BasicGomokuBoard.cs:43-48 | the run is the longest matching prefix of the line: every cell before its end is on the board and matches, the cell at its end does not |
| Grid.RunAtLeast | Mcst/Board/BasicGomokuBoard.cs:43-48 | a matching prefix of length m makes the run at least m long |
| Grid.CountBound | Mcst/Board/BasicGomokuBoard.cs:38-50 | a `CountTiles` result never exceeds size - 1 |
| Grid.CountsGiveLine | Mcst/Board/BasicGomokuBoard.cs:30-36 | when the two opposite counts of an axis reach winCount - 1, a contiguous line of winCount equal cells passes through the cell on that axis |
| Grid.LineGivesCounts | Mcst/Board/BasicGomokuBoard.cs:30-36 | conversely, such a line makes the two opposite counts reach winCount - 1 |
| Grid.AxisIffLine | Mcst/Board/BasicGomokuBoard.cs:32-35 | per axis, the count test holds if and only if a line of winCount through the cell exists |
| Grid.IsWinningIffLine | Mcst/Board/BasicGomokuBoard.cs:30-36 | `IsWinning` holds exactly when some axis carries a contiguous line of winCount cells equal to the cell, the cell included, whatever its value (Empty too) |
| Grid.ScanHas | Mcst/GomokuGame.cs:35-42 | the nested scan up to (r, c) has exactly the Empty cells before (r, c) in row-major order |
| Grid.ScanSorted | Mcst/GomokuGame.cs:35-42 | the scan lists the cells in strictly increasing row-major order |
| Grid.EmptyCellsSpec | Mcst/GomokuGame.cs:34-44 | the full scan has exactly the Empty cells, each once, in row-major order |
| Grid.ScanFill | Mcst/GomokuGame.cs:51 | filling an Empty cell before the scan point shortens the scan by one, and leaves it alone otherwise |
| Grid.EmptyCellsFill | Mcst/GomokuGame.cs:51 | filling one Empty cell removes exactly one empty cell |
| Grid.ScanOfBlank | Mcst/GomokuGame.cs:12-22 | on an all-Empty board the scan up to (r, c) has r * n + c cells |
| Grid.EmptyCellsOfBlank | Mcst/GomokuGame.cs:12-22 | a new board has n * n empty cells |
| BasicBoard.BasicGomokuBoard.constructor | Mcst/Board/BasicGomokuBoard.cs:7-13 | a new board of the given side holds Empty in every cell |
| BasicBoard.BasicGomokuBoard.Copy | Mcst/Board/BasicGomokuBoard.cs:15-21 | the copy constructor makes a fresh array of the same shape, equal cell by cell |
| BasicBoard.BasicGomokuBoard.GetCell | Mcst/Board/BasicGomokuBoard.cs:24 | reads the cell of the board's view |
| BasicBoard.BasicGomokuBoard.SetCell | Mcst/Board/BasicGomokuBoard.cs:26 | the new view is the old one with only (row, col) set, for any value |
| BasicBoard.BasicGomokuBoard.Clone | Mcst/Board/BasicGomokuBoard.cs:28 | a new board over a fresh array with an equal view, so later writes to either leave the other alone |
| BasicBoard.BasicGomokuBoard.CountTiles | Mcst/Board/BasicGomokuBoard.cs:38-50 | the loop returns the number of consecutive cells past (row, col) equal to it, stopping at the edge or a different value |
| BasicBoard.BasicGomokuBoard.IsWinning | Mcst/Board/BasicGomokuBoard.cs:30-36 | the four-axis test of the view, equivalent to a line of winCount by Grid.IsWinningIffLine |
| Word64.ShiftRight | Mcst/Board/UlongGomokuBoard.cs:20 | `x >> s` moves every bit down by s % 64 places and clears the top |
| Word64.ShiftLeft | Mcst/Board/UlongGomokuBoard.cs:26-27 | `x << s` moves every bit up by s % 64 places and clears the bottom |
| Word64.And | Mcst/Board/UlongGomokuBoard.cs:20-27 | `&` is conjunction bit by bit |
| Word64.Or | Mcst/Board/UlongGomokuBoard.cs:27 | the bitwise or is disjunction bit by bit |
| Word64.Not | Mcst/Board/UlongGomokuBoard.cs:27 | `~` flips every bit |
| Word64.FromIntLow | Mcst/Board/UlongGomokuBoard.cs:27 | the low three bits of `(ulong)value` spell value % 8 for any int |
| Word64.FromIntSmall | Mcst/Board/UlongGomokuBoard.cs:27 | a value in 0..7 converts to a word with no bit set above bit 2 |
| Word64.FromIntNextField | Mcst/Board/UlongGomokuBoard.cs:27 | a value in 8..15 converts to a word whose bit 3 is set and whose low three bits spell value - 8 |
| UlongBoard.ReadIsField | Mcst/Board/UlongGomokuBoard.cs:17-21 | shifting and masking with 0x07 reads bits 3col..3col+2 of the row word, a number in 0..7 |
| UlongBoard.MaskBits | Mcst/Board/UlongGomokuBoard.cs:26 | `0x07UL << shift` has exactly bits 3col..3col+2 set |
| UlongBoard.WriteBits | Mcst/Board/UlongGomokuBoard.cs:27 | bit by bit: the word is kept below the field, the field gets the low bits of `(ulong)value`, and above it the old bits are OR-ed with the shifted value |
| UlongBoard.WriteSameField | Mcst/Board/UlongGomokuBoard.cs:23-28 | the written field reads back value % 8 |
| UlongBoard.WriteLowerField | Mcst/Board/UlongGomokuBoard.cs:23-28 | fields below the written one never change, whatever the value |
| UlongBoard.WriteOtherField | Mcst/Board/UlongGomokuBoard.cs:23-28 | for a value in 0..7 every other field of the word is unchanged |
| UlongBoard.WriteSpills | Mcst/Board/UlongGomokuBoard.cs:27 | an unmasked value in 8..15 leaves value - 8 in its field and sets the lowest bit of the next field |
| UlongBoard.WriteFields | Mcst/Board/UlongGomokuBoard.cs:23-28 | for a value in 0..7 the write puts the value in its own field and keeps every other field |
| UlongBoard.DecodeCell | Mcst/Board/UlongGomokuBoard.cs:17-21 | cell (r, c) of the decoded board is field c of word r |
| UlongBoard.DecodeUpdate | Mcst/Board/UlongGomokuBoard.cs:27 | replacing one row word changes only that row of the decoded board |
| UlongBoard.DecodeWrite | Mcst/Board/UlongGomokuBoard.cs:23-28 | after any write the cell reads value % 8, the cells left of it and all other rows are unchanged |
| UlongBoard.DecodeWriteSmall | Mcst/Board/UlongGomokuBoard.cs:23-28 | for a value in 0..7 the decoded board is the old one with exactly that cell set |
| UlongBoard.ZeroRow | Mcst/Board/UlongGomokuBoard.cs:14 | a zero word reads Empty in every column |
| UlongBoard.UlongGomokuBoard.constructor | Mcst/Board/UlongGomokuBoard.cs:13-14 | past the size guard: `size` zero words, every cell Empty |
| UlongBoard.UlongGomokuBoard.Create | Mcst/Board/UlongGomokuBoard.cs:8-15 | the constructor throws (null here) exactly when size exceeds 21, and otherwise gives an all-Empty board |
| UlongBoard.UlongGomokuBoard.GetCell | Mcst/Board/UlongGomokuBoard.cs:17-21 | reads the cell of the view, always a value in 0..7 |
| UlongBoard.UlongGomokuBoard.SetCell | Mcst/Board/UlongGomokuBoard.cs:23-28 | rewrites only the row word; the cell reads value % 8, the columns left of it and the other rows are unchanged, and for 0..7 exactly that one cell changes |
| UlongBoard.UlongGomokuBoard.Clone | Mcst/Board/UlongGomokuBoard.cs:30 | a new board over a fresh copy of the row array, with equal words and view |
| UlongBoard.UlongGomokuBoard.CountTiles | Mcst/Board/UlongGomokuBoard.cs:40-54 | the loop returns the run of the view past (row, col), compared through `GetCell` |
| UlongBoard.UlongGomokuBoard.IsWinning | Mcst/Board/UlongGomokuBoard.cs:32-38 | the four-axis test of the view |
| BitArrayBoard.IndexInRange | Mcst/Board/BitArrayGomokuBoard.cs:24 | both bits of an in-bounds cell lie inside the 2·size·size bits |
| BitArrayBoard.IndexApart | Mcst/Board/BitArrayGomokuBoard.cs:33 | different cells own disjoint pairs of bits |
| BitArrayBoard.CellValue | Mcst/Board/BitArrayGomokuBoard.cs:28 | the value read from two bits is in 0..3 |
| BitArrayBoard.BitsOfValue | Mcst/Board/BitArrayGomokuBoard.cs:34-35 | the two bits `value & 1` and `value & 2` read back as value % 4, that is `value & 3` |
| BitArrayBoard.Cell | Mcst/Board/BitArrayGomokuBoard.cs:22-29 | the cell of a bit string is a value in 0..3 |
| BitArrayBoard.DecodeWrite | Mcst/Board/BitArrayGomokuBoard.cs:31-36 | writing the two bits of (row, col) sets that cell to value % 4 and no other |
| BitArrayBoard.DecodeClear | Mcst/Board/BitArrayGomokuBoard.cs:13 | all bits clear read Empty everywhere |
| BitArrayBoard.BitArrayGomokuBoard.constructor | Mcst/Board/BitArrayGomokuBoard.cs:10-14 | 2·size·size clear bits, every cell Empty |
| BitArrayBoard.BitArrayGomokuBoard.Copy | Mcst/Board/BitArrayGomokuBoard.cs:16-20 | the copy constructor holds a fresh array with the same bits |
| BitArrayBoard.BitArrayGomokuBoard.GetCell | Mcst/Board/BitArrayGomokuBoard.cs:22-29 | reads the cell of the view, always in 0..3 |
| BitArrayBoard.BitArrayGomokuBoard.SetCell | Mcst/Board/BitArrayGomokuBoard.cs:31-36 | the new view is the old one with only (row, col) set to value % 4 |
| BitArrayBoard.BitArrayGomokuBoard.Clone | Mcst/Board/BitArrayGomokuBoard.cs:38 | a new board over a fresh copy of the bits, with an equal view |
| BitArrayBoard.BitArrayGomokuBoard.CountTiles | Mcst/Board/BitArrayGomokuBoard.cs:48-62 | the loop returns the run of the view past (row, col) |
| BitArrayBoard.BitArrayGomokuBoard.IsWinning | Mcst/Board/BitArrayGomokuBoard.cs:40-46 | the four-axis test of the view |
| BoardAgreement.Replay | Mcst/Board/IGomokuBoard.cs:6 | writes replayed in order keep the board square |
| BoardAgreement.ReplayRange | Mcst/Board/IGomokuBoard.cs:6 | writes of values in 0..3 keep every cell in 0..3 |
| BoardAgreement.ReplayBasic | Mcst/Board/BasicGomokuBoard.cs:26 | a new dense board after the writes shows the replayed board |
| BoardAgreement.ReplayPacked | Mcst/Board/UlongGomokuBoard.cs:23-28 | a new packed board (side at most 21) after the same writes shows the same board |
| BoardAgreement.ReplayBitwise | Mcst/Board/BitArrayGomokuBoard.cs:31-36 | a new two-bit board after the same writes shows the same board |
| BoardAgreement.Agree | Mcst/Board/IGomokuBoard.cs:5-8 | the three implementations, given the same writes of 0..3, answer `IsWinning` alike, and that answer is the four-axis test of the replayed board |
| BoardAgreement.CloneBasic | Mcst/Board/BasicGomokuBoard.cs:28 | a write to a dense clone leaves the original unchanged |
| BoardAgreement.ClonePacked | Mcst/Board/UlongGomokuBoard.cs:30 | a write of 0..7 to a packed clone leaves the original unchanged |
| BoardAgreement.CloneBitwise | Mcst/Board/BitArrayGomokuBoard.cs:38 | a write to a two-bit clone leaves the original unchanged |
| GameSpec.Initial | Mcst/GomokuGame.cs:12-22 | a new game: all cells Empty, no result, no move made, Black to move; it is over from the start only on a 0×0 board |
| GameSpec.Switch | Mcst/GomokuGame.cs:75-76 | the next mover is always a player, and never the player who just moved |
| GameSpec.MakeMove | Mcst/GomokuGame.cs:47-55 | a finished game is unchanged; otherwise the cell gets the mover's tile whatever it held, the result becomes the mover exactly when a line of three now passes through the cell, no other cell changes, the turn passes and the count grows by one |
| GameSpec.UndoMove | Mcst/GomokuGame.cs:57-63 | whatever the state: the cell is cleared, no other cell changes, the result is reset, the turn passes back and the count decreases |
| GameSpec.Result | Mcst/GomokuGame.cs:65-73 | a value in -1..1: 1 exactly for a White win, -1 exactly for a Black win |
| GameSpec.LegalMovesSpec | Mcst/GomokuGame.cs:29-45 | no moves once the game is over; otherwise exactly the Empty cells, each once, in row-major order |
| GameSpec.UndoAfterMake | Mcst/GomokuGame.cs:47-63 | on an unfinished game, undoing a move just made into an Empty cell restores the state exactly |
| GameSpec.InitialConsistent | Mcst/GomokuGame.cs:12-22 | a new game satisfies the reachability invariant (count equals stones, Black and White alternate, no win yet) |
| GameSpec.MakeConsistent | Mcst/GomokuGame.cs:47-55 | a legal move keeps that invariant |
| GameSpec.NoMovesIffOver | Mcst/GomokuGame.cs:24-45 | on reachable states there is no legal move exactly when the game is over |
| GameSpec.ResultOfMove | Mcst/GomokuGame.cs:78-87 | a legal move that completes three in a row ends the game with the mover as result, and otherwise leaves no result |
| GameSpec.BlackWinsOnFifthMove | Mcst/GomokuGame.cs:78-87 | on 5×5, after playing (0,0), (1,1), (0,1), (1,2), (0,2) the game is over and the result is -1 |
| Game.GomokuGame.constructor | Mcst/GomokuGame.cs:12-22 | the nested loops leave the initial state |
| Game.GomokuGame.IsGameOver | Mcst/GomokuGame.cs:24-27 | true exactly when there is a result or as many moves as cells were made |
| Game.GomokuGame.GetLegalMoves | Mcst/GomokuGame.cs:29-45 | the loops build the legal move list of the state |
| Game.GomokuGame.MakeMove | Mcst/GomokuGame.cs:47-55 | the new state is `GameSpec.MakeMove` of the old |
| Game.GomokuGame.UndoMove | Mcst/GomokuGame.cs:57-63 | the new state is `GameSpec.UndoMove` of the old |
| Game.GomokuGame.GetResult | Mcst/GomokuGame.cs:65-73 | the scalar result of the state |
| Game.GomokuGame.SwitchNextMove | Mcst/GomokuGame.cs:75-76 | White hands over to Black and anything else to White; nothing else changes |
| Game.GomokuGame.CheckForWin | Mcst/GomokuGame.cs:78-87 | the result becomes the mover when the four-axis test with three holds at the cell, and is kept otherwise; the turn and count are unchanged |
| Game.GomokuGame.CountTiles | Mcst/GomokuGame.cs:89-101 | the loop returns the run past (row, col) |
| Evaluation.Score | Mcst/GomokuGameAlphaBeta.cs:79-89 | the table takes only the five listed values, and is positive exactly for runs of 2 to 5 |
| Evaluation.ScoreGrows | Mcst/GomokuGameAlphaBeta.cs:5-8 | between 2 and 5, one more stone is worth at least ten times as much |
| Evaluation.AxesScore | Mcst/GomokuGameAlphaBeta.cs:35-74 | the sum over the axes is never negative |
| Evaluation.PositionScore | Mcst/GomokuGameAlphaBeta.cs:30-77 | a position's score is never negative |
| Evaluation.ScoreUpTo | Mcst/GomokuGameAlphaBeta.cs:16-25 | the partial sums of the scan are never negative |
| Evaluation.CellScore | Mcst/GomokuGameAlphaBeta.cs:20-23 | a cell's share is never negative |
| Evaluation.BoardScore | Mcst/GomokuGameAlphaBeta.cs:12-28 | the board score is never negative |
| Evaluation.ScoreUpToBlank | Mcst/GomokuGameAlphaBeta.cs:16-25 | on an all-Empty board every partial sum is 0 |
| Evaluation.BlankScoresZero | Mcst/GomokuGameAlphaBeta.cs:12-28 | an all-Empty board scores 0 |
| Evaluation.Recolour | Mcst/GomokuGameAlphaBeta.cs:33 | Black and White exchange, other values stay |
| Evaluation.Recoloured | Mcst/GomokuGameAlphaBeta.cs:33 | the board with every cell recoloured |
| Evaluation.RunRecoloured | Mcst/GomokuGameAlphaBeta.cs:42-54 | exchanging colours maps each run onto a run of the same length |
| Evaluation.CountRecoloured | Mcst/GomokuGameAlphaBeta.cs:42-54 | the count past a cell is the same on the recoloured board |
| Evaluation.AxisRecoloured | Mcst/GomokuGameAlphaBeta.cs:37-71 | the run through a cell on an axis is the same on the recoloured board |
| Evaluation.AxesRecoloured | Mcst/GomokuGameAlphaBeta.cs:35-74 | so is the sum over the axes |
| Evaluation.CellRecoloured | Mcst/GomokuGameAlphaBeta.cs:20-23 | so is each cell's share |
| Evaluation.ScoreUpToRecoloured | Mcst/GomokuGameAlphaBeta.cs:16-25 | so is each partial sum |
| Evaluation.BoardScoreRecoloured | Mcst/GomokuGameAlphaBeta.cs:12-28 | the evaluation is colour-blind: exchanging Black and White does not change it |
| Evaluation.Walk | Mcst/GomokuGameAlphaBeta.cs:42-54 | the `while (true)` walk adds the length of the run past the cell |
| Evaluation.ScoreAxis | Mcst/GomokuGameAlphaBeta.cs:37-73 | one direction scores the table value of 1 + forward run + backward run |
| Evaluation.EvaluatePosition | Mcst/GomokuGameAlphaBeta.cs:30-77 | the loop over the four directions computes the position's score |
| Evaluation.EvaluateBoard | Mcst/GomokuGameAlphaBeta.cs:12-28 | the nested loops sum the scores of the occupied cells only |
| Mcts.IndexOf | Mcst/Node.cs:15 | the first occurrence of a move in the list |
| Mcts.RemoveFirstSpec | Mcst/Node.cs:15 | `List.Remove` takes out exactly the first occurrence, and leaves a list without the move as it is |
| Mcts.RemoveFirstCount | Mcst/Node.cs:15 | removing a present move shortens the list by one and removes one copy from its multiset |
| Mcts.FirstMaxUnique | Mcst/Node.cs:20-24 | there is one first position of a largest score |
| Mcts.FirstMax | Mcst/Node.cs:32-35 | the stable descending sort puts first the first position of a largest score |
| Mcts.Node.constructor | Mcst/Node.cs:3-10 | untried moves are the game's legal moves; no children, wins or visits |
| Mcts.Node.AddChild | Mcst/Node.cs:12-18 | appends exactly one fresh child with this parent and move, returns it, removes the first occurrence of the move, and keeps children + untried constant for a move that was untried |
| Mcts.Node.SelectChild | Mcst/Node.cs:20-24 | with children present, the child at the first largest score |
| Mcts.Node.Update | Mcst/Node.cs:26-30 | one more visit and result more wins; the lists are unchanged |
| Mcts.Node.GetBestMove | Mcst/Node.cs:32-35 | `default` without children, otherwise the move of the first child of largest score |
| SearchSpec.Max | Mcst/AlphaBeta.cs:67-68 | `Math.Max` is an upper bound equal to one of its arguments |
| SearchSpec.Min | Mcst/AlphaBeta.cs:72-73 | `Math.Min` is a lower bound equal to one of its arguments |
| SearchSpec.LeafValue | Mcst/AlphaBeta.cs:44-47 | a leaf is worth 500000 exactly for a White win, -1500000 exactly for a Black win, and -500000 otherwise |
| SearchSpec.ConsistentSearchable | Mcst/GomokuGame.cs:12-55 | every game reachable by legal moves from a new game is one the searcher handles |
| SearchSpec.WhiteOpensSearchable | Mcst/GomokuGame.cs:10 | a new game whose public `NextMove` is set to White is handled by the searcher, though no legal play reaches it |
| SearchSpec.SearchableHasMoves | Mcst/GomokuGame.cs:24-45 | in a game the searcher handles there is no legal move exactly when the game is over |
| SearchSpec.Child | Mcst/AlphaBeta.cs:59-63 | a legal move keeps the game one the searcher handles and leaves fewer empty cells |
| SearchSpec.UndoChild | Mcst/AlphaBeta.cs:59-63 | undoing the move just made restores the state |
| SearchSpec.RootScan | Mcst/AlphaBeta.cs:13-37 | one root step keeps the invariant: the move is taken exactly when strictly better than all earlier ones |
| SearchSpec.RootDone | Mcst/AlphaBeta.cs:13-37 | at the end, the kept move is the first of best minimax value |
| SearchSpec.SearchValueRange | Mcst/AlphaBeta.cs:42-53 | every search value is one of the three leaf values |
| SearchSpec.SearchLoopRange | Mcst/AlphaBeta.cs:55-83 | so is every value the loop returns |
| SearchSpec.LoopEnd | Mcst/AlphaBeta.cs:59-82 | when the moves run out, the best value seen stands in the fail-soft relation to the true best |
| SearchSpec.LoopCut | Mcst/AlphaBeta.cs:76-79 | when beta <= alpha, cutting off keeps that relation for the rest of the moves |
| SearchSpec.LoopStep | Mcst/AlphaBeta.cs:65-74 | otherwise the narrowed window and new best keep the loop invariant |
| SearchSpec.SearchValueSound | Mcst/AlphaBeta.cs:42-53 | alpha-beta's value stands in the fail-soft relation to minimax: exact inside the window, a bound outside it |
| SearchSpec.SearchLoopSound | Mcst/AlphaBeta.cs:55-83 | the same for the loop over the moves |
| SearchSpec.FullWindowIsMinimax | Mcst/AlphaBeta.cs:42-53 | with the full window the search value is the minimax value |
| Search.AlphaBeta.constructor | Mcst/AlphaBeta.cs:3 | records maxDepth |
| Search.AlphaBeta.FindBestMove | Mcst/AlphaBeta.cs:5-40 | on any game whose mover is a player, whose move count is at most the number of cells, and which has at least as many Empty cells as the count leaves unused (whoever opened), the game is left as it was; `default` without legal moves, otherwise the first legal move of best minimax value, maximising when the desired outcome is 1 and minimising otherwise |
| Search.AlphaBeta.AlphaBetaSearch | Mcst/AlphaBeta.cs:42-53 | the game is left as it was and the value is the search value of the state |
| Search.AlphaBeta.Search | Mcst/AlphaBeta.cs:55-83 | the game is left as it was and the value is the loop's value, cut off when beta <= alpha |
| Rules.DivModOf | AlphaGomoku/gomoku.py:15-16 | `//` and `%` by the size undo row * size + col |
| Rules.ActionRoundTrip | AlphaGomoku/gomoku.py:22-23 | every cell's flat index is an action whose decoding is the cell |
| Rules.CellRoundTrip | AlphaGomoku/gomoku.py:15-16 | every action 0..size²-1 decodes to a cell whose flat index is the action |
| Rules.InitialState | AlphaGomoku/gomoku.py:11-12 | a size-by-size board of EMPTY |
| Rules.GetNextState | AlphaGomoku/gomoku.py:14-20 | `ValueError("Invalid action")` with the array untouched exactly when the cell is not EMPTY; otherwise only that cell is set to player, and the same array is returned |
| Rules.GetMoves | AlphaGomoku/gomoku.py:22-23 | one flag per action, 1 exactly when the action's cell is EMPTY |
| Rules.Matches | AlphaGomoku/gomoku.py:41-45 | the matching cells among k steps are at most k |
| Rules.CheckWin | AlphaGomoku/gomoku.py:25-57 | the loops compute the as-written test: False without an action or on an EMPTY cell, otherwise True exactly when, in some direction, the cell and the cells equal to it among the four on each side number at least five, gaps allowed |
| Rules.MatchesCoverRun | AlphaGomoku/gomoku.py:41-52 | the matches among the first k cells include the contiguous run, up to k |
| Rules.AxisCountsRun | AlphaGomoku/gomoku.py:37-55 | a contiguous five on an axis makes that direction count at least five |
| Rules.CheckWinFindsLines | AlphaGomoku/gomoku.py:25-57 | any contiguous five through an occupied cell makes `check_win` answer True |
| Rules.CheckWinCountsGaps | AlphaGomoku/gomoku.py:35-57 | `check_win` answers True on a board with no five in a row (see Findings) |
| Rules.CheckWinContiguousSpec | AlphaGomoku/gomoku.py:25-57 | the corrected test answers True exactly when a line of five equal stones passes through the occupied cell; every such answer is also a True of `check_win` |
| Rules.ValueAndTerminated | AlphaGomoku/gomoku.py:59-64 | value 1 exactly when `check_win` (as written, gaps allowed) answers True, else 0; terminated exactly on that or a full board; every contiguous five through an occupied action cell gives (1, True) |
| Rules.ValueAndTerminatedCountsGaps | AlphaGomoku/gomoku.py:59-64 | on the gapped row of the Findings the function answers (1, True) with no five in a row |
| Rules.ValueAndTerminatedContiguous | AlphaGomoku/gomoku.py:59-64 | with the corrected test: value 1 exactly when the action's occupied cell lies on five in a row; 0 without an action; terminated exactly on a win or a full board |
| Rules.Opponent | AlphaGomoku/gomoku.py:66-67 | always a player, and different from a player it is given |
| Rules.OpponentInvolution | AlphaGomoku/gomoku.py:66-67 | on the two players it is an involution |
| Rules.OpponentValueInvolution | AlphaGomoku/gomoku.py:69-70 | negation is an involution and sums to zero with its argument |
| Rules.ChangePerspective | AlphaGomoku/gomoku.py:72-73 | every cell times player |
| Rules.PerspectiveInvolution | AlphaGomoku/gomoku.py:72-73 | changing perspective twice with PLAYER1 or PLAYER2 gives the state back |
| Rules.PerspectiveSwapsPlayers | AlphaGomoku/gomoku.py:72-73 | seen from PLAYER2 the players' stones change sides and EMPTY stays |
| Rules.Plane | AlphaGomoku/gomoku.py:77 | 1 where the cell holds the value, 0 elsewhere |
| Rules.EncodedState | AlphaGomoku/gomoku.py:75-83 | three square planes |
| Rules.EncodedStateOneHot | AlphaGomoku/gomoku.py:75-83 | on cells of -1, 0 and 1 exactly one plane is 1: PLAYER1, PLAYER2 or EMPTY as the cell holds |
| AlphaMcts.Alternate | AlphaGomoku/mcts.py:55 | the value i plies up is the value at even distances and its negation at odd ones |
| AlphaMcts.ChildState | AlphaGomoku/mcts.py:42-44 | the child's board is square |
| AlphaMcts.ChildStateCells | AlphaGomoku/mcts.py:42-44 | in the child's state the new stone is PLAYER2 and every other cell is the parent's negated |
| AlphaMcts.Positives | AlphaGomoku/mcts.py:40-41 | the actions of positive probability, in strictly increasing order |
| AlphaMcts.PositivesComplete | AlphaGomoku/mcts.py:40-41 | every action of positive probability is listed |
| AlphaMcts.PositivesPrefix | AlphaGomoku/mcts.py:40-41 | the list for the first k actions starts the list for more actions |
| AlphaMcts.PositivesNext | AlphaGomoku/mcts.py:40-47 | a positive action comes right after the positive actions below it |
| AlphaMcts.QValueRange | AlphaGomoku/mcts.py:33-36 | with values in [-1, 1] the q-value lies in [0, 1], 0 for a child that always won and 1 for one that always lost |
| AlphaMcts.QValueAntitone | AlphaGomoku/mcts.py:36 | a larger total gives a smaller q-value |
| AlphaMcts.Copy | AlphaGomoku/mcts.py:42 | `state.copy()` is a fresh array with the same cells |
| AlphaMcts.Perspective | AlphaGomoku/mcts.py:44 | `change_perspective` gives a fresh array of the cells times player |
| AlphaMcts.AlphaNode.constructor | AlphaGomoku/mcts.py:6-16 | state, parent, action and prior as given; no children, visits or value |
| AlphaMcts.AlphaNode.Select | AlphaGomoku/mcts.py:18-30 | None exactly when `is_fully_expanded` is false (no child yet), otherwise the first child of strictly greatest score |
| AlphaMcts.AlphaNode.GrownStep | AlphaGomoku/mcts.py:41-47 | a child for the next positive action extends the children made so far |
| AlphaMcts.AlphaNode.ExpandStops | AlphaGomoku/mcts.py:43 | reaching an occupied cell stops with `ValueError`, keeping the children for the earlier actions |
| AlphaMcts.AlphaNode.ExpandEnds | AlphaGomoku/mcts.py:49 | after all actions: `UnboundLocalError` without a positive action, otherwise the last child |
| AlphaMcts.AlphaNode.Expand | AlphaGomoku/mcts.py:39-49 | the node's state, visits and value are unchanged; the old children are kept; the new ones are fresh children for the positive actions in increasing order, with parent, action, prior and state as `expand` makes them; it fails with `ValueError` exactly at the first occupied cell, with `UnboundLocalError` exactly when no action is positive, and otherwise returns the last child and leaves the node fully expanded |
| AlphaMcts.AlphaNode.Grow | AlphaGomoku/mcts.py:40-47 | the loop makes those children and ends as `expand` does |
| AlphaMcts.AlphaNode.ExpandOne | AlphaGomoku/mcts.py:42-46 | fails exactly on an occupied cell; otherwise a fresh child of this node, whose state is the copy with PLAYER1 played and seen from PLAYER2 |
| AlphaMcts.AlphaNode.Backpropagate | AlphaGomoku/mcts.py:51-56 | one more visit here and at every ancestor; value added here, negated at the parent, restored at the grandparent, up to the root; children unchanged |
| Engine.Mover | Gomoku/Models/GomokuEngine.cs:33 | the i-th move is Black's for even i and White's for odd i |
| Engine.Replay | Gomoku/ViewModels/MainWindowViewModel.cs:33-36 | the listener's board stays square |
| Engine.RecordSnoc | Gomoku/Models/GomokuEngine.cs:28-33 | a notification for the next mover on an Empty cell keeps the record and adds that one tile to the listener's board |
| Engine.RecordStays | Gomoku/Models/GomokuEngine.cs:26-34 | the notifications alternate from Black, and every announced tile is still on the board: no stone is removed or covered |
| Engine.RecordCovers | Gomoku/Models/GomokuEngine.cs:26-34 | every occupied cell holds the tile of a notification for that cell |
| Engine.GomokuEngine.constructor | Gomoku/Models/GomokuEngine.cs:13-24 | the nested loops give an all-Empty board of the given size, Black to move, nothing announced |
| Engine.GomokuEngine.MakeMove | Gomoku/Models/GomokuEngine.cs:26-34 | an occupied cell changes nothing and fires nothing; an Empty cell gets the mover's tile, exactly one notification (row, col, mover) is fired and the turn passes; stones stay; the board stays the replay of the notifications |

## Left out

- `IGomokuBoard` is not a Dafny trait. Its contract is the pure board of module `Grid`, and each implementation is proved against it. The agreement of the three is a client method, `BoardAgreement.Agree`.
- The `ulong` row word is modelled as 64 booleans, with each bitwise operator bit by bit. C# masks the shift count to six bits; this is modelled as `s % 64`.
- Integer widths: every `int` is unbounded. Overflow of `col * 3`, `2 * (row * size + col)` and the move counter cannot happen on boards the code can build, and is not modelled. `Evaluation.EvaluateBoard` sums up to 4 × 1000000 per occupied cell into a 32-bit `int` (Mcst/GomokuGameAlphaBeta.cs:5, 16-25), so the bound 537 × 4000000 already exceeds 2³¹ - 1 on boards of 24 by 24 or more; the model sums without wrap-around.
- Sizes and indexes off the board are preconditions here (`InBounds`, and actions in 0..size²-1), which excludes the following source behaviour:
  - a negative size throws `OverflowException` in `new int[size, size]` and `new ulong[size]`, and `ArgumentOutOfRangeException` in `new BitArray(2 * size * size)`;
  - `BasicGomokuBoard` throws `IndexOutOfRangeException` for any cell off the board, and `UlongGomokuBoard` for a row off the board;
  - an off-board column on `UlongGomokuBoard` does not throw: the shift count `col * 3` is masked to six bits, so the call reads or writes other bits of the same row word;
  - an off-board cell on `BitArrayGomokuBoard` whose flat index stays inside the bit array does not throw either: column `size` of row r is the cell (r + 1, 0);
  - in gomoku.py a negative action wraps to a cell counted from the end, and an action of size² or more raises `IndexError`.
- `UlongGomokuBoard`'s size guard throws `ArgumentException`. `UlongBoard.UlongGomokuBoard.Create` returns null for it.
- Search.AlphaBeta.FindBestMove: the two games it does not accept are not modelled. One has `NextMove` set to a value that is not a player; make then undo then leaves `NextMove` as Black rather than the value it had. The other has an `UndoMove` of a move never made, so the count leaves more cells unused than there are Empty cells; an unfinished game can then have no legal move, and `Search` returns its starting infinity, which is none of the three leaf values the model's search values are proved to take.
- `double` in the searcher: its values are exact integers or the two infinities, modelled as the datatype `SearchSpec.Value`. `GetDesiredOutcome` has no body in `GomokuGame`, so it is a parameter of `FindBestMove`.
- The UCB1 formula of `SelectChild`, the win ratio of `GetBestMove` (a `double` division that can divide by zero) and the UCB of mcts.py (`sqrt`, `args['C']`) are not modelled. They are supplied as one score per child; the first-maximum structure is kept.
- Python values and priors are `real`, not `float`. The `int8` dtype of the state is not modelled.
- `AlphaMcts.AlphaNode.Expand` appends the new children in one step after its loop; mcts.py appends them one by one. Nothing reads the list in between, and on `ValueError` the children already made are kept, as in mcts.py.
- `AlphaMcts.AlphaNode.Select` does not compute `get_ucb`; the scores are a parameter.
- `get_encoded_state` is modelled for one state. The batched form, with its axis swap for 3-dimensional input, and the cast to `float32` are not.
- The `BoardChanged` delegate is called only when a listener is attached. The model logs every notification as if one were.
- The evaluator runs on a `BasicGomokuBoard`. The revision of `GomokuGame` that holds it through `IGomokuBoard` is not part of this model.
- `AlphaMCTS.search`, training.py (neural network, softmax, optimiser, file output, shuffling), `BasicMcst` (random playouts), `DataDuplicatedGomokuBoard` (its constructor always throws), the window's view models, console output and `Gomoku.print` are not part of this model.

## Findings

| source | as written | input that shows it | evidently intended | confidence | as-written member | corrected member |
|---|---|---|---|---|---|---|
| AlphaGomoku/gomoku.py:35-57 | `check_win` adds up every cell equal to the player among the four cells on each side, contiguous or not | 6×6 board with top row X X X . X X (X = PLAYER1), action 2: the row counts the cell, then 2 matches among columns 3-5 and 2 among columns 1 and 0: 1 + 2 + 2 = 5 ≥ 5, so `check_win` answers True with no five in a row | True only for five equal stones in a row through the cell | not executed | Rules.CheckWinCountsGaps, Rules.ValueAndTerminatedCountsGaps | Rules.CheckWinContiguousSpec, Rules.ValueAndTerminatedContiguous |
