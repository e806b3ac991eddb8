# Connect Four: rules engines, board identifiers and minimax AI

A Dafny model of the game logic of the `connectfour` project. Three parts are
modelled, all on the fixed 6x7 grid. Row 0 is the top row and pieces settle
toward row 5. Cells hold 0 (EMPTY), 1 (P1) or 2 (P2).

- **The current rules engine** (`src/board.py`), modules `Grids`,
  `VictoryScan` and `Boards`:
  - a board infers whose turn it is and the move count from its piece counts;
  - a move is legal when the column's top cell is EMPTY;
  - a move drops the piece to the lowest EMPTY cell of the column;
  - `check_for_victory` reports a draw as soon as no legal move is left.
    Only after that does it run the run-length scans over columns, rows and
    the two diagonal families.

  The scans are methods with loop invariants. They are proved equivalent to a
  window specification: four cells in one of four directions all hold the
  player.
- **The legacy rules engine** (`board.py`), modules `LegacyBoards` and
  `BoardIds`:
  - `make_move` returns the codes DRAW, ILLEGAL_MOVE, VICTORY and LEGAL_MOVE.
    The win test looks only at the player to move, who stays current after a
    VICTORY;
  - `get_new_board` is a move that returns a new grid;
  - the board identifier is the flattened grid read as a 42-digit base-3
    numeral. The model proves its decoder round trip both ways, and mirroring
    of grids and identifiers as an involution;
  - a validity invariant (gravity, move counter, identifier record) holds from
    `__init__` on and is kept by every `make_move`.
- **The search AI** (`src/basic_ai.py`), modules `Heuristics` and `BasicAi`:
  - the window-counting heuristic, with its bound of 138 directed windows and
    its antisymmetry between P1 and P2;
  - `evaluate`;
  - `Node.children` and `is_terminal`;
  - minimax without pruning, as a recursive function. It terminates because
    every move fills a cell;
  - `AIPlayer.get_move`, which keeps the first column with the strictly best
    score.

  The `maximizingPlayer` flag of `minimax` doubles as `evaluate`'s
  perspective player. The top call passes the player number (1 or 2), and the
  recursive calls pass True and False, that is 1 and 0. The model keeps the
  flag an integer, so below the root the positions are judged from P1's view
  (True) or from EMPTY's (False). From EMPTY's view every win is a loss.

Boards are immutable values. Where the source mutates a numpy array in place,
the model returns the new board.

## Model

| member | source | states |
|---|---|---|
| Grids.CountsSum | src/board.py:31-42 | every one of the 42 cells is EMPTY, P1 or P2, so the three piece counts add up to 42 |
| Grids.EmptyGridCounts | src/board.py:63-72 | the all-zero grid of a fresh board holds no P1 and no P2 piece |
| Grids.LowestEmptyFrom | src/board.py:100-103 | the downward row loop stops at an EMPTY cell of the column with every cell below it filled, or finds none when rows 0..row are all filled |
| Grids.Drop | src/board.py:100-103 | a full column is left as it was; otherwise exactly the lowest EMPTY cell of the column receives the piece and no other cell changes |
| Grids.DropLands | src/board.py:97-103 | when the top cell of the column is EMPTY, the piece lands |
| Grids.DropCounts | src/board.py:100-105 | a landed piece raises its player's count by one, lowers the EMPTY count by one and leaves the other player's count alone |
| Grids.PlacedAtIsDrop | src/board.py:100-103 | the landing cell is unique: any grid with the piece on the lowest EMPTY cell of the column is the drop's result |
| Grids.DropKeepsGravity | src/board.py:100-103 | a drop of any piece keeps every column's pieces contiguous from the bottom row up |
| Grids.DropEmptyUnchanged | src/board.py:100-103 | dropping EMPTY writes EMPTY over an EMPTY cell, so the grid is unchanged |
| VictoryScan.ScanLine | src/board.py:157-165 | the run counter, reset by any other value, reaches four exactly when the line has four consecutive cells of the player |
| VictoryScan.SDiagStart | src/board.py:181 | proof helper: the literal list of six down-left start points, (0,3)..(0,6) then (1,6),(2,6), in closed form by index |
| VictoryScan.ADiagStart | src/board.py:183 | proof helper: the literal list of six down-right start points, (0,3)..(0,0) then (1,0),(2,0), in closed form by index |
| VictoryScan.ColumnFourIsVertical | src/board.py:155-165 | a run of four found in a column is a vertical window of the player |
| VictoryScan.VerticalIsColumnFour | src/board.py:155-165 | every vertical window of the player is a run the column scan sees |
| VictoryScan.RowFourIsHorizontal | src/board.py:167-177 | a run of four found in a row is a horizontal window of the player |
| VictoryScan.HorizontalIsRowFour | src/board.py:167-177 | every horizontal window of the player is a run the row scan sees |
| VictoryScan.SDiagRunIsWindow | src/board.py:185-197 | a run of four on the walk one row down and one column left from a start point is a window on the grid |
| VictoryScan.SDiagFourIsFalling | src/board.py:185-197 | a run found on a down-left diagonal from a start point is a down-left window of the player |
| VictoryScan.FallingIsSDiagFour | src/board.py:185-197 | every down-left window lies on the diagonal walked from start point r+c-3 and is seen there as a run |
| VictoryScan.ADiagRunIsWindow | src/board.py:199-211 | a run of four on the walk one row down and one column right from a start point is a window on the grid |
| VictoryScan.ADiagFourIsRising | src/board.py:199-211 | a run found on a down-right diagonal from a start point is a down-right window of the player |
| VictoryScan.RisingIsADiagFour | src/board.py:199-211 | every down-right window lies on the diagonal walked from start point 3-(c-r) and is seen there as a run |
| VictoryScan.ScanColumns | src/board.py:155-165 | the column scans find a run iff the player has four in some column |
| VictoryScan.ScanRows | src/board.py:167-177 | the row scans find a run iff the player has four in some row |
| VictoryScan.ScanSDiags | src/board.py:179-197 | the six down-left diagonal scans find a run iff the player has a down-left window |
| VictoryScan.ScanADiags | src/board.py:199-211 | the six down-right diagonal scans find a run iff the player has a down-right window |
| VictoryScan.ScanForFour | src/board.py:153-211 | the four scan families for one player find a run iff the player has four in a row in any direction |
| Boards.Toggle | src/board.py:107-110 | the player handed the turn is always P1 or P2, and differs from a player who just moved |
| Boards.ToggleInvolution | src/board.py:107-110 | toggling twice gives the turn back to the same player |
| Boards.InferCurrentPlayerNMoves | src/board.py:31-42 | the move count is the number of non-EMPTY cells, and P1 is to move exactly when P1 and P2 have played equally often, P2 otherwise |
| Boards.FromState | src/board.py:63-72 | a board built on a supplied grid keeps the grid and infers the player to move and the move count from its piece counts |
| Boards.NewBoard | src/board.py:63-72 | a fresh board has an all-EMPTY grid, P1 to move and no moves played |
| Boards.Clone | src/board.py:74-76 | a clone has an equal grid and re-infers the move count from it; P1 is to move when P1 and P2 have played equally often, P2 otherwise |
| Boards.IsLegalMove | src/board.py:122-139 | a column is legal exactly when it is on the board and its top cell is EMPTY, and a legal column always has a cell for the piece to land on |
| Boards.GetMoveList | src/board.py:112-120 | the move list holds exactly the legal columns, in strictly ascending order |
| Boards.LegalIffColumnNotFull | src/board.py:122-139 | under gravity, the top-cell test means the column still has an EMPTY cell |
| Boards.MakeMove | src/board.py:78-110 | an illegal column raises and changes nothing; a legal one puts the mover's piece on the lowest EMPTY cell, adds one move and hands the turn to the other player |
| Boards.CheckForVictory | src/board.py:141-213 | a draw iff every top cell is filled; P1 iff a move is left and P1 has four; P2 iff a move is left, P1 has none and P2 has four; otherwise undecided, and only while a move is left |
| Boards.CheckForVictoryScan | src/board.py:141-213 | the draw test followed by the run-length scans for P1 and then P2 gives the result above |
| Boards.FilledWinReportedAsDraw | src/board.py:150-151 | a full grid on which P2 has four in the bottom row is reported as a draw |
| Boards.MakeMoveKeepsInStep | src/board.py:78-110 | on a board reached by play, the counter and the toggled player agree with what a clone re-infers, so cloning gives back the same board |
| Boards.MakeMoveKeepsGravity | src/board.py:100-103 | a legal move keeps gravity on any board, including one built around a supplied grid with unbalanced piece counts |
| Boards.NewBoardInStep | src/board.py:63-72 | a fresh board is in step with its grid and obeys gravity |
| BoardIds.FromDigits | board.py:188-192 | a base-3 numeral of k digits is below 3^k |
| BoardIds.ToDigitsFromDigits | board.py:188-192 | writing out a numeral's value to as many digits gives back the digits |
| BoardIds.ToDigits | board.py:210-216 | the digit sequence of an identifier has exactly k digits, most significant first |
| BoardIds.FromDigitsToDigits | board.py:210-214 | reading back the k digits of a number below 3^k gives the number |
| BoardIds.Flatten | board.py:188 | the flattened grid lists the cells row by row: cell (r, c) sits at position 7r + c |
| BoardIds.Unflatten | board.py:216 | reshaping 42 cells into six rows of seven puts position 7r + c at cell (r, c) |
| BoardIds.UnflattenFlatten | board.py:188-216 | reshaping a flattened grid gives back the grid |
| BoardIds.FlattenUnflatten | board.py:188-216 | flattening a reshaped sequence of 42 cells gives back the sequence |
| BoardIds.GetBoardId | board.py:171-194 | a board identifier lies in 0 .. 3^42 - 1 |
| BoardIds.GetBoardFromId | board.py:196-218 | decoding succeeds exactly on 0 .. 3^42 - 1; a negative identifier above -3^41 fails with ValueError on its minus sign, and a longer text overruns the 42-cell array with IndexError |
| BoardIds.DecodeEncode | board.py:171-218 | decoding the identifier of any grid gives back that grid |
| BoardIds.EncodeDecode | board.py:171-218 | every identifier in range decodes to a grid whose identifier it is |
| BoardIds.BoardIdInjective | board.py:171-194 | distinct grids have distinct identifiers |
| BoardIds.EmptyGridId | board.py:188-192 | the empty grid has identifier 0 |
| BoardIds.GetMirroredBoard | board.py:220-237 | the mirror image trades column c with column 6 - c in every row |
| BoardIds.MirrorInvolution | board.py:220-237 | mirroring twice gives back the grid |
| BoardIds.GetMirroredBoardId | board.py:239-257 | the mirrored identifier decodes to the mirror image of the grid |
| BoardIds.GetMirroredBoardFromId | board.py:259-273 | it succeeds on the same identifiers as the decoder, and mirroring its result gives back the decoded grid |
| BoardIds.GetMirroredIdFromId | board.py:275-289 | it succeeds exactly on identifiers in range and yields an identifier in range |
| BoardIds.MirroredIdFromIdAgrees | board.py:239-289 | mirroring a grid's identifier gives the mirrored grid's identifier |
| BoardIds.MirroredIdInvolution | board.py:275-289 | mirroring an identifier twice gives it back |
| BoardIds.MirrorIdFixedIffSymmetric | board.py:239-257 | a grid shares its identifier with its mirror image exactly when it is left-right symmetric |
| BoardIds.MirrorKeepsFour | board.py:220-237 | a grid and its mirror image have four in a row for the same players |
| LegacyBoards.Init | board.py:60-71 | a fresh legacy board is all EMPTY, with P1 to move, no moves and an empty record, and keeps the record flag |
| LegacyBoards.CheckMove | board.py:291-308 | column 7 and up is refused; 0..6 are tested like the current engine; a negative column tests the column it wraps to as a numpy index, and below -7 raises IndexError |
| LegacyBoards.NegativeColumnAccepted | board.py:302-308 | column -1 is accepted on an empty grid although it is not a legal move |
| LegacyBoards.GetMoveList | board.py:161-169 | the move list holds exactly the columns 0..6 that `_check_move` accepts, in strictly ascending order |
| LegacyBoards.GetMoveListAgrees | board.py:161-169 | the legacy move list equals the current engine's: the open columns 0..6 in ascending order |
| LegacyBoards.GetNewBoard | board.py:133-159 | a column off the board raises; otherwise the piece falls into the given grid, or into a copy of the board's own grid, and a full column is returned unchanged |
| LegacyBoards.CheckForVictory | board.py:310-379 | the scans report a win iff the player to move has four in a row |
| LegacyBoards.MakeMove | board.py:89-131 | DRAW (EMPTY to move, grid untouched) iff no column is open; ILLEGAL_MOVE with nothing changed iff some column is open but not this one; otherwise the piece falls, the counter advances, the new identifier is appended iff recording, and VICTORY (mover stays current) iff the mover now has four, else LEGAL_MOVE with the turn handed over |
| LegacyBoards.InitValid | board.py:60-71 | a fresh legacy board satisfies the validity invariant |
| LegacyBoards.MakeMoveKeepsValid | board.py:89-131 | every make_move keeps gravity, the counter equal to the pieces, EMPTY to move only on a full grid, and one identifier per move with the last decoding to the grid |
| Heuristics.Probe | src/basic_ai.py:48-59 | a walk of four steps yields 0 when it is cut short, and otherwise its start count plus at most one per step |
| Heuristics.ProbeClosedForm | src/basic_ai.py:48-59 | the inner walk yields the number of the player's cells passed when its four cells are on the grid and free of the opponent, and 0 when it is cut short |
| Heuristics.CountedIffThreeClear | src/basic_ai.py:47-60 | a walk counts exactly when its four cells are on the grid, hold no opposing piece and hold three of the player's |
| Heuristics.WindowCountsOnce | src/basic_ai.py:43-61 | a directed window counts for at most one of the two players, and only when it lies on the grid |
| Heuristics.CellTotal | src/basic_ai.py:41-54 | each cell starts three on-grid directed windows, a centre-column cell five |
| Heuristics.DirectedWindowCount | src/basic_ai.py:41-54 | there are 138 directed windows: the 69 lines of four, each walked from both ends |
| Heuristics.WindowsBound | src/basic_ai.py:43-61 | the counted windows of the two players together never exceed 138 |
| Heuristics.Heuristic | src/basic_ai.py:28-63 | the heuristic lies within -138 .. 138 |
| Heuristics.HeuristicSplit | src/basic_ai.py:37-63 | proof helper: resolving the two sign tests of the loop, the heuristic is the perspective player's counted windows minus its opponent's, for any perspective value |
| Heuristics.HeuristicAntisymmetric | src/basic_ai.py:39-61 | the P1 and P2 perspectives score every grid with opposite signs |
| Heuristics.HeuristicFromEmpty | src/basic_ai.py:39-44 | from perspective 0 (False), windows of three EMPTY cells without P1 score +1 and windows of three P1 pieces without EMPTY score -1 |
| BasicAi.Evaluate | src/basic_ai.py:66-75 | 0 for a draw; WIN iff a player won and equals the perspective; -WIN iff a player won and differs from it; the heuristic while undecided; always within -WIN .. WIN |
| BasicAi.EvaluateAntisymmetric | src/basic_ai.py:66-75 | the P1 and P2 perspectives evaluate every grid with opposite signs |
| BasicAi.EvaluateFromFalse | src/basic_ai.py:66-75 | from perspective 0 (False), any win with a move left is -WIN |
| BasicAi.Play | src/basic_ai.py:86-89 | a move on a clone leaves one EMPTY cell fewer |
| BasicAi.PlayPlaces | src/basic_ai.py:86-89 | a move on a clone puts the clone's player on the lowest EMPTY cell of the column and hands the turn over |
| BasicAi.Children | src/basic_ai.py:83-90 | there is one child per legal move, and each child has fewer EMPTY cells than its parent |
| BasicAi.ChildrenFollowMoves | src/basic_ai.py:83-90 | child i is the parent with the i-th legal column, in ascending order, played by the player a clone of the parent has to move |
| BasicAi.IsTerminal | src/basic_ai.py:81-82 | a node is terminal exactly when no column is open or either player has four in a row |
| BasicAi.OpenNodeHasChildren | src/basic_ai.py:81-90 | a node that is not terminal has a child |
| BasicAi.Minimax | src/basic_ai.py:93-108 | minimax terminates at any depth and always returns a finite score within -WIN .. WIN, never an infinity |
| BasicAi.MinimaxLeaf | src/basic_ai.py:93-95 | at depth 0 or at a terminal node, minimax is the evaluation of the board from the flag's perspective |
| BasicAi.MaxFrom | src/basic_ai.py:97-102 | the maximising loop over in-range scores returns an in-range score, and its running maximum when no score is left |
| BasicAi.MinFrom | src/basic_ai.py:103-108 | the minimising loop over in-range scores returns an in-range score, and its running minimum when no score is left |
| BasicAi.MaxFromIsMax | src/basic_ai.py:97-102 | the maximising loop ends on a score at least every score seen and equal to one of them or its start |
| BasicAi.MinFromIsMin | src/basic_ai.py:103-108 | the minimising loop ends on a score at most every score seen and equal to one of them or its start |
| BasicAi.MinimaxMaximizes | src/basic_ai.py:97-102 | at an open node with a truthy flag, minimax is the largest of the children's scores searched one level less deep with flag False |
| BasicAi.MinimaxMinimizes | src/basic_ai.py:103-108 | at an open node with flag False, minimax is the smallest of the children's scores searched one level less deep with flag True |
| BasicAi.OneLevelSeenFromFalse | src/basic_ai.py:93-102 | a one-level maximising search scores every child from perspective 0 (False) and returns one of those scores |
| BasicAi.MoveScore | src/basic_ai.py:123-127 | the score of a legal column lies within -WIN .. WIN |
| BasicAi.MoveScores | src/basic_ai.py:123-127 | each legal column's minimax score, in move-list order, lies within -WIN .. WIN |
| BasicAi.PickFirstBest | src/basic_ai.py:120-130 | the scan keeps nothing iff no score beats START_SCORE; otherwise it keeps a highest score above START_SCORE, and every earlier score is strictly lower |
| BasicAi.GetMove | src/basic_ai.py:117-132 | None iff no column is legal; otherwise a legal column whose score no legal column beats, and every legal column to its left scores strictly lower |

## Left out

- Printing, terminal and web front ends, `__repr__`, the neural-network and
  database players, the random player and the training scripts are not part
  of this model.
- numpy aliasing and in-place mutation are not modelled. Boards are values, so
  "the clone is independent of the original", "the parent board is unchanged"
  and "`get_move` does not mutate the caller's board" hold by construction.
  Nothing states them.
- LegacyBoards.GetNewBoard: the source writes into a grid passed as `board`
  in place. The model returns the new grid and does not model that aliasing.
- Grid cells are limited to 0, 1 and 2. Grids with other values, or with
  another shape, cannot be passed to the model.
- Python exceptions are modelled as a `Result` carrying the exception kind
  (IllegalMove for the source's generic "Illegal move requested!"). The
  message text is left out.
- The `maximizingPlayer` flag is an integer. True and False of the recursive
  calls are 1 and 0, as Python compares them.
- The diagonal walks of the victory scans are stated in closed form: their
  length and the cells they visit. The model does not step the index pair.
  The scan of the two players in `check_for_victory` is unrolled.
- BasicAi.Minimax: its contract states only the range. The leaf case is
  stated by BasicAi.MinimaxLeaf, and the open-node case by
  BasicAi.MinimaxMaximizes and BasicAi.MinimaxMinimizes.
- BasicAi.MaxFrom, BasicAi.MinFrom: their contracts state only the range. The
  fold's result is characterised by BasicAi.MaxFromIsMax and
  BasicAi.MinFromIsMin.
- BoardIds.ToDigits: its contract states only the number of digits. Their value
  is stated for identifiers below 3^k by BoardIds.FromDigitsToDigits, which is
  the range `get_board_from_id` decodes.
- Heuristics.Probe: its contract states only the range of the walk's result.
  Its exact value is stated by Heuristics.ProbeClosedForm.
- BasicAi.MoveScore: its contract states only the range. Its value is
  minimax on the played clone with the player number as flag.
- The float infinities that start the minimax folds are a three-valued
  `Score` (minus infinity, finite, plus infinity).
