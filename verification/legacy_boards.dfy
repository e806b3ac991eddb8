/** The legacy rules engine: `make_move` with result codes, a victory test
    for the player to move only, a non-mutating move, and an optional record
    of board identifiers. */
module LegacyBoards {
  import opened Grids
  import VictoryScan
  import Boards
  import BoardIds

  /** Result codes of `make_move`. */
  const ILLEGAL_MOVE: int := -1
  const VICTORY: int := 1
  const LEGAL_MOVE: int := 0
  const DRAW: int := 2

  /** A legacy board: the grid, the player to move (the victor after a win,
      EMPTY after a draw), the move counter, and the identifier record kept
      when `record` is set. */
  datatype LegacyBoard = LegacyBoard(
    state: Grid,
    currPlayer: Cell,
    nmoves: int,
    stateRecord: seq<nat>,
    record: bool)

  function Init(record: bool): (b: LegacyBoard)
    ensures forall r, c | InBounds(r, c) :: b.state[r][c] == EMPTY
    ensures b.currPlayer == P1 && b.nmoves == 0 && b.stateRecord == [] && b.record == record
  {
    LegacyBoard(EmptyGrid(), P1, 0, [], record)
  }

  /** `_check_move`: columns at or past NCOL are refused; any smaller column
      reads the top cell, a negative one counting from the right edge as a
      negative array index does, and one below -NCOL is out of range. */
  function CheckMove(g: Grid, col: int): (r: Result<bool>)
    ensures 0 <= col ==> r == Success(Boards.IsLegalMove(g, col))
    ensures -NCOL <= col < 0 ==> r == Success(Boards.IsLegalMove(g, col + NCOL))
    ensures col < -NCOL ==> r == Failure(IndexError)
  {
    if col >= NCOL then Success(false)
    else if col < -NCOL then Failure(IndexError)
    else
      var index := if col < 0 then col + NCOL else col;
      Success(g[0][index] == EMPTY)
  }

  /** A negative column is accepted whenever the column it wraps to is open. */
  lemma NegativeColumnAccepted()
    ensures CheckMove(EmptyGrid(), -1) == Success(true)
    ensures !Boards.IsLegalMove(EmptyGrid(), -1)
  {
  }

  /** The columns from `col` to NCOL - 1 that `_check_move` accepts, in
      ascending order. */
  function MovesFrom(g: Grid, col: int): (moves: seq<int>)
    requires 0 <= col <= NCOL
    ensures forall m :: m in moves <==> col <= m < NCOL && CheckMove(g, m) == Success(true)
    ensures forall i | 0 <= i < |moves| :: col <= moves[i]
    ensures forall i, j | 0 <= i < j < |moves| :: moves[i] < moves[j]
    decreases NCOL - col
  {
    if col == NCOL then []
    else if CheckMove(g, col) == Success(true) then [col] + MovesFrom(g, col + 1)
    else MovesFrom(g, col + 1)
  }

  /** The columns 0..NCOL-1 that `_check_move` accepts, in ascending order. */
  function GetMoveList(g: Grid): (moves: seq<int>)
    ensures forall m :: m in moves <==> 0 <= m < NCOL && CheckMove(g, m) == Success(true)
    ensures forall i, j | 0 <= i < j < |moves| :: moves[i] < moves[j]
  {
    MovesFrom(g, 0)
  }

  lemma {:induction false} MovesFromAgree(g: Grid, col: int)
    requires 0 <= col <= NCOL
    ensures MovesFrom(g, col) == Boards.MovesFrom(g, col)
    decreases NCOL - col
  {
    if col < NCOL {
      MovesFromAgree(g, col + 1);
    }
  }

  /** The legacy move list is the current engine's move list: ascending
      columns whose top cell is EMPTY. */
  lemma GetMoveListAgrees(g: Grid)
    ensures GetMoveList(g) == Boards.GetMoveList(g)
    ensures forall m :: m in GetMoveList(g) <==> Boards.IsLegalMove(g, m)
  {
    MovesFromAgree(g, 0);
  }

  /** `get_new_board`: the grid after the player to move drops a piece into
      `col`, computed on `board` when one is given and on a copy of the
      board's own grid otherwise; a column off the board raises, a full
      column is returned unchanged. */
  function GetNewBoard(b: LegacyBoard, col: int, board: Option<Grid>): (r: Result<Grid>)
    ensures r.Failure? <==> col < 0 || col >= NCOL
    ensures r.Failure? ==> r.error == IllegalMove
    ensures r.Success? ==>
      DroppedInto(if board.None? then b.state else board.value, r.value, col, b.currPlayer)
  {
    var g := if board.None? then b.state else board.value;
    if col >= NCOL || col < 0 then Failure(IllegalMove)
    else Success(Drop(g, col, b.currPlayer))
  }

  /** `_check_for_victory`: the run-length scans for the player to move only. */
  method CheckForVictory(b: LegacyBoard) returns (won: bool)
    ensures won <==> FourInARow(b.state, b.currPlayer)
  {
    won := VictoryScan.ScanForFour(b.state, b.currPlayer);
  }

  /** `make_move`: DRAW (with EMPTY to move) when no column is open, ILLEGAL_MOVE
      with nothing changed when `col` is not open, and otherwise the piece
      falls, the counter and the record advance, and the mover either has four
      in a row (VICTORY, the mover stays current) or hands over (LEGAL_MOVE). */
  function MakeMove(b: LegacyBoard, col: int): (r: (int, LegacyBoard))
    ensures r.0 == DRAW <==> GetMoveList(b.state) == []
    ensures r.0 == DRAW ==> r.1 == b.(currPlayer := EMPTY)
    ensures r.0 == ILLEGAL_MOVE <==> GetMoveList(b.state) != [] && !Boards.IsLegalMove(b.state, col)
    ensures r.0 == ILLEGAL_MOVE ==> r.1 == b
    ensures r.0 == VICTORY || r.0 == LEGAL_MOVE ==>
      && Boards.IsLegalMove(b.state, col)
      && PlacedAt(b.state, r.1.state, col, b.currPlayer)
      && r.1.nmoves == b.nmoves + 1
      && r.1.record == b.record
      && r.1.stateRecord == b.stateRecord + (if b.record then [BoardIds.GetBoardId(r.1.state)] else [])
    ensures r.0 == VICTORY <==>
      Boards.IsLegalMove(b.state, col) && FourInARow(r.1.state, b.currPlayer)
    ensures r.0 == VICTORY ==> r.1.currPlayer == b.currPlayer
    ensures r.0 == LEGAL_MOVE ==> r.1.currPlayer == Boards.Toggle(b.currPlayer)
    ensures r.0 == DRAW || r.0 == ILLEGAL_MOVE || r.0 == VICTORY || r.0 == LEGAL_MOVE
  {
    GetMoveListAgrees(b.state);
    var moves := GetMoveList(b.state);
    if |moves| == 0 then
      (DRAW, b.(currPlayer := EMPTY))
    else if col !in moves then
      (ILLEGAL_MOVE, b)
    else
      var state := GetNewBoard(b, col, None).value;
      DropLands(b.state, col, b.currPlayer);
      var moved := b.(state := state, nmoves := b.nmoves + 1);
      var logged :=
        if moved.record then moved.(stateRecord := moved.stateRecord + [BoardIds.GetBoardId(state)])
        else moved;
      if FourInARow(logged.state, logged.currPlayer) then
        (VICTORY, logged)
      else
        (LEGAL_MOVE, logged.(currPlayer := Boards.Toggle(logged.currPlayer)))
  }

  // ------------------------------------------------------------ invariants

  /** What every board reached by `make_move` from `Init` satisfies: gravity,
      a counter equal to the number of pieces, EMPTY to move only on a full
      grid, and, when recording, one identifier per move with the last one
      decoding to the current grid. */
  ghost predicate Valid(b: LegacyBoard) {
    && Gravity(b.state)
    && b.nmoves == Count(b.state, P1) + Count(b.state, P2)
    && (b.currPlayer == EMPTY ==> GetMoveList(b.state) == [])
    && (b.record ==> |b.stateRecord| == b.nmoves)
    && (b.record && b.nmoves > 0 ==>
          BoardIds.GetBoardFromId(b.stateRecord[|b.stateRecord| - 1]) == Success(b.state))
  }

  lemma InitValid(record: bool)
    ensures Valid(Init(record))
  {
    EmptyGridCounts();
  }

  /** Every call of `make_move` keeps a valid board valid. */
  lemma MakeMoveKeepsValid(b: LegacyBoard, col: int)
    requires Valid(b)
    ensures Valid(MakeMove(b, col).1)
  {
    var r := MakeMove(b, col);
    StepKeepsValid(b, col, r.0, r.1);
  }

  /** The outcomes `make_move` can have, each keeping validity. */
  lemma StepKeepsValid(b: LegacyBoard, col: int, code: int, b': LegacyBoard)
    requires Valid(b)
    requires code == DRAW || code == ILLEGAL_MOVE || code == VICTORY || code == LEGAL_MOVE
    requires code == DRAW ==> GetMoveList(b.state) == [] && b' == b.(currPlayer := EMPTY)
    requires code == ILLEGAL_MOVE ==> b' == b
    requires code == VICTORY || code == LEGAL_MOVE ==>
      && Boards.IsLegalMove(b.state, col)
      && PlacedAt(b.state, b'.state, col, b.currPlayer)
      && b'.nmoves == b.nmoves + 1
      && b'.record == b.record
      && b'.stateRecord == b.stateRecord + (if b.record then [BoardIds.GetBoardId(b'.state)] else [])
      && (b'.currPlayer == b.currPlayer || b'.currPlayer == Boards.Toggle(b.currPlayer))
    ensures Valid(b')
  {
    if code == DRAW {
      assert b'.state == b.state && b'.nmoves == b.nmoves;
      assert b'.record == b.record && b'.stateRecord == b.stateRecord;
    } else if code == VICTORY || code == LEGAL_MOVE {
      PlacedAtIsDrop(b.state, b'.state, col, b.currPlayer);
      PlayedMoveKeepsValid(b, col, b');
    }
  }

  lemma PlayedMoveKeepsValid(b: LegacyBoard, col: int, b': LegacyBoard)
    requires Valid(b) && Boards.IsLegalMove(b.state, col)
    requires b'.state == Drop(b.state, col, b.currPlayer)
    requires b'.nmoves == b.nmoves + 1 && b'.record == b.record
    requires b'.stateRecord == b.stateRecord + (if b.record then [BoardIds.GetBoardId(b'.state)] else [])
    requires b'.currPlayer == b.currPlayer || b'.currPlayer == Boards.Toggle(b.currPlayer)
    ensures Valid(b')
  {
    LegalMoveHasMover(b, col);
    assert b'.currPlayer != EMPTY;
    DropKeepsGravity(b.state, col, b.currPlayer);
    PlayedPieceCounted(b, col, b'.state);
    LastIdDecodes(b'.state, b'.stateRecord, b.stateRecord);
  }

  /** On a valid board with an open column somebody is to move. */
  lemma LegalMoveHasMover(b: LegacyBoard, col: int)
    requires Valid(b) && Boards.IsLegalMove(b.state, col)
    ensures b.currPlayer != EMPTY
  {
    GetMoveListAgrees(b.state);
    assert col in GetMoveList(b.state);
  }

  lemma PlayedPieceCounted(b: LegacyBoard, col: int, g': Grid)
    requires b.nmoves == Count(b.state, P1) + Count(b.state, P2)
    requires Boards.IsLegalMove(b.state, col) && b.currPlayer != EMPTY
    requires g' == Drop(b.state, col, b.currPlayer)
    ensures b.nmoves + 1 == Count(g', P1) + Count(g', P2)
  {
    DropCounts(b.state, col, b.currPlayer);
  }

  lemma LastIdDecodes(g: Grid, record: seq<nat>, before: seq<nat>)
    requires record == before + [BoardIds.GetBoardId(g)] || record == before
    ensures record == before + [BoardIds.GetBoardId(g)] ==>
      BoardIds.GetBoardFromId(record[|record| - 1]) == Success(g)
  {
    BoardIds.DecodeEncode(g);
  }
}
