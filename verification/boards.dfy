/** The current rules engine: a board whose player to move and move count
    are inferred from the piece counts, legality as a test of the column's top
    cell, the gravity drop, and the victory check whose "no legal moves means
    draw" test runs before the four-in-a-row scans. */
module Boards {
  import opened Grids
  import VictoryScan

  /** A board: the grid, the player who moves next, and the move counter. */
  datatype Board = Board(state: Grid, currPlayer: Cell, nmoves: nat)

  /** What the victory check reports: `Undecided` is the source's None (the
      game goes on); `Decided(EMPTY)` is a draw, `Decided(p)` a win for `p`. */
  datatype Victor = Undecided | Decided(who: Cell)

  /** The other player: P2 after P1, P1 after anyone else. */
  function Toggle(p: Cell): (q: Cell)
    ensures q == P1 || q == P2
    ensures p == P1 || p == P2 ==> q != p
  {
    if p == P1 then P2 else P1
  }

  /** Toggling twice hands the turn back to the same player. */
  lemma ToggleInvolution(p: Cell)
    requires p == P1 || p == P2
    ensures Toggle(Toggle(p)) == p
  {
  }

  /** Player to move and move count read off a grid: every P1 and P2 piece is
      a move played, and P1 moves whenever both have played equally often. */
  function InferCurrentPlayerNMoves(g: Grid): (r: (Cell, nat))
    ensures r.1 + Count(g, EMPTY) == NROW * NCOL
    ensures r.0 == P1 || r.0 == P2
    ensures r.0 == P1 <==> Count(g, P1) == Count(g, P2)
  {
    CountsSum(g);
    var cp := if Count(g, P1) == Count(g, P2) then P1 else P2;
    (cp, Count(g, P1) + Count(g, P2))
  }

  /** A board built around a supplied grid. */
  function FromState(g: Grid): (b: Board)
    ensures b.state == g
    ensures b.nmoves == Count(g, P1) + Count(g, P2)
    ensures b.currPlayer == (if Count(g, P1) == Count(g, P2) then P1 else P2)
  {
    var (cp, n) := InferCurrentPlayerNMoves(g);
    Board(g, cp, n)
  }

  /** A fresh board: all cells EMPTY, P1 to move, no moves played. */
  function NewBoard(): (b: Board)
    ensures forall r, c | InBounds(r, c) :: b.state[r][c] == EMPTY
    ensures b.currPlayer == P1 && b.nmoves == 0
  {
    EmptyGridCounts();
    FromState(EmptyGrid())
  }

  /** A copy of the grid, with player and move count inferred afresh. */
  function Clone(b: Board): (b': Board)
    ensures b'.state == b.state
    ensures b'.nmoves + Count(b.state, EMPTY) == NROW * NCOL
    ensures b'.currPlayer == P1 <==> Count(b.state, P1) == Count(b.state, P2)
    ensures b'.currPlayer == P2 <==> Count(b.state, P1) != Count(b.state, P2)
  {
    FromState(b.state)
  }

  /** The top cell of an on-board column is EMPTY; a legal column always has
      a cell for the piece to land on. */
  function IsLegalMove(g: Grid, col: int): (legal: bool)
    ensures legal <==> 0 <= col < NCOL && g[0][col] == EMPTY
    ensures legal ==> LowestEmptyFrom(g, col, NROW - 1).Some?
  {
    if col >= NCOL || col < 0 then false else g[0][col] == EMPTY
  }

  /** The legal columns from `col` on, in ascending order. */
  function MovesFrom(g: Grid, col: int): (moves: seq<int>)
    requires 0 <= col <= NCOL
    ensures forall m :: m in moves <==> col <= m && IsLegalMove(g, m)
    ensures forall i | 0 <= i < |moves| :: col <= moves[i]
    ensures forall i, j | 0 <= i < j < |moves| :: moves[i] < moves[j]
    decreases NCOL - col
  {
    if col == NCOL then []
    else if IsLegalMove(g, col) then [col] + MovesFrom(g, col + 1)
    else MovesFrom(g, col + 1)
  }

  /** The legal columns in ascending order. */
  function GetMoveList(g: Grid): (moves: seq<int>)
    ensures forall m :: m in moves <==> IsLegalMove(g, m)
    ensures forall i, j | 0 <= i < j < |moves| :: moves[i] < moves[j]
  {
    MovesFrom(g, 0)
  }

  /** Under gravity, the top-cell test is the same as "the column still has
      an EMPTY cell". */
  lemma LegalIffColumnNotFull(g: Grid, col: int)
    requires Gravity(g) && 0 <= col < NCOL
    ensures IsLegalMove(g, col) <==> exists r | 0 <= r < NROW :: g[r][col] == EMPTY
  {
    if r :| 0 <= r < NROW && g[r][col] == EMPTY {
      var k := r;
      while k > 0
        invariant 0 <= k <= r && g[k][col] == EMPTY
      {
        k := k - 1;
      }
    }
  }

  /** Play `col` for the player to move: an illegal column raises and nothing
      changes; otherwise the piece falls, the counter goes up by one and the
      other player is to move. */
  function MakeMove(b: Board, col: int): (r: Result<Board>)
    ensures r.Failure? <==> !IsLegalMove(b.state, col)
    ensures r.Failure? ==> r.error == IllegalMove
    ensures r.Success? ==> PlacedAt(b.state, r.value.state, col, b.currPlayer)
    ensures r.Success? ==> r.value.nmoves == b.nmoves + 1
    ensures r.Success? ==> r.value.currPlayer == Toggle(b.currPlayer) != b.currPlayer
  {
    if !IsLegalMove(b.state, col) then
      Failure(IllegalMove)
    else
      DropLands(b.state, col, b.currPlayer);
      Success(Board(Drop(b.state, col, b.currPlayer), Toggle(b.currPlayer), b.nmoves + 1))
  }

  /** The game result, draw test first: a grid without legal moves is a draw
      before any line is scanned; then P1, then P2, is checked for four in a
      row. */
  function CheckForVictory(g: Grid): (v: Victor)
    ensures v == Decided(EMPTY) <==> forall c | 0 <= c < NCOL :: g[0][c] != EMPTY
    ensures v == Decided(P1) <==> GetMoveList(g) != [] && FourInARow(g, P1)
    ensures v == Decided(P2) <==> GetMoveList(g) != [] && !FourInARow(g, P1) && FourInARow(g, P2)
    ensures v == Undecided ==> GetMoveList(g) != []
  {
    if |GetMoveList(g)| == 0 then
      assert forall c | 0 <= c < NCOL :: c !in GetMoveList(g);
      Decided(EMPTY)
    else if FourInARow(g, P1) then Decided(P1)
    else if FourInARow(g, P2) then Decided(P2)
    else Undecided
  }

  /** The victory check as the source runs it: move list first, then the
      run-length scans for P1 and for P2. */
  method CheckForVictoryScan(g: Grid) returns (v: Victor)
    ensures v == CheckForVictory(g)
  {
    var moves := GetMoveList(g);
    if |moves| == 0 {
      return Decided(EMPTY);
    }
    // the source loops over [P1, P2]; unrolled here
    var found := VictoryScan.ScanForFour(g, P1);
    if found {
      return Decided(P1);
    }
    found := VictoryScan.ScanForFour(g, P2);
    if found {
      return Decided(P2);
    }
    return Undecided;
  }

  // ------------------------------------------------------------ properties

  /** The draw test shadows the win scan: a full grid on which P2 has four in
      the bottom row is reported as a draw. */
  lemma FilledWinReportedAsDraw()
    ensures var g: Grid := [
        [1, 2, 1, 2, 1, 2, 1],
        [1, 2, 1, 2, 1, 2, 1],
        [2, 1, 2, 1, 2, 1, 2],
        [2, 1, 2, 1, 2, 1, 2],
        [1, 2, 1, 2, 1, 2, 1],
        [2, 2, 2, 2, 1, 1, 1]];
      FourInARow(g, P2) && CheckForVictory(g) == Decided(EMPTY)
  {
    var g: Grid := [
        [1, 2, 1, 2, 1, 2, 1],
        [1, 2, 1, 2, 1, 2, 1],
        [2, 1, 2, 1, 2, 1, 2],
        [2, 1, 2, 1, 2, 1, 2],
        [1, 2, 1, 2, 1, 2, 1],
        [2, 2, 2, 2, 1, 1, 1]];
    assert WindowAt(g, 5, 0, 0, 1, P2);
    assert forall c | 0 <= c < NCOL :: g[0][c] != EMPTY;
  }

  /** A board is in step with its grid when player and counter are what
      inference gives, and P1 is at most one piece ahead of P2. */
  ghost predicate InStep(b: Board) {
    && b == FromState(b.state)
    && (Count(b.state, P1) == Count(b.state, P2) || Count(b.state, P1) == Count(b.state, P2) + 1)
  }

  /** A legal move keeps a board in step: the incremental counter and the
      toggled player agree with what a clone infers afresh, so cloning a
      board reached by play gives back the same board. */
  lemma MakeMoveKeepsInStep(b: Board, col: int)
    requires InStep(b) && IsLegalMove(b.state, col)
    ensures MakeMove(b, col).Success?
    ensures InStep(MakeMove(b, col).value)
    ensures Clone(MakeMove(b, col).value) == MakeMove(b, col).value
  {
    DropCounts(b.state, col, b.currPlayer);
  }

  /** A legal move keeps gravity, on any board, including one built around a
      supplied grid whose piece counts no game could reach. */
  lemma MakeMoveKeepsGravity(b: Board, col: int)
    requires Gravity(b.state) && IsLegalMove(b.state, col)
    ensures Gravity(MakeMove(b, col).value.state)
  {
    DropKeepsGravity(b.state, col, b.currPlayer);
  }

  /** A fresh board is in step and obeys gravity. */
  lemma NewBoardInStep()
    ensures InStep(NewBoard()) && Gravity(NewBoard().state)
  {
    EmptyGridCounts();
  }
}
