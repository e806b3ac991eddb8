/** The window-counting heuristic of the search AI: from every cell and in
    each of eight directions, a four-cell walk that stays on the grid, meets
    no opposing piece and passes exactly three of the player's pieces counts
    +1 for the perspective player and -1 for the other. */
module Heuristics {
  import opened Grids

  /** The eight walking directions, in the order they are tried. */
  const DIRECTIONS: seq<(int, int)> :=
    [(1, 0), (0, 1), (-1, 0), (0, -1), (1, 1), (1, -1), (-1, -1), (-1, 1)]

  const NDIRS: nat := 8

  /** The number of four-cell windows on the grid counted with direction:
      every undirected window is walked once from each end. */
  const DIRECTED_WINDOWS: nat := 138

  function Ind(b: bool): nat {
    if b then 1 else 0
  }

  // ------------------------------------------------------------ one walk

  /** The walk of `steps` more cells from (r, c): the number of `player`
      cells passed, added to `n`, or 0 as soon as a step leaves the grid or
      lands on `other`. */
  function Probe(g: Grid, player: int, other: int, r: int, c: int, dr: int, dc: int,
                 steps: nat, n: nat): (k: nat)
    ensures k == 0 || n <= k <= n + steps
    decreases steps
  {
    if steps == 0 then n
    else if r < 0 || c < 0 || r >= NROW || c >= NCOL then 0
    else if g[r][c] == other then 0
    else Probe(g, player, other, r + dr, c + dc, dr, dc, steps - 1,
               if g[r][c] == player then n + 1 else n)
  }

  /** The first `steps` cells of the walk from (r, c) are on the grid and
      none holds `other`. */
  predicate Clear(g: Grid, other: int, r: int, c: int, dr: int, dc: int, steps: nat)
    decreases steps
  {
    steps == 0 ||
    (InBounds(r, c) && g[r][c] != other && Clear(g, other, r + dr, c + dc, dr, dc, steps - 1))
  }

  /** How many of the first `steps` cells of the walk from (r, c) hold
      `player`, stopping at the edge of the grid. */
  function Hits(g: Grid, player: int, r: int, c: int, dr: int, dc: int, steps: nat): nat
    decreases steps
  {
    if steps == 0 || !InBounds(r, c) then 0
    else Ind(g[r][c] == player) + Hits(g, player, r + dr, c + dc, dr, dc, steps - 1)
  }

  /** The walk yields its start count plus the `player` cells passed when it
      is clear, and 0 when it is cut short. */
  lemma {:induction false} ProbeClosedForm(g: Grid, player: int, other: int, r: int, c: int,
                                           dr: int, dc: int, steps: nat, n: nat)
    ensures Probe(g, player, other, r, c, dr, dc, steps, n)
         == if Clear(g, other, r, c, dr, dc, steps) then n + Hits(g, player, r, c, dr, dc, steps) else 0
    decreases steps
  {
    if steps > 0 && InBounds(r, c) && g[r][c] != other {
      ProbeClosedForm(g, player, other, r + dr, c + dc, dr, dc, steps - 1,
                      if g[r][c] == player then n + 1 else n);
    }
  }

  /** A walk clear of `p` passes no `p` cell. */
  lemma {:induction false} ClearMeansNoHits(g: Grid, p: int, r: int, c: int, dr: int, dc: int, steps: nat)
    requires Clear(g, p, r, c, dr, dc, steps)
    ensures Hits(g, p, r, c, dr, dc, steps) == 0
    decreases steps
  {
    if steps > 0 {
      ClearMeansNoHits(g, p, r + dr, c + dc, dr, dc, steps - 1);
    }
  }

  /** A clear four-cell walk starts and ends on the grid. */
  lemma ClearFourOnGrid(g: Grid, other: int, r: int, c: int, dr: int, dc: int)
    requires Clear(g, other, r, c, dr, dc, 4)
    ensures InBounds(r, c) && InBounds(r + 3 * dr, c + 3 * dc)
  {
    assert Clear(g, other, r + dr, c + dc, dr, dc, 3);
    assert Clear(g, other, r + 2 * dr, c + 2 * dc, dr, dc, 2);
    assert Clear(g, other, r + 3 * dr, c + 3 * dc, dr, dc, 1);
  }

  /** The walk from (row, col) in direction number `d` counts. */
  predicate Counted(g: Grid, player: int, other: int, row: int, col: int, d: int) {
    0 <= d < NDIRS &&
    Probe(g, player, other, row, col, DIRECTIONS[d].0, DIRECTIONS[d].1, 4, 0) == 3
  }

  /** The four-cell window from (row, col) in direction number `d` is on the grid. */
  predicate OnGrid(row: int, col: int, d: int) {
    0 <= d < NDIRS &&
    InBounds(row, col) && InBounds(row + 3 * DIRECTIONS[d].0, col + 3 * DIRECTIONS[d].1)
  }

  /** A walk counts exactly when its four cells are on the grid, hold no
      `other` piece and hold three `player` pieces. */
  lemma CountedIffThreeClear(g: Grid, player: int, other: int, row: int, col: int, d: int)
    requires 0 <= d < NDIRS
    ensures Counted(g, player, other, row, col, d) <==>
      var (dr, dc) := DIRECTIONS[d];
      Clear(g, other, row, col, dr, dc, 4) && Hits(g, player, row, col, dr, dc, 4) == 3
  {
    var (dr, dc) := DIRECTIONS[d];
    ProbeClosedForm(g, player, other, row, col, dr, dc, 4, 0);
  }

  /** A directed window counts for at most one of two players, and only when
      it is on the grid. */
  lemma WindowCountsOnce(g: Grid, a: int, b: int, row: int, col: int, d: int)
    requires 0 <= d < NDIRS
    ensures Ind(Counted(g, a, b, row, col, d)) + Ind(Counted(g, b, a, row, col, d)) <= Ind(OnGrid(row, col, d))
  {
    var (dr, dc) := DIRECTIONS[d];
    CountedIffThreeClear(g, a, b, row, col, d);
    CountedIffThreeClear(g, b, a, row, col, d);
    if Clear(g, a, row, col, dr, dc, 4) {
      ClearMeansNoHits(g, a, row, col, dr, dc, 4);
      ClearFourOnGrid(g, a, row, col, dr, dc);
    }
    if Clear(g, b, row, col, dr, dc, 4) {
      ClearFourOnGrid(g, b, row, col, dr, dc);
    }
  }

  // ------------------------------------------------------------ the sums

  /** A number per cell of the grid, indexed like the grid. */
  type Table = t: seq<seq<nat>> | |t| == 6 && forall r | 0 <= r < |t| :: |t[r]| == 7
    witness seq(6, _ => seq(7, _ => 0))

  /** The sum of a table over the cells from (row, col) on, row by row: the
      order of the nested row and column loops. */
  function SumCells(t: Table, row: int, col: int): nat
    requires 0 <= row <= NROW && 0 <= col <= NCOL
    decreases NROW - row, NCOL - col
  {
    if row == NROW then 0
    else if col == NCOL then SumCells(t, row + 1, 0)
    else t[row][col] + SumCells(t, row, col + 1)
  }

  /** The counted walks of `player` against `other` from every start cell. */
  function CountTable(g: Grid, player: int, other: int): (t: Table)
    ensures forall r, c | InBounds(r, c) :: t[r][c] == DirSum(g, player, other, r, c, 0)
  {
    seq(NROW, r requires 0 <= r < NROW =>
      seq(NCOL, c requires 0 <= c < NCOL => DirSum(g, player, other, r, c, 0)))
  }

  /** The directed windows on the grid from every start cell. */
  function WindowTable(): (t: Table)
    ensures forall r, c | InBounds(r, c) :: t[r][c] == CellWindows(r, c)
  {
    seq(NROW, r requires 0 <= r < NROW =>
      seq(NCOL, c requires 0 <= c < NCOL => CellWindows(r, c)))
  }

  /** Counted walks from (row, col) in directions d..7. */
  function DirSum(g: Grid, player: int, other: int, row: int, col: int, d: nat): nat
    requires d <= NDIRS
    decreases NDIRS - d
  {
    if d == NDIRS then 0
    else Ind(Counted(g, player, other, row, col, d)) + DirSum(g, player, other, row, col, d + 1)
  }

  /** All counted walks for `player` against `other`. */
  function Windows(g: Grid, player: int, other: int): nat {
    SumCells(CountTable(g, player, other), 0, 0)
  }

  /** Directed windows on the grid from (row, col) in directions d..7. */
  function DirTotal(row: int, col: int, d: nat): nat
    requires d <= NDIRS
    decreases NDIRS - d
  {
    if d == NDIRS then 0 else Ind(OnGrid(row, col, d)) + DirTotal(row, col, d + 1)
  }

  /** Directed windows on the grid per start cell. */
  function CellWindows(row: int, col: int): nat {
    DirTotal(row, col, 0)
  }

  // ------------------------------------------------------------ 138 windows

  /** Every cell starts three directed windows, a centre-column cell five. */
  lemma CellTotal(row: int, col: int)
    requires InBounds(row, col)
    ensures CellWindows(row, col) == if col == 3 then 5 else 3
  {
    assert DirTotal(row, col, 8) == 0;
    assert DirTotal(row, col, 7) == Ind(OnGrid(row, col, 7));
    assert DirTotal(row, col, 6) == Ind(OnGrid(row, col, 6)) + DirTotal(row, col, 7);
    assert DirTotal(row, col, 5) == Ind(OnGrid(row, col, 5)) + DirTotal(row, col, 6);
    assert DirTotal(row, col, 4) == Ind(OnGrid(row, col, 4)) + DirTotal(row, col, 5);
    assert DirTotal(row, col, 3) == Ind(OnGrid(row, col, 3)) + DirTotal(row, col, 4);
    assert DirTotal(row, col, 2) == Ind(OnGrid(row, col, 2)) + DirTotal(row, col, 3);
    assert DirTotal(row, col, 1) == Ind(OnGrid(row, col, 1)) + DirTotal(row, col, 2);
  }

  /** The windows still to come from (row, col): three per cell, two more per
      centre-column cell. */
  function Remaining(row: int, col: int): int {
    if row >= NROW then 0
    else 23 * (NROW - 1 - row) + 3 * (NCOL - col) + (if col <= 3 then 2 else 0)
  }

  lemma {:induction false} SumCellsOfCount(t: Table, row: int, col: int)
    requires 0 <= row <= NROW && 0 <= col <= NCOL
    requires forall r, c | InBounds(r, c) :: t[r][c] == if c == 3 then 5 else 3
    ensures SumCells(t, row, col) == Remaining(row, col)
    decreases NROW - row, NCOL - col
  {
    if row == NROW {
      assert SumCells(t, row, col) == 0;
    } else if col == NCOL {
      SumCellsOfCount(t, row + 1, 0);
      assert SumCells(t, row, col) == SumCells(t, row + 1, 0);
      assert Remaining(row, col) == Remaining(row + 1, 0);
    } else {
      SumCellsOfCount(t, row, col + 1);
      assert InBounds(row, col);
      var here := if col == 3 then 5 else 3;
      assert t[row][col] == here;
      assert SumCells(t, row, col) == here + SumCells(t, row, col + 1);
      assert Remaining(row, col) == here + Remaining(row, col + 1);
    }
  }

  /** There are 138 directed four-cell windows: 69 lines, each from both ends. */
  lemma DirectedWindowCount()
    ensures SumCells(WindowTable(), 0, 0) == DIRECTED_WINDOWS
  {
    var t := WindowTable();
    forall r, c | InBounds(r, c) ensures t[r][c] == if c == 3 then 5 else 3 {
      CellTotal(r, c);
    }
    SumCellsOfCount(t, 0, 0);
  }

  // ------------------------------------------------------------ the bound

  lemma {:induction false} DirSumBound(g: Grid, a: int, b: int, row: int, col: int, d: nat)
    requires d <= NDIRS
    ensures DirSum(g, a, b, row, col, d) + DirSum(g, b, a, row, col, d) <= DirTotal(row, col, d)
    decreases NDIRS - d
  {
    if d < NDIRS {
      WindowCountsOnce(g, a, b, row, col, d);
      DirSumBound(g, a, b, row, col, d + 1);
    }
  }

  lemma {:induction false} SumCellsPairBound(f: Table, h: Table, t: Table, row: int, col: int)
    requires 0 <= row <= NROW && 0 <= col <= NCOL
    requires forall r, c | InBounds(r, c) :: f[r][c] + h[r][c] <= t[r][c]
    ensures SumCells(f, row, col) + SumCells(h, row, col) <= SumCells(t, row, col)
    decreases NROW - row, NCOL - col
  {
    if row == NROW {
      assert SumCells(t, row, col) == 0;
    } else if col == NCOL {
      SumCellsPairBound(f, h, t, row + 1, 0);
      assert SumCells(f, row, col) == SumCells(f, row + 1, 0);
      assert SumCells(h, row, col) == SumCells(h, row + 1, 0);
      assert SumCells(t, row, col) == SumCells(t, row + 1, 0);
    } else {
      SumCellsPairBound(f, h, t, row, col + 1);
      assert InBounds(row, col);
      assert f[row][col] + h[row][col] <= t[row][col];
      assert SumCells(f, row, col) == f[row][col] + SumCells(f, row, col + 1);
      assert SumCells(h, row, col) == h[row][col] + SumCells(h, row, col + 1);
      assert SumCells(t, row, col) == t[row][col] + SumCells(t, row, col + 1);
    }
  }

  /** Counted windows of two players against each other never exceed the
      number of directed windows. */
  lemma WindowsBound(g: Grid, a: int, b: int)
    ensures Windows(g, a, b) + Windows(g, b, a) <= DIRECTED_WINDOWS
  {
    var f, h, t := CountTable(g, a, b), CountTable(g, b, a), WindowTable();
    forall r, c | InBounds(r, c) ensures f[r][c] + h[r][c] <= t[r][c] {
      DirSumBound(g, a, b, r, c, 0);
    }
    SumCellsPairBound(f, h, t, 0, 0);
    DirectedWindowCount();
  }

  // ------------------------------------------------------------ heuristic

  /** The opponent paired with a perspective: P2 for P1, P1 for anything else
      (including EMPTY). */
  function Opponent(maximizingPlayer: int): int {
    if maximizingPlayer == P1 then P2 else P1
  }

  /** The contribution of the pass for `player`: its counted windows, against
      the other of the two players, with sign +1 for the perspective player
      and -1 otherwise. */
  function PlayerPass(g: Grid, maximizingPlayer: int, minimizingPlayer: int, player: int): int {
    var other := if player == minimizingPlayer then maximizingPlayer else minimizingPlayer;
    (if player == maximizingPlayer then 1 else -1) * Windows(g, player, other)
  }

  /** The heuristic: a pass for the perspective player, then one for its
      opponent. It lies within the number of directed windows. */
  function Heuristic(g: Grid, maximizingPlayer: int): (value: int)
    ensures -(DIRECTED_WINDOWS as int) <= value <= DIRECTED_WINDOWS
  {
    var minimizingPlayer := Opponent(maximizingPlayer);
    WindowsBound(g, maximizingPlayer, minimizingPlayer);
    PlayerPass(g, maximizingPlayer, minimizingPlayer, maximizingPlayer)
      + PlayerPass(g, maximizingPlayer, minimizingPlayer, minimizingPlayer)
  }

  /** The heuristic is the perspective player's counted windows minus its
      opponent's, whatever the perspective value. */
  lemma HeuristicSplit(g: Grid, p: int)
    ensures Heuristic(g, p) == Windows(g, p, Opponent(p)) - Windows(g, Opponent(p), p)
  {
  }

  /** The two player perspectives score every grid with opposite signs. */
  lemma HeuristicAntisymmetric(g: Grid)
    ensures Heuristic(g, P1) == -Heuristic(g, P2)
  {
    HeuristicSplit(g, P1);
    HeuristicSplit(g, P2);
  }

  /** Seen from EMPTY (the value False takes), the heuristic credits windows
      of three EMPTY cells without P1 and debits windows of three P1 pieces
      with no EMPTY cell. */
  lemma HeuristicFromEmpty(g: Grid)
    ensures Heuristic(g, EMPTY) == Windows(g, EMPTY, P1) - Windows(g, P1, EMPTY)
  {
    HeuristicSplit(g, EMPTY);
  }
}
