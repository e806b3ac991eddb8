/** The fixed 6x7 Connect-Four grid shared by both rules engines: cell codes,
    piece counts, gravity, the drop of a piece into a column and the window
    specification of four in a row. Row 0 is the top row; pieces settle
    toward row NROW - 1. */
module Grids {

  const NROW: int := 6
  const NCOL: int := 7

  /** Cell codes, which double as player numbers. */
  const EMPTY: Cell := 0
  const P1: Cell := 1
  const P2: Cell := 2

  type Cell = c: int | 0 <= c <= 2

  type Grid = g: seq<seq<Cell>> | |g| == 6 && forall r | 0 <= r < |g| :: |g[r]| == 7
    witness seq(6, _ => seq(7, _ => 0))

  datatype Option<T> = None | Some(value: T)

  /** The exceptions the source raises, by kind. */
  datatype Error = IllegalMove | IndexError | ValueError

  datatype Result<T> = Success(value: T) | Failure(error: Error)

  predicate InBounds(r: int, c: int) {
    0 <= r < NROW && 0 <= c < NCOL
  }

  function EmptyGrid(): (g: Grid)
    ensures forall r, c | InBounds(r, c) :: g[r][c] == EMPTY
  {
    seq(NROW, _ => seq(NCOL, _ => EMPTY))
  }

  /** The grid with one cell replaced. */
  function SetCell(g: Grid, r: int, c: int, v: Cell): (g': Grid)
    requires InBounds(r, c)
    ensures g'[r][c] == v
    ensures forall r', c' | InBounds(r', c') && (r', c') != (r, c) :: g'[r'][c'] == g[r'][c']
  {
    var row: seq<Cell> := g[r][c := v];
    g[r := row]
  }

  // ---------------------------------------------------------------- counts

  /** Number of cells holding `v` in a list of rows. */
  function CountRows(rows: seq<seq<Cell>>, v: Cell): nat
  {
    if |rows| == 0 then 0 else multiset(rows[0])[v] + CountRows(rows[1..], v)
  }

  function Count(g: Grid, v: Cell): nat
  {
    CountRows(g, v)
  }

  lemma {:induction false} CountRowsUpdate(rows: seq<seq<Cell>>, i: int, row: seq<Cell>, v: Cell)
    requires 0 <= i < |rows|
    ensures CountRows(rows[i := row], v) + multiset(rows[i])[v] == CountRows(rows, v) + multiset(row)[v]
    decreases |rows|
  {
    if i == 0 {
      assert rows[i := row][1..] == rows[1..];
    } else {
      assert rows[i := row][1..] == rows[1..][i - 1 := row];
      CountRowsUpdate(rows[1..], i - 1, row, v);
    }
  }

  /** Writing `v` over one cell moves one unit of count from the old value to `v`. */
  lemma SetCellCount(g: Grid, r: int, c: int, v: Cell, w: Cell)
    requires InBounds(r, c)
    ensures Count(SetCell(g, r, c, v), w)
         == Count(g, w) - (if g[r][c] == w then 1 else 0) + (if v == w then 1 else 0)
  {
    var row: seq<Cell> := g[r][c := v];
    CountRowsUpdate(g, r, row, w);
    assert multiset(row) == multiset(g[r]) - multiset{g[r][c]} + multiset{v};
  }

  lemma {:induction false} RowCountsSum(row: seq<Cell>)
    ensures multiset(row)[EMPTY] + multiset(row)[P1] + multiset(row)[P2] == |row|
  {
    if row != [] {
      RowCountsSum(row[..|row| - 1]);
      assert row == row[..|row| - 1] + [row[|row| - 1]];
    }
  }

  lemma {:induction false} CountRowsSum(rows: seq<seq<Cell>>)
    requires forall i | 0 <= i < |rows| :: |rows[i]| == NCOL
    ensures CountRows(rows, EMPTY) + CountRows(rows, P1) + CountRows(rows, P2) == NCOL * |rows|
  {
    if rows != [] {
      RowCountsSum(rows[0]);
      CountRowsSum(rows[1..]);
    }
  }

  /** Every one of the 42 cells is EMPTY, P1 or P2. */
  lemma CountsSum(g: Grid)
    ensures Count(g, EMPTY) + Count(g, P1) + Count(g, P2) == NROW * NCOL
  {
    CountRowsSum(g);
  }

  /** The empty grid holds no pieces. */
  lemma EmptyGridCounts()
    ensures Count(EmptyGrid(), P1) == 0 && Count(EmptyGrid(), P2) == 0
  {
    var g := EmptyGrid();
    forall i | 0 <= i < NROW ensures multiset(g[i])[P1] == 0 && multiset(g[i])[P2] == 0 {
      assert forall k | 0 <= k < |g[i]| :: g[i][k] == EMPTY;
    }
    EmptyRowsCount(g);
  }

  lemma {:induction false} EmptyRowsCount(rows: seq<seq<Cell>>)
    requires forall i | 0 <= i < |rows| :: multiset(rows[i])[P1] == 0 && multiset(rows[i])[P2] == 0
    ensures CountRows(rows, P1) == 0 && CountRows(rows, P2) == 0
  {
    if rows != [] {
      EmptyRowsCount(rows[1..]);
    }
  }

  // ---------------------------------------------------------------- gravity

  /** Non-empty cells of every column are contiguous from the bottom row up. */
  ghost predicate Gravity(g: Grid) {
    forall r, c {:trigger g[r][c]} | 0 <= r < NROW - 1 && 0 <= c < NCOL :: g[r][c] != EMPTY ==> g[r + 1][c] != EMPTY
  }

  // ---------------------------------------------------------------- drop

  /** The highest-index EMPTY row of column `col` among rows 0..row, found by
      the downward-counting row loop of both rules engines. */
  function LowestEmptyFrom(g: Grid, col: int, row: int): (r: Option<int>)
    requires 0 <= col < NCOL && -1 <= row < NROW
    ensures r.Some? ==> 0 <= r.value <= row && g[r.value][col] == EMPTY
    ensures r.Some? ==> forall k | r.value < k <= row :: g[k][col] != EMPTY
    ensures r.None? ==> forall k | 0 <= k <= row :: g[k][col] != EMPTY
    decreases row + 1
  {
    if row < 0 then None
    else if g[row][col] == EMPTY then Some(row)
    else LowestEmptyFrom(g, col, row - 1)
  }

  /** `g'` is `g` after a piece `p` fell into column `col`: the lowest EMPTY
      cell of the column now holds `p` and nothing else changed; a full column
      is left as it was. */
  ghost predicate DroppedInto(g: Grid, g': Grid, col: int, p: Cell)
    requires 0 <= col < NCOL
  {
    || ((forall k | 0 <= k < NROW :: g[k][col] != EMPTY) && g' == g)
    || PlacedAt(g, g', col, p)
  }

  /** The drop landed: `g'` is `g` with the lowest EMPTY cell of column
      `col` set to `p`. */
  ghost predicate PlacedAt(g: Grid, g': Grid, col: int, p: Cell)
    requires 0 <= col < NCOL
  {
    exists row | 0 <= row < NROW ::
      && g[row][col] == EMPTY
      && (forall k | row < k < NROW :: g[k][col] != EMPTY)
      && g' == SetCell(g, row, col, p)
  }

  /** Drop `p` into column `col`: rows are visited from NROW - 1 down to 0 and
      the first EMPTY one receives the piece. */
  function Drop(g: Grid, col: int, p: Cell): (g': Grid)
    requires 0 <= col < NCOL
    ensures DroppedInto(g, g', col, p)
  {
    match LowestEmptyFrom(g, col, NROW - 1)
    case None => g
    case Some(row) => SetCell(g, row, col, p)
  }

  /** With the top cell of the column EMPTY, the drop lands. */
  lemma DropLands(g: Grid, col: int, p: Cell)
    requires 0 <= col < NCOL && g[0][col] == EMPTY
    ensures PlacedAt(g, Drop(g, col, p), col, p)
  {
  }

  /** With the top cell of the column EMPTY, exactly one EMPTY
      cell of that column becomes `p`, so the count of `p` grows by one and
      the EMPTY count shrinks by one. */
  lemma DropCounts(g: Grid, col: int, p: Cell)
    requires 0 <= col < NCOL && g[0][col] == EMPTY && p != EMPTY
    ensures Count(Drop(g, col, p), p) == Count(g, p) + 1
    ensures Count(Drop(g, col, p), EMPTY) == Count(g, EMPTY) - 1
    ensures forall w: Cell | w != p && w != EMPTY :: Count(Drop(g, col, p), w) == Count(g, w)
  {
    var row := LowestEmptyFrom(g, col, NROW - 1).value;
    forall w: Cell ensures Count(Drop(g, col, p), w)
                        == Count(g, w) - (if w == EMPTY then 1 else 0) + (if p == w then 1 else 0) {
      SetCellCount(g, row, col, p, w);
    }
    SetCellCount(g, row, col, EMPTY, EMPTY);
  }

  /** The landing cell is unique: a grid in which `p` was placed into `col`
      is the drop of `p` into `col`. */
  lemma PlacedAtIsDrop(g: Grid, g': Grid, col: int, p: Cell)
    requires 0 <= col < NCOL && PlacedAt(g, g', col, p)
    ensures g' == Drop(g, col, p)
  {
    var row :| 0 <= row < NROW && g[row][col] == EMPTY
      && (forall k | row < k < NROW :: g[k][col] != EMPTY) && g' == SetCell(g, row, col, p);
    var found := LowestEmptyFrom(g, col, NROW - 1);
    assert found.Some? && found.value == row;
  }

  /** A drop keeps the gravity invariant, whatever the piece. */
  lemma DropKeepsGravity(g: Grid, col: int, p: Cell)
    requires 0 <= col < NCOL && Gravity(g)
    ensures Gravity(Drop(g, col, p))
  {
    if p == EMPTY {
      DropEmptyUnchanged(g, col);
    }
  }

  /** Dropping EMPTY writes EMPTY over an EMPTY cell: the grid is unchanged. */
  lemma DropEmptyUnchanged(g: Grid, col: int)
    requires 0 <= col < NCOL
    ensures Drop(g, col, EMPTY) == g
  {
    match LowestEmptyFrom(g, col, NROW - 1)
    case None =>
    case Some(row) =>
      assert g[row][col := EMPTY] == g[row];
  }

  // ---------------------------------------------------------------- windows

  /** Four cells starting at (r, c) and stepping by (dr, dc) are on the grid
      and all hold `cp`. */
  predicate WindowAt(g: Grid, r: int, c: int, dr: int, dc: int, cp: int) {
    && InBounds(r, c)
    && InBounds(r + 3 * dr, c + 3 * dc)
    && InBounds(r + dr, c + dc)
    && InBounds(r + 2 * dr, c + 2 * dc)
    && g[r][c] == cp
    && g[r + dr][c + dc] == cp
    && g[r + 2 * dr][c + 2 * dc] == cp
    && g[r + 3 * dr][c + 3 * dc] == cp
  }

  /** Four in a row down a column. */
  predicate VerticalFour(g: Grid, cp: int) {
    exists r, c | 0 <= r < NROW && 0 <= c < NCOL :: WindowAt(g, r, c, 1, 0, cp)
  }

  /** Four in a row along a row. */
  predicate HorizontalFour(g: Grid, cp: int) {
    exists r, c | 0 <= r < NROW && 0 <= c < NCOL :: WindowAt(g, r, c, 0, 1, cp)
  }

  /** Four in a row going down and to the left. */
  predicate FallingFour(g: Grid, cp: int) {
    exists r, c | 0 <= r < NROW && 0 <= c < NCOL :: WindowAt(g, r, c, 1, -1, cp)
  }

  /** Four in a row going down and to the right. */
  predicate RisingFour(g: Grid, cp: int) {
    exists r, c | 0 <= r < NROW && 0 <= c < NCOL :: WindowAt(g, r, c, 1, 1, cp)
  }

  /** `cp` holds four consecutive cells in some column, row or diagonal. */
  predicate FourInARow(g: Grid, cp: int) {
    VerticalFour(g, cp) || HorizontalFour(g, cp) || FallingFour(g, cp) || RisingFour(g, cp)
  }
}
