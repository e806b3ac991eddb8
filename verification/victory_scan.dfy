/** The run-length victory scans shared, line for line, by both rules
    engines: every column, every row, and the diagonals that start at six
    fixed points along the top row and the side edges. The scans are proved
    to find exactly the four-cell windows of the `FourInARow` specification. */
module VictoryScan {
  import opened Grids

  /** Start points of the down-left diagonals (row + 1, column - 1 per step). */
  const SDIAGS: seq<(int, int)> := [(0, 3), (0, 4), (0, 5), (0, 6), (1, 6), (2, 6)]
  /** Start points of the down-right diagonals (row + 1, column + 1 per step). */
  const ADIAGS: seq<(int, int)> := [(0, 3), (0, 2), (0, 1), (0, 0), (1, 0), (2, 0)]

  /** Entries k .. k + 3 of `line` all equal `cp`. */
  predicate FourAt(line: seq<Cell>, k: int, cp: int) {
    0 <= k && k + 4 <= |line| &&
    line[k] == cp && line[k + 1] == cp && line[k + 2] == cp && line[k + 3] == cp
  }

  /** Four consecutive entries of `line` equal `cp`. */
  predicate HasFour(line: seq<Cell>, cp: int) {
    exists k | 0 <= k < |line| :: FourAt(line, k, cp)
  }

  /** Column `c`, top to bottom. */
  function Column(g: Grid, c: int): (line: seq<Cell>)
    requires 0 <= c < NCOL
    ensures |line| == NROW && forall j | 0 <= j < NROW :: line[j] == g[j][c]
  {
    seq(NROW, j requires 0 <= j < NROW => g[j][c])
  }

  /** How many cells the walk from (r, c) visits while row < NROW and
      column >= 0, stepping one row down and one column left. */
  function SDiagLength(r: int, c: int): (n: nat)
    requires 0 <= r && c < NCOL
    ensures n > 0 ==> r + n <= NROW && c - n >= -1
  {
    if r >= NROW || c < 0 then 0
    else if NROW - r < c + 1 then NROW - r
    else c + 1
  }

  /** How many cells the walk from (r, c) visits while row < NROW and
      column < NCOL, stepping one row down and one column right. */
  function ADiagLength(r: int, c: int): (n: nat)
    requires 0 <= r && 0 <= c
    ensures n > 0 ==> r + n <= NROW && c + n <= NCOL
  {
    if r >= NROW || c >= NCOL then 0
    else if NROW - r < NCOL - c then NROW - r
    else NCOL - c
  }

  /** The cells of the down-left walk from (r, c), in visiting order. */
  function SDiag(g: Grid, r: int, c: int): (line: seq<Cell>)
    requires 0 <= r && c < NCOL
    ensures |line| == SDiagLength(r, c)
    ensures forall k | 0 <= k < |line| :: line[k] == g[r + k][c - k]
  {
    seq(SDiagLength(r, c), k requires 0 <= k < SDiagLength(r, c) => g[r + k][c - k])
  }

  /** The cells of the down-right walk from (r, c), in visiting order. */
  function ADiag(g: Grid, r: int, c: int): (line: seq<Cell>)
    requires 0 <= r && 0 <= c
    ensures |line| == ADiagLength(r, c)
    ensures forall k | 0 <= k < |line| :: line[k] == g[r + k][c + k]
  {
    seq(ADiagLength(r, c), k requires 0 <= k < ADiagLength(r, c) => g[r + k][c + k])
  }

  /** The run-length loop over one line: a counter of consecutive `cp` cells,
      reset by any other value, reporting as soon as it reaches four. */
  method ScanLine(line: seq<Cell>, cp: int) returns (found: bool)
    ensures found <==> HasFour(line, cp)
  {
    var num := 0;
    var j := 0;
    while j < |line|
      invariant 0 <= num <= j <= |line| && num < 4
      invariant forall k | j - num <= k < j :: line[k] == cp
      invariant num < j ==> line[j - num - 1] != cp
      invariant forall k | 0 <= k && k + 4 <= j :: !FourAt(line, k, cp)
    {
      if line[j] == cp {
        num := num + 1;
      } else {
        num := 0;
      }
      j := j + 1;
      if num == 4 {
        assert FourAt(line, j - 4, cp);
        return true;
      }
    }
    return false;
  }

  // ------------------------------------------------ line families = windows

  /** The i-th entry of SDIAGS in closed form. */
  lemma SDiagStart(i: int)
    requires 0 <= i < |SDIAGS|
    ensures SDIAGS[i] == if i <= 3 then (0, i + 3) else (i - 3, NCOL - 1)
  {
  }

  /** The i-th entry of ADIAGS in closed form. */
  lemma ADiagStart(i: int)
    requires 0 <= i < |ADIAGS|
    ensures ADIAGS[i] == if i <= 3 then (0, 3 - i) else (i - 3, 0)
  {
  }

  lemma ColumnFourIsVertical(g: Grid, i: int, cp: int)
    requires 0 <= i < NCOL && HasFour(Column(g, i), cp)
    ensures VerticalFour(g, cp)
  {
    var line := Column(g, i);
    var k :| 0 <= k < |line| && FourAt(line, k, cp);
    assert WindowAt(g, k, i, 1, 0, cp);
  }

  lemma VerticalIsColumnFour(g: Grid, r: int, c: int, cp: int)
    requires 0 <= r < NROW && 0 <= c < NCOL && WindowAt(g, r, c, 1, 0, cp)
    ensures HasFour(Column(g, c), cp)
  {
    assert FourAt(Column(g, c), r, cp);
  }

  lemma RowFourIsHorizontal(g: Grid, i: int, cp: int)
    requires 0 <= i < NROW && HasFour(g[i], cp)
    ensures HorizontalFour(g, cp)
  {
    var k :| 0 <= k < |g[i]| && FourAt(g[i], k, cp);
    assert WindowAt(g, i, k, 0, 1, cp);
  }

  lemma HorizontalIsRowFour(g: Grid, r: int, c: int, cp: int)
    requires 0 <= r < NROW && 0 <= c < NCOL && WindowAt(g, r, c, 0, 1, cp)
    ensures HasFour(g[r], cp)
  {
    assert FourAt(g[r], c, cp);
  }

  /** A run of four on the down-left walk from (r0, c0) is a window. */
  lemma SDiagRunIsWindow(g: Grid, r0: int, c0: int, k: int, cp: int)
    requires 0 <= r0 && c0 < NCOL && FourAt(SDiag(g, r0, c0), k, cp)
    ensures WindowAt(g, r0 + k, c0 - k, 1, -1, cp)
  {
    var line := SDiag(g, r0, c0);
    assert line[k] == g[r0 + k][c0 - k] && line[k + 3] == g[r0 + k + 3][c0 - k - 3];
  }

  /** A run of four on the down-right walk from (r0, c0) is a window. */
  lemma ADiagRunIsWindow(g: Grid, r0: int, c0: int, k: int, cp: int)
    requires 0 <= r0 && 0 <= c0 && FourAt(ADiag(g, r0, c0), k, cp)
    ensures WindowAt(g, r0 + k, c0 + k, 1, 1, cp)
  {
    var line := ADiag(g, r0, c0);
    assert line[k] == g[r0 + k][c0 + k] && line[k + 3] == g[r0 + k + 3][c0 + k + 3];
  }

  lemma SDiagFourIsFalling(g: Grid, i: int, cp: int)
    requires 0 <= i < |SDIAGS| && HasFour(SDiag(g, SDIAGS[i].0, SDIAGS[i].1), cp)
    ensures FallingFour(g, cp)
  {
    SDiagStart(i);
    var r0, c0 := SDIAGS[i].0, SDIAGS[i].1;
    var k :| 0 <= k < |SDiag(g, r0, c0)| && FourAt(SDiag(g, r0, c0), k, cp);
    SDiagRunIsWindow(g, r0, c0, k, cp);
    assert InBounds(r0 + k, c0 - k);
  }

  lemma FallingIsSDiagFour(g: Grid, r: int, c: int, cp: int)
    requires 0 <= r < NROW && 0 <= c < NCOL && WindowAt(g, r, c, 1, -1, cp)
    ensures 0 <= r + c - 3 < |SDIAGS|
    ensures HasFour(SDiag(g, SDIAGS[r + c - 3].0, SDIAGS[r + c - 3].1), cp)
  {
    var i := r + c - 3;
    SDiagStart(i);
    var r0, c0 := SDIAGS[i].0, SDIAGS[i].1;
    assert SDiagLength(r0, c0) >= r - r0 + 4;
    assert FourAt(SDiag(g, r0, c0), r - r0, cp);
  }

  lemma ADiagFourIsRising(g: Grid, i: int, cp: int)
    requires 0 <= i < |ADIAGS| && HasFour(ADiag(g, ADIAGS[i].0, ADIAGS[i].1), cp)
    ensures RisingFour(g, cp)
  {
    ADiagStart(i);
    var r0, c0 := ADIAGS[i].0, ADIAGS[i].1;
    var k :| 0 <= k < |ADiag(g, r0, c0)| && FourAt(ADiag(g, r0, c0), k, cp);
    ADiagRunIsWindow(g, r0, c0, k, cp);
    assert InBounds(r0 + k, c0 + k);
  }

  lemma RisingIsADiagFour(g: Grid, r: int, c: int, cp: int)
    requires 0 <= r < NROW && 0 <= c < NCOL && WindowAt(g, r, c, 1, 1, cp)
    ensures 0 <= 3 - (c - r) < |ADIAGS|
    ensures HasFour(ADiag(g, ADIAGS[3 - (c - r)].0, ADIAGS[3 - (c - r)].1), cp)
  {
    var i := 3 - (c - r);
    ADiagStart(i);
    var r0, c0 := ADIAGS[i].0, ADIAGS[i].1;
    assert ADiagLength(r0, c0) >= r - r0 + 4;
    assert FourAt(ADiag(g, r0, c0), r - r0, cp);
  }

  // ------------------------------------------------ the scans of each family

  /** Run-length scan of every column: finds a run exactly when `cp` has four
      in a column. */
  method ScanColumns(g: Grid, cp: int) returns (found: bool)
    ensures found <==> VerticalFour(g, cp)
  {
    var i := 0;
    while i < NCOL
      invariant 0 <= i <= NCOL
      invariant forall i' | 0 <= i' < i :: !HasFour(Column(g, i'), cp)
    {
      found := ScanLine(Column(g, i), cp);
      if found {
        ColumnFourIsVertical(g, i, cp);
        return;
      }
      i := i + 1;
    }
    if VerticalFour(g, cp) {
      var r, c :| 0 <= r < NROW && 0 <= c < NCOL && WindowAt(g, r, c, 1, 0, cp);
      VerticalIsColumnFour(g, r, c, cp);
    }
    return false;
  }

  /** Run-length scan of every row: finds a run exactly when `cp` has four
      in a row of the grid. */
  method ScanRows(g: Grid, cp: int) returns (found: bool)
    ensures found <==> HorizontalFour(g, cp)
  {
    var i := 0;
    while i < NROW
      invariant 0 <= i <= NROW
      invariant forall i' | 0 <= i' < i :: !HasFour(g[i'], cp)
    {
      found := ScanLine(g[i], cp);
      if found {
        RowFourIsHorizontal(g, i, cp);
        return;
      }
      i := i + 1;
    }
    if HorizontalFour(g, cp) {
      var r, c :| 0 <= r < NROW && 0 <= c < NCOL && WindowAt(g, r, c, 0, 1, cp);
      HorizontalIsRowFour(g, r, c, cp);
    }
    return false;
  }

  /** Run-length scan of the six down-left diagonals from SDIAGS: finds a run
      exactly when `cp` has four on some down-left diagonal. */
  method ScanSDiags(g: Grid, cp: int) returns (found: bool)
    ensures found <==> FallingFour(g, cp)
  {
    var i := 0;
    while i < |SDIAGS|
      invariant 0 <= i <= |SDIAGS|
      invariant forall i' | 0 <= i' < i :: !HasFour(SDiag(g, SDIAGS[i'].0, SDIAGS[i'].1), cp)
    {
      found := ScanLine(SDiag(g, SDIAGS[i].0, SDIAGS[i].1), cp);
      if found {
        SDiagFourIsFalling(g, i, cp);
        return;
      }
      i := i + 1;
    }
    if FallingFour(g, cp) {
      var r, c :| 0 <= r < NROW && 0 <= c < NCOL && WindowAt(g, r, c, 1, -1, cp);
      FallingIsSDiagFour(g, r, c, cp);
    }
    return false;
  }

  /** Run-length scan of the six down-right diagonals from ADIAGS: finds a run
      exactly when `cp` has four on some down-right diagonal. */
  method ScanADiags(g: Grid, cp: int) returns (found: bool)
    ensures found <==> RisingFour(g, cp)
  {
    var i := 0;
    while i < |ADIAGS|
      invariant 0 <= i <= |ADIAGS|
      invariant forall i' | 0 <= i' < i :: !HasFour(ADiag(g, ADIAGS[i'].0, ADIAGS[i'].1), cp)
    {
      found := ScanLine(ADiag(g, ADIAGS[i].0, ADIAGS[i].1), cp);
      if found {
        ADiagFourIsRising(g, i, cp);
        return;
      }
      i := i + 1;
    }
    if RisingFour(g, cp) {
      var r, c :| 0 <= r < NROW && 0 <= c < NCOL && WindowAt(g, r, c, 1, 1, cp);
      RisingIsADiagFour(g, r, c, cp);
    }
    return false;
  }

  /** The scan for one player: columns, then rows, then the down-left and the
      down-right diagonals, stopping at the first run of four. It finds a run
      exactly when the player has four in a row. */
  method ScanForFour(g: Grid, cp: int) returns (found: bool)
    ensures found <==> FourInARow(g, cp)
  {
    found := ScanColumns(g, cp);
    if found {
      return;
    }
    found := ScanRows(g, cp);
    if found {
      return;
    }
    found := ScanSDiags(g, cp);
    if found {
      return;
    }
    found := ScanADiags(g, cp);
  }
}
