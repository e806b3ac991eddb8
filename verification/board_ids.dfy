/** The legacy engine's board identifiers: the grid flattened row by row and
    read as a 42-digit base-3 numeral, its decoder, and left-right mirroring
    of grids and identifiers. */
module BoardIds {
  import opened Grids

  const NCELLS: int := NROW * NCOL

  function Pow3(k: nat): (p: nat)
    ensures p >= 1
  {
    if k == 0 then 1 else 3 * Pow3(k - 1)
  }

  /** 3^42: one more than the largest board identifier. */
  const ID_BOUND: nat := Pow3(42)

  /** 3^41: from this magnitude on, the base-3 text of a negative identifier,
      minus sign included, is longer than 42 characters. */
  const NEG_ID_BOUND: int := Pow3(41)

  // ------------------------------------------------------------ digits

  /** The value of a base-3 numeral, most significant digit first. */
  function FromDigits(ds: seq<Cell>): (n: nat)
    ensures n < Pow3(|ds|)
  {
    if |ds| == 0 then 0 else FromDigits(ds[..|ds| - 1]) * 3 + ds[|ds| - 1]
  }

  /** The `k` lowest base-3 digits of `n`, most significant first, padded
      with leading zeros. */
  function ToDigits(n: nat, k: nat): (ds: seq<Cell>)
    ensures |ds| == k
  {
    if k == 0 then [] else ToDigits(n / 3, k - 1) + [n % 3]
  }

  lemma {:induction false} ToDigitsFromDigits(ds: seq<Cell>)
    ensures ToDigits(FromDigits(ds), |ds|) == ds
  {
    if |ds| > 0 {
      var init := ds[..|ds| - 1];
      ToDigitsFromDigits(init);
      assert FromDigits(ds) / 3 == FromDigits(init);
      assert ds == init + [ds[|ds| - 1]];
    }
  }

  lemma {:induction false} FromDigitsToDigits(n: nat, k: nat)
    requires n < Pow3(k)
    ensures FromDigits(ToDigits(n, k)) == n
  {
    if k > 0 {
      var ds := ToDigits(n, k);
      FromDigitsToDigits(n / 3, k - 1);
      assert ds[..|ds| - 1] == ToDigits(n / 3, k - 1);
    }
  }

  // ------------------------------------------------------------ flattening

  /** The cells in row-major order. */
  function Flatten(g: Grid): (f: seq<Cell>)
    ensures |f| == NCELLS
    ensures forall r, c | InBounds(r, c) :: f[NCOL * r + c] == g[r][c]
  {
    seq(NCELLS, i requires 0 <= i < NCELLS => g[i / NCOL][i % NCOL])
  }

  /** Rows of seven read back from a row-major sequence of 42 cells. */
  function Unflatten(f: seq<Cell>): (g: Grid)
    requires |f| == NCELLS
    ensures forall r, c | InBounds(r, c) :: g[r][c] == f[NCOL * r + c]
  {
    seq(NROW, r requires 0 <= r < NROW => f[NCOL * r .. NCOL * r + NCOL])
  }

  lemma GridExtensionality(g: Grid, h: Grid)
    requires forall r, c | InBounds(r, c) :: g[r][c] == h[r][c]
    ensures g == h
  {
    forall r | 0 <= r < NROW ensures g[r] == h[r] {
      assert forall c | 0 <= c < NCOL :: g[r][c] == h[r][c];
    }
  }

  lemma UnflattenFlatten(g: Grid)
    ensures Unflatten(Flatten(g)) == g
  {
    GridExtensionality(Unflatten(Flatten(g)), g);
  }

  lemma FlattenUnflatten(f: seq<Cell>)
    requires |f| == NCELLS
    ensures Flatten(Unflatten(f)) == f
  {
    forall i | 0 <= i < NCELLS ensures Flatten(Unflatten(f))[i] == f[i] {
      FlattenUnflattenAt(f, i);
    }
  }

  lemma FlattenUnflattenAt(f: seq<Cell>, i: int)
    requires |f| == NCELLS && 0 <= i < NCELLS
    ensures Flatten(Unflatten(f))[i] == f[i]
  {
    var r, c := i / NCOL, i % NCOL;
    assert i == NCOL * r + c && InBounds(r, c);
  }

  // ------------------------------------------------------------ identifiers

  /** The board identifier: the flattened grid read as a base-3 numeral. */
  function GetBoardId(g: Grid): (bid: nat)
    ensures bid < ID_BOUND
  {
    FromDigits(Flatten(g))
  }

  /** The grid whose identifier is `bid`. The base-3 text of the identifier
      is copied into a 42-cell array from its last character back: text
      longer than 42 characters overruns the array, and the minus sign of a
      shorter negative identifier is not a digit. */
  function GetBoardFromId(bid: int): (r: Result<Grid>)
    ensures r.Success? <==> 0 <= bid < ID_BOUND
    ensures -NEG_ID_BOUND < bid < 0 ==> r == Failure(ValueError)
    ensures bid <= -NEG_ID_BOUND || bid >= ID_BOUND ==> r == Failure(IndexError)
  {
    if bid >= ID_BOUND || bid <= -NEG_ID_BOUND then Failure(IndexError)
    else if bid < 0 then Failure(ValueError)
    else Success(Unflatten(ToDigits(bid, NCELLS)))
  }

  /** Decoding an identifier gives back the grid it was computed from. */
  lemma DecodeEncode(g: Grid)
    ensures GetBoardFromId(GetBoardId(g)) == Success(g)
  {
    ToDigitsFromDigits(Flatten(g));
    UnflattenFlatten(g);
  }

  /** Encoding the decoded grid gives back every identifier in range. */
  lemma EncodeDecode(bid: int)
    requires 0 <= bid < ID_BOUND
    ensures GetBoardFromId(bid).Success?
    ensures GetBoardId(GetBoardFromId(bid).value) == bid
  {
    FlattenUnflatten(ToDigits(bid, NCELLS));
    FromDigitsToDigits(bid, NCELLS);
  }

  /** Distinct grids have distinct identifiers. */
  lemma BoardIdInjective(g: Grid, h: Grid)
    requires GetBoardId(g) == GetBoardId(h)
    ensures g == h
  {
    DecodeEncode(g);
    DecodeEncode(h);
  }

  /** The empty grid has identifier 0. */
  lemma EmptyGridId()
    ensures GetBoardId(EmptyGrid()) == 0
  {
    var g := EmptyGrid();
    var f := Flatten(g);
    assert f == seq(NCELLS, _ => 0);
    assert ToDigits(0, NCELLS) == f by {
      ZeroDigits(NCELLS);
    }
    FromDigitsToDigits(0, NCELLS);
  }

  lemma {:induction false} ZeroDigits(k: nat)
    ensures ToDigits(0, k) == seq(k, _ => 0)
  {
    if k > 0 {
      ZeroDigits(k - 1);
    }
  }

  // ------------------------------------------------------------ mirroring

  /** The grid flipped left to right: column c trades places with column 6 - c. */
  function GetMirroredBoard(g: Grid): (m: Grid)
    ensures forall r, c | InBounds(r, c) :: m[r][c] == g[r][NCOL - 1 - c]
  {
    seq(NROW, r requires 0 <= r < NROW =>
      seq(NCOL, c requires 0 <= c < NCOL => g[r][NCOL - 1 - c]))
  }

  /** Mirroring twice gives the original grid. */
  lemma MirrorInvolution(g: Grid)
    ensures GetMirroredBoard(GetMirroredBoard(g)) == g
  {
    GridExtensionality(GetMirroredBoard(GetMirroredBoard(g)), g);
  }

  function GetMirroredBoardId(g: Grid): (mbid: nat)
    ensures mbid < ID_BOUND
    ensures GetBoardFromId(mbid) == Success(GetMirroredBoard(g))
  {
    DecodeEncode(GetMirroredBoard(g));
    GetBoardId(GetMirroredBoard(g))
  }

  function GetMirroredBoardFromId(bid: int): (r: Result<Grid>)
    ensures r.Success? <==> 0 <= bid < ID_BOUND
    ensures r.Success? ==> GetMirroredBoard(r.value) == GetBoardFromId(bid).value
  {
    match GetBoardFromId(bid)
    case Failure(e) => Failure(e)
    case Success(g) => MirrorInvolution(g); Success(GetMirroredBoard(g))
  }

  function GetMirroredIdFromId(bid: int): (r: Result<nat>)
    ensures r.Success? <==> 0 <= bid < ID_BOUND
    ensures r.Success? ==> r.value < ID_BOUND
  {
    match GetMirroredBoardFromId(bid)
    case Failure(e) => Failure(e)
    case Success(m) => Success(GetBoardId(m))
  }

  /** The mirrored identifier computed from an identifier is the identifier of
      the mirrored grid. */
  lemma MirroredIdFromIdAgrees(g: Grid)
    ensures GetMirroredIdFromId(GetBoardId(g)) == Success(GetMirroredBoardId(g))
  {
    DecodeEncode(g);
  }

  /** Mirroring identifiers is an involution on the identifier range. */
  lemma MirroredIdInvolution(bid: int)
    requires 0 <= bid < ID_BOUND
    ensures GetMirroredIdFromId(GetMirroredIdFromId(bid).value) == Success(bid)
  {
    EncodeDecode(bid);
    var g := GetBoardFromId(bid).value;
    MirroredIdFromIdAgrees(g);
    MirroredIdFromIdAgrees(GetMirroredBoard(g));
    MirrorInvolution(g);
  }

  /** A grid shares its identifier with its mirror image exactly when it is
      left-right symmetric. */
  lemma MirrorIdFixedIffSymmetric(g: Grid)
    ensures GetMirroredBoardId(g) == GetBoardId(g) <==> GetMirroredBoard(g) == g
  {
    if GetMirroredBoardId(g) == GetBoardId(g) {
      BoardIdInjective(GetMirroredBoard(g), g);
    }
  }

  /** Mirroring maps four-in-a-row windows onto windows. */
  lemma MirrorKeepsFour(g: Grid, cp: int)
    ensures FourInARow(GetMirroredBoard(g), cp) <==> FourInARow(g, cp)
  {
    MirrorInvolution(g);
    if FourInARow(g, cp) {
      MirrorFourOneWay(g, cp);
    }
    if FourInARow(GetMirroredBoard(g), cp) {
      MirrorFourOneWay(GetMirroredBoard(g), cp);
    }
  }

  lemma MirrorFourOneWay(g: Grid, cp: int)
    requires FourInARow(g, cp)
    ensures FourInARow(GetMirroredBoard(g), cp)
  {
    if VerticalFour(g, cp) {
      MirrorVertical(g, cp);
    } else if HorizontalFour(g, cp) {
      MirrorHorizontal(g, cp);
    } else if FallingFour(g, cp) {
      MirrorFalling(g, cp);
    } else {
      MirrorRising(g, cp);
    }
  }

  lemma MirrorVertical(g: Grid, cp: int)
    requires VerticalFour(g, cp)
    ensures VerticalFour(GetMirroredBoard(g), cp)
  {
    var r, c :| 0 <= r < NROW && 0 <= c < NCOL && WindowAt(g, r, c, 1, 0, cp);
    MirrorWindow(g, r, c, 1, 0, cp);
    assert WindowAt(GetMirroredBoard(g), r, NCOL - 1 - c, 1, 0, cp);
  }

  lemma MirrorHorizontal(g: Grid, cp: int)
    requires HorizontalFour(g, cp)
    ensures HorizontalFour(GetMirroredBoard(g), cp)
  {
    var r, c :| 0 <= r < NROW && 0 <= c < NCOL && WindowAt(g, r, c, 0, 1, cp);
    MirrorWindow(g, r, c, 0, 1, cp);
    assert WindowAt(GetMirroredBoard(g), r, NCOL - 1 - c - 3, 0, 1, cp);
  }

  lemma MirrorFalling(g: Grid, cp: int)
    requires FallingFour(g, cp)
    ensures RisingFour(GetMirroredBoard(g), cp)
  {
    var r, c :| 0 <= r < NROW && 0 <= c < NCOL && WindowAt(g, r, c, 1, -1, cp);
    MirrorWindow(g, r, c, 1, -1, cp);
    assert WindowAt(GetMirroredBoard(g), r, NCOL - 1 - c, 1, 1, cp);
  }

  lemma MirrorRising(g: Grid, cp: int)
    requires RisingFour(g, cp)
    ensures FallingFour(GetMirroredBoard(g), cp)
  {
    var r, c :| 0 <= r < NROW && 0 <= c < NCOL && WindowAt(g, r, c, 1, 1, cp);
    MirrorWindow(g, r, c, 1, 1, cp);
    assert WindowAt(GetMirroredBoard(g), r, NCOL - 1 - c, 1, -1, cp);
  }

  /** A window of the grid is a window of the mirror image, with the column
      step reversed. */
  lemma MirrorWindow(g: Grid, r: int, c: int, dr: int, dc: int, cp: int)
    requires WindowAt(g, r, c, dr, dc, cp)
    ensures WindowAt(GetMirroredBoard(g), r, NCOL - 1 - c, dr, -dc, cp)
  {
  }
}
