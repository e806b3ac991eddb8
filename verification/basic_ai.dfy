/** The search AI: the position evaluation, the game-tree node whose children
    are the boards after each legal move, depth-limited minimax, and the
    move choice that scores every legal move with minimax and keeps the
    first best one. */
module BasicAi {
  import opened Grids
  import Boards
  import Heuristics

  /** The score of a won position. */
  const WIN: int := 1000

  /** The score `get_move` starts from, below every reachable score. */
  const START_SCORE: int := -100000000

  // ------------------------------------------------------------ evaluate

  /** `evaluate`: 0 for a draw, WIN when the victor is the perspective value,
      -WIN for any other victor, and the heuristic while the game is open.
      The perspective is a plain integer because minimax passes True (1) and
      False (0) as well as player numbers. */
  function Evaluate(g: Grid, maximizingPlayer: int): (value: int)
    ensures -WIN <= value <= WIN
    ensures Boards.CheckForVictory(g) == Boards.Decided(EMPTY) ==> value == 0
    ensures value == WIN <==>
      var v := Boards.CheckForVictory(g); v.Decided? && v.who != EMPTY && v.who == maximizingPlayer
    ensures value == -WIN <==>
      var v := Boards.CheckForVictory(g); v.Decided? && v.who != EMPTY && v.who != maximizingPlayer
    ensures Boards.CheckForVictory(g) == Boards.Undecided ==> value == Heuristics.Heuristic(g, maximizingPlayer)
  {
    var victor := Boards.CheckForVictory(g);
    if victor == Boards.Decided(EMPTY) then 0
    else if victor.Decided? && victor.who == maximizingPlayer then WIN
    else if victor.Decided? then -WIN
    else Heuristics.Heuristic(g, maximizingPlayer)
  }

  /** The two player perspectives score every grid with opposite signs. */
  lemma EvaluateAntisymmetric(g: Grid)
    ensures Evaluate(g, P1) == -Evaluate(g, P2)
  {
    Heuristics.HeuristicAntisymmetric(g);
  }

  /** A grid with a legal move left and four in a row for either player is
      a loss for the perspective False (0): no victor equals it. */
  lemma EvaluateFromFalse(g: Grid)
    requires Boards.GetMoveList(g) != []
    requires FourInARow(g, P1) || FourInARow(g, P2)
    ensures Evaluate(g, EMPTY) == -WIN
  {
  }

  // ------------------------------------------------------------ nodes

  /** A game-tree node: a board. */
  datatype Node = Node(board: Boards.Board)

  /** A node is terminal when the victory check reports a result: no column
      is open, or either player has four in a row. */
  function IsTerminal(n: Node): (t: bool)
    ensures t <==> Boards.GetMoveList(n.board.state) == []
                   || FourInARow(n.board.state, P1) || FourInARow(n.board.state, P2)
  {
    Boards.CheckForVictory(n.board.state) != Boards.Undecided
  }

  /** The board after `col` is played on a clone of `b`: one EMPTY cell
      fewer. */
  function Play(b: Boards.Board, col: int): (b': Boards.Board)
    requires Boards.IsLegalMove(b.state, col)
    ensures Count(b'.state, EMPTY) + 1 == Count(b.state, EMPTY)
  {
    var c := Boards.Clone(b);
    DropCounts(b.state, col, c.currPlayer);
    Boards.MakeMove(c, col).value
  }

  /** The piece played is the one of the player the clone has to move, and
      it lands on the lowest EMPTY cell of the column; the player to move
      and the counter are those a clone of the result infers. */
  lemma PlayPlaces(b: Boards.Board, col: int)
    requires Boards.IsLegalMove(b.state, col)
    ensures PlacedAt(b.state, Play(b, col).state, col, Boards.Clone(b).currPlayer)
    ensures Play(b, col).currPlayer == Boards.Toggle(Boards.Clone(b).currPlayer)
    ensures Play(b, col).nmoves == Boards.Clone(b).nmoves + 1
  {
  }

  /** `children`: one node per legal move, in ascending column order, each
      holding the board after that move is played on a clone. Every child
      has one EMPTY cell fewer than its parent. */
  function Children(n: Node): (cs: seq<Node>)
    ensures |cs| == |Boards.GetMoveList(n.board.state)|
    ensures forall i | 0 <= i < |cs| :: Count(cs[i].board.state, EMPTY) < Count(n.board.state, EMPTY)
  {
    var moves := Boards.GetMoveList(n.board.state);
    MovesAreLegal(n.board.state);
    var cs := seq(|moves|, i requires 0 <= i < |moves| => Node(Play(n.board, moves[i])));
    PlaysFillCells(n.board, moves, cs);
    cs
  }

  lemma MovesAreLegal(g: Grid)
    ensures forall i | 0 <= i < |Boards.GetMoveList(g)| :: Boards.IsLegalMove(g, Boards.GetMoveList(g)[i])
  {
    var moves := Boards.GetMoveList(g);
    assert forall i | 0 <= i < |moves| :: moves[i] in moves;
  }

  lemma PlaysFillCells(b: Boards.Board, moves: seq<int>, cs: seq<Node>)
    requires |cs| == |moves|
    requires forall i | 0 <= i < |moves| :: Boards.IsLegalMove(b.state, moves[i])
    requires forall i | 0 <= i < |moves| :: cs[i] == Node(Play(b, moves[i]))
    ensures forall i | 0 <= i < |cs| :: Count(cs[i].board.state, EMPTY) < Count(b.state, EMPTY)
  {
    forall i | 0 <= i < |cs| ensures Count(cs[i].board.state, EMPTY) < Count(b.state, EMPTY) {
      assert cs[i].board == Play(b, moves[i]);
    }
  }

  /** The i-th child is the board after the i-th legal column, in ascending
      order, receives a piece of the player a clone of the parent has to
      move. */
  lemma ChildrenFollowMoves(n: Node)
    ensures forall i | 0 <= i < |Children(n)| ::
      var col := Boards.GetMoveList(n.board.state)[i];
      Boards.IsLegalMove(n.board.state, col) &&
      PlacedAt(n.board.state, Children(n)[i].board.state, col, Boards.Clone(n.board).currPlayer)
  {
    var moves := Boards.GetMoveList(n.board.state);
    forall i | 0 <= i < |moves|
      ensures Boards.IsLegalMove(n.board.state, moves[i])
      ensures PlacedAt(n.board.state, Children(n)[i].board.state, moves[i], Boards.Clone(n.board).currPlayer)
    {
      assert moves[i] in moves;
      assert Children(n)[i].board == Play(n.board, moves[i]);
      PlayPlaces(n.board, moves[i]);
    }
  }

  /** A node that is not terminal has a child: the victory check reports
      no result only when a legal move is left. */
  lemma OpenNodeHasChildren(n: Node)
    requires !IsTerminal(n)
    ensures |Children(n)| > 0
  {
  }

  // ------------------------------------------------------------ minimax

  /** A minimax score: the source starts its folds from minus and plus
      infinity. */
  datatype Score = NegInf | Fin(v: int) | PosInf

  predicate Less(a: Score, b: Score) {
    match (a, b)
    case (NegInf, NegInf) => false
    case (NegInf, _) => true
    case (_, PosInf) => a != PosInf
    case (Fin(x), Fin(y)) => x < y
    case _ => false
  }

  /** `max(a, b)`: `a` unless `b` is larger. */
  function Max(a: Score, b: Score): Score {
    if Less(a, b) then b else a
  }

  /** `min(a, b)`: `a` unless `b` is smaller. */
  function Min(a: Score, b: Score): Score {
    if Less(b, a) then b else a
  }

  predicate InRange(s: Score) {
    s.Fin? && -WIN <= s.v <= WIN
  }

  /** `minimax`: the evaluation at depth 0 or at a terminal node; otherwise
      the maximum over the children scored with False when the flag is
      truthy, and the minimum over the children scored with True when it is
      0. A negative depth never reaches 0, so the search runs to the
      terminal nodes; it ends because every move fills a cell. */
  function Minimax(n: Node, depth: int, maximizing: int): (r: Score)
    ensures InRange(r)
    decreases Count(n.board.state, EMPTY), 1
  {
    if depth == 0 || IsTerminal(n) then
      Fin(Evaluate(n.board.state, maximizing))
    else if maximizing != 0 then
      MaxFrom(ChildScores(Children(n), depth - 1, 0, Count(n.board.state, EMPTY)), 0, NegInf)
    else
      MinFrom(ChildScores(Children(n), depth - 1, 1, Count(n.board.state, EMPTY)), 0, PosInf)
  }

  /** The scores of the children, each searched to `depth` with flag
      `maximizing`, in child order. */
  function ChildScores(cs: seq<Node>, depth: int, maximizing: int, bound: nat): (ss: seq<Score>)
    requires forall j | 0 <= j < |cs| :: Count(cs[j].board.state, EMPTY) < bound
    ensures |ss| == |cs|
    ensures forall j | 0 <= j < |ss| :: InRange(ss[j])
    decreases bound, 0
  {
    seq(|cs|, j requires 0 <= j < |cs| => Minimax(cs[j], depth, maximizing))
  }

  /** The maximising loop from score `i` on, with `acc` the maximum so far. */
  function MaxFrom(ss: seq<Score>, i: nat, acc: Score): (r: Score)
    requires i <= |ss| && forall j | 0 <= j < |ss| :: InRange(ss[j])
    requires acc == NegInf || InRange(acc)
    ensures i < |ss| ==> InRange(r)
    ensures i == |ss| ==> r == acc
    decreases |ss| - i
  {
    if i == |ss| then acc else MaxFrom(ss, i + 1, Max(acc, ss[i]))
  }

  /** The minimising loop from score `i` on, with `acc` the minimum so far. */
  function MinFrom(ss: seq<Score>, i: nat, acc: Score): (r: Score)
    requires i <= |ss| && forall j | 0 <= j < |ss| :: InRange(ss[j])
    requires acc == PosInf || InRange(acc)
    ensures i < |ss| ==> InRange(r)
    ensures i == |ss| ==> r == acc
    decreases |ss| - i
  {
    if i == |ss| then acc else MinFrom(ss, i + 1, Min(acc, ss[i]))
  }

  /** The maximising loop ends on a score that bounds every score it saw and
      is either its start value or one of them. */
  lemma {:induction false} MaxFromIsMax(ss: seq<Score>, i: nat, acc: Score)
    requires i < |ss| && forall j | 0 <= j < |ss| :: InRange(ss[j])
    requires acc == NegInf || InRange(acc)
    ensures var r := MaxFrom(ss, i, acc);
      && (forall j | i <= j < |ss| :: ss[j].v <= r.v)
      && (acc.Fin? ==> acc.v <= r.v)
      && (r == acc || exists j | i <= j < |ss| :: r == ss[j])
    decreases |ss| - i
  {
    if i + 1 < |ss| {
      MaxFromIsMax(ss, i + 1, Max(acc, ss[i]));
    }
  }

  /** The minimising loop ends on a score below every score it saw that is
      either its start value or one of them. */
  lemma {:induction false} MinFromIsMin(ss: seq<Score>, i: nat, acc: Score)
    requires i < |ss| && forall j | 0 <= j < |ss| :: InRange(ss[j])
    requires acc == PosInf || InRange(acc)
    ensures var r := MinFrom(ss, i, acc);
      && (forall j | i <= j < |ss| :: r.v <= ss[j].v)
      && (acc.Fin? ==> r.v <= acc.v)
      && (r == acc || exists j | i <= j < |ss| :: r == ss[j])
    decreases |ss| - i
  {
    if i + 1 < |ss| {
      MinFromIsMin(ss, i + 1, Min(acc, ss[i]));
    }
  }

  /** At depth 0 or at a terminal node, minimax is the evaluation of the
      board from the flag's perspective. */
  lemma MinimaxLeaf(n: Node, depth: int, maximizing: int)
    requires depth == 0 || IsTerminal(n)
    ensures Minimax(n, depth, maximizing) == Fin(Evaluate(n.board.state, maximizing))
  {
  }

  /** Minimax at an open node above depth 0 folds its children's scores. */
  lemma MinimaxOpen(n: Node, depth: int, maximizing: int)
    requires depth != 0 && !IsTerminal(n)
    ensures Minimax(n, depth, maximizing) ==
      if maximizing != 0 then MaxFrom(ChildScores(Children(n), depth - 1, 0, Count(n.board.state, EMPTY)), 0, NegInf)
      else MinFrom(ChildScores(Children(n), depth - 1, 1, Count(n.board.state, EMPTY)), 0, PosInf)
  {
  }

  /** At an open node with a truthy flag, minimax is the largest score of
      a child searched one level less deep with flag False. */
  lemma MinimaxMaximizes(n: Node, depth: int, maximizing: int)
    requires depth != 0 && !IsTerminal(n) && maximizing != 0
    ensures var ss := ChildScores(Children(n), depth - 1, 0, Count(n.board.state, EMPTY));
      && (forall j | 0 <= j < |ss| :: ss[j].v <= Minimax(n, depth, maximizing).v)
      && (exists j | 0 <= j < |ss| :: ss[j] == Minimax(n, depth, maximizing))
  {
    var ss := ChildScores(Children(n), depth - 1, 0, Count(n.board.state, EMPTY));
    MinimaxOpen(n, depth, maximizing);
    OpenNodeHasChildren(n);
    MaxFromIsMax(ss, 0, NegInf);
    var r := Minimax(n, depth, maximizing);
    assert r == MaxFrom(ss, 0, NegInf) && r != NegInf;
  }

  /** At an open node with flag False, minimax is the smallest score of a
      child searched one level less deep with flag True. */
  lemma MinimaxMinimizes(n: Node, depth: int)
    requires depth != 0 && !IsTerminal(n)
    ensures var ss := ChildScores(Children(n), depth - 1, 1, Count(n.board.state, EMPTY));
      && (forall j | 0 <= j < |ss| :: Minimax(n, depth, 0).v <= ss[j].v)
      && (exists j | 0 <= j < |ss| :: ss[j] == Minimax(n, depth, 0))
  {
    var ss := ChildScores(Children(n), depth - 1, 1, Count(n.board.state, EMPTY));
    MinimaxOpen(n, depth, 0);
    OpenNodeHasChildren(n);
    MinFromIsMin(ss, 0, PosInf);
    var r := Minimax(n, depth, 0);
    assert r == MinFrom(ss, 0, PosInf) && r != PosInf;
  }

  /** Below the root the flags are True and False, so from the second level
      down positions are judged from P1's view or from False's: a maximising
      search one level deep scores each child as seen from False, where any
      win is a loss. */
  lemma OneLevelSeenFromFalse(n: Node, maximizing: int)
    requires !IsTerminal(n) && maximizing != 0
    ensures var ss := ChildScores(Children(n), 0, 0, Count(n.board.state, EMPTY));
      && (forall j | 0 <= j < |ss| :: ss[j] == Fin(Evaluate(Children(n)[j].board.state, EMPTY)))
      && (exists j | 0 <= j < |ss| :: ss[j] == Minimax(n, 1, maximizing))
  {
    var cs := Children(n);
    var ss := ChildScores(cs, 0, 0, Count(n.board.state, EMPTY));
    forall j | 0 <= j < |ss| ensures ss[j] == Fin(Evaluate(cs[j].board.state, EMPTY)) {
      assert ss[j] == Minimax(cs[j], 0, 0);
    }
    MinimaxMaximizes(n, 1, maximizing);
  }

  // ------------------------------------------------------------ the player

  /** The AI player: its player number and its search depth. */
  datatype AIPlayer = AIPlayer(playerNum: int, maxDepth: int)

  /** The score `get_move` gives column `col`: minimax on the board after the
      move, searched to the full depth with the player number as the flag. */
  function MoveScore(ai: AIPlayer, b: Boards.Board, col: int): (s: int)
    requires Boards.IsLegalMove(b.state, col)
    ensures -WIN <= s <= WIN
  {
    Minimax(Node(Play(b, col)), ai.maxDepth, ai.playerNum).v
  }

  /** The scan of `get_move` over the scores in move order: the running
      best starts at START_SCORE and is replaced only by a strictly higher
      score, so the first of the highest scores is kept, and nothing is
      kept when no score beats START_SCORE. */
  method PickFirstBest(scores: seq<int>) returns (best: Option<nat>)
    ensures best.None? <==> forall j | 0 <= j < |scores| :: scores[j] <= START_SCORE
    ensures best.Some? ==> best.value < |scores| && START_SCORE < scores[best.value]
    ensures best.Some? ==> forall j | 0 <= j < |scores| :: scores[j] <= scores[best.value]
    ensures best.Some? ==> forall j | 0 <= j < best.value :: scores[j] < scores[best.value]
  {
    var bestVal := START_SCORE;
    best := None;
    var i := 0;
    while i < |scores|
      invariant 0 <= i <= |scores|
      invariant best.None? ==> bestVal == START_SCORE
      invariant best.Some? ==> best.value < i && bestVal == scores[best.value] && START_SCORE < bestVal
      invariant forall j | 0 <= j < i :: scores[j] <= bestVal
      invariant best.Some? ==> forall j | 0 <= j < best.value :: scores[j] < bestVal
    {
      if scores[i] > bestVal {
        bestVal := scores[i];
        best := Some(i);
      }
      i := i + 1;
    }
  }

  /** In a strictly ascending sequence a smaller entry sits earlier. */
  lemma AscendingIndexOrder(s: seq<int>, i: int, j: int)
    requires forall a, b | 0 <= a < b < |s| :: s[a] < s[b]
    requires 0 <= i < |s| && 0 <= j < |s| && s[i] < s[j]
    ensures i < j
  {
  }

  /** The scores of the legal columns, in move-list order. */
  function MoveScores(ai: AIPlayer, b: Boards.Board): (scores: seq<int>)
    ensures |scores| == |Boards.GetMoveList(b.state)|
    ensures forall j | 0 <= j < |scores| ::
      Boards.IsLegalMove(b.state, Boards.GetMoveList(b.state)[j])
      && scores[j] == MoveScore(ai, b, Boards.GetMoveList(b.state)[j])
    ensures forall j | 0 <= j < |scores| :: -WIN <= scores[j] <= WIN
  {
    var moves := Boards.GetMoveList(b.state);
    MovesAreLegal(b.state);
    seq(|moves|, j requires 0 <= j < |moves| => MoveScore(ai, b, moves[j]))
  }

  /** `get_move`: scores every legal column in ascending order and keeps the
      first one with the highest score; None when no column is legal. */
  method GetMove(ai: AIPlayer, b: Boards.Board) returns (best: Option<int>)
    ensures best.None? <==> Boards.GetMoveList(b.state) == []
    ensures best.Some? ==> Boards.IsLegalMove(b.state, best.value)
    ensures best.Some? ==> forall col | Boards.IsLegalMove(b.state, col) ::
      MoveScore(ai, b, col) <= MoveScore(ai, b, best.value)
    ensures best.Some? ==> forall col | Boards.IsLegalMove(b.state, col) && col < best.value ::
      MoveScore(ai, b, col) < MoveScore(ai, b, best.value)
  {
    var moves := Boards.GetMoveList(b.state);
    var scores := MoveScores(ai, b);
    var k := PickFirstBest(scores);
    if |scores| > 0 {
      assert START_SCORE < scores[0];
    }
    if k.None? {
      return None;
    }
    var top := k.value;
    best := Some(moves[top]);
    FirstBestAmongLegal(ai, b, top);
  }

  /** The first best score of the move list, read back through the legal
      columns: no legal column scores higher, and every legal column to its
      left scores strictly lower. */
  lemma FirstBestAmongLegal(ai: AIPlayer, b: Boards.Board, top: nat)
    requires top < |MoveScores(ai, b)|
    requires forall j | 0 <= j < |MoveScores(ai, b)| :: MoveScores(ai, b)[j] <= MoveScores(ai, b)[top]
    requires forall j | 0 <= j < top :: MoveScores(ai, b)[j] < MoveScores(ai, b)[top]
    ensures forall col | Boards.IsLegalMove(b.state, col) ::
      MoveScore(ai, b, col) <= MoveScore(ai, b, Boards.GetMoveList(b.state)[top])
    ensures forall col | Boards.IsLegalMove(b.state, col) && col < Boards.GetMoveList(b.state)[top] ::
      MoveScore(ai, b, col) < MoveScore(ai, b, Boards.GetMoveList(b.state)[top])
  {
    var moves := Boards.GetMoveList(b.state);
    var scores := MoveScores(ai, b);
    FirstBestInMoveOrder(moves, scores, top);
    forall col | Boards.IsLegalMove(b.state, col)
      ensures MoveScore(ai, b, col) <= MoveScore(ai, b, moves[top])
      ensures col < moves[top] ==> MoveScore(ai, b, col) < MoveScore(ai, b, moves[top])
    {
      var j :| 0 <= j < |moves| && moves[j] == col;
      assert scores[j] == MoveScore(ai, b, col);
    }
  }

  /** The first best score, read back through an ascending move list: no
      move scores higher, and every smaller move scores strictly lower. */
  lemma FirstBestInMoveOrder(moves: seq<int>, scores: seq<int>, top: nat)
    requires forall a, b | 0 <= a < b < |moves| :: moves[a] < moves[b]
    requires |scores| == |moves| && top < |scores|
    requires forall j | 0 <= j < |scores| :: scores[j] <= scores[top]
    requires forall j | 0 <= j < top :: scores[j] < scores[top]
    ensures forall j | 0 <= j < |moves| :: scores[j] <= scores[top]
    ensures forall j | 0 <= j < |moves| && moves[j] < moves[top] :: scores[j] < scores[top]
  {
    forall j | 0 <= j < |moves| && moves[j] < moves[top] ensures scores[j] < scores[top] {
      AscendingIndexOrder(moves, j, top);
    }
  }
}
