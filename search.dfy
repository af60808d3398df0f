/**
 * MinimaxCalc and MinimaxCalcAB of MinimaxManager.cs. `Minimax` is the
 * reference: the value of a board searched `depth` plies deep, and the child
 * the plain search picks. `AlphaBeta` is what the pruning search computes,
 * its loop state kept step by step as the code keeps it.
 */
module Search {
  import opened Scores
  import opened Boards
  import opened Successors

  /** A search result: the score, and the board the `out idealBoard` parameter receives. */
  datatype Outcome = Outcome(value: Score, ideal: BoardValue)

  /** The root is terminal: no depth left, a forced outcome, or no successor. */
  predicate Terminal(g: Game, b: BoardValue, depth: int)
    requires g.Valid() && Fits(b)
  {
    depth <= 0 || g.heuristic(b).Infinite() || PotentialMoveList(g, b) == []
  }

  /** The minimax values of `kids`, each searched `depth` plies deep. */
  function ChildValues(g: Game, kids: seq<BoardValue>, depth: int, maximizingPlayer: int): (vals: seq<Score>)
    requires g.Valid() && AllFit(kids)
    ensures |vals| == |kids|
    decreases depth, 2, |kids|
  {
    if kids == [] then []
    else
      ChildValues(g, kids[..|kids| - 1], depth, maximizingPlayer) +
      [Minimax(g, kids[|kids| - 1], depth, maximizingPlayer).value]
  }

  /** Entry `k` of `ChildValues` is the value of child `k`. */
  lemma {:induction false} ChildValueAt(g: Game, kids: seq<BoardValue>, depth: int, maximizingPlayer: int, k: nat)
    requires g.Valid() && AllFit(kids) && k < |kids|
    ensures ChildValues(g, kids, depth, maximizingPlayer)[k] == Minimax(g, kids[k], depth, maximizingPlayer).value
    decreases |kids|
  {
    if k < |kids| - 1 {
      var init := kids[..|kids| - 1];
      ChildValueAt(g, init, depth, maximizingPlayer, k);
      assert init[k] == kids[k];
    }
  }

  /**
   * Depth-limited minimax. A terminal board scores its heuristic and is its
   * own ideal board; otherwise the value is the largest (maximizing player to
   * move) or smallest child value, and the ideal board is the first child
   * that has it.
   */
  function Minimax(g: Game, b: BoardValue, depth: int, maximizingPlayer: int): (r: Outcome)
    requires g.Valid() && Fits(b)
    decreases depth, 1, 0
  {
    var h := g.heuristic(b);
    if depth <= 0 || h.Infinite() then Outcome(h, b)
    else
      var kids := PotentialMoveList(g, b);
      if kids == [] then Outcome(h, b)
      else
        var vals := ChildValues(g, kids, depth - 1, maximizingPlayer);
        var v := if b.playerPly == maximizingPlayer then MaxOf(vals) else MinOf(vals);
        Outcome(v, kids[FirstIndex(vals, v)])
  }

  /**
   * MinimaxCalc reads `potentialBoards[0]` without checking for an empty
   * list: it runs to completion only if every board it expands (depth left,
   * no forced outcome) has a successor.
   */
  predicate Expandable(g: Game, b: BoardValue, depth: int)
    requires g.Valid() && Fits(b)
    decreases depth
  {
    depth <= 0 || g.heuristic(b).Infinite() ||
    var kids := PotentialMoveList(g, b);
    |kids| > 0 && forall j :: 0 <= j < |kids| ==> Expandable(g, kids[j], depth - 1)
  }

  /**
   * A terminal board is scored by its heuristic and is its own ideal board,
   * in both searches and whatever the window.
   */
  lemma TerminalOutcome(g: Game, b: BoardValue, depth: int, maximizingPlayer: int, alpha: Score, beta: Score)
    requires g.Valid() && Fits(b) && Terminal(g, b, depth)
    ensures Minimax(g, b, depth, maximizingPlayer) == Outcome(g.heuristic(b), b)
    ensures AlphaBeta(g, b, depth, maximizingPlayer, alpha, beta) == Outcome(g.heuristic(b), b)
  {
  }

  /** Every entry of `ChildValues` is the value of the child at the same index. */
  lemma ChildValuesAll(g: Game, kids: seq<BoardValue>, depth: int, maximizingPlayer: int)
    requires g.Valid() && AllFit(kids)
    ensures forall j :: 0 <= j < |kids| ==>
      ChildValues(g, kids, depth, maximizingPlayer)[j] == Minimax(g, kids[j], depth, maximizingPlayer).value
  {
    forall j | 0 <= j < |kids|
      ensures ChildValues(g, kids, depth, maximizingPlayer)[j] == Minimax(g, kids[j], depth, maximizingPlayer).value
    {
      ChildValueAt(g, kids, depth, maximizingPlayer, j);
    }
  }

  /**
   * Otherwise the value is at least (maximizing player to move) or at most
   * the minimax value of every successor.
   */
  lemma MinimaxIsBestChild(g: Game, b: BoardValue, depth: int, maximizingPlayer: int)
    requires g.Valid() && Fits(b) && !Terminal(g, b, depth)
    ensures var kids := PotentialMoveList(g, b);
            var v := Minimax(g, b, depth, maximizingPlayer).value;
            forall j :: 0 <= j < |kids| ==>
              if b.playerPly == maximizingPlayer
              then Le(Minimax(g, kids[j], depth - 1, maximizingPlayer).value, v)
              else Le(v, Minimax(g, kids[j], depth - 1, maximizingPlayer).value)
  {
    var kids := PotentialMoveList(g, b);
    var vals := ChildValues(g, kids, depth - 1, maximizingPlayer);
    var v := if b.playerPly == maximizingPlayer then MaxOf(vals) else MinOf(vals);
    assert Minimax(g, b, depth, maximizingPlayer).value == v;
    ChildValuesAll(g, kids, depth - 1, maximizingPlayer);
  }

  /**
   * The ideal board is the first successor whose minimax value is the
   * board's value; so when no successor improves on the starting -inf or
   * +inf, the first successor is kept.
   */
  lemma IdealIsFirstBest(g: Game, b: BoardValue, depth: int, maximizingPlayer: int)
    requires g.Valid() && Fits(b) && !Terminal(g, b, depth)
    ensures var kids := PotentialMoveList(g, b);
            var vals := ChildValues(g, kids, depth - 1, maximizingPlayer);
            var r := Minimax(g, b, depth, maximizingPlayer);
            exists k :: 0 <= k < |kids| && kids[k] == r.ideal && vals[k] == r.value &&
              forall j :: 0 <= j < k ==> vals[j] != r.value
  {
    var kids := PotentialMoveList(g, b);
    var vals := ChildValues(g, kids, depth - 1, maximizingPlayer);
    var v := if b.playerPly == maximizingPlayer then MaxOf(vals) else MinOf(vals);
    var k := FirstIndex(vals, v);
    assert Minimax(g, b, depth, maximizingPlayer) == Outcome(v, kids[k]);
  }

  /** MinimaxCalc: the plain search. The terminal cases, then the loop over the children. */
  method MinimaxCalc(g: Game, board: BoardValue, depth: int, maximizingPlayer: int)
    returns (value: Score, idealBoard: BoardValue)
    requires g.Valid() && Fits(board) && Expandable(g, board, depth)
    ensures value == Minimax(g, board, depth, maximizingPlayer).value
    ensures idealBoard == Minimax(g, board, depth, maximizingPlayer).ideal
    decreases depth, 2
  {
    idealBoard := board;
    if depth <= 0 {
      return g.heuristic(board), idealBoard;
    }
    var h := g.heuristic(board);
    if h.Infinite() {
      return h, idealBoard;
    }

    var potentialBoards := GetPotentialMoveList(g, board);
    value, idealBoard := SearchChildren(g, board, potentialBoards, depth, maximizingPlayer);
  }

  /**
   * The loop of MinimaxCalc over the successor list: the ideal board starts
   * as the first child and the value as the worst score for the player to
   * move; a child replaces them only when its value is strictly better.
   */
  method SearchChildren(g: Game, board: BoardValue, potentialBoards: seq<BoardValue>, depth: int,
                        maximizingPlayer: int)
    returns (value: Score, idealBoard: BoardValue)
    requires g.Valid() && AllFit(potentialBoards) && |potentialBoards| > 0 && depth > 0
    requires forall j :: 0 <= j < |potentialBoards| ==> Expandable(g, potentialBoards[j], depth - 1)
    ensures var vals := ChildValues(g, potentialBoards, depth - 1, maximizingPlayer);
      && value == (if board.playerPly == maximizingPlayer then MaxOf(vals) else MinOf(vals))
      && idealBoard == potentialBoards[FirstIndex(vals, value)]
    decreases depth, 1
  {
    idealBoard := potentialBoards[0];

    if board.playerPly == maximizingPlayer {
      value := NegInf;
    } else {
      value := PosInf;
    }

    ghost var maximizing := board.playerPly == maximizingPlayer;
    ghost var vals := ChildValues(g, potentialBoards, depth - 1, maximizingPlayer);
    ghost var idx: nat := 0;
    for k := 0 to |potentialBoards|
      invariant idx < |potentialBoards| && idealBoard == potentialBoards[idx]
      invariant k == 0 ==> idx == 0 && value == (if maximizing then NegInf else PosInf)
      invariant k > 0 ==> idx < k && vals[idx] == value
      invariant forall j :: 0 <= j < idx ==> vals[j] != value
      invariant forall j :: 0 <= j < k ==> !Better(maximizing, vals[j], value)
    {
      ghost var previous := value;
      var improved;
      value, idealBoard, improved := ConsiderChild(g, board, potentialBoards, k, depth, maximizingPlayer, value, idealBoard);
      if improved {
        forall j | 0 <= j < k
          ensures !Better(maximizing, vals[j], value)
        {
          BetterTrans(maximizing, vals[j], previous, value);
        }
        idx := k;
      }
    }
    FirstIndexUnique(vals, value, idx);
  }

  /** The maximizer prefers a strictly larger score, the minimizer a strictly smaller one. */
  predicate Better(maximizing: bool, t: Score, v: Score) {
    if maximizing then Lt(v, t) else Lt(t, v)
  }

  /** A score no better than `v` is no better than a score that beats `v`. */
  lemma BetterTrans(maximizing: bool, x: Score, v: Score, t: Score)
    requires !Better(maximizing, x, v) && Better(maximizing, t, v)
    ensures !Better(maximizing, x, t)
  {
  }

  /** One turn of MinimaxCalc's loop: search child `k` and keep it if its value is strictly better. */
  method ConsiderChild(g: Game, board: BoardValue, potentialBoards: seq<BoardValue>, k: nat, depth: int,
                       maximizingPlayer: int, value: Score, idealBoard: BoardValue)
    returns (value': Score, idealBoard': BoardValue, improved: bool)
    requires g.Valid() && AllFit(potentialBoards) && k < |potentialBoards| && depth > 0
    requires Expandable(g, potentialBoards[k], depth - 1)
    ensures var t := ChildValues(g, potentialBoards, depth - 1, maximizingPlayer)[k];
      && improved == Better(board.playerPly == maximizingPlayer, t, value)
      && (improved ==> value' == t && idealBoard' == potentialBoards[k])
      && (!improved ==> value' == value && idealBoard' == idealBoard)
    decreases depth, 0
  {
    var pgs := potentialBoards[k];
    // Both branches of the code start with this same recursive call.
    var tempVal, _ := MinimaxCalc(g, pgs, depth - 1, maximizingPlayer);
    ChildValueAt(g, potentialBoards, depth - 1, maximizingPlayer, k);
    value', idealBoard', improved := value, idealBoard, false;
    if board.playerPly == maximizingPlayer {
      if Lt(value, tempVal) {
        value' := tempVal;
        idealBoard' := pgs;
        improved := true;
      }
    } else {
      if Lt(tempVal, value) {
        value' := tempVal;
        idealBoard' := pgs;
        improved := true;
      }
    }
  }

  /** The locals of MinimaxCalcAB's loop: value, index of the ideal board, alpha, beta, and whether it broke off. */
  datatype Scan = Scan(value: Score, idx: nat, alpha: Score, beta: Score, cut: bool)

  /**
   * One iteration of MinimaxCalcAB's loop on child `i`, whose search returned
   * `t`. The maximizer raises alpha and breaks when `value >= beta`; the
   * minimizer breaks when `value <= alpha`, and on the way RAISES beta to the
   * new value if it exceeds beta (`if (value > beta) beta = value`).
   */
  function Step(s: Scan, t: Score, i: nat, maximizing: bool): Scan {
    if maximizing then
      if Lt(s.value, t) then
        var alpha := if Lt(s.alpha, t) then t else s.alpha;
        Scan(t, i, alpha, s.beta, Le(s.beta, t))
      else s
    else
      if Lt(t, s.value) then
        var beta := if Lt(s.beta, t) then t else s.beta;
        Scan(t, i, s.alpha, beta, Le(t, s.alpha))
      else s
  }

  /** The loop state of MinimaxCalcAB after the first `k` children, each searched `depth` plies deep. */
  function ABScan(g: Game, kids: seq<BoardValue>, k: nat, depth: int, maximizingPlayer: int,
                  maximizing: bool, alpha: Score, beta: Score): (s: Scan)
    requires g.Valid() && AllFit(kids) && 0 < |kids| && k <= |kids|
    ensures s.idx < |kids| && (k > 0 ==> s.idx < k)
    decreases depth, 2, k
  {
    if k == 0 then Scan(if maximizing then NegInf else PosInf, 0, alpha, beta, false)
    else
      var s := ABScan(g, kids, k - 1, depth, maximizingPlayer, maximizing, alpha, beta);
      if s.cut then s
      else
        var t := AlphaBeta(g, kids[k - 1], depth, maximizingPlayer, s.alpha, s.beta).value;
        Step(s, t, k - 1, maximizing)
  }

  /** What MinimaxCalcAB returns: the terminal cases in the code's order, then the loop over the children. */
  function AlphaBeta(g: Game, b: BoardValue, depth: int, maximizingPlayer: int, alpha: Score, beta: Score): (r: Outcome)
    requires g.Valid() && Fits(b)
    decreases depth, 1, 0
  {
    var h := g.heuristic(b);
    if depth <= 0 || h.Infinite() then Outcome(h, b)
    else
      var kids := PotentialMoveList(g, b);
      if kids == [] then Outcome(h, b)
      else
        var s := ABScan(g, kids, |kids|, depth - 1, maximizingPlayer, b.playerPly == maximizingPlayer, alpha, beta);
        Outcome(s.value, kids[s.idx])
  }

  /** Before a cutoff, child `k` moves the loop state by one `Step`. */
  lemma ABScanStep(g: Game, kids: seq<BoardValue>, k: nat, depth: int, maximizingPlayer: int,
                   maximizing: bool, alpha: Score, beta: Score)
    requires g.Valid() && AllFit(kids) && k < |kids|
    requires !ABScan(g, kids, k, depth, maximizingPlayer, maximizing, alpha, beta).cut
    ensures var s := ABScan(g, kids, k, depth, maximizingPlayer, maximizing, alpha, beta);
      ABScan(g, kids, k + 1, depth, maximizingPlayer, maximizing, alpha, beta) ==
      Step(s, AlphaBeta(g, kids[k], depth, maximizingPlayer, s.alpha, s.beta).value, k, maximizing)
  {
  }

  /** Once the loop has broken off, later children change nothing. */
  lemma {:induction false} CutPersists(g: Game, kids: seq<BoardValue>, k: nat, n: nat, depth: int,
                                       maximizingPlayer: int, maximizing: bool, alpha: Score, beta: Score)
    requires g.Valid() && AllFit(kids) && 0 < |kids| && k <= n <= |kids|
    requires ABScan(g, kids, k, depth, maximizingPlayer, maximizing, alpha, beta).cut
    ensures ABScan(g, kids, n, depth, maximizingPlayer, maximizing, alpha, beta) ==
            ABScan(g, kids, k, depth, maximizingPlayer, maximizing, alpha, beta)
    decreases n
  {
    if n > k {
      CutPersists(g, kids, k, n - 1, depth, maximizingPlayer, maximizing, alpha, beta);
    }
  }

  /** MinimaxCalcAB: the pruning search. The terminal cases, then the loop over the children. */
  method MinimaxCalcAB(g: Game, board: BoardValue, depth: int, maximizingPlayer: int, alpha: Score, beta: Score)
    returns (value: Score, idealBoard: BoardValue)
    requires g.Valid() && Fits(board)
    ensures value == AlphaBeta(g, board, depth, maximizingPlayer, alpha, beta).value
    ensures idealBoard == AlphaBeta(g, board, depth, maximizingPlayer, alpha, beta).ideal
    decreases depth, 2
  {
    idealBoard := board;
    if depth <= 0 {
      return g.heuristic(board), idealBoard;
    }
    var h := g.heuristic(board);
    if h.Infinite() {
      return h, idealBoard;
    }

    var potentialBoards := GetPotentialMoveList(g, board);
    if |potentialBoards| == 0 {
      return h, idealBoard;
    }

    value, idealBoard := ScanChildrenAB(g, board, potentialBoards, depth, maximizingPlayer, alpha, beta);
  }

  /**
   * The loop of MinimaxCalcAB over the successor list. `alpha` and `beta`
   * are the method's parameters in the code, updated in place and passed on
   * to every later child; the loop ends early at a cutoff.
   */
  method ScanChildrenAB(g: Game, board: BoardValue, potentialBoards: seq<BoardValue>, depth: int,
                        maximizingPlayer: int, alpha: Score, beta: Score)
    returns (value: Score, idealBoard: BoardValue)
    requires g.Valid() && AllFit(potentialBoards) && |potentialBoards| > 0 && depth > 0
    ensures var s := ABScan(g, potentialBoards, |potentialBoards|, depth - 1, maximizingPlayer,
                            board.playerPly == maximizingPlayer, alpha, beta);
      value == s.value && idealBoard == potentialBoards[s.idx]
    decreases depth, 1
  {
    idealBoard := potentialBoards[0];

    if board.playerPly == maximizingPlayer {
      value := NegInf;
    } else {
      value := PosInf;
    }

    ghost var maximizing := board.playerPly == maximizingPlayer;
    ghost var idx: nat := 0;
    var a, b := alpha, beta;
    var k := 0;
    while k < |potentialBoards|
      invariant 0 <= k <= |potentialBoards|
      invariant ABScan(g, potentialBoards, k, depth - 1, maximizingPlayer, maximizing, alpha, beta) ==
                Scan(value, idx, a, b, false)
      invariant idx < |potentialBoards| && idealBoard == potentialBoards[idx]
    {
      ABScanStep(g, potentialBoards, k, depth - 1, maximizingPlayer, maximizing, alpha, beta);
      ghost var next := ABScan(g, potentialBoards, k + 1, depth - 1, maximizingPlayer, maximizing, alpha, beta);
      var cut;
      value, idealBoard, a, b, cut := ConsiderChildAB(g, board, potentialBoards, k, depth, maximizingPlayer,
                                                      value, idealBoard, a, b, idx);
      idx := next.idx;
      assert next == Scan(value, idx, a, b, cut);
      if cut {
        CutPersists(g, potentialBoards, k + 1, |potentialBoards|, depth - 1, maximizingPlayer, maximizing, alpha, beta);
        break;
      }
      k := k + 1;
    }
  }

  /**
   * One turn of MinimaxCalcAB's loop: search child `k` with the current
   * window; on a strictly better value keep it, move alpha (maximizer) or
   * beta (minimizer), and report whether the loop breaks off.
   */
  method ConsiderChildAB(g: Game, board: BoardValue, potentialBoards: seq<BoardValue>, k: nat, depth: int,
                         maximizingPlayer: int, value: Score, idealBoard: BoardValue, alpha: Score, beta: Score,
                         ghost idx: nat)
    returns (value': Score, idealBoard': BoardValue, alpha': Score, beta': Score, cut: bool)
    requires g.Valid() && AllFit(potentialBoards) && k < |potentialBoards| && depth > 0
    requires idx < |potentialBoards| && idealBoard == potentialBoards[idx]
    ensures var s := Step(Scan(value, idx, alpha, beta, false),
                          AlphaBeta(g, potentialBoards[k], depth - 1, maximizingPlayer, alpha, beta).value, k,
                          board.playerPly == maximizingPlayer);
      && value' == s.value && idealBoard' == potentialBoards[s.idx]
      && alpha' == s.alpha && beta' == s.beta && cut == s.cut
    decreases depth, 0
  {
    var pgs := potentialBoards[k];
    // Both branches of the code start with this same recursive call.
    var tempVal, _ := MinimaxCalcAB(g, pgs, depth - 1, maximizingPlayer, alpha, beta);
    value', idealBoard', alpha', beta', cut := value, idealBoard, alpha, beta, false;
    if board.playerPly == maximizingPlayer {
      if Lt(value', tempVal) {
        value' := tempVal;
        idealBoard' := pgs;
        if Lt(alpha', value') {
          alpha' := value';
        }
        if Le(beta', value') {
          cut := true;
        }
      }
    } else {
      if Lt(tempVal, value') {
        value' := tempVal;
        idealBoard' := pgs;
        if Lt(beta', value') {
          beta' := value';
        }
        if Le(value', alpha') {
          cut := true;
        }
      }
    }
  }
}
